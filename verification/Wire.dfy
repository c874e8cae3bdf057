/** The wire format of sections 4.1.1 to 4.1.3 of RFC 1035, without compression, as `codec.c` prints
    and parses it, and the theorems that tie the two directions together.

    Parsing reads a buffer extended by zeros and counts the bytes it demands; a position past the
    end of the buffer is what the source represents by a negative remaining size. */
module Wire {
  import opened Bytes
  import opened Messages

  // ---- Printing ----

  function EncodeU16(v: uint16): (s: seq<uint8>)
    ensures |s| == 2
  {
    [(v / 0x100) as uint8, (v % 0x100) as uint8]
  }

  function EncodeU32(v: uint32): (s: seq<uint8>)
    ensures |s| == 4
  {
    EncodeU16(v / 0x1_0000) + EncodeU16(v % 0x1_0000)
  }

  function EncodeLabels(ls: seq<Label>): (s: seq<uint8>)
    ensures |s| > |ls|
  {
    if ls == [] then [0] else [|ls[0]| as uint8] + (ls[0] + EncodeLabels(ls[1..]))
  }

  function EncodeQuestion(q: Question): seq<uint8> {
    EncodeLabels(q.labels) + (EncodeU16(q.qtype) + EncodeU16(q.qclass))
  }

  /** The fields behind the labels of a resource record. */
  function EncodeRRRest(rr: RR): (s: seq<uint8>)
    ensures |s| == 10 + |rr.data|
  {
    EncodeU16(rr.rtype) + (EncodeU16(rr.rclass) + (EncodeU32(rr.ttl) + (EncodeU16(rr.dataSize) + rr.data)))
  }

  function EncodeRR(rr: RR): seq<uint8> {
    EncodeLabels(rr.labels) + EncodeRRRest(rr)
  }

  function EncodeQuestions(qs: seq<Question>): seq<uint8> {
    if qs == [] then [] else EncodeQuestions(qs[..|qs| - 1]) + EncodeQuestion(qs[|qs| - 1])
  }

  function EncodeRRs(rrs: seq<RR>): seq<uint8> {
    if rrs == [] then [] else EncodeRRs(rrs[..|rrs| - 1]) + EncodeRR(rrs[|rrs| - 1])
  }

  function EncodeHeader(h: Header): (s: seq<uint8>)
    ensures |s| == 12
  {
    EncodeU16(h.id) + (EncodeU16(h.flags) + (EncodeU16(h.queryCount) +
    (EncodeU16(h.answerCount) + (EncodeU16(h.authorityCount) + EncodeU16(h.additionalCount)))))
  }

  function Encode(m: Message): seq<uint8> {
    EncodeHeader(m.header) + (EncodeQuestions(m.questions) + (EncodeRRs(m.answers) +
    (EncodeRRs(m.authorities) + EncodeRRs(m.additionals))))
  }

  // ---- Parsing ----

  function At(b: seq<uint8>, i: nat): uint8 {
    if i < |b| then b[i] else 0
  }

  function U16At(b: seq<uint8>, d: nat): uint16 {
    At(b, d) as int * 0x100 + At(b, d + 1) as int
  }

  function U32At(b: seq<uint8>, d: nat): uint32 {
    U16At(b, d) * 0x1_0000 + U16At(b, d + 2)
  }

  function Slice(b: seq<uint8>, d: nat, n: nat): (s: seq<uint8>)
    ensures |s| == n
    ensures forall i :: 0 <= i < n ==> s[i] == At(b, d + i)
  {
    seq(n, i requires 0 <= i => At(b, d + i))
  }

  /** All labels in front of the next null byte, and the position behind it. */
  function ParseLabels(b: seq<uint8>, d: nat): (r: (seq<Label>, nat))
    ensures r.1 > d
    decreases if d < |b| then |b| - d else 0
  {
    var n := At(b, d) as int;
    if n == 0 then ([], d + 1)
    else
      var (ls, e) := ParseLabels(b, d + 1 + n);
      ([Slice(b, d + 1, n)] + ls, e)
  }

  function ParseQuestion(b: seq<uint8>, d: nat): (Question, nat) {
    var (ls, e) := ParseLabels(b, d);
    (Question(ls, U16At(b, e), U16At(b, e + 2)), e + 4)
  }

  function ParseRR(b: seq<uint8>, d: nat): (RR, nat) {
    var (ls, e) := ParseLabels(b, d);
    var n := U16At(b, e + 8);
    (RR(ls, U16At(b, e), U16At(b, e + 2), U32At(b, e + 4), n, Slice(b, e + 10, n)), e + 10 + n)
  }

  function ParseQuestions(b: seq<uint8>, d: nat, n: nat): (seq<Question>, nat) {
    if n == 0 then ([], d)
    else
      var (qs, e) := ParseQuestions(b, d, n - 1);
      var (q, e') := ParseQuestion(b, e);
      (qs + [q], e')
  }

  function ParseRRs(b: seq<uint8>, d: nat, n: nat): (seq<RR>, nat) {
    if n == 0 then ([], d)
    else
      var (rrs, e) := ParseRRs(b, d, n - 1);
      var (rr, e') := ParseRR(b, e);
      (rrs + [rr], e')
  }

  function ParseHeader(b: seq<uint8>, d: nat): Header {
    Header(U16At(b, d), U16At(b, d + 2), U16At(b, d + 4), U16At(b, d + 6), U16At(b, d + 8), U16At(b, d + 10))
  }

  /** The message with label lists of any length, and the number of bytes demanded. */
  function ParseAll(b: seq<uint8>): (Message, nat) {
    var h := ParseHeader(b, 0);
    var (qs, d1) := ParseQuestions(b, 12, h.queryCount);
    var (ans, d2) := ParseRRs(b, d1, h.answerCount);
    var (auths, d3) := ParseRRs(b, d2, h.authorityCount);
    var (adds, d4) := ParseRRs(b, d3, h.additionalCount);
    (Message(h, qs, ans, auths, adds), d4)
  }

  // ---- Encodings inside a buffer ----

  lemma HasU16(b: seq<uint8>, d: nat, v: uint16)
    ensures HasAt(b, d, EncodeU16(v)) <==> d + 2 <= |b| && U16At(b, d) == v
  {
    if d + 2 <= |b| {
      assert b[d..d + 2] == [b[d], b[d + 1]];
    }
  }

  lemma HasU32(b: seq<uint8>, d: nat, v: uint32)
    ensures HasAt(b, d, EncodeU32(v)) <==> d + 4 <= |b| && U32At(b, d) == v
  {
    hide HasAt, U16At;
    HasSplit(b, d, EncodeU16(v / 0x1_0000), EncodeU16(v % 0x1_0000));
    HasU16(b, d, v / 0x1_0000);
    HasU16(b, d + 2, v % 0x1_0000);
  }

  lemma HasSlice(b: seq<uint8>, d: nat, x: seq<uint8>)
    ensures HasAt(b, d, x) <==> d + |x| <= |b| && Slice(b, d, |x|) == x
  {
    if d + |x| <= |b| {
      assert Slice(b, d, |x|) == b[d..d + |x|];
    }
  }

  lemma HasByte(b: seq<uint8>, d: nat, v: uint8)
    ensures HasAt(b, d, [v]) <==> d < |b| && At(b, d) == v
  {
    if d < |b| {
      assert b[d..d + 1] == [b[d]];
    }
  }

  // ---- Labels ----

  lemma {:induction false} PrintParseLabels(b: seq<uint8>, d: nat, ls: seq<Label>)
    requires HasAt(b, d, EncodeLabels(ls)) && NoEmptyLabel(ls)
    ensures ParseLabels(b, d) == (ls, d + |EncodeLabels(ls)|)
    decreases ls
  {
    hide HasAt, At;
    if ls == [] {
      HasByte(b, d, 0);
    } else {
      var l, rest := ls[0], ls[1..];
      HasSplit(b, d, [|l| as uint8], l + EncodeLabels(rest));
      HasByte(b, d, |l| as uint8);
      HasSplit(b, d + 1, l, EncodeLabels(rest));
      HasSlice(b, d + 1, l);
      PrintParseLabels(b, d + 1 + |l|, rest);
      assert ls == [l] + rest;
    }
  }

  lemma {:induction false} ParsePrintLabels(b: seq<uint8>, d: nat)
    ensures var (ls, e) := ParseLabels(b, d);
            NoEmptyLabel(ls) && e == d + |EncodeLabels(ls)| && (e <= |b| ==> HasAt(b, d, EncodeLabels(ls)))
    decreases if d < |b| then |b| - d else 0
  {
    hide HasAt;
    var n := At(b, d) as int;
    if n == 0 {
      HasByte(b, d, 0);
    } else {
      var l := Slice(b, d + 1, n);
      var (rest, e) := ParseLabels(b, d + 1 + n);
      ParsePrintLabels(b, d + 1 + n);
      assert ([l] + rest)[1..] == rest;
      if e <= |b| {
        HasSlice(b, d + 1, l);
        HasSplit(b, d + 1, l, EncodeLabels(rest));
        HasByte(b, d, n as uint8);
        HasSplit(b, d, [n as uint8], l + EncodeLabels(rest));
      }
    }
  }

  // ---- Questions and resource records: both directions ----

  lemma PrintParseQuestion(b: seq<uint8>, d: nat, q: Question)
    requires HasAt(b, d, EncodeQuestion(q)) && NoEmptyLabel(q.labels)
    ensures ParseQuestion(b, d) == (q, d + |EncodeQuestion(q)|)
  {
    hide HasAt, U16At, EncodeLabels, ParseLabels;
    var n := |EncodeLabels(q.labels)|;
    HasSplit(b, d, EncodeLabels(q.labels), EncodeU16(q.qtype) + EncodeU16(q.qclass));
    PrintParseLabels(b, d, q.labels);
    HasSplit(b, d + n, EncodeU16(q.qtype), EncodeU16(q.qclass));
    HasU16(b, d + n, q.qtype);
    HasU16(b, d + n + 2, q.qclass);
  }

  lemma ParsePrintQuestion(b: seq<uint8>, d: nat)
    ensures var (q, e) := ParseQuestion(b, d);
            && NoEmptyLabel(q.labels) && e == d + |EncodeQuestion(q)|
            && (e <= |b| ==> HasAt(b, d, EncodeQuestion(q)))
  {
    hide HasAt, U16At, EncodeLabels, ParseLabels;
    var (q, e) := ParseQuestion(b, d);
    var n := |EncodeLabels(q.labels)|;
    ParsePrintLabels(b, d);
    if e <= |b| {
      HasU16(b, d + n, q.qtype);
      HasU16(b, d + n + 2, q.qclass);
      HasSplit(b, d + n, EncodeU16(q.qtype), EncodeU16(q.qclass));
      HasSplit(b, d, EncodeLabels(q.labels), EncodeU16(q.qtype) + EncodeU16(q.qclass));
    }
  }

  lemma HasRRRest(b: seq<uint8>, d: nat, rr: RR)
    ensures HasAt(b, d, EncodeRRRest(rr)) <==>
            && d + 10 + |rr.data| <= |b|
            && U16At(b, d) == rr.rtype && U16At(b, d + 2) == rr.rclass && U32At(b, d + 4) == rr.ttl
            && U16At(b, d + 8) == rr.dataSize && Slice(b, d + 10, |rr.data|) == rr.data
  {
    hide HasAt, U16At, U32At, Slice, At;
    var x3 := EncodeU16(rr.dataSize) + rr.data;
    var x2 := EncodeU32(rr.ttl) + x3;
    HasSplit(b, d, EncodeU16(rr.rtype), EncodeU16(rr.rclass) + x2);
    HasU16(b, d, rr.rtype);
    HasSplit(b, d + 2, EncodeU16(rr.rclass), x2);
    HasU16(b, d + 2, rr.rclass);
    HasSplit(b, d + 4, EncodeU32(rr.ttl), x3);
    HasU32(b, d + 4, rr.ttl);
    HasSplit(b, d + 8, EncodeU16(rr.dataSize), rr.data);
    HasU16(b, d + 8, rr.dataSize);
    HasSlice(b, d + 10, rr.data);
  }

  lemma PrintParseRR(b: seq<uint8>, d: nat, rr: RR)
    requires HasAt(b, d, EncodeRR(rr)) && NoEmptyLabel(rr.labels) && |rr.data| == rr.dataSize
    ensures ParseRR(b, d) == (rr, d + |EncodeRR(rr)|)
  {
    hide HasAt, U16At, U32At, EncodeRRRest, EncodeLabels, ParseLabels;
    HasSplit(b, d, EncodeLabels(rr.labels), EncodeRRRest(rr));
    PrintParseLabels(b, d, rr.labels);
    HasRRRest(b, d + |EncodeLabels(rr.labels)|, rr);
  }

  lemma ParsePrintRR(b: seq<uint8>, d: nat)
    ensures var (rr, e) := ParseRR(b, d);
            && NoEmptyLabel(rr.labels) && |rr.data| == rr.dataSize && e == d + |EncodeRR(rr)|
            && (e <= |b| ==> HasAt(b, d, EncodeRR(rr)))
  {
    hide HasAt, U16At, U32At, EncodeRRRest, EncodeLabels, ParseLabels;
    var (rr, e) := ParseRR(b, d);
    ParsePrintLabels(b, d);
    HasRRRest(b, d + |EncodeLabels(rr.labels)|, rr);
    HasSplit(b, d, EncodeLabels(rr.labels), EncodeRRRest(rr));
  }

  lemma {:induction false} PrintParseQuestions(b: seq<uint8>, d: nat, qs: seq<Question>)
    requires HasAt(b, d, EncodeQuestions(qs))
    requires forall i :: 0 <= i < |qs| ==> NoEmptyLabel(qs[i].labels)
    ensures ParseQuestions(b, d, |qs|) == (qs, d + |EncodeQuestions(qs)|)
  {
    hide HasAt, EncodeQuestion, ParseQuestion;
    if qs != [] {
      var n := |qs| - 1;
      HasSplit(b, d, EncodeQuestions(qs[..n]), EncodeQuestion(qs[n]));
      PrintParseQuestions(b, d, qs[..n]);
      PrintParseQuestion(b, d + |EncodeQuestions(qs[..n])|, qs[n]);
      assert qs == qs[..n] + [qs[n]];
    }
  }

  lemma {:induction false} ParsePrintQuestions(b: seq<uint8>, d: nat, n: nat)
    ensures var (qs, e) := ParseQuestions(b, d, n);
            && |qs| == n && e == d + |EncodeQuestions(qs)|
            && (forall i :: 0 <= i < |qs| ==> NoEmptyLabel(qs[i].labels))
            && (e <= |b| ==> HasAt(b, d, EncodeQuestions(qs)))
  {
    hide HasAt, EncodeQuestion, ParseQuestion;
    if n > 0 {
      var (qs, e) := ParseQuestions(b, d, n - 1);
      var (q, e') := ParseQuestion(b, e);
      ParsePrintQuestions(b, d, n - 1);
      ParsePrintQuestion(b, e);
      assert (qs + [q])[..n - 1] == qs;
      assert EncodeQuestions(qs + [q]) == EncodeQuestions(qs) + EncodeQuestion(q);
      HasSplit(b, d, EncodeQuestions(qs), EncodeQuestion(q));
    } else {
      HasNothing(b, d);
    }
  }

  lemma {:induction false} PrintParseRRs(b: seq<uint8>, d: nat, rrs: seq<RR>)
    requires HasAt(b, d, EncodeRRs(rrs)) && RRLabelsNonempty(rrs) && DataSized(rrs)
    ensures ParseRRs(b, d, |rrs|) == (rrs, d + |EncodeRRs(rrs)|)
  {
    hide HasAt, EncodeRR, ParseRR;
    if rrs != [] {
      var n := |rrs| - 1;
      HasSplit(b, d, EncodeRRs(rrs[..n]), EncodeRR(rrs[n]));
      PrintParseRRs(b, d, rrs[..n]);
      PrintParseRR(b, d + |EncodeRRs(rrs[..n])|, rrs[n]);
      assert rrs == rrs[..n] + [rrs[n]];
    }
  }

  lemma {:induction false} ParsePrintRRs(b: seq<uint8>, d: nat, n: nat)
    ensures var (rrs, e) := ParseRRs(b, d, n);
            && |rrs| == n && e == d + |EncodeRRs(rrs)|
            && RRLabelsNonempty(rrs) && DataSized(rrs)
            && (e <= |b| ==> HasAt(b, d, EncodeRRs(rrs)))
  {
    hide HasAt, EncodeRR, ParseRR;
    if n > 0 {
      var (rrs, e) := ParseRRs(b, d, n - 1);
      var (rr, e') := ParseRR(b, e);
      ParsePrintRRs(b, d, n - 1);
      ParsePrintRR(b, e);
      assert (rrs + [rr])[..n - 1] == rrs;
      assert EncodeRRs(rrs + [rr]) == EncodeRRs(rrs) + EncodeRR(rr);
      HasSplit(b, d, EncodeRRs(rrs), EncodeRR(rr));
    } else {
      HasNothing(b, d);
    }
  }

  lemma HasHeader(b: seq<uint8>, d: nat, h: Header)
    ensures HasAt(b, d, EncodeHeader(h)) <==> d + 12 <= |b| && ParseHeader(b, d) == h
  {
    hide HasAt, U16At;
    var x4 := EncodeU16(h.authorityCount) + EncodeU16(h.additionalCount);
    var x3 := EncodeU16(h.answerCount) + x4;
    var x2 := EncodeU16(h.queryCount) + x3;
    HasSplit(b, d, EncodeU16(h.id), EncodeU16(h.flags) + x2);
    HasU16(b, d, h.id);
    HasSplit(b, d + 2, EncodeU16(h.flags), x2);
    HasU16(b, d + 2, h.flags);
    HasSplit(b, d + 4, EncodeU16(h.queryCount), x3);
    HasU16(b, d + 4, h.queryCount);
    HasSplit(b, d + 6, EncodeU16(h.answerCount), x4);
    HasU16(b, d + 6, h.answerCount);
    HasSplit(b, d + 8, EncodeU16(h.authorityCount), EncodeU16(h.additionalCount));
    HasU16(b, d + 8, h.authorityCount);
    HasU16(b, d + 10, h.additionalCount);
  }

  /** A buffer holds the sections of m one after the other. */
  lemma HasSections(b: seq<uint8>, m: Message)
    ensures var d1 := 12 + |EncodeQuestions(m.questions)|;
            var d2 := d1 + |EncodeRRs(m.answers)|;
            var d3 := d2 + |EncodeRRs(m.authorities)|;
            HasAt(b, 0, Encode(m)) <==>
            && HasAt(b, 0, EncodeHeader(m.header)) && HasAt(b, 12, EncodeQuestions(m.questions))
            && HasAt(b, d1, EncodeRRs(m.answers)) && HasAt(b, d2, EncodeRRs(m.authorities))
            && HasAt(b, d3, EncodeRRs(m.additionals))
  {
    hide HasAt, EncodeHeader, EncodeQuestions, EncodeRRs;
    var d1 := 12 + |EncodeQuestions(m.questions)|;
    var d2 := d1 + |EncodeRRs(m.answers)|;
    var x3 := EncodeRRs(m.authorities) + EncodeRRs(m.additionals);
    var x2 := EncodeRRs(m.answers) + x3;
    HasSplit(b, 0, EncodeHeader(m.header), EncodeQuestions(m.questions) + x2);
    HasSplit(b, 12, EncodeQuestions(m.questions), x2);
    HasSplit(b, d1, EncodeRRs(m.answers), x3);
    HasSplit(b, d2, EncodeRRs(m.authorities), EncodeRRs(m.additionals));
  }

  // ---- Whole messages ----

  /** Wherever a buffer starts with the encoding of m, parsing finds m and stops behind it. */
  lemma ParseFindsPrinted(b: seq<uint8>, m: Message)
    requires CountsMatch(m) && DataSized(m.answers) && DataSized(m.authorities) && DataSized(m.additionals)
    requires LabelsNonempty(m) && HasAt(b, 0, Encode(m))
    ensures ParseAll(b) == (m, |Encode(m)|)
  {
    hide HasAt, ParseHeader, EncodeHeader, EncodeQuestions, EncodeRRs, ParseQuestions, ParseRRs;
    var d1 := 12 + |EncodeQuestions(m.questions)|;
    var d2 := d1 + |EncodeRRs(m.answers)|;
    var d3 := d2 + |EncodeRRs(m.authorities)|;
    HasSections(b, m);
    HasHeader(b, 0, m.header);
    PrintParseQuestions(b, 12, m.questions);
    PrintParseRRs(b, d1, m.answers);
    PrintParseRRs(b, d2, m.authorities);
    PrintParseRRs(b, d3, m.additionals);
  }

  /** The bytes demanded are the size of what was parsed, and when the buffer has them, they are
      its encoding. */
  lemma ParsedIsThere(b: seq<uint8>)
    ensures var (m, n) := ParseAll(b);
            && CountsMatch(m) && LabelsNonempty(m)
            && DataSized(m.answers) && DataSized(m.authorities) && DataSized(m.additionals)
            && n == |Encode(m)| && (n <= |b| ==> HasAt(b, 0, Encode(m)))
  {
    hide HasAt, ParseHeader, EncodeQuestions, EncodeRRs, ParseQuestions, ParseRRs;
    var (m, n) := ParseAll(b);
    var d1 := 12 + |EncodeQuestions(m.questions)|;
    var d2 := d1 + |EncodeRRs(m.answers)|;
    var d3 := d2 + |EncodeRRs(m.authorities)|;
    ParsePrintQuestions(b, 12, m.header.queryCount);
    ParsePrintRRs(b, d1, m.header.answerCount);
    ParsePrintRRs(b, d2, m.header.authorityCount);
    ParsePrintRRs(b, d3, m.header.additionalCount);
    HasHeader(b, 0, m.header);
    HasSections(b, m);
  }

  // ---- The uint16 in which label lists are counted ----

  function CutLabels(ls: seq<Label>): seq<Label> {
    ls[..|ls| % 0x1_0000]
  }

  function CutQuestion(q: Question): Question {
    q.(labels := CutLabels(q.labels))
  }

  function CutRR(rr: RR): RR {
    rr.(labels := CutLabels(rr.labels))
  }

  function CutQuestions(qs: seq<Question>): seq<Question> {
    seq(|qs|, i requires 0 <= i < |qs| => CutQuestion(qs[i]))
  }

  function CutRRs(rrs: seq<RR>): seq<RR> {
    seq(|rrs|, i requires 0 <= i < |rrs| => CutRR(rrs[i]))
  }

  function Cut(m: Message): Message {
    Message(m.header, CutQuestions(m.questions), CutRRs(m.answers), CutRRs(m.authorities), CutRRs(m.additionals))
  }

  /** `interpret_question`: the message and the number of bytes demanded. The buffer is accepted
      when it has that many. */
  function Parse(b: seq<uint8>): (Message, nat) {
    var (m, n) := ParseAll(b);
    (Cut(m), n)
  }

  predicate Accepts(b: seq<uint8>) {
    Parse(b).1 <= |b|
  }

  lemma CutNothing(m: Message)
    requires LabelCountsFit(m)
    ensures Cut(m) == m
  {
    CutNoQuestion(m.questions);
    CutNoRR(m.answers);
    CutNoRR(m.authorities);
    CutNoRR(m.additionals);
  }

  lemma CutNoQuestion(qs: seq<Question>)
    requires QuestionsFit(qs)
    ensures CutQuestions(qs) == qs
  {
    forall i | 0 <= i < |qs| ensures CutQuestions(qs)[i] == qs[i] {
      assert CutLabels(qs[i].labels) == qs[i].labels;
    }
  }

  lemma CutNoRR(rrs: seq<RR>)
    requires RRsFit(rrs)
    ensures CutRRs(rrs) == rrs
  {
    forall i | 0 <= i < |rrs| ensures CutRRs(rrs)[i] == rrs[i] {
      assert CutLabels(rrs[i].labels) == rrs[i].labels;
    }
  }

  lemma {:induction false} FewerLabels(ls: seq<Label>, k: nat)
    requires k < |ls|
    ensures |EncodeLabels(ls[..k])| < |EncodeLabels(ls)|
  {
    if k > 0 {
      assert ls[..k][1..] == ls[1..][..k - 1];
      FewerLabels(ls[1..], k - 1);
    }
  }

  lemma CutSize(ls: seq<Label>)
    ensures |EncodeLabels(CutLabels(ls))| <= |EncodeLabels(ls)|
    ensures |EncodeLabels(CutLabels(ls))| == |EncodeLabels(ls)| <==> CountFits(ls)
  {
    if CountFits(ls) {
      assert CutLabels(ls) == ls;
    } else {
      FewerLabels(ls, |ls| % 0x1_0000);
    }
  }

  lemma {:induction false} CutQuestionsSize(qs: seq<Question>)
    ensures |EncodeQuestions(CutQuestions(qs))| <= |EncodeQuestions(qs)|
    ensures |EncodeQuestions(CutQuestions(qs))| == |EncodeQuestions(qs)| <==> QuestionsFit(qs)
  {
    if qs != [] {
      var n := |qs| - 1;
      assert CutQuestions(qs)[..n] == CutQuestions(qs[..n]);
      CutQuestionsSize(qs[..n]);
      CutSize(qs[n].labels);
      assert QuestionsFit(qs) <==> QuestionsFit(qs[..n]) && CountFits(qs[n].labels);
    }
  }

  lemma {:induction false} CutRRsSize(rrs: seq<RR>)
    ensures |EncodeRRs(CutRRs(rrs))| <= |EncodeRRs(rrs)|
    ensures |EncodeRRs(CutRRs(rrs))| == |EncodeRRs(rrs)| <==> RRsFit(rrs)
  {
    if rrs != [] {
      var n := |rrs| - 1;
      assert CutRRs(rrs)[..n] == CutRRs(rrs[..n]);
      CutRRsSize(rrs[..n]);
      CutSize(rrs[n].labels);
      assert RRsFit(rrs) <==> RRsFit(rrs[..n]) && CountFits(rrs[n].labels);
    }
  }

  // ---- The round trips ----

  /** Print, then parse: exactly the messages without an empty label come back, from exactly the
      bytes that were printed. */
  lemma PrintThenParse(m: Message)
    requires Printable(m)
    ensures Parse(Encode(m)) == (m, |Encode(m)|) <==> LabelsNonempty(m)
  {
    var b := Encode(m);
    if LabelsNonempty(m) {
      assert b[0..|b|] == b;
      ParseFindsPrinted(b, m);
      CutNothing(m);
    }
    if Parse(b).0 == m {
      ParsedIsThere(b);
      CutLabelsNonempty(ParseAll(b).0);
    }
  }

  lemma CutLabelsNonempty(m: Message)
    requires LabelsNonempty(m)
    ensures LabelsNonempty(Cut(m))
  {
  }

  /** Parse, then print: for every accepted buffer whose label lists fit their uint16 counts, and
      for no other accepted buffer, printing the message gives back the bytes consumed. */
  lemma ParseThenPrint(b: seq<uint8>)
    requires Accepts(b)
    ensures var (m, n) := Parse(b);
            Encode(m) == b[..n] <==> LabelCountsFit(ParseAll(b).0)
  {
    hide HasAt, EncodeHeader, EncodeQuestions, EncodeRRs, CutQuestions, CutRRs;
    var (m, n) := ParseAll(b);
    ParsedIsThere(b);
    WhatIsThere(b, Encode(m));
    if LabelCountsFit(m) {
      CutNothing(m);
    } else {
      CutQuestionsSize(m.questions);
      CutRRsSize(m.answers);
      CutRRsSize(m.authorities);
      CutRRsSize(m.additionals);
      assert |Encode(Cut(m))| < |Encode(m)|;
    }
  }

  /** Encodings are prefix-free: a buffer that starts with the bytes consumed from an accepted one
      parses alike. */
  lemma PrefixFree(a: seq<uint8>, b: seq<uint8>)
    requires Accepts(a) && Parse(a).1 <= |b| && b[..Parse(a).1] == a[..Parse(a).1]
    ensures Parse(b) == Parse(a)
  {
    hide HasAt;
    var (m, n) := ParseAll(a);
    ParsedIsThere(a);
    WhatIsThere(a, Encode(m));
    WhatIsThere(b, Encode(m));
    ParseFindsPrinted(b, m);
  }

  /** Encodings are canonical: equal messages were printed in equal ways. */
  lemma Canonical(a: seq<uint8>, b: seq<uint8>)
    requires Accepts(a) && Accepts(b) && Parse(a).0 == Parse(b).0
    requires LabelCountsFit(ParseAll(a).0) && LabelCountsFit(ParseAll(b).0)
    ensures a[..Parse(a).1] == b[..Parse(b).1]
  {
    ParseThenPrint(a);
    ParseThenPrint(b);
  }

  /** Whatever the buffer, the message parsed from it can be printed, in at most the bytes demanded. */
  lemma ParsedPrintable(b: seq<uint8>)
    ensures Printable(Parse(b).0) && LabelsNonempty(Parse(b).0)
    ensures |Encode(Parse(b).0)| <= Parse(b).1
  {
    hide EncodeHeader, EncodeQuestions, EncodeRRs, ParseAll;
    var m := ParseAll(b).0;
    ParsedIsThere(b);
    CutLabelsNonempty(m);
    CutLabelCounts(m);
    CutQuestionsSize(m.questions);
    CutRRsSize(m.answers);
    CutRRsSize(m.authorities);
    CutRRsSize(m.additionals);
  }

  /** Printing what was parsed, from any buffer, and parsing it again changes nothing. */
  lemma Reprinted(b: seq<uint8>)
    ensures var m := Parse(b).0; Parse(Encode(m)) == (m, |Encode(m)|)
  {
    ParsedPrintable(b);
    PrintThenParse(Parse(b).0);
  }

  lemma CutLabelCounts(m: Message)
    ensures LabelCountsFit(Cut(m))
  {
  }

  // ---- When label lists fit ----

  lemma {:induction false} LabelsTakeTwoBytes(ls: seq<Label>)
    requires NoEmptyLabel(ls)
    ensures |EncodeLabels(ls)| > 2 * |ls|
  {
    if ls != [] {
      LabelsTakeTwoBytes(ls[1..]);
    }
  }

  lemma {:induction false} QuestionSize(qs: seq<Question>, i: nat)
    requires i < |qs|
    ensures |EncodeLabels(qs[i].labels)| <= |EncodeQuestions(qs)|
  {
    var n := |qs| - 1;
    if i < n {
      QuestionSize(qs[..n], i);
    }
  }

  lemma {:induction false} RRSize(rrs: seq<RR>, i: nat)
    requires i < |rrs|
    ensures |EncodeLabels(rrs[i].labels)| <= |EncodeRRs(rrs)|
  {
    var n := |rrs| - 1;
    if i < n {
      RRSize(rrs[..n], i);
    }
  }

  lemma RRsFitIn(rrs: seq<RR>)
    requires RRLabelsNonempty(rrs) && |EncodeRRs(rrs)| < 0x2_0000
    ensures RRsFit(rrs)
  {
    forall i | 0 <= i < |rrs| ensures CountFits(rrs[i].labels) {
      LabelsTakeTwoBytes(rrs[i].labels);
      RRSize(rrs, i);
    }
  }

  /** In a buffer below 128 KiB, and so in every datagram, all label lists fit their counts. */
  lemma SmallBuffersFit(b: seq<uint8>)
    requires Accepts(b) && |b| < 0x2_0000
    ensures LabelCountsFit(ParseAll(b).0) && Parse(b).0 == ParseAll(b).0
    ensures Printable(Parse(b).0) && LabelsNonempty(Parse(b).0)
    ensures Encode(Parse(b).0) == b[..Parse(b).1]
  {
    var (m, n) := ParseAll(b);
    ParsedIsThere(b);
    forall i | 0 <= i < |m.questions| ensures CountFits(m.questions[i].labels) {
      LabelsTakeTwoBytes(m.questions[i].labels);
      QuestionSize(m.questions, i);
    }
    RRsFitIn(m.answers);
    RRsFitIn(m.authorities);
    RRsFitIn(m.additionals);
    CutNothing(m);
    ParseThenPrint(b);
  }

  /** From 128 KiB on they need not fit: 65536 one-byte labels are accepted, counted as none, and
      printed as none. */
  lemma TooManyLabels()
    ensures exists b :: Accepts(b) && Encode(Parse(b).0) != b[..Parse(b).1]
  {
    var ls: seq<Label> := seq(0x1_0000, _ => [97]);
    var m := Message(Header(0, 0, 1, 0, 0, 0), [Question(ls, 1, 1)], [], [], []);
    var b := Encode(m);
    assert b[0..|b|] == b;
    ParseFindsPrinted(b, m);
    ParseThenPrint(b);
    assert !CountFits(m.questions[0].labels);
  }

  // ---- The parser is total ----

  /** a and b are equal once extended by zeros. */
  ghost predicate SameExtension(a: seq<uint8>, b: seq<uint8>) {
    forall i: nat :: At(a, i) == At(b, i)
  }

  lemma {:induction false} ParseLabelsExtends(a: seq<uint8>, b: seq<uint8>, d: nat)
    requires SameExtension(a, b)
    ensures ParseLabels(a, d) == ParseLabels(b, d)
    decreases if d < |a| then |a| - d else 0
  {
    var n := At(a, d) as int;
    assert At(b, d) as int == n;
    if n != 0 {
      ParseLabelsExtends(a, b, d + 1 + n);
      assert Slice(a, d + 1, n) == Slice(b, d + 1, n);
    }
  }

  lemma ParseQuestionExtends(a: seq<uint8>, b: seq<uint8>, d: nat)
    requires SameExtension(a, b)
    ensures ParseQuestion(a, d) == ParseQuestion(b, d)
  {
    ParseLabelsExtends(a, b, d);
  }

  lemma {:induction false} ParseQuestionsExtends(a: seq<uint8>, b: seq<uint8>, d: nat, n: nat)
    requires SameExtension(a, b)
    ensures ParseQuestions(a, d, n) == ParseQuestions(b, d, n)
  {
    hide ParseQuestion, SameExtension;
    if n > 0 {
      ParseQuestionsExtends(a, b, d, n - 1);
      ParseQuestionExtends(a, b, ParseQuestions(a, d, n - 1).1);
    }
  }

  lemma ParseRRExtends(a: seq<uint8>, b: seq<uint8>, d: nat)
    requires SameExtension(a, b)
    ensures ParseRR(a, d) == ParseRR(b, d)
  {
    ParseLabelsExtends(a, b, d);
    var e := ParseLabels(a, d).1;
    var n := U16At(a, e + 8);
    assert Slice(a, e + 10, n) == Slice(b, e + 10, n);
  }

  lemma {:induction false} ParseRRsExtends(a: seq<uint8>, b: seq<uint8>, d: nat, n: nat)
    requires SameExtension(a, b)
    ensures ParseRRs(a, d, n) == ParseRRs(b, d, n)
  {
    hide ParseRR, SameExtension;
    if n > 0 {
      ParseRRsExtends(a, b, d, n - 1);
      ParseRRExtends(a, b, ParseRRs(a, d, n - 1).1);
    }
  }

  /** Parsing behaves as if the buffer went on with zeros forever. */
  lemma ParseExtends(a: seq<uint8>, b: seq<uint8>)
    requires SameExtension(a, b)
    ensures Parse(a) == Parse(b)
  {
    hide SameExtension, At, ParseQuestions, ParseRRs;
    var h := ParseHeader(a, 0);
    HeaderExtends(a, b);
    ParseQuestionsExtends(a, b, 12, h.queryCount);
    var d1 := ParseQuestions(a, 12, h.queryCount).1;
    ParseRRsExtends(a, b, d1, h.answerCount);
    var d2 := ParseRRs(a, d1, h.answerCount).1;
    ParseRRsExtends(a, b, d2, h.authorityCount);
    var d3 := ParseRRs(a, d2, h.authorityCount).1;
    ParseRRsExtends(a, b, d3, h.additionalCount);
  }

  /** Appending zeros to a buffer changes neither the message nor the demand. */
  lemma PaddingIsInvisible(b: seq<uint8>, k: nat)
    ensures Parse(b + seq(k, _ => 0)) == Parse(b)
  {
    ParseExtends(b + seq(k, _ => 0), b);
  }

  lemma HeaderExtends(a: seq<uint8>, b: seq<uint8>)
    requires SameExtension(a, b)
    ensures ParseHeader(a, 0) == ParseHeader(b, 0)
  {
  }

  /** How far the demand can run past the end: a label list started inside the buffer overshoots
      by at most one label and its terminator, one started behind it is empty. */
  lemma {:induction false} LabelsOvershoot(b: seq<uint8>, d: nat)
    ensures d >= |b| ==> ParseLabels(b, d) == ([], d + 1)
    ensures d < |b| ==> ParseLabels(b, d).1 <= |b| + 256
    decreases if d < |b| then |b| - d else 0
  {
    var n := At(b, d) as int;
    if n != 0 {
      LabelsOvershoot(b, d + 1 + n);
    }
  }

  lemma {:induction false} QuestionsOvershoot(b: seq<uint8>, d: nat, n: nat, slack: nat)
    requires d <= |b| + 65535 + slack
    ensures ParseQuestions(b, d, n).1 <= |b| + 65535 + slack + 5 * n
  {
    if n > 0 {
      QuestionsOvershoot(b, d, n - 1, slack);
      LabelsOvershoot(b, ParseQuestions(b, d, n - 1).1);
    }
  }

  lemma RROvershoot(b: seq<uint8>, d: nat)
    ensures d >= |b| ==> ParseRR(b, d).1 == d + 11
    ensures d < |b| ==> ParseRR(b, d).1 <= |b| + 65535 + 11
  {
    LabelsOvershoot(b, d);
    var e := ParseLabels(b, d).1;
    if e + 8 >= |b| {
      assert U16At(b, e + 8) == 0;
    } else if e + 9 == |b| {
      assert U16At(b, e + 8) <= 65280;
    }
  }

  lemma {:induction false} RRsOvershoot(b: seq<uint8>, d: nat, n: nat, slack: nat)
    requires d <= |b| + 65535 + slack
    ensures ParseRRs(b, d, n).1 <= |b| + 65535 + slack + 11 * n
  {
    if n > 0 {
      RRsOvershoot(b, d, n - 1, slack);
      RROvershoot(b, ParseRRs(b, d, n - 1).1);
    }
  }

  /** However malformed the buffer, the bytes demanded exceed its size by a bounded amount. */
  lemma BoundedOvershoot(b: seq<uint8>)
    ensures var (m, n) := Parse(b);
            n <= |b| + 65535 + 12 + 5 * m.header.queryCount
                 + 11 * (m.header.answerCount + m.header.authorityCount + m.header.additionalCount)
  {
    hide ParseHeader, ParseQuestions, ParseRRs;
    var h := ParseHeader(b, 0);
    var d1 := ParseQuestions(b, 12, h.queryCount).1;
    var d2 := ParseRRs(b, d1, h.answerCount).1;
    var d3 := ParseRRs(b, d2, h.authorityCount).1;
    var slack := 12 + 5 * h.queryCount;
    QuestionsOvershoot(b, 12, h.queryCount, 12);
    RRsOvershoot(b, d1, h.answerCount, slack);
    RRsOvershoot(b, d2, h.authorityCount, slack + 11 * h.answerCount);
    RRsOvershoot(b, d3, h.additionalCount, slack + 11 * h.answerCount + 11 * h.authorityCount);
  }

  // ---- The bytes of the format ----

  /** Section 4.1.1 of RFC 1035: six words, each with its upper byte first. */
  lemma HeaderBytes(h: Header)
    ensures EncodeHeader(h) ==
            [(h.id / 0x100) as uint8, (h.id % 0x100) as uint8,
             (h.flags / 0x100) as uint8, (h.flags % 0x100) as uint8,
             (h.queryCount / 0x100) as uint8, (h.queryCount % 0x100) as uint8,
             (h.answerCount / 0x100) as uint8, (h.answerCount % 0x100) as uint8,
             (h.authorityCount / 0x100) as uint8, (h.authorityCount % 0x100) as uint8,
             (h.additionalCount / 0x100) as uint8, (h.additionalCount % 0x100) as uint8]
  {
  }

  /** Section 4.1.2: a name is its labels, each behind its length, and a null byte; the type and the
      class follow. */
  lemma QuestionBytes(l: Label, ls: seq<Label>, q: Question)
    ensures EncodeLabels([]) == [0]
    ensures EncodeLabels([l] + ls) == [|l| as uint8] + l + EncodeLabels(ls)
    ensures EncodeQuestion(q) == EncodeLabels(q.labels) +
            [(q.qtype / 0x100) as uint8, (q.qtype % 0x100) as uint8,
             (q.qclass / 0x100) as uint8, (q.qclass % 0x100) as uint8]
  {
    assert ([l] + ls)[1..] == ls;
  }

  /** Section 4.1.3: the name, the type, the class, the time to live, the size of the data, the data. */
  lemma RRBytes(rr: RR)
    ensures EncodeRR(rr) == EncodeLabels(rr.labels) +
            [(rr.rtype / 0x100) as uint8, (rr.rtype % 0x100) as uint8,
             (rr.rclass / 0x100) as uint8, (rr.rclass % 0x100) as uint8] +
            [(rr.ttl / 0x1_0000 / 0x100) as uint8, (rr.ttl / 0x1_0000 % 0x100) as uint8,
             (rr.ttl % 0x1_0000 / 0x100) as uint8, (rr.ttl % 0x1_0000 % 0x100) as uint8] +
            [(rr.dataSize / 0x100) as uint8, (rr.dataSize % 0x100) as uint8] + rr.data
  {
    hide EncodeLabels;
  }

  /** The sections follow one another: questions, answers, authorities, additional records. */
  lemma SectionBytes(m: Message, qs: seq<Question>, q: Question, rrs: seq<RR>, rr: RR)
    ensures Encode(m) == EncodeHeader(m.header) + EncodeQuestions(m.questions) + EncodeRRs(m.answers)
                         + EncodeRRs(m.authorities) + EncodeRRs(m.additionals)
    ensures EncodeQuestions([]) == [] && EncodeRRs([]) == []
    ensures EncodeQuestions(qs + [q]) == EncodeQuestions(qs) + EncodeQuestion(q)
    ensures EncodeRRs(rrs + [rr]) == EncodeRRs(rrs) + EncodeRR(rr)
  {
    hide EncodeHeader, EncodeQuestion, EncodeRR;
    assert (qs + [q])[..|qs|] == qs && (rrs + [rr])[..|rrs|] == rrs;
  }

  lemma OneOfEach(m: Message, q: Question, rr: RR)
    requires m.questions == [q] && m.answers == [rr] && m.authorities == m.additionals == []
    ensures Encode(m) == EncodeHeader(m.header) + EncodeQuestion(q) + EncodeRR(rr)
  {
    hide EncodeHeader, EncodeQuestion, EncodeRR, EncodeQuestions, EncodeRRs, Encode;
    SectionBytes(m, [], q, [], rr);
    assert [] + [q] == [q] && [] + [rr] == [rr];
  }

  /** A reply in full: 10.0.0.1 for the name "a.bc". */
  lemma ReplyBytesWritten()
    ensures var name: seq<Label> := [[97], [98, 99]];
            Encode(Message(Header(0x1234, 0x8500, 1, 1, 0, 0), [Question(name, 1, 1)],
                           [RR(name, 1, 1, 300, 4, [10, 0, 0, 1])], [], [])) ==
            [0x12, 0x34, 0x85, 0x00, 0, 1, 0, 1, 0, 0, 0, 0] +
            [1, 97, 2, 98, 99, 0, 0, 1, 0, 1] +
            [1, 97, 2, 98, 99, 0, 0, 1, 0, 1, 0, 0, 1, 44, 0, 4, 10, 0, 0, 1]
  {
    hide Encode, EncodeHeader, EncodeQuestion, EncodeRR;
    var name: seq<Label> := [[97], [98, 99]];
    var q, rr := Question(name, 1, 1), RR(name, 1, 1, 300, 4, [10, 0, 0, 1]);
    var h := Header(0x1234, 0x8500, 1, 1, 0, 0);
    OneOfEach(Message(h, [q], [rr], [], []), q, rr);
    HeaderWritten();
    QuestionWritten();
    RecordWritten();
  }

  lemma HeaderWritten()
    ensures EncodeHeader(Header(0x1234, 0x8500, 1, 1, 0, 0)) == [0x12, 0x34, 0x85, 0x00, 0, 1, 0, 1, 0, 0, 0, 0]
  {
    HeaderBytes(Header(0x1234, 0x8500, 1, 1, 0, 0));
  }

  lemma QuestionWritten()
    ensures EncodeQuestion(Question([[97], [98, 99]], 1, 1)) == [1, 97, 2, 98, 99, 0, 0, 1, 0, 1]
  {
    hide EncodeLabels;
    NameBytes();
  }

  lemma RecordWritten()
    ensures EncodeRR(RR([[97], [98, 99]], 1, 1, 300, 4, [10, 0, 0, 1])) ==
            [1, 97, 2, 98, 99, 0, 0, 1, 0, 1, 0, 0, 1, 44, 0, 4, 10, 0, 0, 1]
  {
    hide EncodeLabels;
    NameBytes();
  }

  lemma NameBytes()
    ensures EncodeLabels([[97], [98, 99]]) == [1, 97, 2, 98, 99, 0]
  {
    hide EncodeLabels;
    var a: Label, b: Label := [97], [98, 99];
    QuestionBytes(a, [b], Question([], 0, 0));
    QuestionBytes(b, [], Question([], 0, 0));
    assert [a] + [b] == [a, b] && [b] + [] == [b];
  }
}
