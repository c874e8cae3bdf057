/** The parser and the printer of `codec.c`: a cursor over the datagram that yields zeros once it is
    exhausted, and a buffer sized in advance and filled byte by byte. Each method computes the
    function of module `Wire` with the same job. */
module Codec {
  import opened Bits
  import opened Bytes
  import opened Messages
  import opened Wire

  // ---- Parsing ----

  /** The `buffer` and `buffer_size` the parser passes around by reference. The remaining size goes
      on falling below zero after the last byte has been taken. */
  class Cursor {
    const bytes: seq<uint8>
    var next: nat
    var remaining: int

    ghost predicate Valid()
      reads this
    {
      && remaining <= |bytes|
      && next == if remaining >= 0 then |bytes| - remaining else |bytes|
    }

    ghost function Demanded(): nat
      requires Valid()
      reads this
    {
      |bytes| - remaining
    }

    constructor (bytes: seq<uint8>)
      ensures Valid() && this.bytes == bytes && Demanded() == 0
    {
      this.bytes := bytes;
      next, remaining := 0, |bytes|;
    }

    method PopInt8() returns (value: uint8)
      requires Valid()
      modifies this
      ensures Valid() && Demanded() == old(Demanded()) + 1
      ensures value == At(bytes, old(Demanded()))
    {
      value := 0;
      remaining := remaining - 1;
      if remaining >= 0 {
        value := bytes[next];
        next := next + 1;
      }
    }

    method PopInt16() returns (value: uint16)
      requires Valid()
      modifies this
      ensures Valid() && Demanded() == old(Demanded()) + 2
      ensures value == U16At(bytes, old(Demanded()))
    {
      var high := PopInt8();
      var low := PopInt8();
      Pow2Values();
      OrShifted(high as int, 8, low as int);
      value := Or(Shl(high as int, 8), low as int);
    }

    method PopInt32() returns (value: uint32)
      requires Valid()
      modifies this
      ensures Valid() && Demanded() == old(Demanded()) + 4
      ensures value == U32At(bytes, old(Demanded()))
    {
      var high: nat := PopInt16();
      var low: nat := PopInt16();
      Pow2Values();
      OrShifted(high, 16, low);
      value := Or(Shl(high, 16), low);
    }

    /** The loop that fills a label name, or the data of a resource record. */
    method PopBytes(n: nat) returns (value: seq<uint8>)
      requires Valid()
      modifies this
      ensures Valid() && Demanded() == old(Demanded()) + n
      ensures value == Slice(bytes, old(Demanded()), n)
    {
      var name := new uint8[n];
      var i := 0;
      while i < n
        invariant 0 <= i <= n
        invariant Valid() && Demanded() == old(Demanded()) + i
        invariant forall j :: 0 <= j < i ==> name[j] == At(bytes, old(Demanded()) + j)
      {
        name[i] := PopInt8();
        i := i + 1;
      }
      value := name[..];
    }
  }

  /** `interpret_labels`. The number of labels is stored in a uint16. */
  method InterpretLabels(c: Cursor) returns (labels: seq<Label>)
    requires c.Valid()
    modifies c
    ensures c.Valid()
    ensures labels == CutLabels(ParseLabels(c.bytes, old(c.Demanded())).0)
    ensures c.Demanded() == ParseLabels(c.bytes, old(c.Demanded())).1
  {
    hide ParseLabels, Slice;
    ghost var parsed := ParseLabels(c.bytes, c.Demanded());
    var all: seq<Label> := [];
    var nextSize := c.PopInt8();
    while nextSize > 0
      invariant c.Valid() && c.Demanded() > 0
      invariant nextSize == At(c.bytes, c.Demanded() - 1)
      invariant parsed.0 == all + ParseLabels(c.bytes, c.Demanded() - 1).0
      invariant parsed.1 == ParseLabels(c.bytes, c.Demanded() - 1).1
      decreases |c.bytes| - c.Demanded() + 1
    {
      ghost var at := c.Demanded() - 1;
      var name := c.PopBytes(nextSize as int);
      ParseLabelsStep(c.bytes, at);
      all := all + [name];
      nextSize := c.PopInt8();
    }
    ParseLabelsStep(c.bytes, c.Demanded() - 1);
    labels := all[..|all| % 0x1_0000];
  }

  lemma ParseLabelsStep(b: seq<uint8>, d: nat)
    ensures At(b, d) == 0 ==> ParseLabels(b, d) == ([], d + 1)
    ensures At(b, d) != 0 ==>
              var n := At(b, d) as int;
              var (rest, e) := ParseLabels(b, d + 1 + n);
              ParseLabels(b, d) == ([Slice(b, d + 1, n)] + rest, e)
  {
  }

  method InterpretOneQuestion(c: Cursor) returns (q: Question)
    requires c.Valid()
    modifies c
    ensures c.Valid()
    ensures q == CutQuestion(ParseQuestion(c.bytes, old(c.Demanded())).0)
    ensures c.Demanded() == ParseQuestion(c.bytes, old(c.Demanded())).1
  {
    var labels := InterpretLabels(c);
    var qtype := c.PopInt16();
    var qclass := c.PopInt16();
    q := Question(labels, qtype, qclass);
  }

  method InterpretOneRR(c: Cursor) returns (rr: RR)
    requires c.Valid()
    modifies c
    ensures c.Valid()
    ensures rr == CutRR(ParseRR(c.bytes, old(c.Demanded())).0)
    ensures c.Demanded() == ParseRR(c.bytes, old(c.Demanded())).1
  {
    var labels := InterpretLabels(c);
    var rtype := c.PopInt16();
    var rclass := c.PopInt16();
    var ttl := c.PopInt32();
    var dataSize := c.PopInt16();
    var data := c.PopBytes(dataSize);
    rr := RR(labels, rtype, rclass, ttl, dataSize, data);
  }

  /** `interpret_rr`. */
  method InterpretRRs(amount: uint16, c: Cursor) returns (rrs: seq<RR>)
    requires c.Valid()
    modifies c
    ensures c.Valid()
    ensures rrs == CutRRs(ParseRRs(c.bytes, old(c.Demanded()), amount).0)
    ensures c.Demanded() == ParseRRs(c.bytes, old(c.Demanded()), amount).1
  {
    ghost var d := c.Demanded();
    rrs := [];
    var i := 0;
    while i < amount
      invariant 0 <= i <= amount && c.Valid()
      invariant rrs == CutRRs(ParseRRs(c.bytes, d, i).0)
      invariant c.Demanded() == ParseRRs(c.bytes, d, i).1
    {
      var rr := InterpretOneRR(c);
      CutRRsAppend(ParseRRs(c.bytes, d, i).0, ParseRR(c.bytes, ParseRRs(c.bytes, d, i).1).0);
      rrs := rrs + [rr];
      i := i + 1;
    }
  }

  lemma CutRRsAppend(rrs: seq<RR>, rr: RR)
    ensures CutRRs(rrs + [rr]) == CutRRs(rrs) + [CutRR(rr)]
  {
  }

  lemma CutQuestionsAppend(qs: seq<Question>, q: Question)
    ensures CutQuestions(qs + [q]) == CutQuestions(qs) + [CutQuestion(q)]
  {
  }

  method InterpretQuestions(amount: uint16, c: Cursor) returns (qs: seq<Question>)
    requires c.Valid()
    modifies c
    ensures c.Valid()
    ensures qs == CutQuestions(ParseQuestions(c.bytes, old(c.Demanded()), amount).0)
    ensures c.Demanded() == ParseQuestions(c.bytes, old(c.Demanded()), amount).1
  {
    ghost var d := c.Demanded();
    qs := [];
    var i := 0;
    while i < amount
      invariant 0 <= i <= amount && c.Valid()
      invariant qs == CutQuestions(ParseQuestions(c.bytes, d, i).0)
      invariant c.Demanded() == ParseQuestions(c.bytes, d, i).1
    {
      var q := InterpretOneQuestion(c);
      CutQuestionsAppend(ParseQuestions(c.bytes, d, i).0, ParseQuestion(c.bytes, ParseQuestions(c.bytes, d, i).1).0);
      qs := qs + [q];
      i := i + 1;
    }
  }

  method InterpretHeader(c: Cursor) returns (h: Header)
    requires c.Valid()
    modifies c
    ensures c.Valid() && c.Demanded() == old(c.Demanded()) + 12
    ensures h == ParseHeader(c.bytes, old(c.Demanded()))
  {
    hide U16At;
    var id := c.PopInt16();
    var flags := c.PopInt16();
    var queryCount := c.PopInt16();
    var answerCount := c.PopInt16();
    var authorityCount := c.PopInt16();
    var additionalCount := c.PopInt16();
    h := Header(id, flags, queryCount, answerCount, authorityCount, additionalCount);
  }

  /** `interpret_question`. The flag is raised exactly when the buffer was too short. */
  method InterpretQuestion(buffer: seq<uint8>, errorFlag: int) returns (message: Message, errorFlag': int)
    ensures message == Parse(buffer).0
    ensures errorFlag' == if Accepts(buffer) then errorFlag else 1
  {
    hide ParseHeader, ParseQuestions, ParseRRs, CutQuestions, CutRRs;
    var c := new Cursor(buffer);
    var header := InterpretHeader(c);
    var questions := InterpretQuestions(header.queryCount, c);
    var answers := InterpretRRs(header.answerCount, c);
    var authorities := InterpretRRs(header.authorityCount, c);
    var additionals := InterpretRRs(header.additionalCount, c);
    message := Message(header, questions, answers, authorities, additionals);
    errorFlag' := errorFlag;
    if c.remaining < 0 {
      errorFlag' := 1;
    }
  }

  // ---- Printing ----

  /** The upper and the lower half of a value. */
  lemma Halves(v: nat, n: nat)
    ensures Shr(v, n) == v / Pow2(n) && And(v, Pow2(n) - 1) == v % Pow2(n)
    ensures Pow2(8) == 0x100 && Pow2(16) == 0x1_0000
  {
    ShrIs(v, n);
    AndMask(v, n);
    Pow2Values();
  }

  /** The buffer being filled, and the index of the next byte. */
  class Writer {
    const buffer: array<uint8>
    var index: nat

    constructor (size: nat)
      ensures fresh(buffer) && buffer.Length == size && index == 0
    {
      buffer := new uint8[size];
      index := 0;
    }

    ghost function Written(): seq<uint8>
      requires index <= buffer.Length
      reads this, buffer
    {
      buffer[..index]
    }

    ghost predicate HasRoomFor(n: nat)
      reads this
    {
      index + n <= buffer.Length
    }

    method AppendInt8(value: uint8)
      requires HasRoomFor(1)
      modifies this`index, buffer
      ensures index == old(index) + 1 && Written() == old(Written()) + [value]
    {
      buffer[index] := value;
      index := index + 1;
    }

    method AppendInt16(value: uint16)
      requires HasRoomFor(2)
      modifies this`index, buffer
      ensures index == old(index) + 2 && Written() == old(Written()) + EncodeU16(value)
    {
      Halves(value, 8);
      AppendInt8(Shr(value, 8) as uint8);
      AppendInt8(And(value, 255) as uint8);
    }

    method AppendInt32(value: uint32)
      requires HasRoomFor(4)
      modifies this`index, buffer
      ensures index == old(index) + 4 && Written() == old(Written()) + EncodeU32(value)
    {
      Halves(value, 16);
      AppendInt16(Shr(value, 16));
      AppendInt16(And(value, 65535));
    }

    method AppendBytes(s: seq<uint8>)
      requires HasRoomFor(|s|)
      modifies this`index, buffer
      ensures index == old(index) + |s| && Written() == old(Written()) + s
    {
      var j := 0;
      while j < |s|
        invariant 0 <= j <= |s| && index == old(index) + j <= buffer.Length
        invariant Written() == old(Written()) + s[..j]
      {
        AppendInt8(s[j]);
        j := j + 1;
      }
    }

    method AppendLabels(labels: seq<Label>)
      requires HasRoomFor(|EncodeLabels(labels)|)
      modifies this`index, buffer
      ensures index == old(index) + |EncodeLabels(labels)|
      ensures Written() == old(Written()) + EncodeLabels(labels)
    {
      var i := 0;
      while i < |labels|
        invariant 0 <= i <= |labels|
        invariant index + |EncodeLabels(labels[i..])| == old(index) + |EncodeLabels(labels)|
        invariant Written() + EncodeLabels(labels[i..]) == old(Written()) + EncodeLabels(labels)
      {
        ghost var before, rest := Written(), labels[i..];
        assert rest[1..] == labels[i + 1..];
        AppendInt8(|labels[i]| as uint8);
        AppendBytes(labels[i]);
        assert Written() == before + [|labels[i]| as uint8] + labels[i];
        i := i + 1;
      }
      assert labels[i..] == [];
      AppendInt8(0);
    }

    method AppendQuestion(q: Question)
      requires HasRoomFor(|EncodeQuestion(q)|)
      modifies this`index, buffer
      ensures index == old(index) + |EncodeQuestion(q)| && Written() == old(Written()) + EncodeQuestion(q)
    {
      hide EncodeU16, EncodeLabels;
      AppendLabels(q.labels);
      AppendInt16(q.qtype);
      AppendInt16(q.qclass);
    }

    method AppendRR(rr: RR)
      requires HasRoomFor(|EncodeRR(rr)|)
      modifies this`index, buffer
      ensures index == old(index) + |EncodeRR(rr)| && Written() == old(Written()) + EncodeRR(rr)
    {
      hide EncodeRRRest, EncodeLabels;
      AppendLabels(rr.labels);
      AppendRRRest(rr);
    }

    method AppendRRRest(rr: RR)
      requires HasRoomFor(|EncodeRRRest(rr)|)
      modifies this`index, buffer
      ensures index == old(index) + |EncodeRRRest(rr)| && Written() == old(Written()) + EncodeRRRest(rr)
    {
      hide EncodeU16, EncodeU32;
      AppendInt16(rr.rtype);
      AppendInt16(rr.rclass);
      AppendInt32(rr.ttl);
      AppendInt16(rr.dataSize);
      AppendBytes(rr.data);
    }

    method AppendHeader(h: Header)
      requires HasRoomFor(12)
      modifies this`index, buffer
      ensures index == old(index) + 12 && Written() == old(Written()) + EncodeHeader(h)
    {
      hide EncodeU16;
      AppendInt16(h.id);
      AppendInt16(h.flags);
      AppendInt16(h.queryCount);
      AppendInt16(h.answerCount);
      AppendInt16(h.authorityCount);
      AppendInt16(h.additionalCount);
    }

    method AppendQuestions(qs: seq<Question>)
      requires HasRoomFor(|EncodeQuestions(qs)|)
      modifies this`index, buffer
      ensures index == old(index) + |EncodeQuestions(qs)| && Written() == old(Written()) + EncodeQuestions(qs)
    {
      hide EncodeQuestion;
      var i := 0;
      while i < |qs|
        invariant 0 <= i <= |qs| && index == old(index) + |EncodeQuestions(qs[..i])| <= buffer.Length
        invariant Written() == old(Written()) + EncodeQuestions(qs[..i])
      {
        QuestionsPrefix(qs, i);
        AppendQuestion(qs[i]);
        i := i + 1;
      }
      assert qs[..i] == qs;
    }

    method AppendRRs(rrs: seq<RR>)
      requires HasRoomFor(|EncodeRRs(rrs)|)
      modifies this`index, buffer
      ensures index == old(index) + |EncodeRRs(rrs)| && Written() == old(Written()) + EncodeRRs(rrs)
    {
      hide EncodeRR;
      var i := 0;
      while i < |rrs|
        invariant 0 <= i <= |rrs| && index == old(index) + |EncodeRRs(rrs[..i])| <= buffer.Length
        invariant Written() == old(Written()) + EncodeRRs(rrs[..i])
      {
        RRsPrefix(rrs, i);
        AppendRR(rrs[i]);
        i := i + 1;
      }
      assert rrs[..i] == rrs;
    }

    /** The body of `serialize_message`. */
    method AppendSections(m: Message)
      requires index == 0 && buffer.Length == 12 + |EncodeQuestions(m.questions)| + |EncodeRRs(m.answers)|
                                              + |EncodeRRs(m.authorities)| + |EncodeRRs(m.additionals)|
      modifies this`index, buffer
      ensures index == buffer.Length
      ensures buffer[..] == EncodeHeader(m.header) + EncodeQuestions(m.questions) + EncodeRRs(m.answers)
                            + EncodeRRs(m.authorities) + EncodeRRs(m.additionals)
    {
      hide EncodeHeader, EncodeQuestions, EncodeRRs;
      AppendHeader(m.header);
      AppendQuestions(m.questions);
      AppendRRs(m.answers);
      AppendRRs(m.authorities);
      AppendRRs(m.additionals);
      assert Written() == buffer[..];
    }
  }

  lemma {:induction false} QuestionsPrefix(qs: seq<Question>, i: nat)
    requires i < |qs|
    ensures EncodeQuestions(qs[..i + 1]) == EncodeQuestions(qs[..i]) + EncodeQuestion(qs[i])
    ensures |EncodeQuestions(qs[..i + 1])| <= |EncodeQuestions(qs)|
  {
    assert qs[..i + 1][..i] == qs[..i];
    if i + 1 < |qs| {
      QuestionsPrefix(qs[..|qs| - 1], i);
      assert qs[..|qs| - 1][..i + 1] == qs[..i + 1];
    } else {
      assert qs[..i + 1] == qs;
    }
  }

  lemma {:induction false} RRsPrefix(rrs: seq<RR>, i: nat)
    requires i < |rrs|
    ensures EncodeRRs(rrs[..i + 1]) == EncodeRRs(rrs[..i]) + EncodeRR(rrs[i])
    ensures |EncodeRRs(rrs[..i + 1])| <= |EncodeRRs(rrs)|
  {
    assert rrs[..i + 1][..i] == rrs[..i];
    if i + 1 < |rrs| {
      RRsPrefix(rrs[..|rrs| - 1], i);
      assert rrs[..|rrs| - 1][..i + 1] == rrs[..i + 1];
    } else {
      assert rrs[..i + 1] == rrs;
    }
  }

  /** `calc_labels_size`. */
  method CalcLabelsSize(labels: seq<Label>) returns (size: nat)
    ensures size == |EncodeLabels(labels)|
  {
    size := 1;
    var i := 0;
    while i < |labels|
      invariant 0 <= i <= |labels|
      invariant size + |EncodeLabels(labels[i..])| == 1 + |EncodeLabels(labels)|
    {
      assert labels[i..][1..] == labels[i + 1..];
      size := size + 1;
      size := size + |labels[i]|;
      i := i + 1;
    }
    assert labels[i..] == [];
  }

  /** `calc_resource_records_size`. */
  method CalcRRsSize(rrs: seq<RR>) returns (size: nat)
    requires DataSized(rrs)
    ensures size == |EncodeRRs(rrs)|
  {
    size := 0;
    var i := 0;
    while i < |rrs|
      invariant 0 <= i <= |rrs| && size == |EncodeRRs(rrs[..i])|
    {
      RRsPrefix(rrs, i);
      var n := CalcLabelsSize(rrs[i].labels);
      size := size + n;
      size := size + 2 + 2 + 4 + 2;
      size := size + rrs[i].dataSize;
      i := i + 1;
    }
    assert rrs[..i] == rrs;
  }

  /** `calc_message_size`. */
  method CalcMessageSize(m: Message) returns (size: nat)
    requires Printable(m)
    ensures size == |Encode(m)|
  {
    size := 12;
    var i := 0;
    while i < m.header.queryCount
      invariant 0 <= i <= |m.questions| && size == 12 + |EncodeQuestions(m.questions[..i])|
    {
      QuestionsPrefix(m.questions, i);
      var n := CalcLabelsSize(m.questions[i].labels);
      size := size + n;
      size := size + 2;
      size := size + 2;
      i := i + 1;
    }
    assert m.questions[..i] == m.questions;
    var n := CalcRRsSize(m.answers);
    size := size + n;
    n := CalcRRsSize(m.authorities);
    size := size + n;
    n := CalcRRsSize(m.additionals);
    size := size + n;
  }

  /** `serialize_message`: every append is inside the buffer, and afterwards the whole buffer is the
      encoding, whatever it held when it was allocated. */
  method SerializeMessage(m: Message) returns (buffer: array<uint8>)
    requires Printable(m) && |Encode(m)| < 0x1_0000_0000
    ensures fresh(buffer) && buffer[..] == Encode(m)
  {
    hide EncodeHeader, EncodeQuestions, EncodeRRs, Encode, Printable;
    var size := CalcMessageSize(m);
    var w := new Writer(size);
    EncodeSections(m);
    w.AppendSections(m);
    buffer := w.buffer;
  }

  lemma EncodeSections(m: Message)
    ensures Encode(m) == EncodeHeader(m.header) + EncodeQuestions(m.questions) + EncodeRRs(m.answers)
                         + EncodeRRs(m.authorities) + EncodeRRs(m.additionals)
    ensures |EncodeHeader(m.header)| == 12
  {
    hide EncodeHeader, EncodeQuestions, EncodeRRs;
  }
}
