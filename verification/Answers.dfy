/** Reply construction, `answer.c`: what the reply to a message is, given what the map holds, and the
    methods that build it. */
module Answers {
  import opened Bits
  import opened Bytes
  import opened Messages
  import opened Names
  import opened Wire
  import opened DnsStates
  import opened DnsMaps
  import opened HashMaps
  import opened Tables

  const OPCODE_QUERY: nat := 0
  const RCODE_NOERROR: nat := 0
  const RCODE_FORMATERROR: nat := 1
  const RCODE_NAMEERROR: nat := 3
  const RCODE_NOTIMPLEMENTED: nat := 4
  const RR_TYPE_A: uint16 := 1
  const RR_TYPE_ANY: uint16 := 255
  const RR_CLASS_IN: uint16 := 1
  const RR_TYPE_A_SIZE: uint16 := 4
  const HARD_TTL: uint32 := 300

  // ---- Header flags ----

  datatype Flags = Flags(qr: nat, opcode: nat, aa: nat, tc: nat, rd: nat, ra: nat, rcode: nat) {
    predicate InRange() {
      qr < 2 && opcode < 16 && aa < 2 && tc < 2 && rd < 2 && ra < 2 && rcode < 16
    }
  }

  /** The header word that holds the fields in order, with three zero bits above the last one. */
  function EncodeFlags(f: Flags): (v: uint16)
    requires f.InRange()
  {
    f.qr * 0x8000 + f.opcode * 0x800 + f.aa * 0x400 + f.tc * 0x200 + f.rd * 0x100 + f.ra * 0x80 + f.rcode
  }

  function DecodeFlags(v: uint16): (f: Flags)
    ensures f.InRange()
  {
    Flags(v / 0x8000 % 2, v / 0x800 % 16, v / 0x400 % 2, v / 0x200 % 2, v / 0x100 % 2, v / 0x80 % 2, v % 16)
  }

  /** The field of n values above the lower p of v. */
  lemma Field(v: nat, p: nat, n: nat, above: nat, field: nat, below: nat)
    requires v == (above * n + field) * p + below && field < n && below < p
    ensures v / p % n == field
  {
    QuotientIs(v, p, above * n + field, below);
    QuotientIs(above * n + field, n, above, field);
  }

  lemma UpperFlags(f: Flags, low: nat)
    requires f.InRange() && low < 0x400
    ensures var v := f.qr * 0x8000 + f.opcode * 0x800 + f.aa * 0x400 + low;
            v / 0x8000 % 2 == f.qr && v / 0x800 % 16 == f.opcode && v / 0x400 % 2 == f.aa
  {
    var v := f.qr * 0x8000 + f.opcode * 0x800 + f.aa * 0x400 + low;
    Field(v, 0x8000, 2, 0, f.qr, f.opcode * 0x800 + f.aa * 0x400 + low);
    Field(v, 0x800, 16, f.qr, f.opcode, f.aa * 0x400 + low);
    Field(v, 0x400, 2, f.qr * 16 + f.opcode, f.aa, low);
  }

  lemma LowerFlags(f: Flags, high: nat)
    requires f.InRange()
    ensures var v := high * 0x400 + f.tc * 0x200 + f.rd * 0x100 + f.ra * 0x80 + f.rcode;
            v / 0x200 % 2 == f.tc && v / 0x100 % 2 == f.rd && v / 0x80 % 2 == f.ra && v % 16 == f.rcode
  {
    var v := high * 0x400 + f.tc * 0x200 + f.rd * 0x100 + f.ra * 0x80 + f.rcode;
    assert v / 0x200 % 2 == f.tc by {
      Field(v, 0x200, 2, high, f.tc, f.rd * 0x100 + f.ra * 0x80 + f.rcode);
    }
    assert v / 0x100 % 2 == f.rd by {
      Field(v, 0x100, 2, high * 2 + f.tc, f.rd, f.ra * 0x80 + f.rcode);
    }
    assert v / 0x80 % 2 == f.ra by {
      Field(v, 0x80, 2, high * 4 + f.tc * 2 + f.rd, f.ra, f.rcode);
    }
    Field(v, 1, 16, v / 16, f.rcode, 0);
  }

  lemma FlagsRoundTrip(f: Flags)
    requires f.InRange()
    ensures DecodeFlags(EncodeFlags(f)) == f
  {
    UpperFlags(f, f.tc * 0x200 + f.rd * 0x100 + f.ra * 0x80 + f.rcode);
    LowerFlags(f, f.qr * 32 + f.opcode * 2 + f.aa);
  }

  // ---- The reply as a function of the message and the state ----

  predicate Supported(q: Question) {
    q.qclass == RR_CLASS_IN && (q.qtype == RR_TYPE_A || q.qtype == RR_TYPE_ANY)
  }

  /** What the source demands of a question: a name to look up has a label. */
  predicate Answerable(q: Question) {
    CountFits(q.labels) && (Supported(q) ==> q.labels != [])
  }

  predicate AllAnswerable(qs: seq<Question>) {
    forall i :: 0 <= i < |qs| ==> Answerable(qs[i])
  }

  /** The address of the token of the domain. */
  function Resolve(s: State, ls: seq<Label>): Option<Ipv4>
    requires ls != [] && CountFits(ls)
  {
    var domain := DomainOf(ls);
    if domain in s.domainToToken && s.domainToToken[domain] in s.tokenToIp
    then Some(s.tokenToIp[s.domainToToken[domain]]) else None
  }

  /** 0 for an answer, 1 for a name that does not resolve, 2 for a question of another kind. */
  function Failure(s: State, q: Question): nat
    requires Answerable(q)
  {
    if !Supported(q) then 2 else if Resolve(s, q.labels) == None then 1 else 0
  }

  /** The flag that all questions share: every failing one overwrites it. */
  function SharedFlag(s: State, qs: seq<Question>, flag: nat): nat
    requires AllAnswerable(qs)
  {
    if qs == [] then flag
    else
      var q := qs[|qs| - 1];
      if Failure(s, q) != 0 then Failure(s, q) else SharedFlag(s, qs[..|qs| - 1], flag)
  }

  /** The record for one question. When the name does not resolve, there are no bytes behind the
      data pointer. */
  function AnswerTo(s: State, q: Question): RR
    requires Answerable(q)
  {
    if Supported(q) then
      RR(q.labels, q.qtype, q.qclass, HARD_TTL, RR_TYPE_A_SIZE,
         if Resolve(s, q.labels).Some? then Resolve(s, q.labels).value else [])
    else RR(q.labels, q.qtype, q.qclass, 0, 0, [])
  }

  function AnswersTo(s: State, qs: seq<Question>): (rrs: seq<RR>)
    requires AllAnswerable(qs)
    ensures |rrs| == |qs|
  {
    seq(|qs|, i requires 0 <= i < |qs| => AnswerTo(s, qs[i]))
  }

  /** The first failing check of the header decides. */
  function HeaderError(flags: uint16): nat {
    var f := DecodeFlags(flags);
    if f.qr != 0 then RCODE_FORMATERROR
    else if f.opcode != OPCODE_QUERY then RCODE_FORMATERROR
    else if f.tc != 0 then RCODE_NOTIMPLEMENTED
    else RCODE_NOERROR
  }

  function ReplyTo(s: State, m: Message): Message
    requires m.header.queryCount == |m.questions| && AllAnswerable(m.questions)
  {
    var err := HeaderError(m.header.flags);
    var flag := SharedFlag(s, m.questions, 0);
    var dropped := flag != 0 && err == 0;
    var rcode := if !dropped then err else if flag == 1 then RCODE_NAMEERROR else RCODE_NOTIMPLEMENTED;
    Message(
      Header(m.header.id, EncodeFlags(Flags(1, OPCODE_QUERY, 1, 0, DecodeFlags(m.header.flags).rd, 0, rcode)),
             m.header.queryCount, if dropped then 0 else m.header.queryCount, 0, 0),
      m.questions, if dropped then [] else AnswersTo(s, m.questions), [], [])
  }

  // ---- Methods ----

  lemma FlagPowers()
    ensures Pow2(1) == 2 && Pow2(4) == 16 && Pow2(7) == 0x80 && Pow2(8) == 0x100 && Pow2(9) == 0x200
    ensures Pow2(10) == 0x400 && Pow2(11) == 0x800 && Pow2(15) == 0x8000
  {
    assert Pow2(1) == 2 && Pow2(4) == 16 && Pow2(7) == 0x80;
    Pow2Values();
    assert Pow2(11) == 0x800 && Pow2(15) == 0x8000 by {
      Pow2Adds(7, 4);
      Pow2Adds(7, 8);
    }
  }

  /** The fields occupy different digits, so that or-ing them adds them up. */
  lemma FlagsAddUp(f: Flags)
    requires f.InRange()
    ensures Or(Or(Or(Or(Or(Or(Or(Shl(f.qr, 15), Shl(f.opcode, 11)), Shl(f.aa, 10)), Shl(f.tc, 9)), Shl(f.rd, 8)),
                     Shl(f.ra, 7)), Shl(0, 4)), f.rcode)
         == f.qr * 0x8000 + f.opcode * 0x800 + f.aa * 0x400 + f.tc * 0x200 + f.rd * 0x100 + f.ra * 0x80 + f.rcode
  {
    hide Or, Shl, Pow2;
    FlagPowers();
    ShlIs(f.qr, 15);
    ShlIs(f.opcode, 11);
    ShlIs(f.aa, 10);
    ShlIs(f.tc, 9);
    ShlIs(f.rd, 8);
    ShlIs(f.ra, 7);
    ShlIs(0, 4);
    OrDisjoint(15, f.qr, f.opcode * 0x800);
    OrDisjoint(11, f.qr * 16 + f.opcode, f.aa * 0x400);
    OrDisjoint(10, f.qr * 32 + f.opcode * 2 + f.aa, f.tc * 0x200);
    OrDisjoint(9, f.qr * 64 + f.opcode * 4 + f.aa * 2 + f.tc, f.rd * 0x100);
    OrDisjoint(8, f.qr * 128 + f.opcode * 8 + f.aa * 4 + f.tc * 2 + f.rd, f.ra * 0x80);
    OrZero(f.qr * 0x8000 + f.opcode * 0x800 + f.aa * 0x400 + f.tc * 0x200 + f.rd * 0x100 + f.ra * 0x80);
    OrDisjoint(7, f.qr * 256 + f.opcode * 16 + f.aa * 8 + f.tc * 4 + f.rd * 2 + f.ra, f.rcode);
  }

  /** `encode_status_flags`. */
  method EncodeStatusFlags(f: Flags) returns (v: uint16)
    requires f.InRange()
    ensures v == EncodeFlags(f)
  {
    hide Or, Shl;
    var z := 0;
    FlagsAddUp(f);
    v := Or(Or(Or(Or(Or(Or(Or(Shl(f.qr, 15), Shl(f.opcode, 11)), Shl(f.aa, 10)), Shl(f.tc, 9)), Shl(f.rd, 8)),
                  Shl(f.ra, 7)), Shl(z, 4)), f.rcode);
  }

  lemma MaskedField(v: nat, n: nat)
    ensures And(Shr(v, n), 1) == v / Pow2(n) % 2 && And(Shr(v, n), 15) == v / Pow2(n) % 16
  {
    hide And, Shr;
    ShrIs(v, n);
    assert Pow2(1) == 2 && Pow2(4) == 16;
    AndMask(Shr(v, n), 1);
    AndMask(Shr(v, n), 4);
  }

  /** Each field as a quotient and a remainder. */
  lemma FlagsApart(v: uint16)
    ensures And(Shr(v, 15), 1) == v / 0x8000 % 2 && And(Shr(v, 11), 15) == v / 0x800 % 16
    ensures And(Shr(v, 10), 1) == v / 0x400 % 2 && And(Shr(v, 9), 1) == v / 0x200 % 2
    ensures And(Shr(v, 8), 1) == v / 0x100 % 2 && And(Shr(v, 7), 1) == v / 0x80 % 2
    ensures And(v, 15) == v % 16
  {
    hide And, Shr, Pow2;
    FlagPowers();
    MaskedField(v, 15);
    MaskedField(v, 11);
    MaskedField(v, 10);
    MaskedField(v, 9);
    MaskedField(v, 8);
    MaskedField(v, 7);
    AndMask(v, 4);
  }

  /** `decode_status_flags`. */
  method DecodeStatusFlags(v: uint16) returns (f: Flags)
    ensures f == DecodeFlags(v)
  {
    hide And, Shr;
    FlagsApart(v);
    f := Flags(And(Shr(v, 15), 1), And(Shr(v, 11), 15), And(Shr(v, 10), 1), And(Shr(v, 9), 1), And(Shr(v, 8), 1),
               And(Shr(v, 7), 1), And(v, 15));
  }

  /** `labels_to_domain`: two passes over the labels, the second into a buffer of just their size,
      whose last dot becomes the terminator. */
  method LabelsToDomain(labels: seq<Label>) returns (domain: array<uint8>)
    requires labels != []
    ensures fresh(domain) && domain[..] == Join(labels) + [0]
  {
    var size := 0;
    var i := 0;
    while i < |labels|
      invariant 0 <= i <= |labels| && size == |Dotted(labels[..i])|
    {
      assert labels[..i + 1][..i] == labels[..i];
      size := size + |labels[i]| + 1;
      i := i + 1;
    }
    assert labels[..i] == labels;

    domain := new uint8[size];
    var index := 0;
    i := 0;
    while i < |labels|
      invariant 0 <= i <= |labels|
      invariant index == |Dotted(labels[..i])| <= size
      invariant domain[..index] == Dotted(labels[..i])
    {
      DottedPrefix(labels, i);
      index := CopyLabel(labels[i], domain, index);
      domain[index] := DOT;
      index := index + 1;
      i := i + 1;
    }
    assert labels[..i] == labels;
    DottedIs(labels);
    index := index - 1;
    domain[index] := 0;
  }

  lemma {:induction false} DottedPrefix(ls: seq<Label>, i: nat)
    requires i < |ls|
    ensures Dotted(ls[..i + 1]) == Dotted(ls[..i]) + ls[i] + [DOT]
    ensures |Dotted(ls[..i + 1])| <= |Dotted(ls)|
  {
    assert ls[..i + 1][..i] == ls[..i];
    if i + 1 < |ls| {
      DottedPrefix(ls[..|ls| - 1], i);
      assert ls[..|ls| - 1][..i + 1] == ls[..i + 1];
    } else {
      assert ls[..i + 1] == ls;
    }
  }

  /** The inner loop of `labels_to_domain`. */
  method CopyLabel(name: Label, domain: array<uint8>, start: nat) returns (index: nat)
    requires start + |name| <= domain.Length
    modifies domain
    ensures index == start + |name|
    ensures domain[..index] == old(domain[..start]) + name
  {
    index := start;
    var j := 0;
    while j < |name|
      invariant 0 <= j <= |name| && index == start + j
      invariant domain[..index] == old(domain[..start]) + name[..j]
    {
      domain[index] := name[j];
      index := index + 1;
      j := j + 1;
    }
  }

  /** `get_ip`. */
  method GetIp(labels: seq<Label>, errorFlag: nat, m: DnsMap) returns (ip: Option<Ipv4>, errorFlag': nat)
    requires m.Valid() && labels != [] && CountFits(labels)
    ensures ip == Resolve(m.Snapshot(), labels)
    ensures errorFlag' == if ip == None then 1 else errorFlag
  {
    hide HashMap.Valid, HashMap.Map, Growth;
    errorFlag' := errorFlag;
    ip := None;
    DottedIs(labels);
    DottedSize(labels);
    var domain := LabelsToDomain(labels);
    KeyIs(Join(labels));
    var token := m.GetTokenFromDomain(CStr(domain[..]));
    if token != None {
      ip := m.GetIpv4FromToken(token.value);
      if ip == None {
        errorFlag' := 1;
      }
    } else {
      errorFlag' := 1;
    }
  }

  /** `make_rr_reply`. */
  method MakeRRReply(q: Question, errorFlag: nat, m: DnsMap) returns (rr: RR, errorFlag': nat)
    requires m.Valid() && Answerable(q)
    ensures rr == AnswerTo(m.Snapshot(), q)
    ensures errorFlag' == if Failure(m.Snapshot(), q) != 0 then Failure(m.Snapshot(), q) else errorFlag
  {
    hide HashMap.Valid, HashMap.Map, Growth;
    var labels := [];
    var i := 0;
    while i < |q.labels|
      invariant 0 <= i <= |q.labels| && labels == q.labels[..i]
    {
      labels := labels + [q.labels[i]];
      i := i + 1;
    }
    assert labels == q.labels;
    if RR_CLASS_IN == q.qclass && (RR_TYPE_A == q.qtype || RR_TYPE_ANY == q.qtype) {
      var ip;
      ip, errorFlag' := GetIp(q.labels, errorFlag, m);
      rr := RR(labels, q.qtype, q.qclass, HARD_TTL, RR_TYPE_A_SIZE, if ip.Some? then ip.value else []);
    } else {
      rr := RR(labels, q.qtype, q.qclass, 0, 0, []);
      errorFlag' := 2;
    }
  }

  /** `make_rr_reply_all`. */
  method MakeRRReplyAll(qs: seq<Question>, errorFlag: nat, m: DnsMap) returns (rrs: seq<RR>, errorFlag': nat)
    requires m.Valid() && AllAnswerable(qs)
    ensures rrs == AnswersTo(m.Snapshot(), qs)
    ensures errorFlag' == SharedFlag(m.Snapshot(), qs, errorFlag)
  {
    hide HashMap.Valid, HashMap.Map, Growth, AnswerTo, Failure;
    rrs, errorFlag' := [], errorFlag;
    var i := 0;
    while i < |qs|
      invariant 0 <= i <= |qs| && m.Valid()
      invariant rrs == AnswersTo(m.Snapshot(), qs[..i])
      invariant errorFlag' == SharedFlag(m.Snapshot(), qs[..i], errorFlag)
    {
      var rr;
      rr, errorFlag' := MakeRRReply(qs[i], errorFlag', m);
      assert qs[..i + 1][..i] == qs[..i];
      rrs := rrs + [rr];
      i := i + 1;
    }
    assert qs[..i] == qs;
  }

  /** `make_reply`. */
  method MakeReply(question: Message, m: DnsMap) returns (reply: Message)
    requires m.Valid()
    requires question.header.queryCount == |question.questions| && AllAnswerable(question.questions)
    ensures reply == ReplyTo(m.Snapshot(), question)
  {
    hide HashMap.Valid, HashMap.Map, Growth, SharedFlag, AnswersTo, EncodeFlags, DecodeFlags;
    var returnError := RCODE_NOERROR;
    var f := DecodeStatusFlags(question.header.flags);
    if f.qr != 0 {
      returnError := RCODE_FORMATERROR;
    }
    if f.opcode != OPCODE_QUERY && returnError == 0 {
      returnError := RCODE_FORMATERROR;
    }
    if f.tc != 0 && returnError == 0 {
      returnError := RCODE_NOTIMPLEMENTED;
    }
    var answerCount := question.header.queryCount;
    var answers, searchIpErrorFlag := MakeRRReplyAll(question.questions, 0, m);
    FlagValues(m.Snapshot(), question.questions);
    if searchIpErrorFlag != 0 && returnError == 0 {
      answers := [];
      answerCount := 0;
      if searchIpErrorFlag == 1 {
        returnError := RCODE_NAMEERROR;
      } else if searchIpErrorFlag == 2 {
        returnError := RCODE_NOTIMPLEMENTED;
      }
    }
    var flags := EncodeStatusFlags(Flags(1, OPCODE_QUERY, 1, 0, f.rd, 0, returnError));
    reply := Message(Header(question.header.id, flags, question.header.queryCount, answerCount, 0, 0),
                     question.questions, answers, [], []);
  }

  lemma {:induction false} FlagValues(s: State, qs: seq<Question>)
    requires AllAnswerable(qs)
    ensures SharedFlag(s, qs, 0) <= 2
  {
    if qs != [] {
      FlagValues(s, qs[..|qs| - 1]);
    }
  }
}
