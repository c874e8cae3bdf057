/** What `handle_datagram` sends back, from request bytes to reply bytes. */
module Replies {
  import opened Bytes
  import opened Messages
  import opened Names
  import opened Wire
  import opened DnsStates
  import opened Answers
  import opened Protocol

  // ---- The model in the numbers of the protocol ----

  lemma {:induction false} JoinIs(ls: seq<Label>)
    requires ls != []
    ensures Join(ls) == Spelled(ls)
  {
    hide Join;
    if |ls| == 1 {
      JoinOne(ls[0]);
      assert ls == [ls[0]];
    } else {
      JoinCons(ls);
      JoinIs(ls[1..]);
    }
  }

  /** Names are looked up under their labels joined by dots, up to the first NUL byte. */
  lemma DomainIs(ls: seq<Label>)
    requires ls != [] && CountFits(ls)
    ensures DomainOf(ls) == KeyOf(ls)
  {
    JoinIs(ls);
  }

  /** A look-up gives the address of the token of the name. */
  lemma ResolveIs(s: State, ls: seq<Label>)
    requires ls != [] && CountFits(ls)
    ensures Resolve(s, ls) == if HasAddress(s, ls) then Some(AddressOf(s, ls)) else None
  {
    hide KeyOf, DomainOf;
    DomainIs(ls);
  }

  /** A question for IN A or ANY is answered exactly when its name has an address, and with it; any
      other question is not answered. */
  lemma AnswerIs(s: State, q: Question)
    requires Answerable(q)
    ensures Failure(s, q) == if Answered(s, q) then 0 else if AsksForAddress(q) then 1 else 2
    ensures AnswerTo(s, q) == RecordFor(s, q)
  {
    hide Resolve, HasAddress, AddressOf;
    if AsksForAddress(q) {
      ResolveIs(s, q.labels);
    }
  }

  lemma AnswersAre(s: State, qs: seq<Question>)
    requires AllAnswerable(qs)
    ensures |AnswersTo(s, qs)| == |qs|
    ensures forall i :: 0 <= i < |qs| ==> AnswersTo(s, qs)[i] == RecordFor(s, qs[i])
  {
    hide AnswerTo, RecordFor;
    forall i | 0 <= i < |qs| ensures AnswersTo(s, qs)[i] == RecordFor(s, qs[i]) {
      AnswerIs(s, qs[i]);
    }
  }

  /** The header checks. */
  lemma HeaderErrorIs(flags: uint16)
    ensures HeaderError(flags) ==
            if flags / 0x8000 % 2 != 0 || flags / 0x800 % 16 != 0 then 1
            else if flags / 0x200 % 2 != 0 then 4 else 0
    ensures HeaderError(flags) == 0 <==> FineHeader(flags)
  {
  }

  /** A parsed message is one the reply builder can handle unless it looks up the root. */
  lemma HandledUnlessRoot(b: seq<uint8>)
    ensures CanBuild(Parse(b).0) <==>
            forall i :: 0 <= i < |Parse(b).0.questions| && AsksForAddress(Parse(b).0.questions[i]) ==>
              Parse(b).0.questions[i].labels != []
  {
    hide ParseHeader, ParseQuestions, ParseRRs;
    ParsedIsThere(b);
    var qs := ParseAll(b).0.questions;
    forall i | 0 <= i < |qs| ensures CountFits(CutQuestions(qs)[i].labels) {
      assert CutQuestions(qs)[i] == CutQuestion(qs[i]);
    }
  }

  /** Such a look-up of the root fits in a datagram: 17 bytes are enough. */
  lemma RootNotHandled()
    ensures exists b :: |b| == 17 && Accepts(b) && !CanBuild(Parse(b).0)
  {
    var m := Message(Header(0, 0, 1, 0, 0, 0), [Question([], 1, 1)], [], [], []);
    hide Encode, Parse;
    OneQuestionSize(m);
    PrintThenParse(m);
    assert Accepts(Encode(m));
    assert AsksForAddress(m.questions[0]);
  }

  lemma OneQuestionSize(m: Message)
    requires |m.questions| == 1 && m.answers == m.authorities == m.additionals == []
    ensures |Encode(m)| == 16 + |EncodeLabels(m.questions[0].labels)|
  {
    hide EncodeHeader, EncodeLabels;
    assert m.questions[..|m.questions| - 1] == [];
    assert |EncodeQuestions(m.questions)| == |EncodeQuestion(m.questions[0])|;
  }

  // ---- The response code ----

  lemma {:induction false} FlagIsLastFailure(s: State, qs: seq<Question>, k: nat)
    requires AllAnswerable(qs) && LastUnanswered(s, qs, k)
    ensures SharedFlag(s, qs, 0) == if AsksForAddress(qs[k]) then 1 else 2
  {
    hide Failure, Answered, AsksForAddress;
    var n := |qs| - 1;
    AnswerIs(s, qs[n]);
    if k < n {
      assert Answered(s, qs[n]);
      FlagIsLastFailure(s, qs[..n], k);
    }
  }

  lemma {:induction false} FlagIsZero(s: State, qs: seq<Question>)
    requires AllAnswerable(qs)
    ensures SharedFlag(s, qs, 0) == 0 <==> AllAnswered(s, qs)
  {
    hide Failure, Answered, AsksForAddress;
    if qs != [] {
      var n := |qs| - 1;
      FlagIsZero(s, qs[..n]);
      AnswerIs(s, qs[n]);
      if Answered(s, qs[n]) {
        assert AllAnswered(s, qs) <==> AllAnswered(s, qs[..n]);
      }
    }
  }

  lemma {:induction false} SomeLastFailure(s: State, qs: seq<Question>) returns (k: nat)
    requires !AllAnswered(s, qs)
    ensures LastUnanswered(s, qs, k)
  {
    hide Answered;
    k := |qs| - 1;
    if Answered(s, qs[k]) {
      k := SomeLastFailure(s, qs[..k]);
    }
  }

  /** The code that goes into the header is the right one. */
  lemma CodeIsRight(s: State, m: Message)
    requires CanBuild(m)
    ensures var err, flag := HeaderError(m.header.flags), SharedFlag(s, m.questions, 0);
            RightCode(s, m, if flag == 0 || err != 0 then err else if flag == 1 then 3 else 4)
  {
    hide HeaderError, SharedFlag, Answered;
    HeaderErrorIs(m.header.flags);
    FlagIsZero(s, m.questions);
    if !AllAnswered(s, m.questions) {
      var k := SomeLastFailure(s, m.questions);
      FlagIsLastFailure(s, m.questions, k);
    }
  }

  /** The header word of a reply. */
  lemma ReplyWord(rd: nat, rcode: nat)
    requires rd < 2 && rcode < 16
    ensures var v := EncodeFlags(Flags(1, 0, 1, 0, rd, 0, rcode));
            v == 0x8400 + rd * 0x100 + rcode && v % 16 == rcode && v / 0x10 % 8 == 0
  {
  }

  /** What the reply builder makes is the reply, in full. */
  lemma ReplyIs(s: State, m: Message)
    requires CanBuild(m)
    ensures IsReply(s, m, ReplyTo(s, m))
  {
    hide HeaderError, SharedFlag, EncodeFlags, AnswersTo, RecordFor, RightCode, AllAnswered;
    HeaderErrorIs(m.header.flags);
    FlagIsZero(s, m.questions);
    FlagValues(s, m.questions);
    CodeIsRight(s, m);
    AnswersAre(s, m.questions);
    var err, flag := HeaderError(m.header.flags), SharedFlag(s, m.questions, 0);
    ReplyWord(m.header.flags / 0x100 % 2, if flag == 0 || err != 0 then err else if flag == 1 then 3 else 4);
  }

  /** The reply has the id of the message. Its header word is made of QR and AA, RD copied, and the
      response code, and nothing else. The first failing check of the header decides the code; after
      them the last question without an answer does, and takes all answers away. */
  lemma RcodeDecided(s: State, m: Message)
    requires CanBuild(m)
    ensures var r, flags := ReplyTo(s, m), m.header.flags;
            var code := r.header.flags % 16;
            && r.header.id == m.header.id
            && r.header.flags == 0x8400 + flags / 0x100 % 2 * 0x100 + code && r.header.flags / 0x10 % 8 == 0
            && (flags / 0x8000 % 2 == 1 ==> code == 1)
            && (flags / 0x8000 % 2 == 0 && flags / 0x800 % 16 != 0 ==> code == 1)
            && (flags / 0x8000 % 2 == 0 && flags / 0x800 % 16 == 0 && flags / 0x200 % 2 == 1 ==> code == 4)
            && (FineHeader(flags) ==>
                  && (code == 0 <==> AllAnswered(s, m.questions))
                  && (!AllAnswered(s, m.questions) ==>
                        && r.answers == [] && r.header.answerCount == 0
                        && exists k: nat :: LastUnanswered(s, m.questions, k))
                  && forall k: nat :: LastUnanswered(s, m.questions, k) ==>
                       code == if AsksForAddress(m.questions[k]) then 3 else 4)
  {
    var r := ReplyTo(s, m);
    hide ReplyTo, Answered, AsksForAddress, RecordFor;
    ReplyIs(s, m);
    ZeroBits(r.header.flags, m.header.flags / 0x100 % 2);
    if !AllAnswered(s, m.questions) {
      var k := SomeLastFailure(s, m.questions);
    }
    forall k: nat | FineHeader(m.header.flags) && LastUnanswered(s, m.questions, k)
      ensures r.header.flags % 16 == if AsksForAddress(m.questions[k]) then 3 else 4
    {
      assert !Answered(s, m.questions[k]);
      OneCode(s, m, r.header.flags % 16, if AsksForAddress(m.questions[k]) then 3 else 4);
    }
  }

  lemma ZeroBits(v: nat, rd: nat)
    requires rd < 2 && v == 0x8400 + rd * 0x100 + v % 16
    ensures v / 0x10 % 8 == 0
  {
  }

  // ---- Replies can be printed ----

  lemma AnswersFit(s: State, qs: seq<Question>)
    requires AllAnswerable(qs)
    ensures RRsFit(AnswersTo(s, qs))
    ensures (forall i :: 0 <= i < |qs| ==> NoEmptyLabel(qs[i].labels)) ==> RRLabelsNonempty(AnswersTo(s, qs))
  {
    hide Resolve;
  }

  lemma AnswerSized(s: State, q: Question)
    requires Answerable(q)
    ensures |AnswerTo(s, q).data| == AnswerTo(s, q).dataSize <==> Addressed(s, q)
  {
    hide AnswerTo, HasAddress;
    AnswerIs(s, q);
  }

  lemma AnswersSized(s: State, qs: seq<Question>)
    requires AllAnswerable(qs)
    ensures DataSized(AnswersTo(s, qs)) <==> forall i :: 0 <= i < |qs| ==> Addressed(s, qs[i])
  {
    hide AnswerTo, Addressed;
    forall i | 0 <= i < |qs|
      ensures |AnswersTo(s, qs)[i].data| == AnswersTo(s, qs)[i].dataSize <==> Addressed(s, qs[i])
    {
      AnswerSized(s, qs[i]);
    }
  }

  /** Only a lookup error drops the answers. */
  lemma ReplyAnswers(s: State, m: Message)
    requires CanBuild(m)
    ensures ReplyTo(s, m).answers ==
            if FineHeader(m.header.flags) && !AllAnswered(s, m.questions) then [] else AnswersTo(s, m.questions)
    ensures ReplyTo(s, m).questions == m.questions && CountsMatch(ReplyTo(s, m))
    ensures ReplyTo(s, m).authorities == ReplyTo(s, m).additionals == []
  {
    hide SharedFlag, EncodeFlags, DecodeFlags, HeaderError, AnswersTo, AllAnswered, FineHeader;
    HeaderErrorIs(m.header.flags);
    FlagIsZero(s, m.questions);
  }

  lemma AnsweredIsAddressed(s: State, qs: seq<Question>)
    requires AllAnswered(s, qs)
    ensures forall i :: 0 <= i < |qs| ==> Addressed(s, qs[i])
  {
    hide HasAddress;
  }

  lemma ReplyPrintable(s: State, m: Message)
    requires CanBuild(m)
    ensures Printable(ReplyTo(s, m)) <==> CanPrint(s, m)
    ensures LabelsNonempty(m) ==> LabelsNonempty(ReplyTo(s, m))
  {
    hide ReplyTo, AnswersTo, Addressed, AllAnswered, FineHeader;
    ReplyAnswers(s, m);
    AnswersFit(s, m.questions);
    AnswersSized(s, m.questions);
    if AllAnswered(s, m.questions) {
      AnsweredIsAddressed(s, m.questions);
    }
  }

  /** A query that is marked as a response and asks for a name that does not resolve is not
      sendable. It fits in a datagram: for a name of one byte, 19 bytes are enough. */
  lemma UnresolvedNotSendable(s: State, l: Label)
    requires l != [] && !HasAddress(s, [l])
    ensures exists b :: |b| == 18 + |l| <= 512 && Accepts(b) && CanBuild(Parse(b).0) && !CanPrint(s, Parse(b).0)
  {
    hide Encode, EncodeLabels, Parse, HasAddress;
    var m := Message(Header(0, 0x8000, 1, 0, 0, 0), [Question([l], 1, 1)], [], [], []);
    OneQuestionSize(m);
    OneLabelSize(l);
    PrintThenParse(m);
    assert Accepts(Encode(m));
    assert !Addressed(s, m.questions[0]);
  }

  lemma OneLabelSize(l: Label)
    ensures |EncodeLabels([l])| == 2 + |l|
  {
    assert [l][1..] == [];
  }

  // ---- Sizes ----

  function SupportedCount(qs: seq<Question>): (n: nat)
    ensures n <= |qs|
    ensures (forall i :: 0 <= i < |qs| ==> AsksForAddress(qs[i])) ==> n == |qs|
  {
    if qs == [] then 0 else SupportedCount(qs[..|qs| - 1]) + if AsksForAddress(qs[|qs| - 1]) then 1 else 0
  }

  lemma AnswerSize(s: State, q: Question)
    requires Answerable(q)
    ensures var n, k := |EncodeRR(AnswerTo(s, q))|, |EncodeQuestion(q)| + 6 + if AsksForAddress(q) then 4 else 0;
            n <= k && (Addressed(s, q) ==> n == k)
  {
    hide EncodeLabels, EncodeRRRest, HasAddress, AnswerTo;
    AnswerIs(s, q);
  }

  /** Every record repeats its question and adds six bytes, and four more for an address. */
  lemma {:induction false} AnswersSize(s: State, qs: seq<Question>)
    requires AllAnswerable(qs)
    ensures var n, k := |EncodeRRs(AnswersTo(s, qs))|, |EncodeQuestions(qs)| + 6 * |qs| + 4 * SupportedCount(qs);
            n <= k && ((forall i :: 0 <= i < |qs| ==> Addressed(s, qs[i])) ==> n == k)
  {
    hide EncodeRR, EncodeQuestion, AnswerTo, Addressed, AsksForAddress;
    if qs != [] {
      var n := |qs| - 1;
      assert AnswersTo(s, qs)[..n] == AnswersTo(s, qs[..n]);
      AnswersSize(s, qs[..n]);
      AnswerSize(s, qs[n]);
    }
  }

  /** A name to look up takes three bytes at least, and the rest of a question four. */
  lemma {:induction false} QuestionsTakeFiveBytes(qs: seq<Question>)
    requires AllAnswerable(qs)
    requires forall i :: 0 <= i < |qs| ==> NoEmptyLabel(qs[i].labels)
    ensures 5 * |qs| + 2 * SupportedCount(qs) <= |EncodeQuestions(qs)|
  {
    hide EncodeLabels, NoEmptyLabel;
    if qs != [] {
      var n := |qs| - 1;
      QuestionsTakeFiveBytes(qs[..n]);
      LabelsTakeTwoBytes(qs[n].labels);
    }
  }

  /** `handle_datagram`: nothing for a buffer that is too short, otherwise the printed reply. */
  ghost function ReplyBytes(s: State, b: seq<uint8>): Option<seq<uint8>>
    requires Accepts(b) ==> CanBuild(Parse(b).0)
  {
    if Accepts(b) then Some(Encode(ReplyTo(s, Parse(b).0))) else None
  }

  /** Nothing is sent back, or a reply the builder and the printer can make. */
  ghost predicate CanReply(s: State, b: seq<uint8>) {
    Accepts(b) ==> CanBuild(Parse(b).0) && CanPrint(s, Parse(b).0) && |ReplyBytes(s, b).value| < 0x1_0000_0000
  }

  lemma QuestionsInside(b: seq<uint8>)
    requires Accepts(b)
    ensures 12 + |EncodeQuestions(Parse(b).0.questions)| <= |b|
  {
    hide EncodeHeader, EncodeQuestions, EncodeRRs, Parse, Printable, LabelsNonempty;
    ParsedPrintable(b);
  }

  lemma ReplyParts(s: State, m: Message)
    requires CanBuild(m)
    ensures |Encode(ReplyTo(s, m))| == 12 + |EncodeQuestions(m.questions)| +
              if FineHeader(m.header.flags) && !AllAnswered(s, m.questions) then 0
              else |EncodeRRs(AnswersTo(s, m.questions))|
  {
    hide EncodeHeader, EncodeQuestions, ReplyTo, FineHeader, AnswersTo, AllAnswered;
    ReplyAnswers(s, m);
  }

  lemma SizesInDatagram(q: nat, k: nat, n: nat)
    requires 5 * k + 2 * n <= q <= 500 && n <= k
    ensures 2 * q + 6 * k + 4 * n <= 1712 && (n == k ==> 2 * q + 10 * k <= 1710)
  {
  }

  /** The size of the reply to a buffer with Q bytes of k questions, n of which are IN A or ANY: a
      lookup error takes 12 + Q bytes, no more than the request; a header error, and an answer,
      12 + 2Q + 6k + 4n. For a datagram of at most 512 bytes that is at most 1724, and 1722 without
      a header error. */
  lemma ReplySize(s: State, b: seq<uint8>)
    requires Accepts(b) && CanBuild(Parse(b).0) && CanPrint(s, Parse(b).0)
    ensures var m, out := Parse(b).0, ReplyBytes(s, b).value;
            var fine, answered := FineHeader(m.header.flags), AllAnswered(s, m.questions);
            var q, k, n := |EncodeQuestions(m.questions)|, |m.questions|, SupportedCount(m.questions);
            && 5 * k + 2 * n <= q
            && (fine && !answered ==> |out| == 12 + q <= |b|)
            && (!fine || answered ==> |out| == 12 + 2 * q + 6 * k + 4 * n)
            && (answered ==> n == k)
            && (|b| <= 512 ==> |out| <= if fine then 1722 else 1724)
  {
    hide EncodeHeader, EncodeQuestions, FineHeader, Parse, AnswersTo, ReplyTo, Encode, EncodeRRs, HasAddress;
    var m := Parse(b).0;
    ParsedPrintable(b);
    QuestionsInside(b);
    ReplyParts(s, m);
    AnswersSize(s, m.questions);
    QuestionsTakeFiveBytes(m.questions);
    if |b| <= 512 {
      SizesInDatagram(|EncodeQuestions(m.questions)|, |m.questions|, SupportedCount(m.questions));
    }
  }

  /** The index of the printer is an unsigned int. Replies to datagrams stay far below its range. */
  lemma ReplyIsSmall(s: State, b: seq<uint8>)
    requires Accepts(b) && CanBuild(Parse(b).0) && |b| < 0x4000_0000
    ensures |Encode(ReplyTo(s, Parse(b).0))| < 0x1_0000_0000
  {
    hide EncodeHeader, EncodeQuestions, FineHeader, Parse, AnswersTo, ReplyTo, Encode, EncodeRRs, HasAddress;
    var m := Parse(b).0;
    ParsedPrintable(b);
    QuestionsInside(b);
    ReplyParts(s, m);
    AnswersSize(s, m.questions);
    QuestionsTakeFiveBytes(m.questions);
  }

  /** A header error keeps every answer: one record a question, each with the name asked for, and
      the address if there is one. */
  lemma HeaderErrorKeepsAnswers(s: State, m: Message)
    requires CanBuild(m) && !FineHeader(m.header.flags)
    ensures var r := ReplyTo(s, m);
            && r.header.answerCount == |r.answers| == |m.questions|
            && forall i :: 0 <= i < |m.questions| ==>
                 var q, a := m.questions[i], r.answers[i];
                 && a.labels == q.labels && a.rtype == q.qtype && a.rclass == q.qclass
                 && (Answered(s, q) ==> a.ttl == 300 && a.dataSize == 4 && a.data == AddressOf(s, q.labels))
                 && (!Answered(s, q) ==> a.data == [])
                 && (!AsksForAddress(q) ==> a.ttl == 0 && a.dataSize == 0)
  {
    hide ReplyTo, HasAddress, FineHeader;
    ReplyIs(s, m);
  }

  // ---- End to end ----

  /** What is sent back is parsed as the reply that was built, to the last byte. */
  lemma ReplyArrives(s: State, b: seq<uint8>)
    requires Accepts(b) && CanBuild(Parse(b).0) && CanPrint(s, Parse(b).0)
    ensures var out := ReplyBytes(s, b).value; Parse(out) == (ReplyTo(s, Parse(b).0), |out|)
  {
    hide Encode, Printable, ReplyTo, Parse, CanPrint;
    ParsedPrintable(b);
    ReplyPrintable(s, Parse(b).0);
    PrintThenParse(ReplyTo(s, Parse(b).0));
  }

  /** Every accepted buffer that can be handled gets the reply to its message, in exactly the bytes
      sent back, and with the first two bytes of the buffer in front. */
  lemma ReplySent(s: State, b: seq<uint8>)
    requires Accepts(b) && CanBuild(Parse(b).0) && CanPrint(s, Parse(b).0)
    ensures var out := ReplyBytes(s, b).value;
            var (r, n) := Parse(out);
            && n == |out| && IsReply(s, Parse(b).0, r)
            && r.header.id == Parse(b).0.header.id
  {
    hide Parse, ReplyTo, CanPrint, IsReply, Encode;
    ReplyArrives(s, b);
    ReplyIs(s, Parse(b).0);
    SameId(s, Parse(b).0, ReplyTo(s, Parse(b).0));
  }

  lemma SameId(s: State, m: Message, r: Message)
    requires IsReply(s, m, r)
    ensures r.header.id == m.header.id
  {
  }

  /** From request bytes to reply bytes: for a query whose questions are all IN A or ANY for names
      that are linked to a bound token, parsing what is sent back gives the same id and questions,
      QR and AA set, RD copied, no error, and for every question a record with its labels and the
      address the map holds. */
  lemma EndToEnd(s: State, b: seq<uint8>, m: Message)
    requires Accepts(b) && Parse(b).0 == m && CanBuild(m) && FineHeader(m.header.flags)
    requires AllAnswered(s, m.questions)
    ensures var out := ReplyBytes(s, b).value;
            var (r, n) := Parse(out);
            && n == |out|
            && r.header.id == m.header.id && r.questions == m.questions
            && r.header.flags == 0x8400 + m.header.flags / 0x100 % 2 * 0x100
            && r.authorities == [] && r.additionals == []
            && |r.answers| == |m.questions|
            && forall i :: 0 <= i < |m.questions| ==>
                 var q := m.questions[i];
                 r.answers[i] == RR(q.labels, q.qtype, q.qclass, 300, 4, AddressOf(s, q.labels))
  {
    hide Encode, Parse, HasAddress, AddressOf;
    ReplySent(s, b);
  }

  /** Whether a key is registered, and its token bound. */
  predicate Stored(s: State, key: CString) {
    key in s.domainToToken && s.domainToToken[key] in s.tokenToIp
  }

  predicate AllStored(s: State, keys: seq<CString>) {
    forall i :: 0 <= i < |keys| ==> Stored(s, keys[i])
  }

  lemma PlainAnswer(s: State, q: Question, key: CString)
    requires q.qclass == 1 && (q.qtype == 1 || q.qtype == 255) && q.labels != [] && CountFits(q.labels)
    requires key == Join(q.labels)
    ensures AsksForAddress(q) && (Answered(s, q) <==> Stored(s, key))
    ensures Stored(s, key) ==> RecordFor(s, q).data == s.tokenToIp[s.domainToToken[key]]
  {
    hide KeyOf, Join;
    PlainKey(q.labels, key);
  }

  /** The same for names without NUL bytes, whose keys are their labels joined by dots, and in both
      directions: a query for such names gets a record with the stored address for every name, or a
      name error if some name is not registered or its token has no address. */
  lemma PlainEndToEnd(s: State, b: seq<uint8>, m: Message, keys: seq<CString>)
    requires Accepts(b) && Parse(b).0 == m && CanBuild(m) && FineHeader(m.header.flags)
    requires |keys| == |m.questions|
    requires forall i :: 0 <= i < |keys| ==>
               var q := m.questions[i];
               && q.qclass == 1 && (q.qtype == 1 || q.qtype == 255)
               && q.labels != [] && keys[i] == Join(q.labels)
    ensures var r := Parse(ReplyBytes(s, b).value).0;
            if AllStored(s, keys) then
              && r.header.flags % 16 == 0 && |r.answers| == |keys|
              && forall i :: 0 <= i < |keys| ==> r.answers[i].data == s.tokenToIp[s.domainToToken[keys[i]]]
            else r.header.flags % 16 == 3 && r.answers == []
  {
    hide Parse, Join, RecordFor, Answered, AsksForAddress;
    forall i | 0 <= i < |keys|
      ensures AsksForAddress(m.questions[i]) && (Answered(s, m.questions[i]) <==> Stored(s, keys[i]))
      ensures Stored(s, keys[i]) ==> RecordFor(s, m.questions[i]).data == s.tokenToIp[s.domainToToken[keys[i]]]
    {
      PlainAnswer(s, m.questions[i], keys[i]);
    }
    ReplySent(s, b);
    assert AllAnswered(s, m.questions) <==> AllStored(s, keys);
  }

  lemma PlainKey(ls: seq<Label>, key: CString)
    requires ls != [] && CountFits(ls) && key == Join(ls)
    ensures KeyOf(ls) == key
  {
    JoinIs(ls);
  }
}
