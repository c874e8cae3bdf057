/** What is asked of the server, and what it is to answer, in the numbers of the protocol: class IN
    is 1, types A and ANY are 1 and 255, and the fields of the second header word (section 4.1.1 of
    RFC 1035) are quotients and remainders. Nothing here mentions how replies are built. */
module Protocol {
  import opened Bytes
  import opened Messages
  import opened DnsStates

  // ---- Names ----

  /** The labels with dots between them. */
  function Spelled(ls: seq<Label>): (s: seq<uint8>)
    requires ls != []
    ensures |s| < 256 * |ls|
  {
    if |ls| == 1 then ls[0] else ls[0] + [46] + Spelled(ls[1..])
  }

  /** The key of a name: it ends in front of the first NUL byte. */
  function KeyOf(ls: seq<Label>): CString
    requires ls != [] && CountFits(ls)
  {
    CStr(Spelled(ls))
  }

  /** The name is linked to a token that is bound. */
  predicate HasAddress(s: State, ls: seq<Label>) {
    && ls != [] && CountFits(ls)
    && KeyOf(ls) in s.domainToToken
    && s.domainToToken[KeyOf(ls)] in s.tokenToIp
  }

  function AddressOf(s: State, ls: seq<Label>): Ipv4
    requires HasAddress(s, ls)
  {
    s.tokenToIp[s.domainToToken[KeyOf(ls)]]
  }

  // ---- Questions ----

  predicate AsksForAddress(q: Question) {
    q.qclass == 1 && (q.qtype == 1 || q.qtype == 255)
  }

  predicate Answered(s: State, q: Question) {
    AsksForAddress(q) && HasAddress(s, q.labels)
  }

  /** The question asks for no address, or there is one. */
  predicate Addressed(s: State, q: Question) {
    AsksForAddress(q) ==> HasAddress(s, q.labels)
  }

  predicate AllAnswered(s: State, qs: seq<Question>) {
    forall i :: 0 <= i < |qs| ==> Answered(s, qs[i])
  }

  /** Question k is not answered, and every later one is. */
  ghost predicate LastUnanswered(s: State, qs: seq<Question>, k: nat) {
    k < |qs| && !Answered(s, qs[k]) && forall j :: k < j < |qs| ==> Answered(s, qs[j])
  }

  /** The record for a question: an address with a time to live of 300 seconds, for the name, type
      and class asked for, or nothing. */
  function RecordFor(s: State, q: Question): RR {
    if !AsksForAddress(q) then RR(q.labels, q.qtype, q.qclass, 0, 0, [])
    else RR(q.labels, q.qtype, q.qclass, 300, 4, if HasAddress(s, q.labels) then AddressOf(s, q.labels) else [])
  }

  // ---- Headers ----

  /** QR, OPCODE and TC are zero. */
  predicate FineHeader(flags: uint16) {
    flags / 0x8000 % 2 == 0 && flags / 0x800 % 16 == 0 && flags / 0x200 % 2 == 0
  }

  /** The response code: 1 for a response or another operation, 4 for a truncated query; after that
      0 if everything is answered, otherwise 3 if the last question that is not asks for an
      address, and 4 if it asks for anything else. */
  ghost predicate RightCode(s: State, m: Message, code: nat) {
    var flags := m.header.flags;
    if flags / 0x8000 % 2 != 0 || flags / 0x800 % 16 != 0 then code == 1
    else if flags / 0x200 % 2 != 0 then code == 4
    else if AllAnswered(s, m.questions) then code == 0
    else
      exists k: nat :: LastUnanswered(s, m.questions, k) && code == if AsksForAddress(m.questions[k]) then 3 else 4
  }

  /** r is the reply to m in state s: the id, RD and the questions copied, QR and AA set, the zero
      bits zero, the right response code, and a record for every question unless the look-up
      failed. */
  ghost predicate IsReply(s: State, m: Message, r: Message) {
    && r.header.id == m.header.id
    && r.header.flags == 0x8400 + m.header.flags / 0x100 % 2 * 0x100 + r.header.flags % 16
    && RightCode(s, m, r.header.flags % 16)
    && r.header.queryCount == |m.questions| && r.questions == m.questions
    && r.header.answerCount == |r.answers|
    && (if FineHeader(m.header.flags) && !AllAnswered(s, m.questions) then r.answers == []
        else
          && |r.answers| == |m.questions|
          && forall i :: 0 <= i < |m.questions| ==> r.answers[i] == RecordFor(s, m.questions[i]))
    && r.header.authorityCount == 0 && r.authorities == []
    && r.header.additionalCount == 0 && r.additionals == []
  }

  /** There is only one. */
  lemma OneReply(s: State, m: Message, r: Message, r': Message)
    requires IsReply(s, m, r) && IsReply(s, m, r')
    ensures r == r'
  {
    assert r.header.flags == r'.header.flags by {
      OneCode(s, m, r.header.flags % 16, r'.header.flags % 16);
    }
    assert r.answers == r'.answers;
  }

  lemma OneCode(s: State, m: Message, code: nat, code': nat)
    requires RightCode(s, m, code) && RightCode(s, m, code')
    ensures code == code'
  {
    hide Answered, AsksForAddress;
  }

  /** What the reply builder relies on: the count of the questions, and a label in every name to
      look up. */
  predicate CanBuild(m: Message) {
    && m.header.queryCount == |m.questions|
    && forall i :: 0 <= i < |m.questions| ==>
         CountFits(m.questions[i].labels) && (AsksForAddress(m.questions[i]) ==> m.questions[i].labels != [])
  }

  /** What the printer relies on: an address behind every data pointer it follows. */
  predicate CanPrint(s: State, m: Message) {
    FineHeader(m.header.flags) || forall i :: 0 <= i < |m.questions| ==> Addressed(s, m.questions[i])
  }
}
