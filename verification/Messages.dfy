/** DNS messages as `message.h` lays them out. A label list stands for the first `labels_size`
    labels of the C array. */
module Messages {
  import opened Bytes

  type Label = s: seq<uint8> | |s| < 0x100

  datatype Header = Header(id: uint16, flags: uint16, queryCount: uint16, answerCount: uint16,
                           authorityCount: uint16, additionalCount: uint16)

  datatype Question = Question(labels: seq<Label>, qtype: uint16, qclass: uint16)

  datatype RR = RR(labels: seq<Label>, rtype: uint16, rclass: uint16, ttl: uint32,
                   dataSize: uint16, data: seq<uint8>)

  datatype Message = Message(header: Header, questions: seq<Question>, answers: seq<RR>,
                             authorities: seq<RR>, additionals: seq<RR>)

  // ---- What the printer needs ----

  predicate CountFits(ls: seq<Label>) {
    |ls| < 0x1_0000
  }

  predicate QuestionsFit(qs: seq<Question>) {
    forall i :: 0 <= i < |qs| ==> CountFits(qs[i].labels)
  }

  predicate RRsFit(rrs: seq<RR>) {
    forall i :: 0 <= i < |rrs| ==> CountFits(rrs[i].labels)
  }

  predicate DataSized(rrs: seq<RR>) {
    forall i :: 0 <= i < |rrs| ==> |rrs[i].data| == rrs[i].dataSize
  }

  predicate CountsMatch(m: Message) {
    && m.header.queryCount == |m.questions|
    && m.header.answerCount == |m.answers|
    && m.header.authorityCount == |m.authorities|
    && m.header.additionalCount == |m.additionals|
  }

  /** Every count in the message describes the array it belongs to, and every label count is a
      uint16. */
  predicate Printable(m: Message) {
    && CountsMatch(m)
    && LabelCountsFit(m)
    && DataSized(m.answers) && DataSized(m.authorities) && DataSized(m.additionals)
  }

  predicate LabelCountsFit(m: Message) {
    && QuestionsFit(m.questions)
    && RRsFit(m.answers) && RRsFit(m.authorities) && RRsFit(m.additionals)
  }

  // ---- What only parsing can tell apart ----

  predicate NoEmptyLabel(ls: seq<Label>) {
    forall i :: 0 <= i < |ls| ==> ls[i] != []
  }

  predicate LabelsNonempty(m: Message) {
    && (forall i :: 0 <= i < |m.questions| ==> NoEmptyLabel(m.questions[i].labels))
    && RRLabelsNonempty(m.answers) && RRLabelsNonempty(m.authorities) && RRLabelsNonempty(m.additionals)
  }

  predicate RRLabelsNonempty(rrs: seq<RR>) {
    forall i :: 0 <= i < |rrs| ==> NoEmptyLabel(rrs[i].labels)
  }
}
