/** `Server.Respond`: one request, one decision, at most one response. */
module Server {
  import opened Addresses
  import opened Basics
  import opened Messages
  import opened Names
  import opened Wire

  datatype Decision =
    | NoResponse
    | AddressDecision(address: MaybeAddr)
    | PtrDecision(name: Str)
    | Passthrough
    | Unavailable

  datatype Response = Silent | Forward | Send(bytes: Str)

  function ResponseFor(request: Str, q: Question, end: nat, decision: Decision): Response
    requires 12 <= end <= |request|
  {
    match decision
    case AddressDecision(ip) =>
      if q.qtype == TYPE_A then Send(AddressResponse(request, end, ip))
      else if q.qtype == TYPE_AAAA then Send(AddressResponse(request, end, Invalid))
      else Silent
    case PtrDecision(name) =>
      if name != [] then Send(PtrResponse(request, end, name)) else Send(AddressResponse(request, end, Invalid))
    case Passthrough => Forward
    case Unavailable => Send(FailureResponse(request, end))
    case NoResponse => Silent
  }

  lemma QuestionEnd(request: Str)
    requires ParsedQuestion(request).Some?
    ensures 17 <= ParsedQuestion(request).value.1 <= |request|
  {
    var (q, end) := ParsedQuestion(request).value;
    ParseQuestionExact(request, q, end);
  }

  /** The decision procedure is a parameter; None is a server without one. */
  method Respond(request: Str, decide: Option<Question -> Decision>) returns (r: Response)
    ensures ParsedQuestion(request).None? || decide.None? ==> r == Silent
    ensures ParsedQuestion(request).Some? && decide.Some? ==>
              var (q, end) := ParsedQuestion(request).value;
              17 <= end <= |request| && r == ResponseFor(request, q, end, decide.value(q))
    ensures ParsedQuestion(request).Some? && decide.Some? ==>
              var q := ParsedQuestion(request).value.0;
              && (r == Forward <==> decide.value(q).Passthrough?)
              && (r.Send? <==> Answered(decide.value(q), q.qtype))
  {
    var parsed := ParseQuestion(request);
    if parsed.None? || decide.None? {
      return Silent;
    }
    QuestionEnd(request);
    var (q, end) := parsed.value;
    var decision := decide.value(q);
    match decision {
      case AddressDecision(ip) =>
        if q.qtype == TYPE_A {
          var bytes := AddressAnswer(request, end, ip);
          return Send(bytes);
        }
        if q.qtype == TYPE_AAAA {
          var bytes := AddressAnswer(request, end, Invalid);
          return Send(bytes);
        }
        return Silent;
      case PtrDecision(name) =>
        var bytes;
        if name != [] {
          bytes := PtrAnswer(request, end, name);
        } else {
          bytes := AddressAnswer(request, end, Invalid);
        }
        return Send(bytes);
      case Passthrough =>
        return Forward;
      case Unavailable =>
        var bytes := ServerFailure(request, end);
        return Send(bytes);
      case NoResponse =>
        return Silent;
    }
  }

  /** Decisions that are answered: failures, PTR lookups, and addresses for questions of type A (1) or AAAA (28). */
  predicate Answered(decision: Decision, qtype: nat) {
    || decision.Unavailable? || decision.PtrDecision?
    || (decision.AddressDecision? && (qtype == 1 || qtype == 28))
  }

  /**
    The records a decision means as the answer to a question of this type for these labels: of
    type A (1) or PTR (12), class IN (1), for 600 seconds.
   */
  ghost function MeantRecords(decision: Decision, ls: seq<Str>, qtype: nat): seq<Record> {
    match decision
    case AddressDecision(ip) =>
      if ip.V4? && qtype == 1 then [Record(ls, 1, 1, 600, Address(ip.addr))] else []
    case PtrDecision(name) =>
      if name != [] then [Record(ls, 12, 1, 600, Target(Labels(TrimSuffixDot(name))))] else []
    case _ => []
  }

  /** A PTR name, absolute or relative, has labels that fit on the wire. */
  ghost predicate FitsWire(decision: Decision) {
    decision.PtrDecision? && decision.name != [] ==>
      var target := Labels(TrimSuffixDot(decision.name));
      WireLabels(target) && |EncodeLabels(target)| < 0x1_0000
  }

  lemma ValidNameFits(name: Str)
    requires ValidName(name)
    ensures FitsWire(PtrDecision(name)) && TrimSuffixDot(name) == name
  {
    ValidNameWire(name);
    EncodedLength(Labels(name));
    JoinSplit(name, DOT);
  }

  /** The record counts of the request, which responses copy, fit the records the response holds. */
  ghost predicate CountsFit(request: Str, records: seq<Record>)
    requires |request| >= 12
  {
    (records == [] ==> U16(request, 6) == 0) && U16(request, 8) == 0 && U16(request, 10) == 0
  }

  /**
    Ordinary names are forwarded, and exactly the answered decisions get a response. Every
    response is a well-formed message with the request's id and question, SERVFAIL exactly for
    an unavailable name, and exactly the records the decision means, if and only if the record
    counts it copies from the request fit; otherwise it cannot be decoded.
   */
  lemma {:induction false} ResponseMeansDecision(request: Str, ls: seq<Str>, end: nat, decision: Decision)
    requires HoldsQuestion(request, ls, end) && FitsWire(decision)
    ensures var r := ResponseFor(request, Question(Join(ls, DOT), U16(request, end - 4)), end, decision);
            var records := MeantRecords(decision, ls, U16(request, end - 4));
            && (r == Forward <==> decision.Passthrough?)
            && (r.Send? <==> Answered(decision, U16(request, end - 4)))
            && (Answered(decision, U16(request, end - 4)) ==>
                  DecodeMessage(r.bytes) ==
                  if CountsFit(request, records)
                  then Some(Meant(request, ls, end, if decision.Unavailable? then 2 else 0, records)) else None)
  {
    hide DecodeMessage;
    EmptyResponsesDecode(request, ls, end);
    if decision.AddressDecision? && decision.address.V4? {
      AddressResponseDecodes(request, ls, end, decision.address.addr);
    } else if decision.PtrDecision? && decision.name != [] {
      PtrResponseDecodes(request, ls, end, decision.name);
    }
  }

  /** A request that announces an additional record, as EDNS clients send, gets no readable answer of any kind. */
  lemma {:induction false} EdnsRequestUnreadable(request: Str, ls: seq<Str>, end: nat, decision: Decision)
    requires HoldsQuestion(request, ls, end) && U16(request, 10) > 0 && FitsWire(decision)
    ensures var r := ResponseFor(request, Question(Join(ls, DOT), U16(request, end - 4)), end, decision);
            Answered(decision, U16(request, end - 4)) ==> r.Send? && DecodeMessage(r.bytes) == None
  {
    hide DecodeMessage, ResponseFor, MeantRecords;
    ResponseMeansDecision(request, ls, end, decision);
  }
}
