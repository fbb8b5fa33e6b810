/**
  A reference decoder for DNS messages (sections 4.1.1 to 4.1.4 of RFC 1035), written without
  regard to the server's code, and what it recovers from the server's responses.
 */
module Messages {
  import opened Addresses
  import opened Basics
  import opened Names
  import opened RangeKeys
  import opened Wire

  datatype Flags = Flags(
    response: bool, opcode: nat, authoritative: bool, truncated: bool, recursionDesired: bool,
    recursionAvailable: bool, reserved: nat, rcode: nat)

  datatype Asked = Asked(name: seq<Str>, qtype: nat, qclass: nat)

  datatype RData = Address(addr: Addr) | Target(name: seq<Str>) | Other(bytes: Str)

  datatype Record = Record(owner: seq<Str>, rtype: nat, rclass: nat, ttl: nat, rdata: RData)

  datatype Message = Message(
    id: nat, flags: Flags, questions: seq<Asked>, answers: seq<Record>, authority: seq<Record>, additional: seq<Record>)

  function DecodeFlags(hi: byte, lo: byte): Flags {
    Flags(hi / 128 == 1, hi / 8 % 16, hi / 4 % 2 == 1, hi / 2 % 2 == 1, hi % 2 == 1, lo / 128 == 1, lo / 16 % 8, lo % 16)
  }

  /**
    A possibly compressed name at p; a pointer must point before `limit`. Returns the labels and
    the offset after the name.
   */
  function DecodeName(b: Str, p: nat, limit: nat): Option<(seq<Str>, nat)>
    decreases limit, |b| - p
  {
    if p >= |b| then None
    else if b[p] == 0 then Some(([], p + 1))
    else if b[p] < 64 then
      if p + 1 + b[p] > |b| then None
      else
        var rest := DecodeName(b, p + 1 + b[p], limit);
        if rest.None? then None else Some(([b[p + 1..p + 1 + b[p]]] + rest.value.0, rest.value.1))
    else if b[p] < 192 || p + 2 > |b| then None
    else
      var target := (b[p] as nat - 192) * 256 + b[p + 1] as nat;
      if target >= limit then None
      else
        var rest := DecodeName(b, target, target);
        if rest.None? then None else Some((rest.value.0, p + 2))
  }

  function DecodeQuestions(b: Str, p: nat, n: nat): Option<(seq<Asked>, nat)>
    decreases n
  {
    if n == 0 then Some(([], p))
    else
      var name := DecodeName(b, p, p);
      if name.None? || name.value.1 + 4 > |b| then None
      else
        var q := name.value.1;
        var rest := DecodeQuestions(b, q + 4, n - 1);
        if rest.None? then None else Some(([Asked(name.value.0, U16(b, q), U16(b, q + 2))] + rest.value.0, rest.value.1))
  }

  /** The data of a record of type A (1), PTR (12) or another; a name inside it must fill it exactly. */
  function DecodeRData(b: Str, p: nat, length: nat, rtype: nat): Option<RData>
    requires p + length <= |b|
  {
    if rtype == 1 then
      if length != 4 then None else Some(Address(FromOctets([b[p], b[p + 1], b[p + 2], b[p + 3]])))
    else if rtype == 12 then
      var name := DecodeName(b, p, p);
      if name.None? || name.value.1 != p + length then None else Some(Target(name.value.0))
    else Some(Other(b[p..p + length]))
  }

  function DecodeRecord(b: Str, p: nat): Option<(Record, nat)> {
    var name := DecodeName(b, p, p);
    if name.None? || name.value.1 + 10 > |b| then None
    else
      var q := name.value.1;
      var end := q + 10 + U16(b, q + 8);
      if end > |b| then None
      else
        var rdata := DecodeRData(b, q + 10, U16(b, q + 8), U16(b, q));
        if rdata.None? then None
        else
          var ttl := U16(b, q + 4) * 0x1_0000 + U16(b, q + 6);
          Some((Record(name.value.0, U16(b, q), U16(b, q + 2), ttl, rdata.value), end))
  }

  function DecodeRecords(b: Str, p: nat, n: nat): Option<(seq<Record>, nat)>
    decreases n
  {
    if n == 0 then Some(([], p))
    else
      var first := DecodeRecord(b, p);
      if first.None? then None
      else
        var rest := DecodeRecords(b, first.value.1, n - 1);
        if rest.None? then None else Some(([first.value.0] + rest.value.0, rest.value.1))
  }

  /** A whole message: the header and as many entries as it announces, with nothing left over. */
  function DecodeMessage(b: Str): Option<Message> {
    if |b| < 12 then None
    else
      var questions := DecodeQuestions(b, 12, U16(b, 4));
      if questions.None? then None
      else
        var answers := DecodeRecords(b, questions.value.1, U16(b, 6));
        if answers.None? then None
        else
          var authority := DecodeRecords(b, answers.value.1, U16(b, 8));
          if authority.None? then None
          else
            var additional := DecodeRecords(b, authority.value.1, U16(b, 10));
            if additional.None? || additional.value.1 != |b| then None
            else
              Some(Message(
                U16(b, 0), DecodeFlags(b[2], b[3]),
                questions.value.0, answers.value.0, authority.value.0, additional.value.0))
  }

  // ----- pieces of a response

  lemma DecodeNameCons(b: Str, p: nat, limit: nat, part: Str, rest: seq<Str>, q: nat)
    requires 1 <= |part| <= 63 && p + 1 + |part| <= |b| && b[p] == |part| && b[p + 1..p + 1 + |part|] == part
    requires DecodeName(b, p + 1 + |part|, limit) == Some((rest, q))
    ensures DecodeName(b, p, limit) == Some(([part] + rest, q))
  {
  }

  lemma DecodeNameNil(b: Str, p: nat, limit: nat)
    requires p < |b| && b[p] == 0
    ensures DecodeName(b, p, limit) == Some(([], p + 1))
  {
  }

  lemma {:induction false} DecodePlainName(b: Str, p: nat, limit: nat, ls: seq<Str>)
    requires WireLabels(ls) && p + |EncodeLabels(ls)| <= |b| && b[p..p + |EncodeLabels(ls)|] == EncodeLabels(ls)
    ensures DecodeName(b, p, limit) == Some((ls, p + |EncodeLabels(ls)|))
    decreases ls
  {
    hide DecodeName;
    if ls == [] {
      assert b[p] == b[p..p + 1][0];
      DecodeNameNil(b, p, limit);
    } else {
      EncodedPieces(b, p, ls);
      DecodePlainName(b, p + 1 + |ls[0]|, limit, ls[1..]);
      DecodeNameCons(b, p, limit, ls[0], ls[1..], p + |EncodeLabels(ls)|);
      assert [ls[0]] + ls[1..] == ls;
    }
  }

  /** The bytes of a response: a reply to a request that holds a question, perhaps with a record after it. */
  ghost predicate IsReply(b: Str, request: Str, ls: seq<Str>, end: nat) {
    && HoldsQuestion(request, ls, end)
    && end <= |b| && b[12..end] == request[12..end]
    && b[..2] == request[..2] && b[4..6] == request[4..6] && b[8..12] == request[8..12]
    && b[2] == 0x80 + request[2] % 2
  }

  /** Equal slices hold equal words. */
  lemma SameWord(b: Str, c: Str, i: nat, p: nat, j: nat)
    requires i <= p && p + 2 <= j <= |b| && j <= |c| && b[i..j] == c[i..j]
    ensures U16(b, p) == U16(c, p)
  {
    assert b[p] == b[i..j][p - i] && b[p + 1] == b[i..j][p + 1 - i];
    assert c[p] == c[i..j][p - i] && c[p + 1] == c[i..j][p + 1 - i];
  }

  lemma ReplyQuestion(b: Str, request: Str, ls: seq<Str>, end: nat)
    requires IsReply(b, request, ls, end)
    ensures DecodeName(b, 12, 12) == Some((ls, end - 4))
    ensures DecodeQuestions(b, 12, U16(b, 4)) == Some(([Asked(ls, U16(request, end - 4), U16(request, end - 2))], end))
  {
    SubSlice(b, 12, request[12..end], 0, end - 16);
    SubSlice(request, 12, request[12..end], 0, end - 16);
    DecodePlainName(b, 12, 12, ls);
    SameWord(b, request, 4, 4, 6);
    SameWord(b, request, 12, end - 4, end);
    SameWord(b, request, 12, end - 2, end);
    var asked := Asked(ls, U16(request, end - 4), U16(request, end - 2));
    assert DecodeQuestions(b, end, 0) == Some(([], end));
    assert [asked] + [] == [asked];
    assert U16(b, 4) == 1;
  }

  /** The compressed owner of the answer resolves to the question's name. */
  lemma OwnerPointer(b: Str, request: Str, ls: seq<Str>, end: nat)
    requires IsReply(b, request, ls, end) && end + 2 <= |b| && b[end] == 0xC0 && b[end + 1] == 0x0C
    ensures DecodeName(b, end, end) == Some((ls, end + 2))
  {
    ReplyQuestion(b, request, ls, end);
  }

  /** Only the flags and the answer count differ from the request. */
  ghost predicate KeepsRequest(h: Str, request: Str, end: nat) {
    && |h| == end <= |request|
    && (forall i | 0 <= i < end && i != 2 && i != 3 && i != 6 && i != 7 :: h[i] == request[i])
  }

  lemma ReplyBytes(h: Str, record: Str, request: Str, ls: seq<Str>, end: nat)
    requires HoldsQuestion(request, ls, end) && KeepsRequest(h, request, end) && h[2] == 0x80 + request[2] % 2
    ensures IsReply(h + record, request, ls, end)
    ensures forall p | p in {0, 8, 10} :: U16(h + record, p) == U16(request, p)
  {
    var b := h + record;
    assert b[12..end] == request[12..end];
    assert b[..2] == request[..2];
    assert b[4..6] == request[4..6];
    assert b[8..12] == request[8..12];
  }

  /** The message meant by a response to this request. */
  ghost function Meant(request: Str, ls: seq<Str>, end: nat, rcode: nat, answers: seq<Record>): Message
    requires HoldsQuestion(request, ls, end)
  {
    Message(
      U16(request, 0),
      Flags(true, 0, false, false, request[2] % 2 == 1, false, 0, rcode),
      [Asked(ls, U16(request, end - 4), U16(request, end - 2))],
      answers, [], [])
  }

  lemma NothingLeft(b: Str, n: nat)
    ensures n > 0 ==> DecodeRecords(b, |b|, n) == None
  {
  }

  /** A response whose answers run to its end decodes exactly when no further records are announced. */
  lemma {:induction false} ReplyDecodes(b: Str, request: Str, ls: seq<Str>, end: nat, answers: seq<Record>)
    requires IsReply(b, request, ls, end) && (b[3] == 0 || b[3] == 2)
    requires forall p | p in {0, 8, 10} :: U16(b, p) == U16(request, p)
    requires DecodeRecords(b, end, U16(b, 6)) == Some((answers, |b|))
    ensures DecodeMessage(b) ==
            if U16(request, 8) == 0 && U16(request, 10) == 0 then Some(Meant(request, ls, end, b[3], answers)) else None
  {
    hide DecodeRecords, DecodeQuestions;
    ReplyQuestion(b, request, ls, end);
    NothingLeft(b, U16(b, 8));
    NothingLeft(b, U16(b, 10));
    NoRecords(b, |b|);
    assert U16(b, 0) == U16(request, 0) && U16(b, 8) == U16(request, 8) && U16(b, 10) == U16(request, 10);
    assert DecodeFlags(b[2], b[3]) == Flags(true, 0, false, false, request[2] % 2 == 1, false, 0, b[3]);
  }

  lemma NoRecords(b: Str, p: nat)
    ensures DecodeRecords(b, p, 0) == Some(([], p))
  {
  }

  lemma AbsentAnswer(b: Str, request: Str, ls: seq<Str>)
    requires IsReply(b, request, ls, |b|) && U16(b, 6) > 0
    ensures DecodeMessage(b) == None
  {
    hide DecodeRecords, DecodeQuestions;
    ReplyQuestion(b, request, ls, |b|);
    NothingLeft(b, U16(b, 6));
  }

  /** NODATA and SERVFAIL: no record follows, so no record may be announced. */
  lemma EmptyReplyDecodes(request: Str, ls: seq<Str>, end: nat, rcode: byte)
    requires HoldsQuestion(request, ls, end) && (rcode == 0 || rcode == 2)
    ensures DecodeMessage(Reply(request, end)[3 := rcode]) ==
            if U16(request, 6) == 0 && U16(request, 8) == 0 && U16(request, 10) == 0
            then Some(Meant(request, ls, end, rcode, [])) else None
  {
    hide DecodeMessage;
    var b := Reply(request, end)[3 := rcode];
    assert b + [] == b;
    ReplyBytes(b, [], request, ls, end);
    assert U16(b, 6) == U16(request, 6);
    if U16(request, 6) == 0 {
      NoRecords(b, end);
      ReplyDecodes(b, request, ls, end, []);
    } else {
      AbsentAnswer(b, request, ls);
    }
  }

  /** The fixed fields of a record at the end of a response. */
  lemma RecordFields(b: Str, end: nat, rtype: nat, rdata: Str)
    requires rtype < 0x1_0000 && |rdata| < 0x1_0000 && end <= |b| && b[end..] == RecordBytes(rtype, rdata)
    ensures |b| == end + 12 + |rdata| && b[end] == 0xC0 && b[end + 1] == 0x0C
    ensures U16(b, end + 2) == rtype && U16(b, end + 4) == CLASS_IN
    ensures U16(b, end + 6) == 0 && U16(b, end + 8) == TTL_SECONDS && U16(b, end + 10) == |rdata|
    ensures b[end + 12..end + 12 + |rdata|] == rdata
  {
    var r := RecordBytes(rtype, rdata);
    assert forall i | 0 <= i < |r| :: b[end + i] == b[end..][i] == r[i];
    assert r[12..] == rdata;
    SubSlice(b, end, r, 12, |r|);
  }

  lemma RecordDecodes(b: Str, request: Str, ls: seq<Str>, end: nat, rtype: nat, rdata: Str, meant: RData)
    requires IsReply(b, request, ls, end)
    requires rtype < 0x1_0000 && |rdata| < 0x1_0000 && b[end..] == RecordBytes(rtype, rdata)
    requires |b| == end + 12 + |rdata| && DecodeRData(b, end + 12, |rdata|, rtype) == Some(meant)
    ensures DecodeRecord(b, end) == Some((Record(ls, rtype, CLASS_IN, TTL_SECONDS, meant), |b|))
  {
    hide DecodeRData, RecordBytes, DecodeName;
    RecordFields(b, end, rtype, rdata);
    OwnerPointer(b, request, ls, end);
  }

  lemma OneRecord(b: Str, p: nat, record: Record)
    requires DecodeRecord(b, p) == Some((record, |b|))
    ensures DecodeRecords(b, p, 1) == Some(([record], |b|))
  {
    hide DecodeRecord;
    NoRecords(b, |b|);
    assert [record] + [] == [record];
  }

  /** A response with one record decodes to it exactly when no further records are announced. */
  lemma {:induction false} OneAnswerDecodes(request: Str, ls: seq<Str>, end: nat, rtype: nat, rdata: Str, meant: RData)
    requires HoldsQuestion(request, ls, end) && rtype < 0x1_0000 && |rdata| < 0x1_0000
    requires var b := WithOneAnswer(Reply(request, end)) + RecordBytes(rtype, rdata);
             |b| == end + 12 + |rdata| && DecodeRData(b, end + 12, |rdata|, rtype) == Some(meant)
    ensures DecodeMessage(WithOneAnswer(Reply(request, end)) + RecordBytes(rtype, rdata)) ==
            if U16(request, 8) == 0 && U16(request, 10) == 0
            then Some(Meant(request, ls, end, 0, [Record(ls, rtype, CLASS_IN, TTL_SECONDS, meant)])) else None
  {
    hide DecodeRData, RecordBytes, DecodeMessage;
    var h, r := WithOneAnswer(Reply(request, end)), RecordBytes(rtype, rdata);
    var b := h + r;
    ReplyBytes(h, r, request, ls, end);
    assert b[end..] == r;
    assert b[3] == 0 && U16(b, 6) == 1;
    RecordDecodes(b, request, ls, end, rtype, rdata, meant);
    OneRecord(b, end, Record(ls, rtype, CLASS_IN, TTL_SECONDS, meant));
    ReplyDecodes(b, request, ls, end, [Record(ls, rtype, CLASS_IN, TTL_SECONDS, meant)]);
  }

  lemma AddressData(h: Str, a: Addr)
    ensures var b, p := h + RecordBytes(TYPE_A, OctetBytes(a)), |h|;
            |b| == p + 16 && DecodeRData(b, p + 12, 4, TYPE_A) == Some(Address(a))
  {
    var r, b, p := RecordBytes(TYPE_A, OctetBytes(a)), h + RecordBytes(TYPE_A, OctetBytes(a)), |h|;
    assert r[12] == Octet(a, 0) && r[13] == Octet(a, 1) && r[14] == Octet(a, 2) && r[15] == Octet(a, 3);
    assert [b[p + 12], b[p + 13], b[p + 14], b[p + 15]] == [Octet(a, 0), Octet(a, 1), Octet(a, 2), Octet(a, 3)];
    FromOctetsOf(a);
  }

  lemma TargetData(h: Str, ls: seq<Str>)
    requires WireLabels(ls)
    ensures var b, p := h + RecordBytes(TYPE_PTR, EncodeLabels(ls)), |h|;
            && |b| == p + 12 + |EncodeLabels(ls)|
            && DecodeRData(b, p + 12, |EncodeLabels(ls)|, TYPE_PTR) == Some(Target(ls))
  {
    var e := EncodeLabels(ls);
    var r := RecordBytes(TYPE_PTR, e);
    var b, p := h + r, |h|;
    assert r[12..] == e && b[p..] == r;
    SubSlice(b, p, r, 12, |r|);
    DecodePlainName(b, p + 12, p + 12, ls);
  }

  /**
    The A response carries the request's id and question, the RD bit, NOERROR and one record for
    the question's name with the given address. A request that announces authority or
    additional records (an EDNS query does) gets a response that announces them too and holds
    none, which no decoder can read.
   */
  lemma AddressResponseDecodes(request: Str, ls: seq<Str>, end: nat, a: Addr)
    requires HoldsQuestion(request, ls, end)
    ensures DecodeMessage(AddressResponse(request, end, V4(a))) ==
            if U16(request, 8) == 0 && U16(request, 10) == 0
            then Some(Meant(request, ls, end, 0, [Record(ls, TYPE_A, CLASS_IN, TTL_SECONDS, Address(a))])) else None
  {
    hide DecodeMessage, DecodeRData, RecordBytes;
    AddressData(WithOneAnswer(Reply(request, end)), a);
    OneAnswerDecodes(request, ls, end, TYPE_A, OctetBytes(a), Address(a));
  }

  /** The PTR response, likewise, for every name whose labels fit on the wire. */
  lemma PtrResponseDecodes(request: Str, ls: seq<Str>, end: nat, name: Str)
    requires HoldsQuestion(request, ls, end)
    requires WireLabels(Labels(TrimSuffixDot(name))) && |EncodeLabels(Labels(TrimSuffixDot(name)))| < 0x1_0000
    ensures DecodeMessage(PtrResponse(request, end, name)) ==
            if U16(request, 8) == 0 && U16(request, 10) == 0
            then
              Some(Meant(request, ls, end, 0,
                         [Record(ls, TYPE_PTR, CLASS_IN, TTL_SECONDS, Target(Labels(TrimSuffixDot(name))))]))
            else None
  {
    hide DecodeMessage, DecodeRData, RecordBytes;
    var target := Labels(TrimSuffixDot(name));
    TargetData(WithOneAnswer(Reply(request, end)), target);
    OneAnswerDecodes(request, ls, end, TYPE_PTR, EncodeLabels(target), Target(target));
  }

  /** NODATA (no error, no records) for an invalid address, and SERVFAIL. */
  lemma {:induction false} EmptyResponsesDecode(request: Str, ls: seq<Str>, end: nat)
    requires HoldsQuestion(request, ls, end)
    ensures var readable := U16(request, 6) == 0 && U16(request, 8) == 0 && U16(request, 10) == 0;
            && DecodeMessage(AddressResponse(request, end, Invalid)) ==
               (if readable then Some(Meant(request, ls, end, 0, [])) else None)
            && DecodeMessage(FailureResponse(request, end)) ==
               (if readable then Some(Meant(request, ls, end, 2, [])) else None)
  {
    hide DecodeMessage;
    EmptyReplyDecodes(request, ls, end, 0);
    EmptyReplyDecodes(request, ls, end, 2);
    var b := Reply(request, end);
    assert b[3 := 0] == b;
  }
}
