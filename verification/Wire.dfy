/**
  The DNS wire code (`internal/dnsudp/server.go`): the question parser, the name encoder and
  the builders of the A, PTR, NODATA and SERVFAIL responses.
 */
module Wire {
  import opened Addresses
  import opened Basics
  import opened Names
  import opened RangeKeys

  const TYPE_A: nat := 1
  const TYPE_PTR: nat := 12
  const TYPE_AAAA: nat := 28
  const CLASS_IN: nat := 1
  const TTL_SECONDS: nat := 600

  datatype Question = Question(name: Str, qtype: nat)

  function U16(b: Str, p: nat): (r: nat)
    requires p + 2 <= |b|
    ensures r < 0x1_0000
  {
    b[p] as nat * 256 + b[p + 1] as nat
  }

  function Put16(n: nat): (r: Str)
    requires n < 0x1_0000
    ensures |r| == 2 && U16(r, 0) == n
  {
    [n / 256, n % 256]
  }

  function Put32(n: nat): (r: Str)
    requires n < 0x1_0000_0000
    ensures |r| == 4
  {
    [n / 0x100_0000, n / 0x1_0000 % 256, n / 0x100 % 256, n % 256]
  }

  // ----- names

  /** Labels as length-prefixed strings ended by a zero byte; a length wraps as Go's `byte` conversion does. */
  function EncodeLabels(ls: seq<Str>): (r: Str)
    ensures |r| >= 1
  {
    if ls == [] then [0] else [|ls[0]| % 256] + ls[0] + EncodeLabels(ls[1..])
  }

  /** The labels a length-prefixed name can carry. */
  ghost predicate WireLabels(ls: seq<Str>) {
    forall i | 0 <= i < |ls| :: 1 <= |ls[i]| <= 63
  }

  /** The label loop of `parseQuestion`. */
  function ParseLabels(b: Str, p: nat): Option<(seq<Str>, nat)>
    decreases |b| - p
  {
    if p >= |b| then None
    else if b[p] == 0 then Some(([], p + 1))
    else if b[p] > 63 || p + 1 + b[p] > |b| then None
    else
      var rest := ParseLabels(b, p + 1 + b[p]);
      if rest.None? then None else Some(([b[p + 1..p + 1 + b[p]]] + rest.value.0, rest.value.1))
  }

  /** A part of a slice. */
  lemma SubSlice(b: Str, p: nat, e: Str, i: nat, j: nat)
    requires p + |e| <= |b| && b[p..p + |e|] == e && i <= j <= |e|
    ensures b[p + i..p + j] == e[i..j]
  {
    forall k | 0 <= k < j - i
      ensures b[p + i..p + j][k] == e[i..j][k]
    {
      assert e[i + k] == b[p..p + |e|][i + k];
    }
  }

  lemma ThreePieces(b: Str, p: nat, x: byte, s: Str, t: Str)
    requires p + 1 + |s| + |t| <= |b| && b[p..p + 1 + |s| + |t|] == [x] + s + t
    ensures b[p] == x && b[p + 1..p + 1 + |s|] == s && b[p + 1 + |s|..p + 1 + |s| + |t|] == t
  {
    var e := [x] + s + t;
    assert e[0..1] == [x] && e[1..1 + |s|] == s && e[1 + |s|..|e|] == t;
    SubSlice(b, p, e, 0, 1);
    SubSlice(b, p, e, 1, 1 + |s|);
    SubSlice(b, p, e, 1 + |s|, |e|);
    assert b[p] == b[p + 0..p + 1][0];
  }

  /** Where the first label and the rest of an encoded name lie. */
  lemma EncodedPieces(b: Str, p: nat, ls: seq<Str>)
    requires ls != [] && WireLabels(ls)
    requires p + |EncodeLabels(ls)| <= |b| && b[p..p + |EncodeLabels(ls)|] == EncodeLabels(ls)
    ensures var n, rest := |ls[0]|, EncodeLabels(ls[1..]);
            && b[p] == n && b[p + 1..p + 1 + n] == ls[0]
            && p + 1 + n + |rest| == p + |EncodeLabels(ls)|
            && b[p + 1 + n..p + 1 + n + |rest|] == rest
  {
    ThreePieces(b, p, |ls[0]|, ls[0], EncodeLabels(ls[1..]));
  }

  lemma ParseLabelsCons(b: Str, p: nat, part: Str, rest: seq<Str>, q: nat)
    requires 1 <= |part| <= 63 && p + 1 + |part| <= |b| && b[p] == |part| && b[p + 1..p + 1 + |part|] == part
    requires ParseLabels(b, p + 1 + |part|) == Some((rest, q))
    ensures ParseLabels(b, p) == Some(([part] + rest, q))
  {
  }

  lemma ParseLabelsNil(b: Str, p: nat)
    requires p < |b| && b[p] == 0
    ensures ParseLabels(b, p) == Some(([], p + 1))
  {
  }

  lemma {:induction false} ParseLabelsOf(b: Str, p: nat, ls: seq<Str>)
    requires WireLabels(ls) && p + |EncodeLabels(ls)| <= |b| && b[p..p + |EncodeLabels(ls)|] == EncodeLabels(ls)
    ensures ParseLabels(b, p) == Some((ls, p + |EncodeLabels(ls)|))
    decreases ls
  {
    hide ParseLabels;
    if ls == [] {
      assert b[p] == b[p..p + 1][0];
      ParseLabelsNil(b, p);
    } else {
      EncodedPieces(b, p, ls);
      ParseLabelsOf(b, p + 1 + |ls[0]|, ls[1..]);
      ParseLabelsCons(b, p, ls[0], ls[1..], p + |EncodeLabels(ls)|);
      assert [ls[0]] + ls[1..] == ls;
    }
  }

  lemma EncodeCons(part: Str, rest: seq<Str>)
    requires |part| <= 63
    ensures EncodeLabels([part] + rest) == [|part|] + part + EncodeLabels(rest)
  {
    assert ([part] + rest)[1..] == rest;
  }

  lemma {:induction false} ParseLabelsSound(b: Str, p: nat)
    requires ParseLabels(b, p).Some?
    ensures var (ls, q) := ParseLabels(b, p).value;
            WireLabels(ls) && p < q <= |b| && b[p..q] == EncodeLabels(ls)
    decreases |b| - p
  {
    if b[p] == 0 {
      assert b[p..p + 1] == [0];
    } else {
      hide EncodeLabels;
      var n := b[p];
      ParseLabelsSound(b, p + 1 + n);
      var (rest, q) := ParseLabels(b, p + 1 + n).value;
      EncodeCons(b[p + 1..p + 1 + n], rest);
      ThreeSlices(b, p, p + 1, p + 1 + n, q);
    }
  }

  lemma ThreeSlices(b: Str, i: nat, j: nat, k: nat, l: nat)
    requires i <= j <= k <= l <= |b|
    ensures b[i..l] == b[i..j] + b[j..k] + b[k..l]
    ensures j == i + 1 ==> b[i..j] == [b[i]]
  {
  }

  /** The label loop accepts exactly the encodings of label lists, and ends where the encoding ends. */
  lemma ParseLabelsExact(b: Str, p: nat, ls: seq<Str>, q: nat)
    ensures ParseLabels(b, p) == Some((ls, q)) <==>
            WireLabels(ls) && p < q <= |b| && b[p..q] == EncodeLabels(ls)
  {
    if ParseLabels(b, p).Some? {
      ParseLabelsSound(b, p);
    }
    if WireLabels(ls) && p < q <= |b| && b[p..q] == EncodeLabels(ls) {
      ParseLabelsOf(b, p, ls);
    }
  }

  /** `encodeName`. */
  method EncodeName(name: Str) returns (response: Str)
    ensures response == EncodeLabels(Labels(TrimSuffixDot(name)))
  {
    var parts := Labels(TrimSuffixDot(name));
    response := [];
    for i := 0 to |parts|
      invariant response + EncodeLabels(parts[i..]) == EncodeLabels(parts)
    {
      assert parts[i..][1..] == parts[i + 1..];
      ghost var before := response;
      response := response + [|parts[i]| % 256];
      response := response + parts[i];
      assert response + EncodeLabels(parts[i + 1..]) == before + ([|parts[i]| % 256] + parts[i] + EncodeLabels(parts[i + 1..]));
    }
    assert parts[|parts|..] == [];
    response := response + [0];
  }

  /**
    An encoded name reads back as its labels exactly when each of them has 1 to 63 bytes:
    otherwise an empty label ends the name early, a longer one is refused, and one past 255
    bytes has its length truncated.
   */
  lemma NameRoundTripIff(name: Str)
    ensures var ls := Labels(TrimSuffixDot(name));
            ParseLabels(EncodeLabels(ls), 0) == Some((ls, |EncodeLabels(ls)|)) <==> WireLabels(ls)
  {
    var ls := Labels(TrimSuffixDot(name));
    var e := EncodeLabels(ls);
    assert e[0..|e|] == e;
    ParseLabelsExact(e, 0, ls, |e|);
  }

  lemma ValidNameWire(name: Str)
    requires ValidName(name)
    ensures TrimSuffixDot(name) == name && WireLabels(Labels(name))
  {
    ValidNameEnd(name);
    forall i | 0 <= i < |Labels(name)|
      ensures 1 <= |Labels(name)[i]| <= 63
    {
      assert ValidLabel(Labels(name)[i]);
    }
  }

  /** Encoding a valid name, reading its labels back and normalising returns the name. */
  lemma ValidNameRoundTrip(name: Str)
    requires ValidName(name)
    ensures var e := EncodeLabels(Labels(TrimSuffixDot(name)));
            && ParseLabels(e, 0) == Some((Labels(name), |e|))
            && NormalName(Join(Labels(name), DOT)) == Some(name)
  {
    ValidNameWire(name);
    NameRoundTripIff(name);
    JoinSplit(name, DOT);
    NormalNameFixed(name);
  }

  lemma {:induction false} EncodedLength(ls: seq<Str>)
    requires ls != []
    ensures |EncodeLabels(ls)| == |Join(ls, DOT)| + 2
  {
    if |ls| > 1 {
      EncodedLength(ls[1..]);
    } else {
      assert ls[1..] == [];
    }
  }

  // ----- the question

  function ParsedQuestion(request: Str): Option<(Question, nat)> {
    if |request| < 17 || U16(request, 4) != 1 then None
    else
      var name := ParseLabels(request, 12);
      if name.None? || name.value.1 + 4 > |request| then None
      else Some((Question(Join(name.value.0, DOT), U16(request, name.value.1)), name.value.1 + 4))
  }

  /** `parseQuestion`, with its offset walking through the request. */
  method ParseQuestion(request: Str) returns (r: Option<(Question, nat)>)
    ensures r == ParsedQuestion(request)
  {
    if |request| < 17 || U16(request, 4) != 1 {
      return None;
    }
    var p := 12;
    var labels: seq<Str> := [];
    ghost var whole := ParseLabels(request, 12);
    assert whole.Some? ==> labels + whole.value.0 == whole.value.0;
    while true
      invariant 12 <= p <= |request|
      invariant whole == var rest := ParseLabels(request, p);
                         if rest.None? then None else Some((labels + rest.value.0, rest.value.1))
      decreases |request| - p
    {
      if p >= |request| {
        return None;
      }
      var n := request[p];
      p := p + 1;
      if n == 0 {
        assert labels + [] == labels;
        break;
      }
      if n > 63 || p + n > |request| {
        return None;
      }
      ghost var rest := ParseLabels(request, p + n);
      assert rest.Some? ==> labels + ([request[p..p + n]] + rest.value.0) == labels + [request[p..p + n]] + rest.value.0;
      labels := labels + [request[p..p + n]];
      p := p + n;
    }
    if p + 4 > |request| {
      return None;
    }
    return Some((Question(Join(labels, DOT), U16(request, p)), p + 4));
  }

  /** A complete uncompressed question fills the request from byte 12 up to `end`. */
  ghost predicate HoldsQuestion(request: Str, ls: seq<Str>, end: nat) {
    && 17 <= end <= |request| && U16(request, 4) == 1
    && WireLabels(ls) && request[12..end - 4] == EncodeLabels(ls)
  }

  lemma AcceptedHoldsQuestion(request: Str)
    requires ParsedQuestion(request).Some?
    ensures var (q, end) := ParsedQuestion(request).value;
            exists ls :: HoldsQuestion(request, ls, end) && q == Question(Join(ls, DOT), U16(request, end - 4))
  {
    var (ls, p) := ParseLabels(request, 12).value;
    ParseLabelsExact(request, 12, ls, p);
    assert HoldsQuestion(request, ls, p + 4);
  }

  lemma HeldQuestionAccepted(request: Str, ls: seq<Str>, end: nat)
    requires HoldsQuestion(request, ls, end)
    ensures ParsedQuestion(request) == Some((Question(Join(ls, DOT), U16(request, end - 4)), end))
  {
    ParseLabelsExact(request, 12, ls, end - 4);
  }

  /** Exactly the requests that hold one complete question are accepted, with its name, type and end. */
  lemma ParseQuestionExact(request: Str, q: Question, end: nat)
    ensures ParsedQuestion(request) == Some((q, end)) <==>
            exists ls :: HoldsQuestion(request, ls, end) && q == Question(Join(ls, DOT), U16(request, end - 4))
  {
    hide ParsedQuestion;
    if ParsedQuestion(request) == Some((q, end)) {
      AcceptedHoldsQuestion(request);
    }
    if ls :| HoldsQuestion(request, ls, end) && q == Question(Join(ls, DOT), U16(request, end - 4)) {
      HeldQuestionAccepted(request, ls, end);
    }
  }

  // ----- responses

  /** The request up to the end of its question, with response flags: QR set, RD kept, everything else clear. */
  function Reply(request: Str, end: nat): (r: Str)
    requires 12 <= end <= |request|
    ensures |r| == end
  {
    request[..end][2 := 0x80 + request[2] % 2][3 := 0]
  }

  function WithOneAnswer(reply: Str): (r: Str)
    requires |reply| >= 12
    ensures |r| == |reply|
  {
    reply[6 := 0][7 := 1]
  }

  /** A record owned by the name at offset 12. */
  function RecordBytes(rtype: nat, rdata: Str): Str
    requires rtype < 0x1_0000
  {
    [0xC0, 0x0C] + Put16(rtype) + Put16(CLASS_IN) + Put32(TTL_SECONDS) + Put16(|rdata| % 0x1_0000) + rdata
  }

  function OctetBytes(a: Addr): Str {
    [Octet(a, 0), Octet(a, 1), Octet(a, 2), Octet(a, 3)]
  }

  function AddressResponse(request: Str, end: nat, ip: MaybeAddr): Str
    requires 12 <= end <= |request|
  {
    if ip.V4? then WithOneAnswer(Reply(request, end)) + RecordBytes(TYPE_A, OctetBytes(ip.addr)) else Reply(request, end)
  }

  function FailureResponse(request: Str, end: nat): Str
    requires 12 <= end <= |request|
  {
    Reply(request, end)[3 := 2]
  }

  function PtrResponse(request: Str, end: nat, name: Str): Str
    requires 12 <= end <= |request|
  {
    WithOneAnswer(Reply(request, end)) + RecordBytes(TYPE_PTR, EncodeLabels(Labels(TrimSuffixDot(name))))
  }

  /** `copy(buf[p:], s)` right after the bytes written so far. */
  method Append(buf: array<byte>, p: nat, s: Str, ghost written: Str)
    requires p + |s| <= buf.Length && buf[..p] == written
    modifies buf
    ensures buf[..p + |s|] == written + s
  {
    forall i | 0 <= i < |s| {
      buf[p + i] := s[i];
    }
    assert buf[..p] == written;
  }

  /** `binary.BigEndian.PutUint16(buf[p:p+2], n)`. */
  method PutUint16(buf: array<byte>, p: nat, n: nat)
    requires p + 2 <= buf.Length && n < 0x1_0000
    modifies buf
    ensures buf[..] == old(buf[..])[p := n / 256][p + 1 := n % 256]
  {
    buf[p] := n / 256;
    buf[p + 1] := n % 256;
  }

  /** The flags word `0x8000 | (flags & 0x0100)`. */
  function ReplyFlags(flags: nat): nat
    requires flags < 0x1_0000
  {
    0x8000 + flags / 256 % 2 * 256
  }

  /** What every response starts with: the copied question under reply flags. */
  method StartReply(request: Str, end: nat, room: nat) returns (buf: array<byte>)
    requires 12 <= end <= |request|
    ensures fresh(buf) && buf.Length == end + room && buf[..end] == Reply(request, end)
  {
    buf := new byte[end + room](_ => 0);
    Append(buf, 0, request[..end], []);
    assert buf[..end] == request[..end];
    ghost var copied := buf[..];
    PutUint16(buf, 2, ReplyFlags(U16(request, 2)));
    assert buf[..end] == copied[..end][2 := 0x80 + request[2] % 2][3 := 0];
  }

  method PutAnswer(buf: array<byte>, end: nat, rtype: nat, rdata: Str)
    requires 12 <= end && rtype < 0x1_0000 && buf.Length == end + 12 + |rdata|
    modifies buf
    ensures buf[..] == WithOneAnswer(old(buf[..end])) + RecordBytes(rtype, rdata)
  {
    ghost var reply := WithOneAnswer(buf[..end]);
    PutUint16(buf, 6, 1);
    assert buf[..end] == reply;
    ghost var fixed := [0xC0, 0x0C];
    Append(buf, end, [0xC0, 0x0C], reply);
    PutFixed(buf, end, rtype, |rdata| % 0x1_0000, reply);
    fixed := fixed + Put16(rtype) + Put16(CLASS_IN) + Put32(TTL_SECONDS) + Put16(|rdata| % 0x1_0000);
    Append(buf, end + 12, rdata, reply + fixed);
    assert buf[..] == buf[..end + 12 + |rdata|] == reply + fixed + rdata;
    assert reply + fixed + rdata == reply + (fixed + rdata);
  }

  /** Type, class, time to live and data length, after the owner pointer. */
  method PutFixed(buf: array<byte>, end: nat, rtype: nat, length: nat, ghost reply: Str)
    requires end + 12 <= buf.Length && rtype < 0x1_0000 && length < 0x1_0000
    requires |reply| == end && buf[..end + 2] == reply + [0xC0, 0x0C]
    modifies buf
    ensures buf[..end + 12] == reply + ([0xC0, 0x0C] + Put16(rtype) + Put16(CLASS_IN) + Put32(TTL_SECONDS) + Put16(length))
  {
    ghost var written := reply + [0xC0, 0x0C];
    Append(buf, end + 2, Put16(rtype), written);
    written := written + Put16(rtype);
    Append(buf, end + 4, Put16(CLASS_IN), written);
    written := written + Put16(CLASS_IN);
    Append(buf, end + 6, Put32(TTL_SECONDS), written);
    written := written + Put32(TTL_SECONDS);
    Append(buf, end + 10, Put16(length), written);
    assert written + Put16(length) ==
           reply + ([0xC0, 0x0C] + Put16(rtype) + Put16(CLASS_IN) + Put32(TTL_SECONDS) + Put16(length));
  }

  /** `addressAnswer`. */
  method AddressAnswer(request: Str, end: nat, ip: MaybeAddr) returns (response: Str)
    requires 12 <= end <= |request|
    ensures response == AddressResponse(request, end, ip)
  {
    var buf := StartReply(request, end, 16);
    if ip.V4? {
      PutAnswer(buf, end, TYPE_A, OctetBytes(ip.addr));
      return buf[..];
    }
    return buf[..end];
  }

  /** `serverFailure`. */
  method ServerFailure(request: Str, end: nat) returns (response: Str)
    requires 12 <= end <= |request|
    ensures response == FailureResponse(request, end)
  {
    var reply := AddressAnswer(request, end, Invalid);
    response := reply[3 := reply[3] + 2];
  }

  /** `ptrAnswer`. */
  method PtrAnswer(request: Str, end: nat, name: Str) returns (response: Str)
    requires 12 <= end <= |request|
    ensures response == PtrResponse(request, end, name)
  {
    var rdata := EncodeName(name);
    var buf := StartReply(request, end, 12 + |rdata|);
    PutAnswer(buf, end, TYPE_PTR, rdata);
    return buf[..];
  }
}
