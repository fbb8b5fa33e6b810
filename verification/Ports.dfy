/** Port lists of a resource: the checks of `validPorts` and `allowedPort`. */
module Ports {
  import opened Basics
  import opened Names

  const COLON: byte := ':' as int
  const ZERO: byte := '0' as int
  const TCP: Str := ['t' as int, 'c' as int, 'p' as int]
  const UDP: Str := ['u' as int, 'd' as int, 'p' as int]

  /** Go's `uint64` arithmetic wraps at this modulus. */
  const WORD: nat := 0x1_0000_0000_0000_0000

  predicate IsDigit(c: byte) {
    48 <= c <= 57
  }

  predicate AllDigits(s: Str) {
    forall i | 0 <= i < |s| :: IsDigit(s[i])
  }

  /** The number a digit string denotes; the empty string denotes 0. */
  function Value(s: Str): nat
    requires AllDigits(s)
  {
    if s == [] then 0 else Value(s[..|s| - 1]) * 10 + (s[|s| - 1] - ZERO)
  }

  lemma {:induction false} ValueOfPrefix(s: Str, i: nat)
    requires AllDigits(s) && i <= |s|
    ensures Value(s[..i]) <= Value(s)
  {
    if i == |s| {
      assert s[..i] == s;
    } else {
      assert s[..|s| - 1][..i] == s[..i];
      ValueOfPrefix(s[..|s| - 1], i);
    }
  }

  /** An entry `tcp:N` or `udp:N` with a decimal port from 1 to 65535. */
  predicate ValidPort(p: Str) {
    var parts := Split(p, COLON);
    && |parts| == 2
    && (parts[0] == TCP || parts[0] == UDP)
    && parts[1] != []
    && AllDigits(parts[1])
    && 1 <= Value(parts[1]) <= 65535
  }

  /** The digit loop of `validPorts`: it stops before the number can overflow. */
  method ParsePort(digits: Str) returns (r: Option<nat>)
    ensures r == if AllDigits(digits) && Value(digits) <= 65535 then Some(Value(digits)) else None
  {
    var n := 0;
    for i := 0 to |digits|
      invariant AllDigits(digits[..i]) && n == Value(digits[..i]) <= 65535
    {
      var c := digits[i];
      if c < 48 || c > 57 {
        return None;
      }
      assert digits[..i + 1][..i] == digits[..i];
      assert n * 10 + 9 < WORD;
      n := n * 10 + (c - ZERO);
      if n > 65535 {
        if AllDigits(digits) {
          ValueOfPrefix(digits, i + 1);
        }
        return None;
      }
    }
    assert digits[..|digits|] == digits;
    return Some(n);
  }

  method ValidPorts(ports: seq<Str>) returns (ok: bool)
    ensures ok <==> forall i | 0 <= i < |ports| :: ValidPort(ports[i])
  {
    for i := 0 to |ports|
      invariant forall j | 0 <= j < i :: ValidPort(ports[j])
    {
      var parts := Split(ports[i], COLON);
      if |parts| != 2 || (parts[0] != TCP && parts[0] != UDP) || parts[1] == [] {
        return false;
      }
      var n := ParsePort(parts[1]);
      if n.None? || n.value == 0 {
        return false;
      }
    }
    return true;
  }

  /** What the digit loop of `allowedPort` computes: 0 for anything but digits, else the wrapped number. */
  function WrappedValue(s: Str): nat {
    if AllDigits(s) then Value(s) % WORD else 0
  }

  predicate Permits(p: Str, proto: Str, port: nat) {
    HasPrefix(p, proto + [COLON]) && WrappedValue(p[|proto| + 1..]) == port
  }

  /** The decision of `allowedPort`. */
  predicate PortAllowed(ports: seq<Str>, proto: Str, port: nat) {
    ports == [] || exists i | 0 <= i < |ports| :: Permits(ports[i], proto, port)
  }

  lemma WrapStep(v: nat, d: nat)
    ensures (v % WORD * 10 + d) % WORD == (v * 10 + d) % WORD
  {
    var q, r := v / WORD, v % WORD;
    assert v * 10 + d == (r * 10 + d) + WORD * (q * 10);
    AddMultiple(r * 10 + d, q * 10);
  }

  lemma {:induction false} AddMultiple(x: nat, q: nat)
    ensures (x + WORD * q) % WORD == x % WORD
  {
    if q > 0 {
      AddMultiple(x, q - 1);
      assert x + WORD * q == (x + WORD * (q - 1)) + WORD;
    }
  }

  method ParseWrapped(rest: Str) returns (n: nat)
    ensures n == WrappedValue(rest)
  {
    n := 0;
    for i := 0 to |rest|
      invariant AllDigits(rest[..i]) && n == Value(rest[..i]) % WORD
    {
      var c := rest[i];
      if c < 48 || c > 57 {
        assert !IsDigit(rest[i]);
        return 0;
      }
      assert rest[..i + 1][..i] == rest[..i];
      WrapStep(Value(rest[..i]), c - ZERO);
      n := (n * 10 + (c - ZERO)) % WORD;
    }
    assert rest[..|rest|] == rest;
  }

  method AllowedPort(ports: seq<Str>, proto: Str, port: nat) returns (ok: bool)
    ensures ok <==> PortAllowed(ports, proto, port)
  {
    if |ports| == 0 {
      return true;
    }
    var expected := proto + [COLON];
    for i := 0 to |ports|
      invariant forall j | 0 <= j < i :: !Permits(ports[j], proto, port)
    {
      if HasPrefix(ports[i], expected) {
        var n := ParseWrapped(ports[i][|expected|..]);
        if n == port {
          return true;
        }
      }
    }
    return false;
  }

  lemma TwoParts(p: Str, proto: Str)
    requires |Split(p, COLON)| == 2
    ensures HasPrefix(p, proto + [COLON]) <==> Split(p, COLON)[0] == proto
    ensures HasPrefix(p, proto + [COLON]) ==> p[|proto| + 1..] == Split(p, COLON)[1]
  {
    JoinSplit(p, COLON);
    var parts := Split(p, COLON);
    assert p == parts[0] + [COLON] + parts[1];
    if HasPrefix(p, proto + [COLON]) {
      var rest := p[|proto| + 1..];
      assert p == proto + [COLON] + rest;
      SplitAt(proto, rest, COLON);
      JoinSplit(proto, COLON);
      JoinSplit(rest, COLON);
      assert parts == Split(proto, COLON) + Split(rest, COLON);
    }
  }

  /** The entry is this protocol, a colon and decimal digits. */
  predicate PortEntry(p: Str, proto: Str, digits: Str) {
    p == proto + Ascii(":") + digits && AllDigits(digits)
  }

  /** The entry names this protocol and this decimal port. */
  ghost predicate NamesPort(p: Str, proto: Str, port: nat) {
    exists digits :: PortEntry(p, proto, digits) && Value(digits) == port
  }

  lemma ColonPrefix(p: Str, proto: Str)
    ensures HasPrefix(p, proto + [COLON]) ==> p == proto + Ascii(":") + p[|proto| + 1..]
    ensures forall digits | PortEntry(p, proto, digits) :: HasPrefix(p, proto + [COLON]) && p[|proto| + 1..] == digits
  {
    assert Ascii(":") == [COLON];
  }

  lemma PermitsMeaning(p: Str, proto: Str, port: nat)
    requires ValidPort(p)
    ensures Permits(p, proto, port) <==> NamesPort(p, proto, port)
  {
    TwoParts(p, proto);
    ColonPrefix(p, proto);
    if Permits(p, proto, port) {
      assert PortEntry(p, proto, p[|proto| + 1..]);
    }
  }

  /** The valid entries are tcp: or udp: with a decimal number from 1 to 65535. */
  lemma {:induction false} ValidPortSpelled(p: Str)
    ensures ValidPort(p) <==>
            exists proto, digits ::
              && PortEntry(p, proto, digits) && (proto == Ascii("tcp") || proto == Ascii("udp"))
              && digits != [] && 1 <= Value(digits) <= 65535
  {
    assert TCP == Ascii("tcp") && UDP == Ascii("udp") && Ascii(":") == [COLON];
    if ValidPort(p) {
      JoinSplit(p, COLON);
      var parts := Split(p, COLON);
      assert p == parts[0] + [COLON] + parts[1];
      assert PortEntry(p, parts[0], parts[1]);
    }
    if proto, digits :|
      && PortEntry(p, proto, digits) && (proto == Ascii("tcp") || proto == Ascii("udp"))
      && digits != [] && 1 <= Value(digits) <= 65535
    {
      SplitAt(proto, digits, COLON);
      SplitOne(proto, COLON);
      SplitOne(digits, COLON);
    }
  }

  /** On validated lists a port is allowed iff the list is empty or names that protocol and number. */
  lemma AllowedPortMeaning(ports: seq<Str>, proto: Str, port: nat)
    requires forall i | 0 <= i < |ports| :: ValidPort(ports[i])
    ensures PortAllowed(ports, proto, port) <==>
            ports == [] || exists i | 0 <= i < |ports| :: NamesPort(ports[i], proto, port)
  {
    forall i | 0 <= i < |ports|
      ensures Permits(ports[i], proto, port) <==> NamesPort(ports[i], proto, port)
    {
      PermitsMeaning(ports[i], proto, port);
    }
  }

  /** Without validation an entry that is not a number permits port 0. */
  lemma UnvalidatedEntryPermitsZero(rest: Str)
    requires !AllDigits(rest)
    ensures Permits(TCP + [COLON] + rest, TCP, 0)
  {
    var p := TCP + [COLON] + rest;
    assert p[|TCP| + 1..] == rest;
  }
}
