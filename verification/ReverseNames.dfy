/** Reverse names under in-addr.arpa (section 3.5 of RFC 1035): `ReverseIPv4`. */
module ReverseNames {
  import opened Addresses
  import opened Basics
  import opened Names
  import opened Ports
  import opened RangeKeys

  /** Go's `uint16`; staying inside it is part of the proof of the digit loop. */
  newtype uint16 = n: int | 0 <= n < 0x1_0000

  const IN_ADDR: Str := ['i' as int, 'n' as int, '-' as int, 'a' as int, 'd' as int, 'd' as int, 'r' as int]
  const ARPA: Str := ['a' as int, 'r' as int, 'p' as int, 'a' as int]

  /** An octet label: digits of value at most 255, of any length; the empty label counts as 0. */
  predicate OctetLabel(part: Str) {
    AllDigits(part) && Value(part) <= 255
  }

  /** The parts of a name as `ReverseIPv4` sees them. */
  function ReverseParts(name: Str): seq<Str> {
    Labels(TrimSuffixDot(ToLower(name)))
  }

  predicate IsReverseName(parts: seq<Str>) {
    |parts| == 6 && parts[4] == IN_ADDR && parts[5] == ARPA && forall i | 0 <= i < 4 :: OctetLabel(parts[i])
  }

  /** The address an accepted name stands for: its four numbers in reverse order. */
  function Reversed(name: Str): MaybeAddr {
    var parts := ReverseParts(name);
    if IsReverseName(parts)
    then V4(FromOctets([Value(parts[3]), Value(parts[2]), Value(parts[1]), Value(parts[0])]))
    else Invalid
  }

  /** The digit loop. The accumulator never leaves `uint16`, however long the label. */
  method ParseOctet(part: Str) returns (r: Option<byte>)
    ensures r == if OctetLabel(part) then Some(Value(part)) else None
  {
    var n: uint16 := 0;
    for i := 0 to |part|
      invariant AllDigits(part[..i]) && n as int == Value(part[..i]) <= 255
    {
      var c := part[i];
      if c < 48 || c > 57 {
        return None;
      }
      assert part[..i + 1][..i] == part[..i];
      n := n * 10 + (c - ZERO) as uint16;
      if n > 255 {
        if AllDigits(part) {
          ValueOfPrefix(part, i + 1);
        }
        return None;
      }
    }
    assert part[..|part|] == part;
    return Some(n as byte);
  }

  /** Octet j was read from the label counted back from the fourth. */
  ghost predicate ReadFrom(parts: seq<Str>, j: nat, octet: byte)
    requires |parts| == 6 && j < 4
  {
    OctetLabel(parts[3 - j]) && octet == Value(parts[3 - j])
  }

  method ReverseIPv4(name: Str) returns (r: MaybeAddr)
    ensures r == Reversed(name)
  {
    var parts := Labels(TrimSuffixDot(ToLower(name)));
    if |parts| != 6 || parts[4] != IN_ADDR || parts[5] != ARPA {
      return Invalid;
    }
    var octets := new byte[4](_ => 0);
    for i := 0 to 4
      invariant forall j | 0 <= j < i :: ReadFrom(parts, j, octets[j])
    {
      var octet := ParseOctet(parts[3 - i]);
      if octet.None? {
        return Invalid;
      }
      octets[i] := octet.value;
    }
    assert ReadFrom(parts, 0, octets[0]) && ReadFrom(parts, 1, octets[1]);
    assert ReadFrom(parts, 2, octets[2]) && ReadFrom(parts, 3, octets[3]);
    return V4(FromOctets([octets[0], octets[1], octets[2], octets[3]]));
  }

  lemma LowerThenTrim(name: Str)
    ensures TrimSuffixDot(ToLower(name)) == ToLower(TrimSuffixDot(name))
  {
    if name != [] {
      assert LowerByte(name[|name| - 1]) == DOT <==> name[|name| - 1] == DOT;
    }
  }

  function ReverseLabels(a: Addr): (r: seq<Str>)
    ensures |r| == 6
  {
    [Decimal(Octet(a, 3)), Decimal(Octet(a, 2)), Decimal(Octet(a, 1)), Decimal(Octet(a, 0)), IN_ADDR, ARPA]
  }

  /** The canonical reverse name of an address. */
  function ReverseName(a: Addr): Str {
    Join(ReverseLabels(a), DOT)
  }

  /** The canonical reverse name, absolute or not, in upper or lower case, gives back its address. */
  lemma {:induction false} ReverseRoundTrip(a: Addr, name: Str)
    requires Spells(name, ReverseName(a))
    ensures Reversed(name) == V4(a)
  {
    hide Value, AllDigits, Spells, Decimal, Reversed, Join;
    var ds := OctetStrings(a);
    ValueOfDecimal(Octet(a, 0));
    ValueOfDecimal(Octet(a, 1));
    ValueOfDecimal(Octet(a, 2));
    ValueOfDecimal(Octet(a, 3));
    FromOctetsOf(a);
    FixedLabels();
    assert ReverseForm(ds) == ReverseLabels(a);
    SpelledIsAccepted(name, ds, a);
  }

  lemma CanonicalReverse(a: Addr)
    ensures Reversed(ReverseName(a)) == V4(a)
    ensures Reversed(ReverseName(a) + [DOT]) == V4(a)
  {
    hide Reversed, ReverseName;
    ReverseRoundTrip(a, ReverseName(a));
    var absolute := ReverseName(a) + [DOT];
    assert absolute[..|absolute| - 1] == ReverseName(a);
    ReverseRoundTrip(a, absolute);
  }

  /** Four digit labels and the two fixed ones, as they stand in a name. */
  function ReverseForm(ds: seq<Str>): seq<Str>
    requires |ds| == 4
  {
    [ds[3], ds[2], ds[1], ds[0], Ascii("in-addr"), Ascii("arpa")]
  }

  lemma FixedLabels()
    ensures IN_ADDR == Ascii("in-addr") && ARPA == Ascii("arpa")
  {
  }

  lemma ReverseFormName(ds: seq<Str>)
    requires |ds| == 4 && forall i | 0 <= i < 4 :: AllDigits(ds[i])
    ensures var name := Join(ReverseForm(ds), DOT);
            Labels(name) == ReverseForm(ds) && NoUpperCase(name) && !HasSuffix(name, [DOT])
  {
    var ls := ReverseForm(ds);
    var name := Join(ls, DOT);
    FixedLabels();
    assert forall i, c | 0 <= i < 6 && c in ls[i] :: NameByte(c);
    SplitJoin(ls, DOT);
    forall i | 0 <= i < |name|
      ensures !('A' as int <= name[i] <= 'Z' as int)
    {
      JoinBytes(ls, DOT, name[i]);
    }
    TailIsSuffix(ls, 5);
    assert ls[5..] == [ARPA];
    assert name[|name| - 1] == ([DOT] + ARPA)[4];
  }

  /** The four labels denote the numbers of the address, most significant first. */
  predicate Denotes(ds: seq<Str>, a: Addr) {
    && |ds| == 4
    && OctetLabel(ds[0]) && OctetLabel(ds[1]) && OctetLabel(ds[2]) && OctetLabel(ds[3])
    && a == ((Value(ds[0]) * 256 + Value(ds[1])) * 256 + Value(ds[2])) * 256 + Value(ds[3])
  }

  /** A name that is accepted consists of the labels it is read from. */
  lemma AcceptedForm(name: Str, a: Addr) returns (ds: seq<Str>)
    requires Reversed(name) == V4(a)
    ensures Denotes(ds, a) && ToLower(TrimSuffixDot(name)) == Join(ReverseForm(ds), DOT)
  {
    hide Value, AllDigits;
    var parts := ReverseParts(name);
    ds := [parts[3], parts[2], parts[1], parts[0]];
    FixedLabels();
    assert ReverseForm(ds) == parts;
    LowerThenTrim(name);
    JoinSplit(TrimSuffixDot(ToLower(name)), DOT);
  }

  lemma SpelledIsAccepted(name: Str, ds: seq<Str>, a: Addr)
    requires Denotes(ds, a) && Spells(name, Join(ReverseForm(ds), DOT))
    ensures Reversed(name) == V4(a)
  {
    hide Value, AllDigits, Spells;
    FixedLabels();
    ReverseFormName(ds);
    TrimmedLowerIsSpelling(name, Join(ReverseForm(ds), DOT));
    LowerThenTrim(name);
    var parts := ReverseParts(name);
    assert parts == ReverseForm(ds);
    assert IsReverseName(parts);
  }

  /** A name gives an address exactly if it spells that address's four numbers, last one first, under in-addr.arpa. */
  lemma {:induction false} ReversedExactly(name: Str, a: Addr)
    ensures Reversed(name) == V4(a) <==>
            exists ds: seq<Str> :: Denotes(ds, a) && Spells(name, Join(ReverseForm(ds), DOT))
  {
    hide Reversed, Value, AllDigits, Spells, Join, ReverseForm;
    if Reversed(name) == V4(a) {
      var ds := AcceptedForm(name, a);
      ReverseFormName(ds);
      TrimmedLowerIsSpelling(name, Join(ReverseForm(ds), DOT));
    }
    if ds: seq<Str> :| Denotes(ds, a) && Spells(name, Join(ReverseForm(ds), DOT)) {
      SpelledIsAccepted(name, ds, a);
    }
  }
}
