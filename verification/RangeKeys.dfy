/** The strings that identify a range list and a registry entry (`rangeKey` and the NUL-joined key). */
module RangeKeys {
  import opened Addresses
  import opened Basics
  import opened Names
  import opened Ports

  const SLASH: byte := '/' as int
  const COMMA: byte := ',' as int

  /** Decimal without leading zeros. */
  function Decimal(n: nat): (r: Str)
    ensures r != [] && AllDigits(r)
  {
    if n < 10 then [ZERO + n] else Decimal(n / 10) + [ZERO + n % 10]
  }

  lemma {:induction false} ValueOfDecimal(n: nat)
    ensures Value(Decimal(n)) == n
  {
    if n >= 10 {
      ValueOfDecimal(n / 10);
      assert Decimal(n)[..|Decimal(n)| - 1] == Decimal(n / 10);
    } else {
      assert Decimal(n)[..0] == [];
    }
  }

  /** Octet i of an address, most significant first. */
  function Octet(a: Addr, i: nat): (r: nat)
    requires i < 4
    ensures r < 256
  {
    match i
    case 0 => a / 256 / 256 / 256
    case 1 => a / 256 / 256 % 256
    case 2 => a / 256 % 256
    case _ => a % 256
  }

  function FromOctets(o: seq<nat>): Addr
    requires |o| == 4 && forall i | 0 <= i < 4 :: o[i] < 256
  {
    o[0] * 0x100_0000 + o[1] * 0x1_0000 + o[2] * 0x100 + o[3]
  }

  lemma FromOctetsOf(a: Addr)
    ensures FromOctets([Octet(a, 0), Octet(a, 1), Octet(a, 2), Octet(a, 3)]) == a
  {
  }

  function OctetStrings(a: Addr): (r: seq<Str>)
    ensures |r| == 4 && forall i | 0 <= i < 4 :: r[i] == Decimal(Octet(a, i))
  {
    [Decimal(Octet(a, 0)), Decimal(Octet(a, 1)), Decimal(Octet(a, 2)), Decimal(Octet(a, 3))]
  }

  function AddrString(a: Addr): Str {
    Join(OctetStrings(a), DOT)
  }

  lemma AddrStringInjective(a: Addr, b: Addr)
    requires AddrString(a) == AddrString(b)
    ensures a == b
  {
    SplitJoin(OctetStrings(a), DOT);
    SplitJoin(OctetStrings(b), DOT);
    forall i | 0 <= i < 4
      ensures Octet(a, i) == Octet(b, i)
    {
      assert OctetStrings(a)[i] == OctetStrings(b)[i];
      ValueOfDecimal(Octet(a, i));
      ValueOfDecimal(Octet(b, i));
    }
    FromOctetsOf(a);
    FromOctetsOf(b);
  }

  /** `netip.Prefix.String`. */
  function PrefixString(p: Prefix): Str {
    AddrString(p.addr) + [SLASH] + Decimal(p.bits)
  }

  predicate KeyByte(c: byte) {
    IsDigit(c) || c == DOT || c == SLASH || c == COMMA
  }

  lemma {:induction false} JoinBytes(ls: seq<Str>, sep: byte, c: byte)
    requires c in Join(ls, sep)
    ensures c == sep || exists i | 0 <= i < |ls| :: c in ls[i]
  {
    if |ls| == 1 {
      assert c in ls[0];
    } else if |ls| > 1 && c !in ls[0] && c != sep {
      assert c in Join(ls[1..], sep);
      JoinBytes(ls[1..], sep, c);
      var i :| 0 <= i < |ls[1..]| && c in ls[1..][i];
      assert c in ls[i + 1];
    }
  }

  lemma AddrStringBytes(a: Addr, c: byte)
    requires c in AddrString(a)
    ensures IsDigit(c) || c == DOT
  {
    JoinBytes(OctetStrings(a), DOT, c);
  }

  lemma PrefixStringInjective(p: Prefix, q: Prefix)
    requires PrefixString(p) == PrefixString(q)
    ensures p == q
  {
    PrefixStringSplit(p);
    PrefixStringSplit(q);
    AddrStringInjective(p.addr, q.addr);
    ValueOfDecimal(p.bits);
    ValueOfDecimal(q.bits);
  }

  lemma PrefixStringSplit(p: Prefix)
    ensures Split(PrefixString(p), SLASH) == [AddrString(p.addr), Decimal(p.bits)]
  {
    if SLASH in AddrString(p.addr) {
      AddrStringBytes(p.addr, SLASH);
    }
    SplitAt(AddrString(p.addr), Decimal(p.bits), SLASH);
    SplitOne(AddrString(p.addr), SLASH);
    SplitOne(Decimal(p.bits), SLASH);
  }

  function PrefixStrings(ps: seq<Prefix>): (r: seq<Str>)
    ensures |r| == |ps| && forall i | 0 <= i < |ps| :: r[i] == PrefixString(ps[i])
  {
    seq(|ps|, i requires 0 <= i < |ps| => PrefixString(ps[i]))
  }

  /** `rangeKey`. */
  function RangeKey(ps: seq<Prefix>): Str {
    Join(PrefixStrings(ps), COMMA)
  }

  lemma PrefixStringBytes(p: Prefix, c: byte)
    requires c in PrefixString(p)
    ensures IsDigit(c) || c == DOT || c == SLASH
  {
    if c in AddrString(p.addr) {
      AddrStringBytes(p.addr, c);
    }
  }

  lemma RangeKeySplit(ps: seq<Prefix>)
    requires ps != []
    ensures Split(RangeKey(ps), COMMA) == PrefixStrings(ps)
  {
    forall i | 0 <= i < |ps|
      ensures COMMA !in PrefixStrings(ps)[i]
    {
      if COMMA in PrefixString(ps[i]) {
        PrefixStringBytes(ps[i], COMMA);
      }
    }
    SplitJoin(PrefixStrings(ps), COMMA);
  }

  /** A range key names exactly one list of prefixes. */
  lemma RangeKeyInjective(ps: seq<Prefix>, qs: seq<Prefix>)
    ensures RangeKey(ps) == RangeKey(qs) <==> ps == qs
  {
    if RangeKey(ps) == RangeKey(qs) {
      RangeKeyEmpty(ps);
      RangeKeyEmpty(qs);
      if ps != [] && qs != [] {
        RangeKeySplit(ps);
        RangeKeySplit(qs);
        forall i | 0 <= i < |ps|
          ensures i < |qs| && ps[i] == qs[i]
        {
          assert PrefixStrings(ps)[i] == PrefixStrings(qs)[i];
          PrefixStringInjective(ps[i], qs[i]);
        }
      }
    }
  }

  lemma RangeKeyEmpty(ps: seq<Prefix>)
    ensures RangeKey(ps) == [] <==> ps == []
  {
    if ps != [] {
      assert PrefixStrings(ps)[0] != [];
    }
  }

  lemma RangeKeyBytes(ps: seq<Prefix>, c: byte)
    requires c in RangeKey(ps)
    ensures KeyByte(c)
  {
    JoinBytes(PrefixStrings(ps), COMMA, c);
    if c != COMMA {
      var i :| 0 <= i < |ps| && c in PrefixStrings(ps)[i];
      PrefixStringBytes(ps[i], c);
    }
  }

  /** The string key of the allocator maps and of the renewal times. */
  function JoinedKey(gateway: Str, domain: Str): Str {
    gateway + [NUL] + domain
  }

  lemma JoinedKeyInjective(g: Str, d: Str, h: Str, e: Str)
    requires NUL !in g && NUL !in h
    ensures JoinedKey(g, d) == JoinedKey(h, e) <==> g == h && d == e
  {
    if JoinedKey(g, d) == JoinedKey(h, e) {
      var s := JoinedKey(g, d);
      assert s[|g|] == NUL && s[|h|] == NUL;
      assert s[..|g|] == g && s[..|h|] == h;
      assert s[|g| + 1..] == d && s[|h| + 1..] == e;
    }
  }

  /** Joined keys of the DNS path stand for exactly one range list and one name, whatever the name holds. */
  lemma RegistryKeyInjective(ps: seq<Prefix>, d: Str, qs: seq<Prefix>, e: Str)
    ensures JoinedKey(RangeKey(ps), d) == JoinedKey(RangeKey(qs), e) <==> ps == qs && d == e
  {
    if NUL in RangeKey(ps) { RangeKeyBytes(ps, NUL); }
    if NUL in RangeKey(qs) { RangeKeyBytes(qs, NUL); }
    JoinedKeyInjective(RangeKey(ps), d, RangeKey(qs), e);
    RangeKeyInjective(ps, qs);
  }
}
