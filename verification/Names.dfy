/**
  Domain names: Go's string helpers on dot-separated names, name validation and
  normalisation, and the wildcard matcher, with its meaning on label lists.
 */
module Names {
  import opened Basics

  const DOT: byte := '.' as int
  const STAR: byte := '*' as int
  const DASH: byte := '-' as int
  const NUL: byte := 0

  predicate HasPrefix(s: Str, t: Str) {
    t <= s
  }

  predicate HasSuffix(s: Str, t: Str) {
    |t| <= |s| && s[|s| - |t|..] == t
  }

  function TrimSuffixDot(s: Str): Str {
    if HasSuffix(s, [DOT]) then s[..|s| - 1] else s
  }

  function Count(s: Str, c: byte): nat {
    if s == [] then 0 else (if s[0] == c then 1 else 0) + Count(s[1..], c)
  }

  /** `strings.Split` on a one-byte separator. */
  function Split(s: Str, sep: byte): (r: seq<Str>)
    ensures |r| >= 1
  {
    if s == [] then [[]]
    else if s[0] == sep then [[]] + Split(s[1..], sep)
    else
      var rest := Split(s[1..], sep);
      [[s[0]] + rest[0]] + rest[1..]
  }

  function Join(ls: seq<Str>, sep: byte): Str {
    if ls == [] then []
    else if |ls| == 1 then ls[0]
    else ls[0] + [sep] + Join(ls[1..], sep)
  }

  lemma {:induction false} SplitCount(s: Str, sep: byte)
    ensures |Split(s, sep)| == Count(s, sep) + 1
  {
    if s != [] {
      SplitCount(s[1..], sep);
    }
  }

  /** Splitting never leaves a separator in a part. */
  lemma {:induction false} SplitParts(s: Str, sep: byte)
    ensures forall i | 0 <= i < |Split(s, sep)| :: sep !in Split(s, sep)[i]
  {
    if s != [] {
      SplitParts(s[1..], sep);
    }
  }

  lemma {:induction false} JoinSplit(s: Str, sep: byte)
    ensures Join(Split(s, sep), sep) == s
  {
    if s != [] {
      JoinSplit(s[1..], sep);
      var rest := Split(s[1..], sep);
      if s[0] == sep {
        assert Split(s, sep)[1..] == rest;
      } else {
        var parts := Split(s, sep);
        assert parts[1..] == rest[1..];
        if |rest| > 1 {
          assert Join(parts, sep) == [s[0]] + (rest[0] + [sep] + Join(rest[1..], sep));
        }
      }
    }
  }

  lemma {:induction false} SplitOne(s: Str, sep: byte)
    requires sep !in s
    ensures Split(s, sep) == [s]
  {
    if s != [] {
      SplitOne(s[1..], sep);
      assert [s[0]] + s[1..] == s;
    }
  }

  lemma SplitCons(c: byte, s: Str, sep: byte)
    ensures var rest := Split(s, sep);
            Split([c] + s, sep) == if c == sep then [[]] + rest else [[c] + rest[0]] + rest[1..]
  {
    assert ([c] + s)[1..] == s;
  }

  /** Splitting at one known separator. */
  lemma {:induction false} SplitAt(a: Str, b: Str, sep: byte)
    ensures Split(a + [sep] + b, sep) == Split(a, sep) + Split(b, sep)
  {
    hide Split;
    if a == [] {
      assert a + [sep] + b == [sep] + b;
      SplitCons(sep, b, sep);
      SplitOne([], sep);
    } else {
      var tail := a[1..] + [sep] + b;
      assert a + [sep] + b == [a[0]] + tail && a == [a[0]] + a[1..];
      SplitAt(a[1..], b, sep);
      SplitCons(a[0], tail, sep);
      SplitCons(a[0], a[1..], sep);
    }
  }

  lemma {:induction false} SplitJoin(ls: seq<Str>, sep: byte)
    requires ls != [] && forall i | 0 <= i < |ls| :: sep !in ls[i]
    ensures Split(Join(ls, sep), sep) == ls
  {
    SplitOne(ls[0], sep);
    if |ls| > 1 {
      SplitJoin(ls[1..], sep);
      SplitAt(ls[0], Join(ls[1..], sep), sep);
    }
  }

  lemma SplitInjective(s: Str, t: Str, sep: byte)
    requires Split(s, sep) == Split(t, sep)
    ensures s == t
  {
    JoinSplit(s, sep);
    JoinSplit(t, sep);
  }

  function Labels(s: Str): (r: seq<Str>)
    ensures |r| >= 1
  {
    Split(s, DOT)
  }

  // ----- the matcher

  function StarStarDot(): Str { [STAR, STAR, DOT] }

  function StarDot(): Str { [STAR, DOT] }

  /** `match(pattern, name)`. */
  predicate Match(pattern: Str, name: Str) {
    if HasPrefix(pattern, StarStarDot()) then
      HasSuffix(name, [DOT] + pattern[3..])
    else if HasPrefix(pattern, StarDot()) then
      HasSuffix(name, [DOT] + pattern[2..]) && Count(name, DOT) == Count(pattern[2..], DOT) + 1
    else
      pattern == name
  }

  /** What a pattern means: `**` stands for one or more labels, `*` for exactly one. */
  ghost predicate LabelsMatch(pattern: seq<Str>, name: seq<Str>)
    requires |pattern| >= 1
  {
    if |pattern| >= 2 && pattern[0] == [STAR, STAR] then
      |name| >= |pattern| && name[|name| - |pattern| + 1..] == pattern[1..]
    else if |pattern| >= 2 && pattern[0] == [STAR] then
      |name| == |pattern| && name[1..] == pattern[1..]
    else
      pattern == name
  }

  /** A dotted suffix is a proper tail of the label list. */
  lemma SuffixIsTail(name: Str, suffix: Str)
    ensures HasSuffix(name, [DOT] + suffix) <==>
            |Labels(name)| > |Labels(suffix)| && Labels(name)[|Labels(name)| - |Labels(suffix)|..] == Labels(suffix)
  {
    if HasSuffix(name, [DOT] + suffix) {
      var head := name[..|name| - |suffix| - 1];
      assert name == head + ([DOT] + suffix) == head + [DOT] + suffix;
      SplitAt(head, suffix, DOT);
    }
    var n, m := |Labels(name)|, |Labels(suffix)|;
    if n > m && Labels(name)[n - m..] == Labels(suffix) {
      TailIsSuffix(Labels(name), n - m);
      JoinSplit(name, DOT);
      JoinSplit(suffix, DOT);
    }
  }

  lemma {:induction false} TailIsSuffix(ls: seq<Str>, i: nat)
    requires 0 < i < |ls|
    ensures HasSuffix(Join(ls, DOT), [DOT] + Join(ls[i..], DOT))
  {
    if i > 1 {
      TailIsSuffix(ls[1..], i - 1);
      assert ls[1..][i - 1..] == ls[i..];
    }
  }

  lemma FirstLabel(pattern: Str, head: Str)
    requires DOT !in head
    ensures HasPrefix(pattern, head + [DOT]) <==> |Labels(pattern)| >= 2 && Labels(pattern)[0] == head
    ensures HasPrefix(pattern, head + [DOT]) ==> Labels(pattern)[1..] == Labels(pattern[|head| + 1..])
  {
    SplitOne(head, DOT);
    if HasPrefix(pattern, head + [DOT]) {
      var rest := pattern[|head| + 1..];
      assert pattern == head + [DOT] + rest;
      SplitAt(head, rest, DOT);
    }
    JoinSplit(pattern, DOT);
  }

  /** The prefix, suffix and dot-count tests decide exactly the label meaning, for all strings. */
  lemma MatchIsLabelMatch(pattern: Str, name: Str)
    ensures Match(pattern, name) <==> LabelsMatch(Labels(pattern), Labels(name))
  {
    FirstLabel(pattern, [STAR, STAR]);
    FirstLabel(pattern, [STAR]);
    assert StarStarDot() == [STAR, STAR] + [DOT] && StarDot() == [STAR] + [DOT];
    if HasPrefix(pattern, StarStarDot()) {
      SuffixIsTail(name, pattern[3..]);
    } else if HasPrefix(pattern, StarDot()) {
      SuffixIsTail(name, pattern[2..]);
      SplitCount(name, DOT);
      SplitCount(pattern[2..], DOT);
    } else if Labels(pattern) == Labels(name) {
      SplitInjective(pattern, name, DOT);
    }
  }

  // ----- validation and normalisation

  /** A lower-case letter, a digit or a dash. */
  predicate NameByte(c: byte) {
    97 <= c <= 122 || 48 <= c <= 57 || c == DASH
  }

  predicate ValidLabel(part: Str) {
    && 0 < |part| <= 63
    && part[0] != DASH && part[|part| - 1] != DASH
    && forall i | 0 <= i < |part| :: NameByte(part[i])
  }

  /** `validName`. */
  predicate ValidName(name: Str) {
    && 0 < |name| <= 253 && DOT in name
    && forall i | 0 <= i < |Labels(name)| :: ValidLabel(Labels(name)[i])
  }

  /** `strings.ToLower` on ASCII letters; other bytes are kept. */
  function LowerByte(c: byte): byte {
    if 65 <= c <= 90 then c + 32 else c
  }

  function ToLower(s: Str): Str {
    seq(|s|, i requires 0 <= i < |s| => LowerByte(s[i]))
  }

  /** `NormalName`. */
  function NormalName(name: Str): Option<Str> {
    var normal := ToLower(TrimSuffixDot(name));
    if ValidName(normal) then Some(normal) else None
  }

  lemma {:induction false} SplitBytes(s: Str, sep: byte, i: nat)
    requires i < |s| && s[i] != sep
    ensures exists j | 0 <= j < |Split(s, sep)| :: s[i] in Split(s, sep)[j]
  {
    var rest := Split(s[1..], sep);
    if i == 0 {
      assert s[0] in Split(s, sep)[0];
    } else {
      SplitBytes(s[1..], sep, i - 1);
      var j :| 0 <= j < |rest| && s[i] in rest[j];
      if s[0] == sep {
        assert Split(s, sep)[j + 1] == rest[j];
      } else {
        assert s[i] in Split(s, sep)[j];
      }
    }
  }

  /** A valid name holds only lower-case letters, digits, dashes and dots. */
  lemma ValidNameBytes(name: Str)
    requires ValidName(name)
    ensures forall i | 0 <= i < |name| :: name[i] == DOT || NameByte(name[i])
  {
    forall i | 0 <= i < |name| && name[i] != DOT
      ensures NameByte(name[i])
    {
      SplitBytes(name, DOT, i);
      var j :| 0 <= j < |Labels(name)| && name[i] in Labels(name)[j];
      assert ValidLabel(Labels(name)[j]);
    }
  }

  lemma TrailingDot(name: Str)
    requires HasSuffix(name, [DOT])
    ensures [] in Labels(name)
  {
    var head := name[..|name| - 1];
    assert name == head + [DOT] + [];
    SplitAt(head, [], DOT);
    assert Labels(name)[|Labels(head)|] == [];
  }

  lemma ValidNameEnd(name: Str)
    requires ValidName(name)
    ensures !HasSuffix(name, [DOT])
  {
    if HasSuffix(name, [DOT]) {
      TrailingDot(name);
    }
  }

  /** Normal names are exactly the fixed points: normalising returns a valid name and leaves valid names alone. */
  lemma NormalNameFixed(name: Str)
    ensures ValidName(name) <==> NormalName(name) == Some(name)
    ensures NormalName(name).Some? ==> NormalName(NormalName(name).value) == NormalName(name)
  {
    if ValidName(name) {
      ValidIsNormal(name);
    }
    if NormalName(name).Some? {
      ValidIsNormal(NormalName(name).value);
    }
  }

  lemma ValidIsNormal(name: Str)
    requires ValidName(name)
    ensures NormalName(name) == Some(name)
  {
    ValidNameEnd(name);
    ValidNameBytes(name);
    assert ToLower(name) == name;
  }

  // ----- what normalising does to a spelling

  /** The same byte, or an upper-case letter for this lower-case one. */
  predicate SpelledByte(raw: byte, c: byte) {
    raw == c || ('a' as int <= c <= 'z' as int && raw + 32 == c)
  }

  /** Some of the letters may be in upper case. */
  predicate SpelledAs(raw: Str, s: Str) {
    |raw| == |s| && forall i | 0 <= i < |s| :: SpelledByte(raw[i], s[i])
  }

  /** The same with or without one final dot. */
  predicate Spells(raw: Str, s: Str) {
    SpelledAs(raw, s) || (raw != [] && raw[|raw| - 1] == '.' as int && SpelledAs(raw[..|raw| - 1], s))
  }

  predicate NoUpperCase(s: Str) {
    forall i | 0 <= i < |s| :: !('A' as int <= s[i] <= 'Z' as int)
  }

  lemma LowerIsSpelling(raw: Str, s: Str)
    ensures ToLower(raw) == s <==> SpelledAs(raw, s) && NoUpperCase(s)
  {
    if SpelledAs(raw, s) && NoUpperCase(s) {
      assert forall i | 0 <= i < |s| :: SpelledByte(raw[i], s[i]);
      assert ToLower(raw) == s;
    }
  }

  /** Trimming and lower-casing yields exactly the string in lower case and without final dot that is spelled. */
  lemma TrimmedLowerIsSpelling(raw: Str, s: Str)
    requires NoUpperCase(s) && !HasSuffix(s, [DOT])
    ensures ToLower(TrimSuffixDot(raw)) == s <==> Spells(raw, s)
  {
    LowerIsSpelling(TrimSuffixDot(raw), s);
    if raw != [] && raw[|raw| - 1] == DOT {
      assert HasSuffix(raw, [DOT]);
      assert SpelledAs(raw, s) ==> SpelledByte(raw[|raw| - 1], s[|s| - 1]);
    } else {
      assert !HasSuffix(raw, [DOT]);
    }
  }

  lemma ValidNoUpperCase(name: Str)
    requires ValidName(name)
    ensures NoUpperCase(name) && !HasSuffix(name, [DOT])
  {
    ValidNameBytes(name);
    ValidNameEnd(name);
  }

  /** A name normalises to exactly the valid name it spells in any letter case, with or without a final dot. */
  lemma NormalNameSpelling(raw: Str, name: Str)
    ensures NormalName(raw) == Some(name) <==> ValidName(name) && Spells(raw, name)
  {
    if ValidName(name) {
      ValidNoUpperCase(name);
      TrimmedLowerIsSpelling(raw, name);
    }
  }

  /** The same byte, or one letter in both cases. */
  predicate SameLetter(c: byte, d: byte) {
    c == d || ('A' as int <= c <= 'Z' as int && d == c + 32) || ('A' as int <= d <= 'Z' as int && c == d + 32)
  }

  ghost predicate SameLetters(s: Str, t: Str) {
    |s| == |t| && forall i | 0 <= i < |s| :: SameLetter(s[i], t[i])
  }

  /** Without its final dot, if it has one. */
  function Relative(s: Str): Str {
    if s != [] && s[|s| - 1] == '.' as int then s[..|s| - 1] else s
  }

  /** Two spellings that differ only in letter case and a final dot normalise alike. */
  lemma SpellingsNormaliseAlike(s: Str, t: Str)
    requires SameLetters(Relative(s), Relative(t))
    ensures NormalName(s) == NormalName(t)
  {
    assert TrimSuffixDot(s) == Relative(s) && TrimSuffixDot(t) == Relative(t);
    assert forall i | 0 <= i < |Relative(s)| :: SameLetter(Relative(s)[i], Relative(t)[i]);
    assert ToLower(Relative(s)) == ToLower(Relative(t));
  }

  // ----- validation, label by label

  /** A name of dot-free labels is valid exactly if it has at least two, all valid, and at most 253 bytes. */
  lemma {:induction false} ValidNameOfLabels(ls: seq<Str>)
    requires ls != [] && forall i | 0 <= i < |ls| :: DOT !in ls[i]
    ensures ValidName(Join(ls, DOT)) <==>
            |ls| >= 2 && |Join(ls, DOT)| <= 253 && forall i | 0 <= i < |ls| :: ValidLabel(ls[i])
  {
    SplitJoin(ls, DOT);
    SplitCount(Join(ls, DOT), DOT);
    CountPositive(Join(ls, DOT), DOT);
    var name := Join(ls, DOT);
    assert Labels(name) == ls;
    assert DOT in name <==> |ls| >= 2;
    assert ValidName(name) <==> |name| <= 253 && DOT in name && forall i | 0 <= i < |ls| :: ValidLabel(ls[i]);
  }

  /** A label has 1 to 63 lower-case letters, digits and dashes, and neither starts nor ends with a dash. */
  lemma ValidLabelSpelled(part: Str)
    ensures ValidLabel(part) <==>
            && 1 <= |part| <= 63 && part[0] != '-' as int && part[|part| - 1] != '-' as int
            && forall c | c in part ::
                 'a' as int <= c <= 'z' as int || '0' as int <= c <= '9' as int || c == '-' as int
  {
    assert forall i | 0 <= i < |part| :: part[i] in part;
  }

  lemma {:induction false} CountPositive(s: Str, c: byte)
    ensures c in s <==> Count(s, c) > 0
  {
    if s != [] {
      CountPositive(s[1..], c);
      assert s == [s[0]] + s[1..];
    }
  }

  /** The loops of `validName`. */
  method CheckName(name: Str) returns (ok: bool)
    ensures ok <==> ValidName(name)
  {
    if |name| == 0 || |name| > 253 || DOT !in name {
      return false;
    }
    var labels := Labels(name);
    for i := 0 to |labels|
      invariant forall m | 0 <= m < i :: ValidLabel(labels[m])
    {
      var part := labels[i];
      if |part| == 0 || |part| > 63 || part[0] == DASH || part[|part| - 1] == DASH {
        return false;
      }
      for j := 0 to |part|
        invariant forall m | 0 <= m < j :: NameByte(part[m])
      {
        var c := part[j];
        if !(97 <= c <= 122 || 48 <= c <= 57 || c == DASH) {
          return false;
        }
      }
    }
    return true;
  }
}
