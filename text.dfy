/**
 * The Python string builtins the reference evaluator relies on, stated as
 * functions over `string` (a `seq<char>`): `str.startswith`, `str.lstrip`,
 * `str.rstrip`, `str.index` for one character, `str.isdigit` and `int()` of
 * a digit string.
 */
module Text {
  import opened Wrappers

  /** `s.startswith(prefix)` for a single prefix. */
  predicate StartsWith(s: string, prefix: string) {
    |prefix| <= |s| && s[..|prefix|] == prefix
  }

  /** A string starts with `prefix` exactly when it is `prefix` followed by the rest of the string. */
  lemma StartsWithConcat(prefix: string, rest: string)
    ensures StartsWith(prefix + rest, prefix)
  {
    assert (prefix + rest)[..|prefix|] == prefix;
  }

  lemma StartsWithSplits(s: string, prefix: string)
    requires StartsWith(s, prefix)
    ensures s == prefix + s[|prefix|..]
  {
    assert s == s[..|prefix|] + s[|prefix|..];
  }

  /**
   * `s.lstrip(chars)`: `chars` is a SET of characters, and the longest
   * prefix made only of them is removed.
   */
  function LStrip(s: string, chars: string): (r: string)
    ensures |r| <= |s| && r == s[|s| - |r|..]
    ensures forall i :: 0 <= i < |s| - |r| ==> s[i] in chars
    ensures r == [] || r[0] !in chars
    decreases |s|
  {
    if s != [] && s[0] in chars then LStrip(s[1..], chars) else s
  }

  /** A leading character from `chars` is removed and stripping goes on. */
  lemma LStripDrops(c: char, s: string, chars: string)
    requires c in chars
    ensures LStrip([c] + s, chars) == LStrip(s, chars)
  {
    assert ([c] + s)[1..] == s;
  }

  /** Any run of characters from `chars` in front of `s` is stripped away with the rest of the prefix. */
  lemma {:induction false} LStripPrefix(m: string, s: string, chars: string)
    requires forall i :: 0 <= i < |m| ==> m[i] in chars
    ensures LStrip(m + s, chars) == LStrip(s, chars)
    decreases |m|
  {
    if m == [] {
      assert m + s == s;
    } else {
      assert m + s == [m[0]] + (m[1..] + s);
      LStripDrops(m[0], m[1..] + s, chars);
      LStripPrefix(m[1..], s, chars);
    }
  }

  /** `s.rstrip(chars)`: the longest suffix made only of `chars` is removed. */
  function RStrip(s: string, chars: string): (r: string)
    ensures |r| <= |s| && r == s[..|r|]
    ensures forall i :: |r| <= i < |s| ==> s[i] in chars
    ensures r == [] || r[|r| - 1] !in chars
    decreases |s|
  {
    if s != [] && s[|s| - 1] in chars then RStrip(s[..|s| - 1], chars) else s
  }

  /**
   * `s.index(c)` for a one-character substring: the first position of `c`,
   * or None where Python raises ValueError ("substring not found").
   */
  function IndexOf(s: string, c: char): (r: Option<nat>)
    ensures r.Some? ==> r.value < |s| && s[r.value] == c && c !in s[..r.value]
    ensures r.None? ==> c !in s
  {
    if s == [] then None
    else if s[0] == c then Some(0)
    else
      match IndexOf(s[1..], c)
      case None => None
      case Some(i) => Some(i + 1)
  }

  /** The first occurrence of `c` is where `str.index` finds it. */
  lemma {:induction false} IndexOfFirst(s: string, c: char, i: nat)
    requires i < |s| && s[i] == c && c !in s[..i]
    ensures IndexOf(s, c) == Some(i)
  {
    if i > 0 {
      assert s[0] == s[..i][0];
      assert s[1..][..i - 1] == s[..i][1..];
      IndexOfFirst(s[1..], c, i - 1);
    }
  }

  predicate IsDigit(c: char) {
    '0' <= c <= '9'
  }

  /** `s.isdigit()`, restricted to the ASCII digits: non-empty and all digits. */
  predicate IsDigits(s: string) {
    |s| > 0 && forall i :: 0 <= i < |s| ==> IsDigit(s[i])
  }

  /** `isdigit` holds exactly on a non-empty string every character of which is a digit. */
  lemma DigitsCharacters(s: string)
    ensures IsDigits(s) <==> s != [] && forall c :: c in s ==> '0' <= c <= '9'
  {
    if s != [] && forall c :: c in s ==> '0' <= c <= '9' {
      forall i | 0 <= i < |s|
        ensures IsDigit(s[i])
      {
        assert s[i] in s;
      }
    }
  }

  /** `int(s)` of a string of decimal digits (leading zeros allowed). */
  function DigitsValue(s: string): nat
    requires forall i :: 0 <= i < |s| ==> IsDigit(s[i])
    decreases |s|
  {
    if s == [] then 0
    else
      assert IsDigit(s[|s| - 1]);
      10 * DigitsValue(s[..|s| - 1]) + (s[|s| - 1] as int - '0' as int)
  }

  /** `int()` ignores a leading zero: `int("0" + s) == int(s)`, and `int("0") == 0`. */
  lemma {:induction false} LeadingZero(s: string)
    requires forall i :: 0 <= i < |s| ==> IsDigit(s[i])
    ensures DigitsValue("0" + s) == DigitsValue(s)
    decreases |s|
  {
    var z := "0" + s;
    if s == [] {
      assert z[..|z| - 1] == [];
    } else {
      var init := s[..|s| - 1];
      assert z[..|z| - 1] == "0" + init;
      assert z[|z| - 1] == s[|s| - 1];
      LeadingZero(init);
    }
  }

  function DigitChar(d: nat): (c: char)
    requires d < 10
    ensures IsDigit(c) && c as int - '0' as int == d
  {
    ('0' as int + d) as char
  }

  /** `str(n)` of a natural number: its decimal digits, which `int()` reads back as `n`. */
  function Decimal(n: nat): (s: string)
    ensures IsDigits(s) && DigitsValue(s) == n
    decreases n
  {
    if n < 10 then [DigitChar(n)]
    else
      var prefix := Decimal(n / 10);
      var s := prefix + [DigitChar(n % 10)];
      assert s[..|s| - 1] == prefix;
      s
  }
}
