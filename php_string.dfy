/**
 * The PHP string built-ins the core relies on: `(int)` casts of strings,
 * decimal rendering of integers, `explode`, `implode`, `str_replace` and the
 * loose comparison of an integer with a string.
 */
module PhpString {

  predicate IsDigit(c: char) {
    '0' <= c <= '9'
  }

  predicate AllDigits(s: string) {
    forall i :: 0 <= i < |s| ==> IsDigit(s[i])
  }

  /** The longest prefix of `s` made of decimal digits. */
  function DigitsPrefix(s: string): (p: string)
    ensures |p| <= |s| && p == s[..|p|]
    ensures AllDigits(p)
    ensures |p| < |s| ==> !IsDigit(s[|p|])
  {
    if |s| > 0 && IsDigit(s[0]) then [s[0]] + DigitsPrefix(s[1..]) else []
  }

  /** The number a string of decimal digits denotes. */
  function DigitsValue(d: string): nat
    requires AllDigits(d)
  {
    if d == [] then 0 else DigitsValue(d[..|d| - 1]) * 10 + (d[|d| - 1] as int - '0' as int)
  }

  /**
   * PHP `(int) $s`: an optional sign followed by the leading decimal digits;
   * a string without leading digits casts to 0.
   */
  function IntCast(s: string): int
  {
    if |s| > 0 && s[0] == '-' then -(DigitsValue(DigitsPrefix(s[1..])) as int)
    else if |s| > 0 && s[0] == '+' then DigitsValue(DigitsPrefix(s[1..]))
    else DigitsValue(DigitsPrefix(s))
  }

  function DigitChar(n: nat): (c: char)
    requires n < 10
    ensures IsDigit(c) && c as int - '0' as int == n
  {
    ('0' as int + n) as char
  }

  /** Decimal rendering of a natural number, as PHP writes it. */
  function NatToString(n: nat): (s: string)
    ensures |s| >= 1 && AllDigits(s)
  {
    if n < 10 then [DigitChar(n)] else NatToString(n / 10) + [DigitChar(n % 10)]
  }

  /** PHP `(string) $n` for an integer. */
  function IntToString(n: int): string
  {
    if n < 0 then "-" + NatToString(-n) else NatToString(n)
  }

  /** A plain decimal integer: an optional minus sign and at least one digit. */
  predicate IsIntString(s: string) {
    if |s| > 0 && s[0] == '-' then |s| > 1 && AllDigits(s[1..]) else |s| > 0 && AllDigits(s)
  }

  /**
   * PHP's loose `$n == $s` between an integer and a string, with only plain
   * decimal integer strings counted as numeric: the string matches when it is
   * one of equal value. Numeric strings of other forms (" 7", "7 ", "7.0")
   * and all other strings never match in this model.
   */
  predicate LooseEqualsInt(s: string, n: int) {
    IsIntString(s) && IntCast(s) == n
  }

  /**
   * PHP's loose `$a == $b` between two strings: two plain decimal integers
   * compare by value ("1" == "01"), any other pair by content.
   */
  predicate LooseEqualsStr(a: string, b: string) {
    if IsIntString(a) && IsIntString(b) then IntCast(a) == IntCast(b) else a == b
  }

  /** PHP's `strcmp($a, $b) < 0`: `a` comes first in character order, a proper prefix first. */
  predicate StrLess(a: string, b: string)
    decreases |a|
  {
    if a == [] then b != []
    else if b == [] then false
    else if a[0] != b[0] then a[0] < b[0]
    else StrLess(a[1..], b[1..])
  }

  /**
   * PHP 8's `$s < $n` between a string and an integer: by value when the
   * string is a plain decimal integer, otherwise as strings against the
   * integer's decimal rendering.
   */
  predicate LessThanInt(s: string, n: int) {
    if IsIntString(s) then IntCast(s) < n else StrLess(s, IntToString(n))
  }

  /**
   * A string that PHP 8 does not find below 1 casts to a non-negative
   * integer, and to at least 1 when it is a plain decimal integer; a
   * non-numeric string such as "abc" passes and casts to 0.
   */
  lemma NotBelowOne(s: string)
    requires !LessThanInt(s, 1)
    ensures IntCast(s) >= 0
    ensures IsIntString(s) ==> IntCast(s) >= 1
  {
  }

  /** "abc" is not below 1 in PHP 8 and casts to 0. */
  lemma NonNumericNotBelowOne()
    ensures !LessThanInt("abc", 1) && IntCast("abc") == 0
  {
  }

  lemma {:induction false} DigitsPrefixOfDigits(s: string)
    requires AllDigits(s)
    ensures DigitsPrefix(s) == s
  {
    if |s| > 0 {
      DigitsPrefixOfDigits(s[1..]);
    }
  }

  lemma {:induction false} NatToStringValue(n: nat)
    ensures DigitsValue(NatToString(n)) == n
  {
    if n >= 10 {
      var s := NatToString(n);
      assert s[..|s| - 1] == NatToString(n / 10);
      NatToStringValue(n / 10);
    }
  }

  /** Casting the decimal rendering of an integer gives the integer back. */
  lemma IntCastOfIntToString(n: int)
    ensures IntCast(IntToString(n)) == n
    ensures IsIntString(IntToString(n))
  {
    if n < 0 {
      var s := IntToString(n);
      assert s[1..] == NatToString(-n);
      DigitsPrefixOfDigits(NatToString(-n));
      NatToStringValue(-n);
    } else {
      DigitsPrefixOfDigits(NatToString(n));
      NatToStringValue(n);
    }
  }

  /** Decimal rendering is injective: distinct integers never share a key. */
  lemma IntToStringInjective(m: int, n: int)
    requires IntToString(m) == IntToString(n)
    ensures m == n
  {
    IntCastOfIntToString(m);
    IntCastOfIntToString(n);
  }

  /** Every integer loosely equals its own decimal rendering. */
  lemma LooseEqualsOwnRendering(n: int)
    ensures LooseEqualsInt(IntToString(n), n)
  {
    IntCastOfIntToString(n);
  }

  /** True iff `sub` occurs in `s` starting at index `i`. */
  predicate OccursAt(s: string, sub: string, i: nat) {
    i + |sub| <= |s| && s[i..i + |sub|] == sub
  }

  /**
   * PHP `explode($d, $s)`: the pieces of `s` between the non-overlapping
   * occurrences of `d`, found from the left. An empty `s` gives `[""]`.
   */
  function Explode(d: string, s: string): (parts: seq<string>)
    requires |d| > 0
    ensures |parts| >= 1
    decreases |s|
  {
    if |s| < |d| then [s]
    else if s[..|d|] == d then [""] + Explode(d, s[|d|..])
    else
      var rest := Explode(d, s[1..]);
      [[s[0]] + rest[0]] + rest[1..]
  }

  /** PHP `implode($glue, $parts)`. */
  function Implode(glue: string, parts: seq<string>): string
  {
    if parts == [] then "" else if |parts| == 1 then parts[0] else parts[0] + glue + Implode(glue, parts[1..])
  }

  /**
   * PHP `str_replace($search, $rep, $s)` for one search string: every
   * non-overlapping occurrence of `search`, found from the left, becomes `rep`.
   * An empty `search` leaves `s` unchanged.
   */
  function Replace(search: string, rep: string, s: string): string
    decreases |s|
  {
    if |search| == 0 || |s| < |search| then s
    else if s[..|search|] == search then rep + Replace(search, rep, s[|search|..])
    else [s[0]] + Replace(search, rep, s[1..])
  }

  /** `str_replace` agrees with exploding on the search string and imploding with the replacement. */
  lemma {:induction false} ReplaceIsImplodeOfExplode(search: string, rep: string, s: string)
    requires |search| > 0
    ensures Replace(search, rep, s) == Implode(rep, Explode(search, s))
    decreases |s|
  {
    if |s| < |search| {
    } else if s[..|search|] == search {
      var e := Explode(search, s[|search|..]);
      ReplaceIsImplodeOfExplode(search, rep, s[|search|..]);
      assert ([""] + e)[1..] == e;
    } else {
      var e := Explode(search, s[1..]);
      ReplaceIsImplodeOfExplode(search, rep, s[1..]);
      var parts := [[s[0]] + e[0]] + e[1..];
      if |e| > 1 {
        assert parts[1..] == e[1..];
        assert Implode(rep, e) == e[0] + rep + Implode(rep, e[1..]);
      }
    }
  }

  /** Where `search` does not occur, `str_replace` changes nothing. */
  lemma {:induction false} ReplaceAbsent(search: string, rep: string, s: string)
    requires forall i: nat :: !OccursAt(s, search, i)
    ensures Replace(search, rep, s) == s
    decreases |s|
  {
    if |search| == 0 || |s| < |search| {
    } else {
      assert !OccursAt(s, search, 0);
      assert s[0..|search|] == s[..|search|];
      forall i: nat ensures !OccursAt(s[1..], search, i) {
        if OccursAt(s[1..], search, i) {
          assert s[1..][i..i + |search|] == s[i + 1..i + 1 + |search|];
          assert OccursAt(s, search, i + 1);
        }
      }
      ReplaceAbsent(search, rep, s[1..]);
    }
  }

  lemma {:induction false} ExplodeWithoutDelimiter(c: char, x: string)
    requires c !in x
    ensures Explode([c], x) == [x]
    decreases |x|
  {
    if |x| >= 1 {
      assert x[..1] == [x[0]];
      ExplodeWithoutDelimiter(c, x[1..]);
      assert [x[0]] + x[1..] == x;
    }
  }

  lemma {:induction false} ExplodeFirstPiece(c: char, x: string, rest: string)
    requires c !in x
    ensures Explode([c], x + [c] + rest) == [x] + Explode([c], rest)
    decreases |x|
  {
    var s := x + [c] + rest;
    if x == [] {
      assert s[..1] == [c];
      assert s[1..] == rest;
    } else {
      assert s[..1] == [x[0]];
      assert s[1..] == x[1..] + [c] + rest;
      ExplodeFirstPiece(c, x[1..], rest);
      assert [x[0]] + x[1..] == x;
    }
  }

  /**
   * Splitting on a one-character delimiter undoes joining with it, as long as
   * no piece contains the delimiter.
   */
  lemma {:induction false} ExplodeImplode(c: char, parts: seq<string>)
    requires |parts| >= 1
    requires forall i :: 0 <= i < |parts| ==> c !in parts[i]
    ensures Explode([c], Implode([c], parts)) == parts
  {
    if |parts| == 1 {
      ExplodeWithoutDelimiter(c, parts[0]);
    } else {
      ExplodeImplode(c, parts[1..]);
      ExplodeFirstPiece(c, parts[0], Implode([c], parts[1..]));
      assert [parts[0]] + parts[1..] == parts;
    }
  }

  /** PHP `strrpos($s, $c)`: the index of the last `c` in `s`, or -1 for `false`. */
  function LastIndexOf(s: string, c: char): (r: int)
    ensures -1 <= r < |s|
    ensures r >= 0 ==> s[r] == c && forall j :: r < j < |s| ==> s[j] != c
    ensures r == -1 ==> c !in s
  {
    if s == [] then -1
    else if s[|s| - 1] == c then |s| - 1
    else LastIndexOf(s[..|s| - 1], c)
  }
}
