/**
 * The transcript wire format "seed,m0,m1,...": splitting on a separator
 * (Rust's `str::split`), decimal rendering (`to_string`) and decimal
 * parsing (`from_str` on unsigned integers).
 */
module Transcript {
  import opened Wrappers
  import opened Rng

  const SEP: char := ','

  /** The pieces of `s` between occurrences of `sep`; never empty. */
  function Split(s: string, sep: char): (parts: seq<string>)
    decreases |s|
    ensures |parts| >= 1
    ensures forall i :: 0 <= i < |parts| ==> sep !in parts[i]
    ensures Join(parts, sep) == s
  {
    if s == [] then [""]
    else
      var rest := Split(s[1..], sep);
      if s[0] == sep then
        [""] + rest
      else
        JoinCons(s[0], rest, sep);
        [[s[0]] + rest[0]] + rest[1..]
  }

  /** The pieces of a non-empty list glued with `sep` between them. */
  function Join(parts: seq<string>, sep: char): string
    requires |parts| >= 1
    decreases |parts|
  {
    if |parts| == 1 then parts[0] else parts[0] + [sep] + Join(parts[1..], sep)
  }

  lemma JoinCons(c: char, rest: seq<string>, sep: char)
    requires |rest| >= 1
    ensures Join([[c] + rest[0]] + rest[1..], sep) == [c] + Join(rest, sep)
  {
    var parts := [[c] + rest[0]] + rest[1..];
    if |rest| > 1 {
      assert parts[1..] == rest[1..];
    }
  }

  lemma {:induction false} JoinSnoc(parts: seq<string>, t: string, sep: char)
    requires |parts| >= 1
    decreases |parts|
    ensures Join(parts + [t], sep) == Join(parts, sep) + [sep] + t
  {
    if |parts| > 1 {
      assert (parts + [t])[1..] == parts[1..] + [t];
      JoinSnoc(parts[1..], t, sep);
    }
  }

  /** A piece without a separator splits to itself. */
  lemma {:induction false} SplitNoSep(a: string, sep: char)
    requires sep !in a
    decreases |a|
    ensures Split(a, sep) == [a]
  {
    if a != [] {
      SplitNoSep(a[1..], sep);
      assert [a[0]] + a[1..] == a;
    }
  }

  /** Splitting stops at the first separator. */
  lemma {:induction false} SplitAtFirstSep(a: string, rest: string, sep: char)
    requires sep !in a
    decreases |a|
    ensures Split(a + [sep] + rest, sep) == [a] + Split(rest, sep)
  {
    var s := a + [sep] + rest;
    if a != [] {
      assert s[1..] == a[1..] + [sep] + rest;
      SplitAtFirstSep(a[1..], rest, sep);
      assert [a[0]] + a[1..] == a;
    } else {
      assert s[1..] == rest;
    }
  }

  /** Split undoes Join when no piece holds the separator. */
  lemma {:induction false} SplitJoin(parts: seq<string>, sep: char)
    requires |parts| >= 1
    requires forall i :: 0 <= i < |parts| ==> sep !in parts[i]
    decreases |parts|
    ensures Split(Join(parts, sep), sep) == parts
  {
    if |parts| == 1 {
      SplitNoSep(parts[0], sep);
    } else {
      SplitJoin(parts[1..], sep);
      SplitAtFirstSep(parts[0], Join(parts[1..], sep), sep);
    }
  }

  predicate IsDigit(c: char) {
    '0' <= c <= '9'
  }

  predicate AllDigits(s: string) {
    forall i :: 0 <= i < |s| ==> IsDigit(s[i])
  }

  function DigitChar(d: nat): (c: char)
    requires d < 10
    ensures IsDigit(c) && c as int - '0' as int == d
  {
    ('0' as int + d) as char
  }

  /** The base-10 rendering of `n`, without leading zeros. */
  function ToDecimal(n: nat): (s: string)
    decreases n
    ensures |s| >= 1 && AllDigits(s)
    ensures |s| > 1 ==> s[0] != '0'
  {
    if n < 10 then [DigitChar(n)] else ToDecimal(n / 10) + [DigitChar(n % 10)]
  }

  /** The value of a string of decimal digits, most significant first. */
  function DigitsValue(s: string): nat
    requires AllDigits(s)
    decreases |s|
  {
    if s == [] then 0 else DigitsValue(s[..|s| - 1]) * 10 + (s[|s| - 1] as int - '0' as int)
  }

  /**
   * `from_str` for an unsigned integer type: an optional '+' followed by
   * one or more decimal digits; anything else (a lone '+', a '-', an empty
   * token, any other character) fails.
   */
  function ParseDecimal(t: string): Option<nat> {
    var digits := if |t| > 1 && t[0] == '+' then t[1..] else t;
    if |digits| > 0 && AllDigits(digits) then Some(DigitsValue(digits)) else None
  }

  /** `u64::from_str`: a decimal numeral whose value fits in 64 bits. */
  function ParseU64(t: string): (r: Option<U64>)
    ensures r.Some? <==> ParseDecimal(t).Some? && ParseDecimal(t).value < MODULUS
  {
    match ParseDecimal(t)
    case Some(v) => if v < MODULUS then Some(v) else None
    case None => None
  }

  /** Parsing reads back exactly the number that was rendered. */
  lemma {:induction false} DecimalRoundTrip(n: nat)
    decreases n
    ensures ParseDecimal(ToDecimal(n)) == Some(n)
  {
    var s := ToDecimal(n);
    assert IsDigit(s[0]);
    if n >= 10 {
      DecimalRoundTrip(n / 10);
      assert s[..|s| - 1] == ToDecimal(n / 10);
      assert s[|s| - 1] == DigitChar(n % 10);
      assert n == (n / 10) * 10 + n % 10;
      assert DigitsValue(s) == DigitsValue(ToDecimal(n / 10)) * 10 + n % 10;
    } else {
      assert s == [DigitChar(n)] && s[..|s| - 1] == [];
      assert DigitsValue(s) == n;
    }
    assert ParseDecimal(s) == Some(DigitsValue(s));
  }

  /** The seed parser reads a rendered number back exactly when it fits in 64 bits. */
  lemma ParseU64Rendered(n: nat)
    ensures ParseU64(ToDecimal(n)) == if n < MODULUS then Some(n) else None
  {
    DecimalRoundTrip(n);
  }

  /** A leading '+' is accepted before the digits, but not on its own or doubled. */
  lemma PlusSign(n: nat)
    ensures ParseDecimal("+" + ToDecimal(n)) == Some(n)
    ensures ParseDecimal("+") == None && ParseDecimal("++" + ToDecimal(n)) == None
    ensures ParseDecimal("") == None && ParseDecimal("-" + ToDecimal(n)) == None
  {
    DecimalRoundTrip(n);
    assert ("+" + ToDecimal(n))[1..] == ToDecimal(n);
    assert !IsDigit(("++" + ToDecimal(n))[1..][0]);
    assert !IsDigit(("-" + ToDecimal(n))[0]);
  }

  /** The rendered move tokens, one per move. */
  function Tokens(ms: seq<nat>): (ts: seq<string>)
    ensures |ts| == |ms|
    ensures forall i :: 0 <= i < |ms| ==> ts[i] == ToDecimal(ms[i])
  {
    seq(|ms|, i requires 0 <= i < |ms| => ToDecimal(ms[i]))
  }

  /** The transcript of a round: the seed, then each move, comma separated. */
  function Encode(seed: U64, ms: seq<nat>): string {
    Join([ToDecimal(seed)] + Tokens(ms), SEP)
  }

  /** Splitting an encoded transcript and parsing each piece gives back the round. */
  lemma EncodeRoundTrip(seed: U64, ms: seq<nat>)
    ensures Split(Encode(seed, ms), SEP) == [ToDecimal(seed)] + Tokens(ms)
    ensures ParseU64(Split(Encode(seed, ms), SEP)[0]) == Some(seed)
    ensures forall i :: 0 <= i < |ms| ==> ParseDecimal(Split(Encode(seed, ms), SEP)[i + 1]) == Some(ms[i])
  {
    var parts := [ToDecimal(seed)] + Tokens(ms);
    forall i | 0 <= i < |parts|
      ensures SEP !in parts[i]
    {
      assert forall k :: 0 <= k < |parts[i]| ==> parts[i][k] != SEP;
    }
    SplitJoin(parts, SEP);
    DecimalRoundTrip(seed);
    forall i | 0 <= i < |ms|
      ensures ParseDecimal(parts[i + 1]) == Some(ms[i])
    {
      DecimalRoundTrip(ms[i]);
    }
  }
}
