/**
 * The JavaScript string operations the modelled code relies on:
 * `startsWith`, `includes`, `split` on a one-character separator, `join`,
 * `toUpperCase` (ASCII letters) and the decimal rendering of a number.
 * Each comes with an independent characterisation or an inverse.
 */
module Strings {

  /** `s.startsWith(p)` */
  predicate StartsWith(s: string, p: string) {
    |p| <= |s| && s[..|p|] == p
  }

  /** `s.endsWith(p)` */
  predicate EndsWith(s: string, p: string) {
    |p| <= |s| && s[|s| - |p|..] == p
  }

  // ---------------------------------------------------------------------------
  // includes
  // ---------------------------------------------------------------------------

  /** `needle` occurs in `hay` at index `i` */
  ghost predicate OccursAt(hay: string, needle: string, i: nat) {
    i + |needle| <= |hay| && hay[i..i + |needle|] == needle
  }

  /** `hay.includes(needle)`: a case-sensitive substring test, trying every start from the left */
  function Includes(hay: string, needle: string): bool
    decreases |hay|
  {
    StartsWith(hay, needle) || (hay != [] && Includes(hay[1..], needle))
  }

  /** `Includes` holds exactly when the needle occurs at some index of the haystack. */
  lemma {:induction false} IncludesIff(hay: string, needle: string)
    ensures Includes(hay, needle) <==> exists i: nat :: OccursAt(hay, needle, i)
    decreases |hay|
  {
    if StartsWith(hay, needle) {
      assert OccursAt(hay, needle, 0);
    } else if hay == [] {
      forall i: nat ensures !OccursAt(hay, needle, i) { }
    } else {
      IncludesIff(hay[1..], needle);
      if exists i: nat :: OccursAt(hay[1..], needle, i) {
        var i: nat :| OccursAt(hay[1..], needle, i);
        assert hay[i + 1..i + 1 + |needle|] == hay[1..][i..i + |needle|];
        assert OccursAt(hay, needle, i + 1);
      }
      if exists i: nat :: OccursAt(hay, needle, i) {
        var i: nat :| OccursAt(hay, needle, i);
        assert i != 0;
        assert hay[1..][i - 1..i - 1 + |needle|] == hay[i..i + |needle|];
        assert OccursAt(hay[1..], needle, i - 1);
      }
    }
  }

  /** A needle that occurs at a known index is found by `Includes`. */
  lemma IncludesAt(hay: string, needle: string, i: nat)
    requires OccursAt(hay, needle, i)
    ensures Includes(hay, needle)
  {
    IncludesIff(hay, needle);
  }

  /** A needle found by `Includes` occurs at some index. */
  lemma IncludesWitness(hay: string, needle: string) returns (i: nat)
    requires Includes(hay, needle)
    ensures OccursAt(hay, needle, i)
  {
    IncludesIff(hay, needle);
    i :| OccursAt(hay, needle, i);
  }

  // ---------------------------------------------------------------------------
  // split and join
  // ---------------------------------------------------------------------------

  /**
   * `s.split(sep)` for a one-character separator: the pieces between
   * consecutive separators, in order; there is always at least one piece.
   */
  function Split(s: string, sep: char): (parts: seq<string>)
    ensures |parts| >= 1
    decreases |s|
  {
    if s == [] then [""]
    else
      var rest := Split(s[1..], sep);
      if s[0] == sep then [""] + rest
      else [[s[0]] + rest[0]] + rest[1..]
  }

  /** No piece of a split holds the separator. */
  lemma {:induction false} SplitPiecesSeparatorFree(s: string, sep: char)
    ensures forall i :: 0 <= i < |Split(s, sep)| ==> sep !in Split(s, sep)[i]
    decreases |s|
  {
    if s != [] {
      SplitPiecesSeparatorFree(s[1..], sep);
      var rest := Split(s[1..], sep);
      if s[0] != sep {
        var parts := Split(s, sep);
        forall i | 0 <= i < |parts| ensures sep !in parts[i] {
          if i == 0 {
            assert parts[0] == [s[0]] + rest[0];
          } else {
            assert parts[i] == rest[i];
          }
        }
      }
    }
  }

  /** `parts.join(sep)` */
  function Join(parts: seq<string>, sep: string): string
    decreases |parts|
  {
    if parts == [] then ""
    else if |parts| == 1 then parts[0]
    else parts[0] + sep + Join(parts[1..], sep)
  }

  /** Joining the pieces of a split with the same separator gives back the string. */
  lemma {:induction false} SplitJoin(s: string, sep: char)
    ensures Join(Split(s, sep), [sep]) == s
    decreases |s|
  {
    if s != [] {
      var rest := Split(s[1..], sep);
      SplitJoin(s[1..], sep);
      if s[0] == sep {
        assert ([""] + rest)[1..] == rest;
      } else if |rest| > 1 {
        var parts := [[s[0]] + rest[0]] + rest[1..];
        assert parts[1..] == rest[1..];
        assert Join(rest, [sep]) == rest[0] + [sep] + Join(rest[1..], [sep]);
        assert Join(parts, [sep]) == [s[0]] + Join(rest, [sep]);
      }
      assert s == [s[0]] + s[1..];
    }
  }

  /** A string with no separator splits into itself alone. */
  lemma {:induction false} SplitNoSeparator(s: string, sep: char)
    requires sep !in s
    ensures Split(s, sep) == [s]
    decreases |s|
  {
    if s != [] {
      SplitNoSeparator(s[1..], sep);
      assert s == [s[0]] + s[1..];
    }
  }

  /** A separator-free head followed by a separator splits off as the first piece. */
  lemma {:induction false} SplitAfterHead(a: string, sep: char, b: string)
    requires sep !in a
    ensures Split(a + [sep] + b, sep) == [a] + Split(b, sep)
    decreases |a|
  {
    var s := a + [sep] + b;
    if a == [] {
      assert s[1..] == b;
    } else {
      assert s[1..] == a[1..] + [sep] + b;
      SplitAfterHead(a[1..], sep, b);
      assert [a[0]] + a[1..] == a;
    }
  }

  /** Whatever precedes a separator does not affect the last segment. */
  lemma {:induction false} LastSegmentAfterSeparator(a: string, sep: char, b: string)
    ensures LastSegment(a + [sep] + b, sep) == LastSegment(b, sep)
    decreases |a|
  {
    var s := a + [sep] + b;
    LastSegmentStep(s, sep);
    if a == [] {
      assert s[1..] == b;
    } else {
      assert s[1..] == a[1..] + [sep] + b;
      assert s[1..][|a| - 1] == sep;
      LastSegmentAfterSeparator(a[1..], sep, b);
    }
  }

  /** Splitting a join of separator-free pieces recovers the pieces. */
  lemma {:induction false} JoinSplit(parts: seq<string>, sep: char)
    requires |parts| >= 1
    requires forall i :: 0 <= i < |parts| ==> sep !in parts[i]
    ensures Split(Join(parts, [sep]), sep) == parts
    decreases |parts|
  {
    if |parts| == 1 {
      SplitNoSeparator(parts[0], sep);
    } else {
      JoinSplit(parts[1..], sep);
      SplitAfterHead(parts[0], sep, Join(parts[1..], [sep]));
      assert [parts[0]] + parts[1..] == parts;
    }
  }

  /** `s.split(sep)[0]` */
  function FirstSegment(s: string, sep: char): string {
    Split(s, sep)[0]
  }

  /** `s.split(sep).pop()` */
  function LastSegment(s: string, sep: char): string {
    var parts := Split(s, sep);
    parts[|parts| - 1]
  }

  /**
   * The first segment is the longest separator-free prefix: it starts the
   * string and is followed either by the end of the string or by a separator.
   */
  lemma {:induction false} FirstSegmentSpec(s: string, sep: char)
    ensures sep !in FirstSegment(s, sep)
    ensures StartsWith(s, FirstSegment(s, sep))
    ensures FirstSegment(s, sep) == s || s[|FirstSegment(s, sep)|] == sep
    ensures sep !in s ==> FirstSegment(s, sep) == s
    decreases |s|
  {
    SplitPiecesSeparatorFree(s, sep);
    if sep !in s {
      SplitNoSeparator(s, sep);
    }
    if s != [] && s[0] != sep {
      FirstSegmentSpec(s[1..], sep);
      var f := FirstSegment(s[1..], sep);
      assert FirstSegment(s, sep) == [s[0]] + f;
      assert s == [s[0]] + s[1..];
    }
  }

  /** A split yields a single piece exactly when the separator does not occur. */
  lemma {:induction false} SplitSingleIff(s: string, sep: char)
    ensures |Split(s, sep)| == 1 <==> sep !in s
    decreases |s|
  {
    if s != [] {
      SplitSingleIff(s[1..], sep);
      assert s == [s[0]] + s[1..];
    }
  }

  /** How the last segment of a non-empty string relates to that of its tail. */
  lemma LastSegmentStep(s: string, sep: char)
    requires s != []
    ensures LastSegment(s, sep) ==
      if s[0] != sep && sep !in s[1..] then [s[0]] + LastSegment(s[1..], sep) else LastSegment(s[1..], sep)
  {
    var rest := Split(s[1..], sep);
    SplitSingleIff(s[1..], sep);
    if s[0] == sep {
      assert Split(s, sep) == [""] + rest;
    } else {
      assert Split(s, sep) == [[s[0]] + rest[0]] + rest[1..];
    }
  }

  /**
   * The last segment is the longest separator-free suffix: it ends the
   * string and is preceded either by the start of the string or by a separator.
   */
  lemma {:induction false} LastSegmentSpec(s: string, sep: char)
    ensures sep !in LastSegment(s, sep)
    ensures EndsWith(s, LastSegment(s, sep))
    ensures LastSegment(s, sep) == s || s[|s| - |LastSegment(s, sep)| - 1] == sep
    ensures sep !in s ==> LastSegment(s, sep) == s
    decreases |s|
  {
    SplitPiecesSeparatorFree(s, sep);
    if sep !in s {
      SplitNoSeparator(s, sep);
    }
    if s != [] {
      var t := s[1..];
      LastSegmentSpec(t, sep);
      LastSegmentStep(s, sep);
      var l := LastSegment(t, sep);
      assert t[|t| - |l|..] == s[|s| - |l|..];
      if s[0] != sep && sep !in t {
        SplitNoSeparator(t, sep);
        assert l == t;
        assert [s[0]] + t == s;
      } else if l == t {
        assert s[0] == sep;
        assert s[|s| - |l| - 1] == s[0];
      } else {
        assert s[|s| - |l| - 1] == t[|t| - |l| - 1];
      }
    }
  }

  // ---------------------------------------------------------------------------
  // toUpperCase
  // ---------------------------------------------------------------------------

  /** Upper-casing of one character, for the ASCII letters a-z */
  function UpperChar(c: char): char {
    if 'a' <= c <= 'z' then (c as int - 32) as char else c
  }

  /**
   * `s.toUpperCase()` restricted to ASCII letters: each lower-case letter
   * becomes its capital, every other character is kept, and no lower-case
   * letter is left.
   */
  function ToUpperCase(s: string): (r: string)
    ensures |r| == |s|
    ensures forall i :: 0 <= i < |s| && 'a' <= s[i] <= 'z' ==> 'A' <= r[i] <= 'Z' && r[i] as int == s[i] as int - 32
    ensures forall i :: 0 <= i < |s| && !('a' <= s[i] <= 'z') ==> r[i] == s[i]
    ensures forall i :: 0 <= i < |r| ==> !('a' <= r[i] <= 'z')
  {
    seq(|s|, i requires 0 <= i < |s| => UpperChar(s[i]))
  }

  /** Upper-casing twice is the same as upper-casing once. */
  lemma ToUpperCaseIdempotent(s: string)
    ensures ToUpperCase(ToUpperCase(s)) == ToUpperCase(s)
  {
    var r := ToUpperCase(s);
    assert forall i :: 0 <= i < |r| ==> ToUpperCase(r)[i] == r[i];
  }

  // ---------------------------------------------------------------------------
  // decimal rendering of numbers
  // ---------------------------------------------------------------------------

  predicate IsDigit(c: char) {
    '0' <= c <= '9'
  }

  predicate AllDigits(s: string) {
    forall i :: 0 <= i < |s| ==> IsDigit(s[i])
  }

  function DigitChar(d: nat): (c: char)
    requires d < 10
    ensures IsDigit(c)
  {
    (48 + d) as char
  }

  function DigitValue(c: char): (d: nat)
    requires IsDigit(c)
    ensures d < 10 && DigitChar(d) == c
  {
    c as int - 48
  }

  /**
   * `String(n)` for a non-negative integer: its digits, most significant
   * first, with no leading zero.
   */
  function NatToDecimal(n: nat): (r: string)
    ensures r != [] && AllDigits(r)
    ensures r[0] == '0' ==> n == 0
    decreases n
  {
    if n < 10 then [DigitChar(n)] else NatToDecimal(n / 10) + [DigitChar(n % 10)]
  }

  /** The value of a string of decimal digits */
  function DecimalToNat(s: string): nat
    requires AllDigits(s)
    decreases |s|
  {
    if s == [] then 0 else 10 * DecimalToNat(s[..|s| - 1]) + DigitValue(s[|s| - 1])
  }

  /** Reading back a rendered number gives the number. */
  lemma {:induction false} DecimalRoundTrip(n: nat)
    ensures DecimalToNat(NatToDecimal(n)) == n
    decreases n
  {
    if n >= 10 {
      DecimalRoundTrip(n / 10);
      var r := NatToDecimal(n);
      assert r[..|r| - 1] == NatToDecimal(n / 10);
    }
  }

  /** `String(n)` for any integer: a minus sign exactly for negative numbers, then the digits */
  function IntToDecimal(n: int): (r: string)
    ensures r != []
    ensures r[0] == '-' <==> n < 0
    ensures AllDigits(r[1..]) && (n >= 0 ==> AllDigits(r))
  {
    if n < 0 then "-" + NatToDecimal(-n) else NatToDecimal(n)
  }

  /** Reading back `String(n)` gives the number: its magnitude after the sign for a negative one. */
  lemma IntDecimalRoundTrip(n: int)
    ensures n < 0 ==> DecimalToNat(IntToDecimal(n)[1..]) == -n
    ensures n >= 0 ==> DecimalToNat(IntToDecimal(n)) == n
  {
    if n < 0 {
      DecimalRoundTrip(-n);
      assert IntToDecimal(n)[1..] == NatToDecimal(-n);
    } else {
      DecimalRoundTrip(n);
    }
  }
}
