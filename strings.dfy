/** The string operations of the JavaScript runtime that the upload service relies on. */
module Strings {
  import opened Wrappers

  predicate IsDigit(c: char) {
    '0' <= c <= '9'
  }

  predicate AllDigits(s: string) {
    forall i :: 0 <= i < |s| ==> IsDigit(s[i])
  }

  function DigitChar(d: nat): (c: char)
    requires d < 10
    ensures IsDigit(c)
  {
    ('0' as int + d) as char
  }

  function DigitValue(c: char): (d: nat)
    requires IsDigit(c)
    ensures d < 10 && DigitChar(d) == c
  {
    c as int - '0' as int
  }

  /**
   * `n.toString()` for a non-negative integer below 1e21 (above it JavaScript switches to
   * exponent notation): base ten, no leading zero. Every value the filename callback formats
   * (a token below 1e9, a year, fields below 100) is in that range.
   */
  function DecimalString(n: nat): (s: string)
    ensures |s| >= 1 && AllDigits(s)
    ensures (s[0] == '0') == (n == 0)
    ensures n < 10 <==> |s| == 1
    decreases n
  {
    if n < 10 then [DigitChar(n)] else DecimalString(n / 10) + [DigitChar(n % 10)]
  }

  /** The value of a string of decimal digits (the empty string reads as 0). */
  function ParseDecimal(s: string): nat
    requires AllDigits(s)
  {
    if s == [] then 0 else ParseDecimal(s[..|s| - 1]) * 10 + DigitValue(s[|s| - 1])
  }

  /** A decimal string as `toString` writes it: no leading zero unless it is "0". */
  predicate IsCanonicalDecimal(s: string) {
    |s| >= 1 && AllDigits(s) && (s[0] == '0' ==> |s| == 1)
  }

  lemma {:induction false} DecimalRoundTrip(n: nat)
    ensures ParseDecimal(DecimalString(n)) == n
    decreases n
  {
    var s := DecimalString(n);
    if n >= 10 {
      DecimalRoundTrip(n / 10);
      assert s[..|s| - 1] == DecimalString(n / 10);
    }
  }

  lemma {:induction false} ParseLeadingZero(s: string)
    requires AllDigits(s) && |s| >= 1 && s[0] == '0'
    ensures ParseDecimal(s) == ParseDecimal(s[1..])
    decreases |s|
  {
    if |s| > 1 {
      ParseLeadingZero(s[..|s| - 1]);
      assert s[..|s| - 1][1..] == s[1..][..|s[1..]| - 1];
    }
  }

  lemma {:induction false} ParsePositive(s: string)
    requires IsCanonicalDecimal(s) && s[0] != '0'
    ensures ParseDecimal(s) >= 1
    ensures |s| >= 2 ==> ParseDecimal(s) >= 10
    decreases |s|
  {
    if |s| >= 2 {
      ParsePositive(s[..|s| - 1]);
    }
  }

  /** Every canonical decimal string is what `toString` writes for its value. */
  lemma {:induction false} CanonicalDecimalRoundTrip(s: string)
    requires IsCanonicalDecimal(s)
    ensures DecimalString(ParseDecimal(s)) == s
    decreases |s|
  {
    var n := ParseDecimal(s);
    if |s| == 1 {
    } else {
      var init := s[..|s| - 1];
      ParsePositive(s);
      ParsePositive(init);
      CanonicalDecimalRoundTrip(init);
      assert n / 10 == ParseDecimal(init) && n % 10 == DigitValue(s[|s| - 1]);
      assert s == init + [s[|s| - 1]];
    }
  }

  /** `s.padStart(targetLength, [fill])` with a one-character fill string. */
  function PadStart(s: string, targetLength: nat, fill: char): (r: string)
    ensures |r| == if |s| >= targetLength then |s| else targetLength
    ensures r[|r| - |s|..] == s
    ensures forall i :: 0 <= i < |r| - |s| ==> r[i] == fill
  {
    if |s| >= targetLength then s else seq(targetLength - |s|, _ => fill) + s
  }

  /** `n.toString().padStart(2, "0")`. */
  function Pad2(n: nat): string {
    PadStart(DecimalString(n), 2, '0')
  }

  /** Below 100 the padded field is exactly two digits and reads back as the number. */
  lemma TwoDigitField(n: nat)
    requires n < 100
    ensures |Pad2(n)| == 2 && AllDigits(Pad2(n))
    ensures ParseDecimal(Pad2(n)) == n
  {
    var p := Pad2(n);
    DecimalRoundTrip(n);
    if n < 10 {
      assert p == ['0'] + DecimalString(n);
      ParseLeadingZero(p);
      assert p[1..] == DecimalString(n);
    }
  }

  /** Any two-digit string is the padded field of its own value. */
  lemma TwoDigitFieldOfParse(s: string)
    requires |s| == 2 && AllDigits(s)
    ensures ParseDecimal(s) < 100 && Pad2(ParseDecimal(s)) == s
  {
    var n := ParseDecimal(s);
    assert ParseDecimal(s[..1]) == DigitValue(s[0]);
    if s[0] == '0' {
      ParseLeadingZero(s);
      assert s[1..] == [s[1]];
      CanonicalDecimalRoundTrip(s[1..]);
      assert Pad2(n) == ['0'] + s[1..];
    } else {
      CanonicalDecimalRoundTrip(s);
    }
  }

  /** `t` occurs in `s` starting at index `i`. */
  ghost predicate OccursAt(s: string, t: string, i: nat) {
    i + |t| <= |s| && s[i..i + |t|] == t
  }

  /** The unanchored regular-expression test for a literal: does `t` occur anywhere in `s`? */
  function Contains(s: string, t: string): bool {
    if t <= s then true else if s == [] then false else Contains(s[1..], t)
  }

  lemma SliceOfTail(s: string, i: nat, j: nat)
    requires 1 <= i <= j <= |s|
    ensures s[1..][i - 1..j - 1] == s[i..j]
  {
  }

  lemma {:induction false} ContainsFromOccurrence(s: string, t: string, i: nat)
    requires OccursAt(s, t, i)
    ensures Contains(s, t)
    decreases i
  {
    if i > 0 && !(t <= s) {
      SliceOfTail(s, i, i + |t|);
      ContainsFromOccurrence(s[1..], t, i - 1);
    }
  }

  lemma {:induction false} OccurrenceFromContains(s: string, t: string) returns (i: nat)
    requires Contains(s, t)
    ensures OccursAt(s, t, i)
    decreases |s|
  {
    if t <= s {
      i := 0;
    } else {
      var k := OccurrenceFromContains(s[1..], t);
      SliceOfTail(s, k + 1, k + 1 + |t|);
      i := k + 1;
    }
  }

  lemma ContainsIff(s: string, t: string)
    ensures Contains(s, t) <==> exists i: nat :: OccursAt(s, t, i)
  {
    if Contains(s, t) {
      var i := OccurrenceFromContains(s, t);
    } else {
      forall i: nat ensures !OccursAt(s, t, i) {
        if OccursAt(s, t, i) {
          ContainsFromOccurrence(s, t, i);
        }
      }
    }
  }

  /** `toLowerCase` on one character, for the letters A to Z. */
  function LowerChar(c: char): (r: char)
    ensures 'A' <= c <= 'Z' ==> r as int == c as int + 32
    ensures !('A' <= c <= 'Z') ==> r == c
  {
    if 'A' <= c <= 'Z' then (c as int + 32) as char else c
  }

  /** `s.toLowerCase()`, for the letters A to Z. */
  function ToLower(s: string): (r: string)
    ensures |r| == |s|
    ensures forall i :: 0 <= i < |s| ==> r[i] == LowerChar(s[i])
  {
    seq(|s|, i requires 0 <= i < |s| => LowerChar(s[i]))
  }

  lemma ToLowerIdempotent(s: string)
    ensures ToLower(ToLower(s)) == ToLower(s)
  {
  }

  lemma ToLowerSlice(s: string, i: nat, j: nat)
    requires i <= j <= |s|
    ensures ToLower(s[i..j]) == ToLower(s)[i..j]
  {
  }

  /** `s.lastIndexOf(c)`, with -1 written as None. */
  function LastIndexOf(s: string, c: char): (r: Option<nat>)
    ensures r.None? ==> forall j :: 0 <= j < |s| ==> s[j] != c
    ensures r.Some? ==> r.value < |s| && s[r.value] == c
    ensures r.Some? ==> forall j :: r.value < j < |s| ==> s[j] != c
  {
    if s == [] then None
    else if s[|s| - 1] == c then Some(|s| - 1)
    else LastIndexOf(s[..|s| - 1], c)
  }

  /** Lower-casing moves no character that is not a letter, so such a character is found at the same place. */
  lemma {:induction false} LastIndexOfToLower(s: string, c: char)
    requires !('A' <= c <= 'Z') && !('a' <= c <= 'z')
    ensures LastIndexOf(ToLower(s), c) == LastIndexOf(s, c)
    decreases |s|
  {
    if s != [] {
      ToLowerSlice(s, 0, |s| - 1);
      LastIndexOfToLower(s[..|s| - 1], c);
    }
  }

  /** The length of the longest prefix of `s` made of decimal digits. */
  function DigitSpan(s: string): (n: nat)
    ensures n <= |s| && AllDigits(s[..n])
    ensures n < |s| ==> !IsDigit(s[n])
  {
    if s == [] || !IsDigit(s[0]) then 0
    else
      var k := DigitSpan(s[1..]);
      assert s[..k + 1] == [s[0]] + s[1..][..k];
      k + 1
  }

  lemma {:induction false} DigitSpanOfConcat(a: string, b: string)
    requires AllDigits(a)
    requires b == [] || !IsDigit(b[0])
    ensures DigitSpan(a + b) == |a|
    decreases |a|
  {
    if a != [] {
      DigitSpanOfConcat(a[1..], b);
      assert (a + b)[1..] == a[1..] + b;
    } else {
      assert a + b == b;
    }
  }
}
