/**
 Character classes and string helpers with Python's meaning: `str.isspace`,
 `str.strip`, ASCII `str.lower`, `str(n)` for a natural number and `int(s)`
 for a string of decimal digits.
 */
module Text {
  import opened Wrappers

  /** The characters for which Python's `str.isspace` holds (also the class `\s` of `re`). */
  predicate IsSpace(c: char) {
    || '\t' <= c <= '\r'
    || '\U{1C}' <= c <= ' '
    || c == '\U{85}' || c == '\U{A0}' || c == '\U{1680}'
    || '\U{2000}' <= c <= '\U{200A}'
    || c == '\U{2028}' || c == '\U{2029}' || c == '\U{202F}' || c == '\U{205F}' || c == '\U{3000}'
  }

  predicate IsDigit(c: char) {
    '0' <= c <= '9'
  }

  predicate AllSpace(s: string) {
    forall k | 0 <= k < |s| :: IsSpace(s[k])
  }

  predicate AllDigits(s: string) {
    forall k | 0 <= k < |s| :: IsDigit(s[k])
  }

  /** The end of the longest run of characters satisfying P that starts at position k. */
  function Span(s: string, k: nat, P: char -> bool): (e: nat)
    requires k <= |s|
    ensures k <= e <= |s|
    ensures forall j | k <= j < e :: P(s[j])
    ensures e < |s| ==> !P(s[e])
    decreases |s| - k
  {
    if k < |s| && P(s[k]) then Span(s, k + 1, P) else k
  }

  /** The start of the longest run of characters satisfying P that ends just before position k. */
  function SpanBack(s: string, k: nat, P: char -> bool): (b: nat)
    requires k <= |s|
    ensures b <= k
    ensures forall j | b <= j < k :: P(s[j])
    ensures b > 0 ==> !P(s[b - 1])
  {
    if k > 0 && P(s[k - 1]) then SpanBack(s, k - 1, P) else k
  }

  /** A run is determined by where it stops: any e with P on [k, e) and not at e is the span's end. */
  lemma SpanEndsAt(s: string, k: nat, P: char -> bool, e: nat)
    requires k <= e <= |s|
    requires forall j | k <= j < e :: P(s[j])
    requires e < |s| ==> !P(s[e])
    ensures Span(s, k, P) == e
  {
  }

  lemma ThreeSlices(s: string, i: nat, j: nat, k: nat, l: nat)
    requires i <= j <= k <= l <= |s|
    ensures s[i..l] == s[i..j] + s[j..k] + s[k..l]
  {
  }

  /** r is the slice of s that starts at i, with nothing but whitespace on either side of it. */
  predicate StripAt(r: string, s: string, i: int) {
    0 <= i <= |s| - |r| && r == s[i..i + |r|] && AllSpace(s[..i]) && AllSpace(s[i + |r|..])
  }

  /** r is a slice of s with nothing but whitespace on either side of it. */
  predicate IsStripOf(r: string, s: string) {
    exists i | 0 <= i <= |s| :: StripAt(r, s, i)
  }

  lemma SliceBetweenSpaces(s: string, b: nat, e: nat)
    requires b <= e <= |s|
    requires forall j | 0 <= j < b :: IsSpace(s[j])
    requires forall j | e <= j < |s| :: IsSpace(s[j])
    ensures IsStripOf(s[b..e], s)
  {
    assert AllSpace(s[..b]);
    assert AllSpace(s[e..]);
    assert StripAt(s[b..e], s, b);
  }

  /**
   `str.strip()`: the slice that is left when the leading and the trailing
   whitespace are dropped; it neither starts nor ends with whitespace.
   */
  function Trim(s: string): (r: string)
    ensures IsStripOf(r, s)
    ensures |r| > 0 ==> !IsSpace(r[0]) && !IsSpace(r[|r| - 1])
  {
    var b := Span(s, 0, IsSpace);
    var e := if b == |s| then b else SpanBack(s, |s|, IsSpace);
    TrimSlice(s, b, e);
    s[b..e]
  }

  /**
   Between the leading run of P and the trailing run of P lies a slice that,
   unless everything satisfies P, starts and ends with characters that do not.
   */
  lemma RunsAround(s: string, P: char -> bool, b: nat, e: nat)
    requires b == Span(s, 0, P)
    requires e == if b == |s| then b else SpanBack(s, |s|, P)
    ensures b <= e <= |s|
    ensures forall j | 0 <= j < b :: P(s[j])
    ensures forall j | e <= j < |s| :: P(s[j])
    ensures e > b ==> !P(s[b]) && !P(s[e - 1])
  {
  }

  /**
   Between the leading and the trailing whitespace lies a slice with only
   whitespace around it; unless the text is all whitespace, that slice
   starts and ends with something else.
   */
  lemma TrimSlice(s: string, b: nat, e: nat)
    requires b == Span(s, 0, IsSpace)
    requires e == if b == |s| then b else SpanBack(s, |s|, IsSpace)
    ensures b <= e <= |s| && IsStripOf(s[b..e], s)
    ensures e > b ==> !IsSpace(s[b..e][0]) && !IsSpace(s[b..e][e - b - 1])
  {
    RunsAround(s, IsSpace, b, e);
    SliceBetweenSpaces(s, b, e);
    SliceEnds(s, b, e);
  }

  /** A non-empty slice starts and ends with the characters at its bounds. */
  lemma SliceEnds(s: string, b: nat, e: nat)
    requires b <= e <= |s|
    requires e > b ==> !IsSpace(s[b]) && !IsSpace(s[e - 1])
    ensures e > b ==> !IsSpace(s[b..e][0]) && !IsSpace(s[b..e][e - b - 1])
  {
    if e > b {
      assert s[b..e][0] == s[b] && s[b..e][e - b - 1] == s[e - 1];
    }
  }

  /** Stripping undoes whitespace padding around a text that does not itself start or end with whitespace. */
  lemma TrimOfPadded(a: string, d: string, b: string)
    requires AllSpace(a) && AllSpace(b)
    requires |d| > 0 ==> !IsSpace(d[0]) && !IsSpace(d[|d| - 1])
    ensures Trim(a + d + b) == d
  {
    var s := a + d + b;
    var i := Span(s, 0, IsSpace);
    if |d| == 0 {
      assert s == a + b;
    } else {
      assert s[|a|] == d[0];
      var e := SpanBack(s, |s|, IsSpace);
      assert s[|a| + |d| - 1] == d[|d| - 1];
      assert s[|a|..|a| + |d|] == d;
    }
  }

  /** Python's `str.isspace`: non-empty and nothing but whitespace. */
  predicate IsSpaceText(s: string) {
    |s| > 0 && AllSpace(s)
  }

  /** A minus sign followed by at least one decimal digit. */
  predicate IsNegativeNumeral(t: string) {
    |t| > 1 && t[0] == '-' && AllDigits(t[1..])
  }

  /**
   Python's `int(s)` for base 10, restricted to ASCII digits: surrounding
   whitespace around at least one digit, optionally after a minus sign;
   anything else raises ValueError (a plus sign and underscores are left out).
   */
  function ParseInt(s: string): (r: Result<int>)
    ensures r.Success? <==> (|Trim(s)| > 0 && AllDigits(Trim(s))) || IsNegativeNumeral(Trim(s))
    ensures |Trim(s)| > 0 && AllDigits(Trim(s)) ==> r == Success(DigitsValue(Trim(s)))
    ensures IsNegativeNumeral(Trim(s)) ==> r == Success(-(DigitsValue(Trim(s)[1..]) as int))
  {
    match NumeralValue(Trim(s))
    case Some(v) => Success(v)
    case None => Failure("invalid literal for int() with base 10: '" + s + "'")
  }

  /** The value of a numeral without surrounding whitespace: digits, or a minus sign and digits. */
  function NumeralValue(t: string): (r: Option<int>)
    ensures r.Some? <==> (|t| > 0 && AllDigits(t)) || IsNegativeNumeral(t)
    ensures |t| > 0 && AllDigits(t) ==> r == Some(DigitsValue(t) as int)
    ensures IsNegativeNumeral(t) ==> r == Some(-(DigitsValue(t[1..]) as int))
  {
    if |t| > 0 && AllDigits(t) then Some(DigitsValue(t))
    else if IsNegativeNumeral(t) then Some(-(DigitsValue(t[1..]) as int))
    else None
  }

  /** `str(n)` for any integer. */
  function IntToString(n: int): string {
    if n < 0 then "-" + NatToString(-n) else NatToString(n)
  }

  /** `int()` of digits with whitespace around them is the value of the digits. */
  lemma ParseIntOfPadded(a: string, d: string, b: string)
    requires AllSpace(a) && AllSpace(b)
    requires |d| > 0 && AllDigits(d)
    ensures !IsSpaceText(a + d + b)
    ensures ParseInt(a + d + b) == Success(DigitsValue(d))
  {
    assert !IsSpace(d[0]) && !IsSpace(d[|d| - 1]);
    TrimOfPadded(a, d, b);
    assert (a + d + b)[|a|] == d[0];
  }
  /** `int(str(n)) == n`, also with whitespace around the text. */
  lemma ParseIntOfIntToString(a: string, n: int, b: string)
    requires AllSpace(a) && AllSpace(b)
    ensures ParseInt(a + IntToString(n) + b) == Success(n)
  {
    var d := NatToString(if n < 0 then -n else n);
    DigitsValueOfNatToString(if n < 0 then -n else n);
    if n < 0 {
      assert a + IntToString(n) + b == a + ("-" + d) + b;
      ParseIntOfPaddedNegative(a, d, b);
    } else {
      assert a + IntToString(n) + b == a + d + b;
      ParseIntOfPadded(a, d, b);
    }
  }

  /** `int()` of a minus sign and digits with whitespace around them is the negated value of the digits. */
  lemma ParseIntOfPaddedNegative(a: string, d: string, b: string)
    requires AllSpace(a) && AllSpace(b)
    requires |d| > 0 && AllDigits(d)
    ensures ParseInt(a + ("-" + d) + b) == Success(-(DigitsValue(d) as int))
  {
    var t := "-" + d;
    var v := -(DigitsValue(d) as int);
    NegativeNumeralValue(d);
    PaddedTrim(a, t, b);
    ParseIntOfNumeral(a + t + b, v);
  }

  /** A minus sign before digits reads as the negated value of the digits. */
  lemma NegativeNumeralValue(d: string)
    requires |d| > 0 && AllDigits(d)
    ensures NumeralValue("-" + d) == Some(-(DigitsValue(d) as int))
  {
    var t := "-" + d;
    assert t[1..] == d;
    assert !IsDigit(t[0]);
  }

  /** Stripping gives back a signed numeral from its padding. */
  lemma PaddedTrim(a: string, t: string, b: string)
    requires AllSpace(a) && AllSpace(b) && |t| > 0 && t[0] == '-' && IsDigit(t[|t| - 1])
    ensures Trim(a + t + b) == t
  {
    TrimOfPadded(a, t, b);
  }

  /** `int()` gives the value of the numeral that is left after stripping. */
  lemma ParseIntOfNumeral(s: string, v: int)
    requires NumeralValue(Trim(s)) == Some(v)
    ensures ParseInt(s) == Success(v)
  {
  }



  /** Python's `str.lower` restricted to the ASCII letters. */
  function LowerChar(c: char): char {
    if IsUpper(c) then (c as int + 32) as char else c
  }

  predicate IsUpper(c: char) {
    'A' <= c <= 'Z'
  }

  /**
   `str.lower` on ASCII: no capital is left, every capital becomes the small
   letter 32 code points above it, and every other character stays.
   */
  function Lower(s: string): (r: string)
    ensures |r| == |s|
    ensures forall k | 0 <= k < |r| :: !IsUpper(r[k])
    ensures forall k | 0 <= k < |s| && !IsUpper(s[k]) :: r[k] == s[k]
    ensures forall k | 0 <= k < |s| && IsUpper(s[k]) :: r[k] as int == s[k] as int + 32
  {
    seq(|s|, k requires 0 <= k < |s| => LowerChar(s[k]))
  }

  /** Lowering twice is lowering once. */
  lemma LowerIdempotent(s: string)
    ensures Lower(Lower(s)) == Lower(s)
  {
    var l := Lower(s);
    assert forall k | 0 <= k < |l| :: Lower(l)[k] == l[k];
  }

  function DigitChar(d: nat): char
    requires d < 10
  {
    ('0' as int + d) as char
  }

  function DigitValue(c: char): nat
    requires IsDigit(c)
  {
    c as int - '0' as int
  }

  /** `str(n)`: the decimal digits of n, without leading zeros. */
  function NatToString(n: nat): (r: string)
    ensures 0 < |r| && AllDigits(r)
    ensures |r| > 1 ==> r[0] != '0'
  {
    if n < 10 then [DigitChar(n)] else NatToString(n / 10) + [DigitChar(n % 10)]
  }

  /** `int(s)` for a string made of decimal digits only. */
  function DigitsValue(s: string): nat
    requires AllDigits(s)
  {
    if |s| == 0 then 0 else 10 * DigitsValue(s[..|s| - 1]) + DigitValue(s[|s| - 1])
  }

  /** n copies of the digit zero. */
  function Zeros(n: nat): (r: string)
    ensures |r| == n && forall k | 0 <= k < n :: r[k] == '0'
  {
    if n == 0 then [] else Zeros(n - 1) + ['0']
  }

  /** Appending a digit to the decimal text of a positive number gives the text of ten times it plus the digit. */
  lemma NatToStringAppend(m: nat, c: char)
    requires m > 0 && IsDigit(c)
    ensures NatToString(10 * m + DigitValue(c)) == NatToString(m) + [c]
  {
    var n := 10 * m + DigitValue(c);
    assert n / 10 == m && n % 10 == DigitValue(c);
    assert DigitChar(DigitValue(c)) == c;
  }

  /** A single digit is its own decimal text. */
  lemma DigitNumeral(c: char)
    requires IsDigit(c)
    ensures NatToString(DigitValue(c)) == [c]
  {
    assert DigitChar(DigitValue(c)) == c;
  }

  /** One more digit after zeros and a numeral is again zeros and a numeral. */
  lemma AppendDigit(init: string, z: nat, m: nat, c: char) returns (zeros: nat)
    requires init == Zeros(z) + NatToString(m) && IsDigit(c)
    ensures init + [c] == Zeros(zeros) + NatToString(10 * m + DigitValue(c))
  {
    if m == 0 {
      zeros := z + 1;
      DigitNumeral(c);
      assert init == Zeros(z + 1);
    } else {
      zeros := z;
      NatToStringAppend(m, c);
    }
  }

  /** Any non-empty run of digits is some leading zeros followed by `str()` of its value. */
  lemma {:induction false} DigitsAreZerosAndNumeral(d: string) returns (zeros: nat)
    requires |d| > 0 && AllDigits(d)
    ensures d == Zeros(zeros) + NatToString(DigitsValue(d))
  {
    var c := d[|d| - 1];
    var init := d[..|d| - 1];
    assert d == init + [c];
    if |init| == 0 {
      zeros := 0;
      DigitNumeral(c);
    } else {
      var z := DigitsAreZerosAndNumeral(init);
      zeros := AppendDigit(init, z, DigitsValue(init), c);
    }
  }

  /** A numeral `int()` accepts, with the value it gives, is a sign, some zeros and `str()` of the magnitude. */
  lemma NumeralParts(t: string, n: int) returns (neg: bool, zeros: nat)
    requires || (|t| > 0 && AllDigits(t) && n == DigitsValue(t) as int)
             || (IsNegativeNumeral(t) && n == -(DigitsValue(t[1..]) as int))
    ensures t == (if neg then "-" else "") + Zeros(zeros) + NatToString(if n < 0 then -n else n)
    ensures n < 0 ==> neg
  {
    if |t| > 0 && AllDigits(t) {
      neg := false;
      zeros := DigitsAreZerosAndNumeral(t);
      assert "" + Zeros(zeros) + NatToString(n) == Zeros(zeros) + NatToString(n);
    } else {
      neg := true;
      zeros := NegativeNumeralParts(t);
    }
  }

  /** A minus sign and digits is the sign, some zeros and `str()` of the digits' value. */
  lemma NegativeNumeralParts(t: string) returns (zeros: nat)
    requires IsNegativeNumeral(t)
    ensures t == "-" + Zeros(zeros) + NatToString(DigitsValue(t[1..]))
  {
    var d := t[1..];
    zeros := DigitsAreZerosAndNumeral(d);
    assert t == "-" + d;
    assert "-" + Zeros(zeros) + NatToString(DigitsValue(d)) == "-" + (Zeros(zeros) + NatToString(DigitsValue(d)));
  }

  /**
   What `int()` accepts is a numeral: whenever it gives n, the stripped text
   is an optional minus sign, some zeros and `str()` of the magnitude of n,
   and the sign is there when n is negative.
   */
  lemma ParseIntReadsNumeral(s: string, n: int) returns (neg: bool, zeros: nat)
    requires ParseInt(s) == Success(n)
    ensures Trim(s) == (if neg then "-" else "") + Zeros(zeros) + NatToString(if n < 0 then -n else n)
    ensures n < 0 ==> neg
  {
    neg, zeros := NumeralParts(Trim(s), n);
  }

  /** Reading back the decimal text of a number gives the number. */
  lemma {:induction false} DigitsValueOfNatToString(n: nat)
    ensures DigitsValue(NatToString(n)) == n
  {
    var s := NatToString(n);
    if n >= 10 {
      DigitsValueOfNatToString(n / 10);
      assert s[..|s| - 1] == NatToString(n / 10);
    }
  }

  /** `sep.join(parts)`. */
  function Join(parts: seq<string>, sep: string): (r: string)
    ensures |parts| == 1 ==> r == parts[0]
    ensures |parts| == 0 ==> r == []
  {
    if |parts| == 0 then []
    else if |parts| == 1 then parts[0]
    else parts[0] + sep + Join(parts[1..], sep)
  }
}
