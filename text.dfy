/** The string operations of Go's standard library that the stores and
    handlers rely on: `strings.ToLower` (on ASCII letters), `len` of a string
    (its UTF-8 byte count), byte-wise string order (what ORDER BY on a text
    column gives under the C collation), and `strconv.Itoa` / `strconv.Atoi`
    for a 64-bit `int`. */
module Text {
  import opened Common

  predicate IsUpper(c: char) {
    'A' <= c <= 'Z'
  }

  function LowerChar(c: char): (r: char)
    ensures !IsUpper(r)
    ensures !IsUpper(c) ==> r == c
    ensures IsUpper(c) ==> 'a' <= r <= 'z' && r as int - 'a' as int == c as int - 'A' as int
  {
    if IsUpper(c) then (c as int + 32) as char else c
  }

  /** `strings.ToLower`, restricted to the ASCII letters. */
  function ToLower(s: string): (r: string)
    ensures |r| == |s|
    ensures forall i :: 0 <= i < |r| ==> !IsUpper(r[i])
    ensures forall i :: 0 <= i < |s| && !IsUpper(s[i]) ==> r[i] == s[i]
    ensures forall i :: 0 <= i < |s| && IsUpper(s[i]) ==>
              'a' <= r[i] <= 'z' && r[i] as int - 'a' as int == s[i] as int - 'A' as int
  {
    if s == [] then [] else [LowerChar(s[0])] + ToLower(s[1..])
  }

  /** A string without upper-case letters is its own lower case, so lowering
      twice is lowering once. */
  lemma {:induction false} ToLowerFixed(s: string)
    requires forall i :: 0 <= i < |s| ==> !IsUpper(s[i])
    ensures ToLower(s) == s
  {
    if s != [] {
      ToLowerFixed(s[1..]);
    }
  }

  lemma ToLowerIdempotent(s: string)
    ensures ToLower(ToLower(s)) == ToLower(s)
  {
    ToLowerFixed(ToLower(s));
  }

  /** Number of bytes of `c` in UTF-8. */
  function Utf8Width(c: char): nat {
    if c as int < 0x80 then 1
    else if c as int < 0x800 then 2
    else if c as int < 0x10000 then 3
    else 4
  }

  /** Go's `len` of a string: its length in UTF-8 bytes. */
  function ByteLen(s: string): (n: nat)
    ensures |s| <= n <= 4 * |s|
    ensures (forall i :: 0 <= i < |s| ==> s[i] as int < 0x80) ==> n == |s|
  {
    if s == [] then 0 else Utf8Width(s[0]) + ByteLen(s[1..])
  }

  /** `a <= b` in byte-wise (code point) lexicographic order. */
  predicate LexLe(a: string, b: string) {
    a == [] || (b != [] && (a[0] < b[0] || (a[0] == b[0] && LexLe(a[1..], b[1..]))))
  }

  lemma {:induction false} LexLeTotal(a: string, b: string)
    ensures LexLe(a, b) || LexLe(b, a)
  {
    if a != [] && b != [] && a[0] == b[0] {
      LexLeTotal(a[1..], b[1..]);
    }
  }

  lemma {:induction false} LexLeTransitive(a: string, b: string, c: string)
    requires LexLe(a, b) && LexLe(b, c)
    ensures LexLe(a, c)
  {
    if a != [] && b != [] && c != [] && a[0] == b[0] && b[0] == c[0] {
      LexLeTransitive(a[1..], b[1..], c[1..]);
    }
  }

  lemma {:induction false} LexLeAntisymmetric(a: string, b: string)
    requires LexLe(a, b) && LexLe(b, a)
    ensures a == b
  {
    if a != [] && b != [] {
      LexLeAntisymmetric(a[1..], b[1..]);
      assert a == [a[0]] + a[1..] && b == [b[0]] + b[1..];
    }
  }

  // ----- strconv.Itoa and strconv.Atoi for a 64-bit int -----

  const MaxInt: int := 0x7fff_ffff_ffff_ffff
  const MinInt: int := -0x8000_0000_0000_0000

  predicate IsDigit(c: char) {
    '0' <= c <= '9'
  }

  predicate AllDigits(s: string) {
    forall i :: 0 <= i < |s| ==> IsDigit(s[i])
  }

  function DigitChar(d: nat): (c: char)
    requires d < 10
    ensures IsDigit(c) && c as int - '0' as int == d
  {
    ('0' as int + d) as char
  }

  /** The decimal digits of `n`, most significant first, without leading zeros. */
  function Digits(n: nat): (r: string)
    ensures |r| >= 1 && AllDigits(r)
    ensures |r| > 1 ==> r[0] != '0'
  {
    if n < 10 then [DigitChar(n)] else Digits(n / 10) + [DigitChar(n % 10)]
  }

  /** The number a string of decimal digits denotes. */
  function DigitsValue(s: string): nat
    requires AllDigits(s)
  {
    if s == [] then 0 else DigitsValue(s[..|s| - 1]) * 10 + (s[|s| - 1] as int - '0' as int)
  }

  lemma {:induction false} DigitsValueOfDigits(n: nat)
    ensures DigitsValue(Digits(n)) == n
  {
    if n >= 10 {
      var d := Digits(n);
      assert d[..|d| - 1] == Digits(n / 10);
      DigitsValueOfDigits(n / 10);
    }
  }

  /** `strconv.Itoa`: the decimal form of `n`, with a leading '-' when negative. */
  function Itoa(n: int): (r: string)
    ensures |r| >= 1
    ensures (r[0] == '-') == (n < 0)
  {
    if n < 0 then "-" + Digits(-n) else Digits(n)
  }

  datatype NumError = ErrSyntax | ErrRange

  datatype Parsed = Parsed(value: int, err: Option<NumError>)

  const MaxUint: int := 0xffff_ffff_ffff_ffff

  /** The loop of `strconv.ParseUint` in base 10, run over `s` from left to
      right into a `uint64` accumulator. The first character that is not a
      digit is a syntax error with value 0; the first digit that would carry
      the accumulator past the largest `uint64` is a range error with that
      largest value. Either ends the scan at once, so whichever comes first
      decides. `ScanUint(s[..k])` is the state after reading k characters. */
  function ScanUint(s: string): (r: Parsed)
    ensures r.err == None ==> AllDigits(s) && r.value == DigitsValue(s) <= MaxUint
    ensures r.err == Some(ErrSyntax) ==> r.value == 0 && !AllDigits(s)
    ensures r.err == Some(ErrRange) ==> r.value == MaxUint
    ensures AllDigits(s) ==>
              r == if DigitsValue(s) <= MaxUint then Parsed(DigitsValue(s), None) else Parsed(MaxUint, Some(ErrRange))
    decreases |s|
  {
    if s == [] then Parsed(0, None)
    else
      var before := ScanUint(s[..|s| - 1]);
      var c := s[|s| - 1];
      if before.err.Some? then before
      else if !IsDigit(c) then Parsed(0, Some(ErrSyntax))
      else
        var n := before.value * 10 + (c as int - '0' as int);
        if n > MaxUint then Parsed(MaxUint, Some(ErrRange)) else Parsed(n, None)
  }

  /** The scan stops at the first non-digit: what the digits before it give
      decides, and nothing after it is read. */
  lemma {:induction false} ScanUintStopsAtFirstNonDigit(s: string, k: nat)
    requires k < |s| && AllDigits(s[..k]) && !IsDigit(s[k])
    ensures ScanUint(s) ==
              if DigitsValue(s[..k]) <= MaxUint then Parsed(0, Some(ErrSyntax)) else Parsed(MaxUint, Some(ErrRange))
    decreases |s|
  {
    var p := s[..|s| - 1];
    if |s| == k + 1 {
      assert p == s[..k];
    } else {
      assert p[..k] == s[..k] && p[k] == s[k];
      ScanUintStopsAtFirstNonDigit(p, k);
    }
  }

  /** The text after an optional leading sign. */
  function Unsigned(s: string): string {
    if |s| > 0 && (s[0] == '-' || s[0] == '+') then s[1..] else s
  }

  predicate Negative(s: string) {
    |s| > 0 && s[0] == '-'
  }

  /** The signed number a sign and a run of digits denote. */
  function Signed(s: string): int
    requires AllDigits(Unsigned(s))
  {
    if Negative(s) then -(DigitsValue(Unsigned(s)) as int) else DigitsValue(Unsigned(s))
  }

  /** `strconv.Atoi` for a 64-bit `int`, that is `strconv.ParseInt(s, 10, 64)`:
      an optional sign, then `ParseUint` on the rest (an empty rest is a
      syntax error). A syntax error gives 0; a range error from the scan, or
      a magnitude beyond the signed range, gives the bound on the side of
      the sign with ErrRange. */
  function Atoi(s: string): (r: Parsed)
    ensures MinInt <= r.value <= MaxInt
    ensures r.err == Some(ErrSyntax) ==> r.value == 0
    ensures r.err == Some(ErrRange) ==> r.value == if Negative(s) then MinInt else MaxInt
    ensures r.err == None ==> Unsigned(s) != [] && AllDigits(Unsigned(s)) && r.value == Signed(s)
    ensures Unsigned(s) != [] && AllDigits(Unsigned(s)) ==> r.err != Some(ErrSyntax)
    ensures Unsigned(s) == [] ==> r == Parsed(0, Some(ErrSyntax))
  {
    var body := Unsigned(s);
    if body == [] then Parsed(0, Some(ErrSyntax))
    else
      var u := ScanUint(body);
      match u.err
      case Some(ErrSyntax) => Parsed(0, Some(ErrSyntax))
      case _ =>
        if !Negative(s) && u.value > MaxInt then Parsed(MaxInt, Some(ErrRange))
        else if Negative(s) && u.value > -MinInt then Parsed(MinInt, Some(ErrRange))
        else Parsed(if Negative(s) then -u.value else u.value, None)
  }

  /** A string of digits (after the sign) reads as its value when that fits
      in 64 bits, and as the bound on its side with ErrRange otherwise. */
  lemma AtoiOfDigits(s: string)
    requires Unsigned(s) != [] && AllDigits(Unsigned(s))
    ensures Atoi(s) == if Signed(s) > MaxInt then Parsed(MaxInt, Some(ErrRange))
                       else if Signed(s) < MinInt then Parsed(MinInt, Some(ErrRange))
                       else Parsed(Signed(s), None)
  {
  }

  /** When a non-digit follows the leading digits, the digits before it
      decide: while they fit in a `uint64` the answer is a syntax error,
      and once they overflow it the answer is the clamped value with
      ErrRange, however the string goes on. */
  lemma AtoiStopsAtFirstNonDigit(s: string, k: nat)
    requires k < |Unsigned(s)| && AllDigits(Unsigned(s)[..k]) && !IsDigit(Unsigned(s)[k])
    ensures DigitsValue(Unsigned(s)[..k]) <= MaxUint ==> Atoi(s) == Parsed(0, Some(ErrSyntax))
    ensures DigitsValue(Unsigned(s)[..k]) > MaxUint ==>
              Atoi(s) == Parsed(if Negative(s) then MinInt else MaxInt, Some(ErrRange))
  {
    ScanUintStopsAtFirstNonDigit(Unsigned(s), k);
  }

  /** So the decimal digits of `n` followed by any non-digit `c` read as a
      syntax error while `n` fits in a `uint64`, and as the largest int with
      ErrRange once it does not: `"99999999999999999999x"` is the latter. */
  lemma AtoiDigitsThenNonDigit(n: nat, c: char)
    requires !IsDigit(c)
    ensures n <= MaxUint ==> Atoi(Digits(n) + [c]) == Parsed(0, Some(ErrSyntax))
    ensures n > MaxUint ==> Atoi(Digits(n) + [c]) == Parsed(MaxInt, Some(ErrRange))
  {
    var s := Digits(n) + [c];
    var k := |Digits(n)|;
    assert Unsigned(s) == s && !Negative(s);
    assert s[..k] == Digits(n) && s[k] == c;
    DigitsValueOfDigits(n);
    AtoiStopsAtFirstNonDigit(s, k);
  }

  /** Atoi reads back what Itoa writes, for every 64-bit int. */
  lemma AtoiItoa(n: int)
    requires MinInt <= n <= MaxInt
    ensures Atoi(Itoa(n)) == Parsed(n, None)
  {
    var s := Itoa(n);
    if n < 0 {
      assert Unsigned(s) == Digits(-n);
      DigitsValueOfDigits(-n);
      assert Signed(s) == n;
    } else {
      assert Unsigned(s) == Digits(n);
      DigitsValueOfDigits(n);
      assert Signed(s) == n;
    }
    AtoiOfDigits(s);
  }

  /** Hence Itoa is one-to-one on 64-bit ints. */
  lemma ItoaInjective(m: int, n: int)
    requires MinInt <= m <= MaxInt && MinInt <= n <= MaxInt
    requires Itoa(m) == Itoa(n)
    ensures m == n
  {
    AtoiItoa(m);
    AtoiItoa(n);
  }
}
