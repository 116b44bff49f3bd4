/// Reading and printing integers: StringToLong (minloader/BootKit/Support.h) and rt_to_string
/// (minkernel/src/AsciiUtils.cpp).

module Numbers {
  import opened Bits
  import opened Translation

  /// A char, whichever signedness it has.
  type Char = c: int | -128 <= c < 256

  const LONG_MAX: nat := 0x7FFF_FFFF_FFFF_FFFF
  const LONG_MIN: int := -0x8000_0000_0000_0000

  // ---- digits ----------------------------------------------------------------------------

  /// The value of a digit or a letter, in either case; 36 for any other character.
  function DigitValue(c: Char): (d: nat)
    ensures d <= 36
  {
    if 48 <= c <= 57 then c - 48
    else if 65 <= c <= 90 then c - 55
    else if 97 <= c <= 122 then c - 87
    else 36
  }

  predicate IsDigit(c: Char, base: nat) { DigitValue(c) < base }

  predicate AllDigits(s: seq<Char>, base: nat) {
    forall i | 0 <= i < |s| :: IsDigit(s[i], base)
  }

  /// The number a digit string stands for.
  function Value(s: seq<Char>, base: nat): nat
    decreases |s|
  {
    if s == [] then 0 else Value(s[..|s| - 1], base) * base + DigitValue(s[|s| - 1])
  }

  lemma ValueSnoc(s: seq<Char>, base: nat, c: Char)
    ensures Value(s + [c], base) == Value(s, base) * base + DigitValue(c)
  {
    assert (s + [c])[..|s|] == s;
  }

  lemma {:induction false} LeadingZero(s: seq<Char>, base: nat)
    ensures Value([48] + s, base) == Value(s, base)
    decreases |s|
  {
    var t: seq<Char> := [48] + s;
    if s == [] {
      assert t[..0] == [];
    } else {
      assert t[..|s|] == [48] + s[..|s| - 1] && t[|s|] == s[|s| - 1];
      LeadingZero(s[..|s| - 1], base);
    }
  }

  // ---- what a numeral is -----------------------------------------------------------------

  predicate HasPrefix(t: seq<Char>, lower: Char, upper: Char) {
    |t| > 1 && t[0] == 48 && (t[1] == lower || t[1] == upper)
  }

  /// The base written out: 0 leaves it to the first digit.
  function PlainBase(t: seq<Char>, base: nat): nat {
    if base != 0 then base else if |t| > 0 && t[0] == 48 then 8 else 10
  }

  /// The value of an unsigned numeral, if the whole of t is one: an optional 0x in base 16 or 0, an
  /// optional 0b in base 2 or 0, and at least one digit.
  function Unsigned(t: seq<Char>, base: nat): Option<nat> {
    if (base == 16 || base == 0) && |t| > 2 && HasPrefix(t, 120, 88)
      && AllDigits(t[2..], 16) then Some(Value(t[2..], 16))
    else if (base == 2 || base == 0) && |t| > 2 && HasPrefix(t, 98, 66)
      && AllDigits(t[2..], 2) then Some(Value(t[2..], 2))
    else if |t| > 0 && AllDigits(t, PlainBase(t, base)) then Some(Value(t, PlainBase(t, base)))
    else None
  }

  function Spaces(t: seq<Char>): (n: nat)
    ensures n <= |t| && (n < |t| ==> t[n] != 32) && forall i | 0 <= i < n :: t[i] == 32
  {
    if t == [] || t[0] != 32 then 0 else 1 + Spaces(t[1..])
  }

  predicate IsSign(c: Char) { c == 43 || c == 45 }

  /// Where the unsigned part starts, after spaces and one optional sign.
  function SignEnd(t: seq<Char>): (n: nat)
    ensures n <= |t|
  {
    var i := Spaces(t);
    if i < |t| && IsSign(t[i]) then i + 1 else i
  }

  predicate Negative(t: seq<Char>) {
    Spaces(t) < |t| && t[Spaces(t)] == 45
  }

  function Signed(t: seq<Char>, n: nat): int { if Negative(t) then 0 - n else n }

  /// The value of t, if the whole of t is a numeral in the given base.
  function Numeral(t: seq<Char>, base: nat): Option<int> {
    var u := Unsigned(t[SignEnd(t)..], base);
    if u.None? then None else Some(Signed(t, u.value))
  }

  function Clamp(v: int): int {
    if v > LONG_MAX then LONG_MAX else if v < LONG_MIN then LONG_MIN else v
  }

  // ---- what StringToLong looks at --------------------------------------------------------

  /// Where the digits start in the unsigned part, and their base.
  function Plan(u: seq<Char>, base: nat): (nat, nat) {
    if |u| > 0 && u[0] == 48 then
      if (base == 16 || base == 0) && HasPrefix(u, 120, 88) then (2, 16)
      else if (base == 2 || base == 0) && HasPrefix(u, 98, 66) then (2, 2)
      else (1, if base == 0 then 8 else base)
    else (0, if base == 0 then 10 else base)
  }

  /// The first position from j on that is not a digit.
  function RunEnd(u: seq<Char>, j: nat, base: nat): (e: nat)
    requires j <= |u|
    ensures j <= e <= |u| && AllDigits(u[j..e], base) && (e < |u| ==> !IsDigit(u[e], base))
    decreases |u| - j
  {
    if j < |u| && IsDigit(u[j], base) then RunEnd(u, j + 1, base) else j
  }

  lemma SliceDigits(u: seq<Char>, j: nat, e: nat, base: nat)
    requires j <= e <= |u|
    ensures AllDigits(u[j..e], base) <==> forall i | j <= i < e :: IsDigit(u[i], base)
  {
    var t := u[j..e];
    assert forall i | j <= i < e :: u[i] == t[i - j];
    assert forall i | 0 <= i < |t| :: t[i] == u[j + i];
  }

  lemma RunEndIs(u: seq<Char>, j: nat, e: nat, base: nat)
    requires j <= e <= |u| && AllDigits(u[j..e], base) && (e < |u| ==> !IsDigit(u[e], base))
    ensures RunEnd(u, j, base) == e
  {
    var r := RunEnd(u, j, base);
    SliceDigits(u, j, e, base);
    SliceDigits(u, j, r, base);
    assert !(r < e) && !(e < r);
  }

  /// The end of the number and its magnitude; end 0 when there is none.
  function Scan(u: seq<Char>, base: nat): (nat, nat) {
    var (j, b) := Plan(u, base);
    var e := RunEnd(u, j, b);
    (if e > j then e else if j > 0 then 1 else 0, Value(u[j..e], b))
  }

  /// The result of StringToLong and the position of its end pointer.
  function StringToLongResult(str: seq<Char>, base: nat): (int, nat) {
    var i := SignEnd(str);
    var (e, v) := Scan(str[i..], base);
    (Clamp(Signed(str, v)), if e == 0 then 0 else i + e)
  }

  // ---- the longest numeral ---------------------------------------------------------------

  lemma ScanFinds(u: seq<Char>, base: nat)
    ensures var (e, v) := Scan(u, base);
            e <= |u| && (e > 0 ==> Unsigned(u[..e], base) == Some(v)) && (e == 0 ==> v == 0)
  {
    var (j, b) := Plan(u, base);
    var e := RunEnd(u, j, b);
    var t := u[..Scan(u, base).0];
    if j == 2 {
      if e > 2 {
        assert t[2..] == u[2..e];
      } else {
        assert u[2..e] == [] && t == [48];
        LeadingZero([], PlainBase(t, base));
      }
    } else if j == 1 {
      assert t == [48] + u[1..e];
      LeadingZero(u[1..e], b);
      assert forall k | 1 <= k < e :: t[k] == u[1..e][k - 1];
    } else {
      assert u[0..e] == u[..e];
    }
  }

  /// Nothing longer is a numeral.
  lemma ScanLongest(u: seq<Char>, base: nat, k: nat)
    requires Scan(u, base).0 < k <= |u|
    ensures Unsigned(u[..k], base) == None
  {
    var (j, b) := Plan(u, base);
    var e := RunEnd(u, j, b);
    var t := u[..k];
    if j == 2 {
      assert t[1] == u[1];
      assert !AllDigits(t, PlainBase(t, base));
      if k > 2 {
        assert e < k && t[2..][e - 2] == u[e];
      }
    } else {
      assert e < k && t[e] == u[e];
    }
  }

  lemma SpacesOfPrefix(str: seq<Char>, k: nat)
    requires k <= |str|
    ensures Spaces(str[..k]) == if k < Spaces(str) then k else Spaces(str)
  {
    var a, b := Spaces(str[..k]), Spaces(str);
    assert forall i | 0 <= i < k :: str[..k][i] == str[i];
    assert !(a < b && a < k) && !(b < a);
  }

  lemma SignOfPrefix(str: seq<Char>, k: nat)
    requires k <= |str|
    ensures k <= SignEnd(str) ==> SignEnd(str[..k]) == k
    ensures k > SignEnd(str) ==> SignEnd(str[..k]) == SignEnd(str) && Negative(str[..k]) == Negative(str)
  {
    SpacesOfPrefix(str, k);
  }

  /// StringToLong reads the longest prefix that is a numeral, clamps its value to the range of a
  /// long, and leaves the end pointer behind it; without any numeral it returns 0 and the start.
  lemma ReadsLongestNumeral(str: seq<Char>, base: nat, k: nat)
    requires k <= |str|
    ensures var (r, e) := StringToLongResult(str, base);
            && e <= |str|
            && (e > 0 ==> Numeral(str[..e], base).Some? && r == Clamp(Numeral(str[..e], base).value))
            && (e == 0 ==> r == 0)
            && (k > e ==> Numeral(str[..k], base) == None)
  {
    hide Scan, SignEnd;
    var i := SignEnd(str);
    var u := str[i..];
    ScanFinds(u, base);
    var (e, v) := Scan(u, base);
    if e > 0 {
      SignOfPrefix(str, i + e);
      assert str[..i + e][i..] == u[..e];
    }
    SignOfPrefix(str, k);
    if k > StringToLongResult(str, base).1 {
      if k <= i {
        assert str[..k][k..] == [];
      } else {
        assert str[..k][i..] == u[..k - i];
        ScanLongest(u, base, k - i);
      }
    }
  }

  // ---- reading, as the code does it ------------------------------------------------------

  /// The quotient and remainder of C, which truncates towards zero.
  function TruncDiv(a: int, b: nat): int
    requires b > 0
  {
    if a < 0 then -((-a) / b) else a / b
  }

  function TruncMod(a: int, b: nat): int
    requires b > 0
  {
    a - b * TruncDiv(a, b)
  }

  /// `c` of the loop: what the code computes for a character, 36 or more when it is none of the
  /// digits and letters.
  method CharDigit(c: Char) returns (d: int)
    ensures 0 <= d < 36 <==> DigitValue(c) < 36
    ensures 0 <= d < 36 ==> d == DigitValue(c)
  {
    if c >= 65 {
      var x := c - 65;
      d := x - x / 32 % 2 * 32 + 10;  // x & ~0x20
    } else if c <= 57 {
      d := c - 48;
    } else {
      d := 36;
    }
  }

  /// The largest magnitude a result of that sign can have.
  function Limit(negative: bool): nat { if negative then LONG_MAX + 1 else LONG_MAX }

  lemma CutoffParts(negative: bool, base: nat)
    requires 2 <= base <= 36
    ensures var cutoff := if negative then -TruncDiv(LONG_MIN, base) else TruncDiv(LONG_MAX, base);
            var cutlim := if negative then -TruncMod(LONG_MIN, base) else TruncMod(LONG_MAX, base);
            0 <= cutoff && 0 <= cutlim < base && Cuts(cutoff, cutlim, base, Limit(negative))
  {
  }

  /// The limit, divided by the base.
  predicate Cuts(cutoff: nat, cutlim: nat, base: nat, limit: nat) { cutoff * base + cutlim == limit }

  /// The cutoff test is exact: it holds when and only when the next digit leaves the range.
  lemma CutoffTest(n: nat, base: nat, c: nat, cutoff: nat, cutlim: nat)
    requires cutlim < base && c < base
    ensures n > cutoff || (n == cutoff && c > cutlim) <==> n * base + c > cutoff * base + cutlim
  {
    if n > cutoff {
      Monotone(cutoff + 1, n, base);
    } else if n < cutoff {
      Monotone(n + 1, cutoff, base);
    }
  }

  lemma Monotone(a: nat, b: nat, m: nat)
    requires a <= b
    ensures a * m <= b * m && (a + 1) * m == a * m + m
  {
    assert b * m == a * m + (b - a) * m;
  }

  /// The text of a terminated string.
  predicate IsText(s: seq<Char>, n: nat) {
    n < |s| && s[n] == 0 && forall i | 0 <= i < n :: s[i] != 0
  }

  lemma SpacesIs(t: seq<Char>, n: nat)
    requires n <= |t| && (n < |t| ==> t[n] != 32) && forall i | 0 <= i < n :: t[i] == 32
    ensures Spaces(t) == n
  {
  }

  /// The scan of a suffix, in positions of the whole string.
  lemma RunShift(str: seq<Char>, i: nat, j: nat, start: nat, base: nat)
    requires start == i + j <= |str|
    ensures var e := RunEnd(str, start, base);
            RunEnd(str[i..], j, base) == e - i && str[i..][j..e - i] == str[start..e]
  {
    var e := RunEnd(str, start, base);
    assert str[i..][j..e - i] == str[start..e];
    RunEndIs(str[i..], j, e - i, base);
  }

  lemma {:induction false} ValueGrows(s: seq<Char>, base: nat, k: nat)
    requires k <= |s| && base > 0
    ensures Value(s[..k], base) <= Value(s, base)
    decreases |s| - k
  {
    if k < |s| {
      assert s[..k + 1] == s[..k] + [s[k]];
      ValueSnoc(s[..k], base, s[k]);
      Monotone(1, base, Value(s[..k], base));
      ValueGrows(s, base, k + 1);
    } else {
      assert s[..k] == s;
    }
  }

  /// The part before the digits: spaces, sign and prefix.
  method ReadStart(s: seq<Char>, base: nat, ghost n: nat) returns (p: nat, b: nat, negative: bool, endp: nat)
    requires IsText(s, n) && base <= 36 && base != 1
    ensures p <= n && 2 <= b <= 36
    ensures var str, i := s[..n], SignEnd(s[..n]);
            && negative == Negative(str)
            && p == i + Plan(str[i..], base).0 && b == Plan(str[i..], base).1
            && endp == if Plan(str[i..], base).0 > 0 then i + 1 else 0
  {
    ghost var str := s[..n];
    p, b, negative, endp := 0, base, false, 0;
    while s[p] == 32
      invariant p <= n && forall i | 0 <= i < p :: str[i] == 32
      decreases n - p
    {
      p := p + 1;
    }
    SpacesIs(str, p);
    if s[p] == 43 {
      p := p + 1;
    } else if s[p] == 45 {
      negative := true;
      p := p + 1;
    }
    ghost var i := p;
    assert SignEnd(str) == i;
    assert p < n ==> str[i..][0] == s[p];
    if s[p] == 48 {
      p := p + 1;
      endp := p;
      assert p < n ==> str[i..][1] == s[p];
      if base == 16 && (s[p] == 88 || s[p] == 120) {
        p := p + 1;
      } else if base == 2 && (s[p] == 66 || s[p] == 98) {
        p := p + 1;
      } else if base == 0 {
        if s[p] == 88 || s[p] == 120 {
          b, p := 16, p + 1;
        } else if s[p] == 66 || s[p] == 98 {
          b, p := 2, p + 1;
        } else {
          b := 8;
        }
      }
    } else if base == 0 {
      b := 10;
    }
  }

  // One digit more: the value it makes, and the test that tells whether it is in range.
  lemma DigitRound(run: seq<Char>, k: nat, base: nat, cutoff: nat, cutlim: nat, limit: nat)
    requires k < |run| && IsDigit(run[k], base) && base > 0 && cutlim < base && Cuts(cutoff, cutlim, base, limit)
    ensures var v, v', c := Value(run[..k], base), Value(run[..k + 1], base), DigitValue(run[k]);
            && v' == v * base + c && v' >= v
            && (v > cutoff || (v == cutoff && c > cutlim) <==> v' > limit)
  {
    assert run[..k + 1] == run[..k] + [run[k]];
    ValueSnoc(run[..k], base, run[k]);
    Monotone(1, base, Value(run[..k], base));
    CutoffTest(Value(run[..k], base), base, DigitValue(run[k]), cutoff, cutlim);
  }

  lemma NoDigits(base: nat)
    ensures Value([], base) == 0
  {
  }

  /// The digit loop. Without an end pointer it stops as soon as the value is out of range.
  method ReadDigits(s: seq<Char>, start: nat, base: nat, negative: bool, wantEnd: bool, ghost n: nat)
    returns (p: nat, value: U64, overflow: bool)
    requires IsText(s, n) && start <= n && 2 <= base <= 36
    ensures overflow <==> Value(s[..n][start..RunEnd(s[..n], start, base)], base) > Limit(negative)
    ensures !overflow ==> value == Value(s[..n][start..RunEnd(s[..n], start, base)], base)
    ensures wantEnd || !overflow ==> p == RunEnd(s[..n], start, base)
  {
    ghost var str, e := s[..n], RunEnd(s[..n], start, base);
    ghost var run := str[start..e];
    var cutoff: int, cutlim: int := TruncDiv(LONG_MAX, base), TruncMod(LONG_MAX, base);
    if negative {
      cutoff, cutlim := -TruncDiv(LONG_MIN, base), -TruncMod(LONG_MIN, base);
    }
    CutoffParts(negative, base);
    hide TruncDiv, TruncMod, RunEnd, DigitValue, Cuts, Value;
    p, value, overflow := start, 0, false;
    assert run[..0] == [] && Value([], base) == 0 by { NoDigits(base); }
    while true
      invariant start <= p <= e
      invariant !overflow ==> value == Value(run[..p - start], base) <= Limit(negative)
      invariant overflow ==> wantEnd && Value(run[..p - start], base) > Limit(negative)
      decreases e - p
    {
      var c := CharDigit(s[p]);
      assert p < e ==> run[p - start] == s[p] && IsDigit(s[p], base);
      if c < 0 || c >= base {
        break;
      }
      assert p < e;
      ghost var k: nat := p - start;
      DigitRound(run, k, base, cutoff, cutlim, Limit(negative));
      p := p + 1;
      if overflow {
        continue;
      }
      if value > cutoff || (value == cutoff && c > cutlim) {
        overflow := true;
        if !wantEnd {
          ValueGrows(run, base, k + 1);
          return;
        }
        continue;
      }
      value := value * base + c;
    }
    assert run[..e - start] == run;
  }

  /// The conversion of an unsigned to a signed 64-bit number.
  function ToLong(x: U64): int { if x > LONG_MAX then x - TWO_TO_THE_64 else x }

  /// StringToLong on a terminated string; the end pointer is reported as a position, None where
  /// the code leaves it alone.
  method StringToLong(s: seq<Char>, base: int, wantEnd: bool, ghost n: nat) returns (r: int, end: Option<nat>)
    requires IsText(s, n)
    ensures base < 0 || base == 1 || base > 36 ==> r == 0 && end == None
    ensures !(base < 0 || base == 1 || base > 36) ==>
              && r == StringToLongResult(s[..n], base).0
              && end == if wantEnd then Some(StringToLongResult(s[..n], base).1) else None
  {
    if base < 0 || base == 1 || base > 36 {
      return 0, None;
    }
    hide Plan, SignEnd, Value, StringToLongResult, Negative, Clamp, Limit;
    var start, b, negative, endp := ReadStart(s, base, n);
    var p, value, overflow := ReadDigits(s, start, b, negative, wantEnd, n);
    ResultParts(s[..n], base, start, b, endp);
    if p > start {
      endp := p;
    }
    end := if wantEnd then Some(endp) else None;
    if overflow {
      r := if negative then LONG_MIN else LONG_MAX;
    } else {
      r := ToLong(if negative then (TWO_TO_THE_64 - value) % TWO_TO_THE_64 else value);
    }
    Conversions(Value(s[..n][start..RunEnd(s[..n], start, b)], b), negative);
  }

  lemma Conversions(v: nat, negative: bool)
    ensures Clamp(if negative then 0 - v else v)
            == if v > Limit(negative) then (if negative then LONG_MIN else LONG_MAX)
               else ToLong(if negative then (TWO_TO_THE_64 - v) % TWO_TO_THE_64 else v)
  {
  }

  lemma ResultParts(str: seq<Char>, base: nat, start: nat, b: nat, endp: nat)
    requires var i := SignEnd(str);
             && start == i + Plan(str[i..], base).0 && b == Plan(str[i..], base).1 && start <= |str|
             && endp == if Plan(str[i..], base).0 > 0 then i + 1 else 0
    ensures var e := RunEnd(str, start, b);
            StringToLongResult(str, base)
            == (Clamp(Signed(str, Value(str[start..e], b))), if e > start then e else endp)
  {
    hide Plan, Clamp, SignEnd, Signed;
    var i := SignEnd(str);
    RunShift(str, i, Plan(str[i..], base).0, start, b);
  }

  // ---- printing --------------------------------------------------------------------------

  /// `kDigits[d]` of "0123456789ABCDEF"
  function DigitChar(d: nat): (c: Char)
    requires d < 16
    ensures DigitValue(c) == d
  {
    if d < 10 then 48 + d else 55 + d
  }

  /// The digits of v, highest first.
  function Digits(v: nat, base: nat): (s: seq<Char>)
    requires 2 <= base <= 16
    ensures |s| > 0
    decreases v
  {
    if v < base then [DigitChar(v)]
    else
      Smaller(v, base);
      Digits(v / base, base) + [DigitChar(v % base)]
  }

  lemma Smaller(v: nat, base: nat)
    requires base >= 2
    ensures v == v / base * base + v % base && v % base < base
    ensures v > 0 ==> v / base < v
    ensures v >= base ==> v / base > 0
  {
    Monotone(2, base, v / base);
  }

  lemma QuotientUnique(q: nat, d: nat, base: nat)
    requires d < base
    ensures (q * base + d) / base == q && (q * base + d) % base == d
  {
    var v := q * base + d;
    if v / base < q {
      Monotone(v / base + 1, q, base);
    } else if v / base > q {
      Monotone(q + 1, v / base, base);
    }
  }

  lemma OneDigit(v: nat, base: nat)
    requires v < base <= 16
    ensures Value([DigitChar(v)], base) == v && DigitValue(DigitChar(v)) == v && (DigitChar(v) == 48 ==> v == 0)
  {
    var none: seq<Char> := [];
    ValueSnoc(none, base, DigitChar(v));
    assert none + [DigitChar(v)] == [DigitChar(v)];
    assert Value(none, base) * base == 0;
  }

  /// The digits stand for the number, and the first one is not a zero unless it is the only one.
  lemma {:induction false} DigitsValue(v: nat, base: nat)
    requires 2 <= base <= 16
    ensures Value(Digits(v, base), base) == v && AllDigits(Digits(v, base), base)
    ensures Digits(v, base)[0] == 48 ==> v == 0
    decreases v
  {
    Smaller(v, base);
    hide Value, DigitChar, DigitValue;
    if v < base {
      OneDigit(v, base);
    } else {
      var q, d := v / base, v % base;
      DigitsValue(q, base);
      assert Digits(v, base) == Digits(q, base) + [DigitChar(d)];
      ValueSnoc(Digits(q, base), base, DigitChar(d));
    }
  }

  /// A digit string in upper case without superfluous zeros.
  predicate Canonical(s: seq<Char>, base: nat)
    requires base <= 16
  {
    && |s| > 0 && AllDigits(s, base) && (s[0] == 48 ==> |s| == 1)
    && forall i | 0 <= i < |s| :: IsDigit(s[i], base) && s[i] == DigitChar(DigitValue(s[i]))
  }

  /// It is the only such string.
  lemma {:induction false} DigitsUnique(s: seq<Char>, base: nat)
    requires 2 <= base <= 16 && Canonical(s, base)
    ensures s == Digits(Value(s, base), base)
    decreases |s|
  {
    var n := |s| - 1;
    var t := s[..n];
    var d := DigitValue(s[n]);
    assert s == t + [s[n]] && d < base;
    if n == 0 {
      assert Value(t, base) == 0;
      assert 0 * base == 0;
    } else {
      assert Canonical(t, base);
      DigitsUnique(t, base);
      Positive(t, base);
      QuotientUnique(Value(t, base), d, base);
      Monotone(1, Value(t, base), base);
    }
  }

  lemma {:induction false} Positive(s: seq<Char>, base: nat)
    requires base > 0 && |s| > 0 && DigitValue(s[0]) > 0
    ensures Value(s, base) > 0
    decreases |s|
  {
    var t := s[..|s| - 1];
    if t == [] {
      assert Value(s, base) == Value(t, base) * base + DigitValue(s[0]);
    } else {
      Positive(t, base);
      Monotone(1, Value(t, base), base);
    }
  }

  function Reversed(s: seq<Char>): (r: seq<Char>)
    ensures |r| == |s|
  {
    seq(|s|, k requires 0 <= k < |s| => s[|s| - 1 - k])
  }

  /// The digits still to come, then those written so far, last one first.
  function Pending(v: nat, base: nat, written: seq<Char>): seq<Char>
    requires 2 <= base <= 16
  {
    if v == 0 then Reversed(written) else Digits(v, base) + Reversed(written)
  }

  lemma PendingStep(v: nat, base: nat, written: seq<Char>)
    requires 2 <= base <= 16 && (v > 0 || written == [])
    ensures Pending(v / base, base, written + [DigitChar(v % base)]) == Digits(v, base) + Reversed(written)
  {
    Smaller(v, base);
    hide DigitChar, DigitValue;
    var c := DigitChar(v % base);
    assert Reversed(written + [c]) == [c] + Reversed(written);
    hide Reversed;
    if v < base {
      QuotientUnique(0, v, base);
      assert Digits(v, base) == [c];
    } else {
      var front := Digits(v / base, base);
      assert Digits(v, base) == front + [c];
      hide Digits;
      assert (front + [c]) + Reversed(written) == front + ([c] + Reversed(written));
    }
  }

  /// The in-place reverse at the end of rt_to_string.
  method ReverseInPlace(str: array<Char>, n: nat)
    requires n <= str.Length
    modifies str
    ensures str[..n] == Reversed(old(str[..n])) && str[n..] == old(str[n..])
  {
    for j := 0 to n / 2
      invariant forall k | 0 <= k < j :: str[k] == old(str[n - 1 - k]) && str[n - 1 - k] == old(str[k])
      invariant forall k | j <= k < n - j :: str[k] == old(str[k])
      invariant str[n..] == old(str[n..])
    {
      var tmp := str[j];
      str[j] := str[n - j - 1];
      str[n - j - 1] := tmp;
    }
  }

  /// rt_to_string into a buffer with room for the digits and a terminator.
  method ToString(str: array<Char>, value: U64, base: int) returns (ok: bool)
    requires 2 <= base <= 16 ==> |Digits(value, base)| < str.Length
    modifies str
    ensures ok <==> 2 <= base <= 16
    ensures !ok ==> str[..] == old(str[..])
    ensures ok ==>
              var d := Digits(value, base);
              str[..|d|] == d && str[|d|] == 0 && str[|d| + 1..] == old(str[|d| + 1..])
  {
    if base < 2 || base > 16 {
      return false;
    }
    hide Digits, Pending, DigitValue;
    ghost var d := Digits(value, base);
    var v: nat, i := value, 0;
    while true
      invariant 0 <= i < |d| && (i > 0 ==> v > 0)
      invariant Digits(v, base) + Reversed(str[..i]) == d
      invariant str[|d|..] == old(str[|d|..])
      decreases v
    {
      PendingStep(v, base, str[..i]);
      Smaller(v, base);
      str[i] := DigitChar(v % base);
      assert str[..i + 1] == str[..i] + [DigitChar(v % base)];
      i := i + 1;
      v := v / base;
      if v == 0 {
        break;
      }
    }
    assert Reversed(str[..i]) == d && i == |d|;
    str[i] := 0;
    ghost var written := str[..i];
    ReverseInPlace(str, i);
    assert str[i..][0] == 0 && str[i..][1..] == str[i + 1..];
    return true;
  }

  /// What is printed reads back: every value of a long as itself, larger ones as the largest long,
  /// with the end pointer at the terminator.
  lemma PrintedReadsBack(v: U64, base: nat)
    requires 2 <= base <= 16
    ensures StringToLongResult(Digits(v, base), base) == (if v <= LONG_MAX then v else LONG_MAX, |Digits(v, base)|)
  {
    hide StringToLongResult;
    SignedDigits(0, [], v, base);
    assert Text(0, [], Digits(v, base)) == Digits(v, base);
  }

  // ---- texts spelled out -----------------------------------------------------------------

  /// k spaces, a sign or none, and the rest.
  function Text(k: nat, sign: seq<Char>, u: seq<Char>): seq<Char> { seq(k, _ => 32) + sign + u }

  /// A minus sign, and nothing else, makes the number negative; beyond the range of a long it is the
  /// least or the largest long.
  lemma SignedText(k: nat, sign: seq<Char>, u: seq<Char>, base: nat, e: nat, v: nat)
    requires sign == [] || sign == [43] || sign == [45]
    requires u != [] && u[0] != 32 && u[0] != 43 && u[0] != 45 && Scan(u, base) == (e, v) && e > 0
    ensures StringToLongResult(Text(k, sign, u), base).1 == k + |sign| + e
    ensures StringToLongResult(Text(k, sign, u), base).0 == ToLongRange(sign, v)
  {
    hide Scan;
    var str := Text(k, sign, u);
    SignPlace(k, sign, u, str);
  }

  /// v, negated after a minus sign, and not beyond the range of a long.
  function ToLongRange(sign: seq<Char>, v: nat): int {
    if sign == [45] then (if v <= 0x8000_0000_0000_0000 then 0 - v else -0x8000_0000_0000_0000)
    else if v <= 0x7fff_ffff_ffff_ffff then v else 0x7fff_ffff_ffff_ffff
  }

  lemma SignPlace(k: nat, sign: seq<Char>, u: seq<Char>, str: seq<Char>)
    requires sign == [] || sign == [43] || sign == [45]
    requires u != [] && u[0] != 32 && u[0] != 43 && u[0] != 45 && str == Text(k, sign, u)
    ensures SignEnd(str) == k + |sign| && str[k + |sign|..] == u && (Negative(str) <==> sign == [45])
  {
    hide Spaces;
    assert k < |str| && forall i | 0 <= i < k :: str[i] == 32;
    assert str[k] == if sign == [] then u[0] else sign[0];
    SpacesIs(str, k);
  }

  // Digits behind what the plan skips.
  lemma ScanBehind(u: seq<Char>, base: nat, skipped: seq<Char>, b: nat, d: seq<Char>)
    requires u == skipped + d && Plan(u, base) == (|skipped|, b) && d != [] && AllDigits(d, b)
    ensures Scan(u, base) == (|u|, Value(d, b))
  {
    hide Plan, Value, IsDigit;
    var j := |skipped|;
    assert u[j..|u|] == d;
    RunEndIs(u, j, |u|, b);
  }

  lemma ScanDigits(v: nat, base: nat, d: seq<Char>)
    requires 2 <= base <= 16 && d == Digits(v, base)
    ensures Scan(d, base) == (|d|, v) && d[0] != 32 && d[0] != 43 && d[0] != 45
    ensures base == 10 && v > 0 ==> Scan(d, 0) == (|d|, v)
  {
    DigitsValue(v, base);
    assert IsDigit(d[0], base);
    hide Value;
    if d[0] == 48 {
      ScanZero(v, base, d);
    } else {
      assert [] + d == d;
      ScanBehind(d, base, [], base, d);
      if base == 10 {
        ScanBehind(d, 0, [], 10, d);
      }
    }
  }

  lemma ScanZero(v: nat, base: nat, d: seq<Char>)
    requires 2 <= base <= 16 && d == Digits(v, base) && v == 0
    ensures Scan(d, base) == (1, 0) && d == [48]
  {
    assert RunEnd(d, 1, base) == 1 && d[1..1] == [];
  }

  /// Digits behind spaces and a sign read as the number with that sign.
  lemma SignedDigits(k: nat, sign: seq<Char>, v: nat, base: nat)
    requires (sign == [] || sign == [43] || sign == [45]) && 2 <= base <= 16
    ensures var d := Digits(v, base);
            StringToLongResult(Text(k, sign, d), base) == (ToLongRange(sign, v), k + |sign| + |d|)
  {
    hide StringToLongResult, Scan;
    var d := Digits(v, base);
    ScanDigits(v, base, d);
    SignedText(k, sign, d, base, |d|, v);
  }

  /// "0x" makes the digits behind it hexadecimal, "0b" binary, in base 0 or that base; in base 0 a
  /// leading "0" makes them octal, and digits that start with no "0" are decimal.
  lemma PrefixedDigits(k: nat, sign: seq<Char>, v: nat)
    requires sign == [] || sign == [43] || sign == [45]
    ensures forall x: Char, base: nat | (x == 120 || x == 88) && (base == 0 || base == 16) ::
              StringToLongResult(Text(k, sign, [48, x] + Digits(v, 16)), base)
              == (ToLongRange(sign, v), k + |sign| + 2 + |Digits(v, 16)|)
    ensures forall x: Char, base: nat | (x == 98 || x == 66) && (base == 0 || base == 2) ::
              StringToLongResult(Text(k, sign, [48, x] + Digits(v, 2)), base)
              == (ToLongRange(sign, v), k + |sign| + 2 + |Digits(v, 2)|)
    ensures StringToLongResult(Text(k, sign, [48] + Digits(v, 8)), 0)
            == (ToLongRange(sign, v), k + |sign| + 1 + |Digits(v, 8)|)
    ensures v > 0 ==> StringToLongResult(Text(k, sign, Digits(v, 10)), 0)
                      == (ToLongRange(sign, v), k + |sign| + |Digits(v, 10)|)
  {
    hide StringToLongResult, Scan, Digits, Text, ToLongRange;
    forall x: Char, base: nat | (x == 120 || x == 88) && (base == 0 || base == 16)
      ensures StringToLongResult(Text(k, sign, [48, x] + Digits(v, 16)), base)
              == (ToLongRange(sign, v), k + |sign| + 2 + |Digits(v, 16)|)
    {
      PrefixedText(k, sign, [48, x], Digits(v, 16), v, base, 16);
    }
    forall x: Char, base: nat | (x == 98 || x == 66) && (base == 0 || base == 2)
      ensures StringToLongResult(Text(k, sign, [48, x] + Digits(v, 2)), base)
              == (ToLongRange(sign, v), k + |sign| + 2 + |Digits(v, 2)|)
    {
      PrefixedText(k, sign, [48, x], Digits(v, 2), v, base, 2);
    }
    PrefixedText(k, sign, [48], Digits(v, 8), v, 0, 8);
    if v > 0 {
      ScanDigits(v, 10, Digits(v, 10));
      SignedText(k, sign, Digits(v, 10), 0, |Digits(v, 10)|, v);
    }
  }

  lemma PrefixPlan(u: seq<Char>, prefix: seq<Char>, d: seq<Char>, base: nat, b: nat)
    requires u == prefix + d && d != [] && IsDigit(d[0], b) && 2 <= b <= 16
    requires || (|prefix| == 2 && prefix[0] == 48 && (prefix[1] == 120 || prefix[1] == 88) && b == 16
                 && (base == 0 || base == 16))
             || (|prefix| == 2 && prefix[0] == 48 && (prefix[1] == 98 || prefix[1] == 66) && b == 2
                 && (base == 0 || base == 2))
             || (prefix == [48] && base == 0 && b == 8)
    ensures Plan(u, base) == (|prefix|, b)
  {
    assert u[0] == 48 && u[1] == if |prefix| == 2 then prefix[1] else d[0];
  }

  lemma PrefixedText(k: nat, sign: seq<Char>, prefix: seq<Char>, d: seq<Char>, v: nat, base: nat, b: nat)
    requires (sign == [] || sign == [43] || sign == [45]) && 2 <= b <= 16 && d == Digits(v, b)
    requires || (|prefix| == 2 && prefix[0] == 48 && (prefix[1] == 120 || prefix[1] == 88) && b == 16
                 && (base == 0 || base == 16))
             || (|prefix| == 2 && prefix[0] == 48 && (prefix[1] == 98 || prefix[1] == 66) && b == 2
                 && (base == 0 || base == 2))
             || (prefix == [48] && base == 0 && b == 8)
    ensures StringToLongResult(Text(k, sign, prefix + d), base)
            == (ToLongRange(sign, v), k + |sign| + |prefix| + |d|)
  {
    var u := prefix + d;
    DigitsValue(v, b);
    assert IsDigit(d[0], b) && u[|prefix|] == d[0];
    hide Digits, Value, DigitValue, AllDigits;
    PrefixPlan(u, prefix, d, base, b);
    hide Plan;
    ScanBehind(u, base, prefix, b, d);
    hide StringToLongResult, Scan;
    SignedText(k, sign, u, base, |u|, v);
  }

  /// Every digit printed is one of 0 to 9 and A to F, and the small letters read like those.
  lemma {:induction false} PrintedLetters(v: nat, base: nat, i: nat)
    requires 2 <= base <= 16 && i < |Digits(v, base)|
    ensures var c := Digits(v, base)[i];
            && ('0' as int <= c <= '9' as int || 'A' as int <= c <= 'F' as int)
            && ('A' as int <= c ==> DigitValue(c + 32) == DigitValue(c) == 10 + c - 'A' as int)
            && (c <= '9' as int ==> DigitValue(c) == c - '0' as int)
    decreases v
  {
    Smaller(v, base);
    if v >= base && i < |Digits(v / base, base)| {
      PrintedLetters(v / base, base, i);
    }
  }

  /// One character: digits and letters of either case below the base stand for their places in the
  /// alphabet of digits, any other character for no number at all.
  lemma OneCharacter(c: Char, base: nat)
    requires 2 <= base <= 36
    ensures StringToLongResult([c], base)
            == if '0' as int <= c <= '9' as int && c - '0' as int < base then (c - '0' as int, 1)
               else if 'A' as int <= c <= 'Z' as int && 10 + c - 'A' as int < base then (10 + c - 'A' as int, 1)
               else if 'a' as int <= c <= 'z' as int && 10 + c - 'a' as int < base then (10 + c - 'a' as int, 1)
               else (0, 0)
  {
    var u := [c];
    assert u[1..] == [] && u[0..0] == [] && u[1..1] == [] && u[0..1] == u && u[0..] == u;
    assert Value([], base) == 0 && Value(u, base) == Value(u[..0], base) * base + DigitValue(c);
    assert u[..0] == [];
    assert Spaces([]) == 0;
    if c == 32 || IsSign(c) {
      assert SignEnd(u) == 1;
    } else {
      assert SignEnd(u) == 0;
      if c != 48 {
        assert RunEnd(u, 0, base) == if IsDigit(c, base) then 1 else 0;
      }
    }
  }

  /// 0xBEEF, spelled out.
  lemma PrintedBeef()
    ensures Digits(48879, 16) == ['B' as int, 'E' as int, 'E' as int, 'F' as int]
  {
    assert Digits(11, 16) == [66];
    assert Digits(190, 16) == [66, 69];
    assert Digits(3054, 16) == [66, 69, 69];
  }
}
