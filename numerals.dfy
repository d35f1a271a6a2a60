/** Digits, powers and the decimal and hexadecimal spellings of natural
    numbers: the arithmetic behind the literal parsers (src/parse.rs) and the
    printed form of an operation (src/data.rs). Numbers are unbounded; the
    source's machine words are discussed where they matter. */
module Numerals {

  function Pow(b: nat, e: nat): (r: nat)
    ensures b > 0 ==> r > 0
  {
    if e == 0 then 1 else b * Pow(b, e - 1)
  }

  lemma {:induction false} PowAdd(b: nat, m: nat, n: nat)
    ensures Pow(b, m + n) == Pow(b, m) * Pow(b, n)
    decreases m
  {
    if m > 0 {
      PowAdd(b, m - 1, n);
      assert Pow(b, m + n) == b * Pow(b, m - 1 + n);
    }
  }

  lemma {:induction false} PowMonotone(b: nat, m: nat, n: nat)
    requires b >= 1 && m <= n
    ensures Pow(b, m) <= Pow(b, n)
    decreases n
  {
    if m < n {
      PowMonotone(b, m, n - 1);
      assert Pow(b, n - 1) <= b * Pow(b, n - 1);
    }
  }

  /** A shift by 8n bits, a byte count in hexadecimal digits. */
  lemma {:induction false} PowBytes(n: nat)
    ensures Pow(2, 8 * n) == Pow(256, n) == Pow(16, 2 * n)
    decreases n
  {
    if n > 0 {
      PowBytes(n - 1);
      PowAdd(2, 8, 8 * (n - 1));
      PowAdd(16, 2, 2 * (n - 1));
      assert 8 * n == 8 + 8 * (n - 1) && 2 * n == 2 + 2 * (n - 1);
    }
  }

  // ---------------------------------------------------------------------
  // Digits
  // ---------------------------------------------------------------------

  /** What Rust's `char::is_ascii_digit` accepts. */
  predicate IsDecDigit(c: char) {
    '0' <= c <= '9'
  }

  /** What Rust's `char::to_digit(16)` accepts. */
  predicate IsHexDigit(c: char) {
    IsDecDigit(c) || 'a' <= c <= 'f' || 'A' <= c <= 'F'
  }

  function DecDigitValue(c: char): (d: nat)
    requires IsDecDigit(c)
    ensures d < 10
  {
    c as int - '0' as int
  }

  function HexDigitValue(c: char): (d: nat)
    requires IsHexDigit(c)
    ensures d < 16
    ensures IsDecDigit(c) ==> d == DecDigitValue(c)
  {
    if IsDecDigit(c) then DecDigitValue(c)
    else if 'a' <= c <= 'f' then c as int - 'a' as int + 10
    else c as int - 'A' as int + 10
  }

  /** The digit character of `d`, lower case as Rust's `{:x}` prints it. */
  function DigitChar(d: nat): (c: char)
    requires d < 16
    ensures IsHexDigit(c) && HexDigitValue(c) == d
    ensures d < 10 ==> IsDecDigit(c) && DecDigitValue(c) == d
    ensures !('A' <= c <= 'Z')
  {
    if d < 10 then ('0' as int + d) as char else ('a' as int + d - 10) as char
  }

  predicate AllDec(s: string) {
    forall k :: 0 <= k < |s| ==> IsDecDigit(s[k])
  }

  predicate AllHex(s: string) {
    forall k :: 0 <= k < |s| ==> IsHexDigit(s[k])
  }

  // ---------------------------------------------------------------------
  // Values of digit strings
  // ---------------------------------------------------------------------

  /** The decimal fold: the accumulator is multiplied by ten and the next
      digit added, from the most significant digit on. */
  function DecValue(s: string): nat
    requires AllDec(s)
  {
    if s == [] then 0 else 10 * DecValue(s[..|s| - 1]) + DecDigitValue(s[|s| - 1])
  }

  /** The hexadecimal sum: each digit shifted left by four bits per digit
      that follows it. */
  function HexValue(s: string): nat
    requires AllHex(s)
  {
    if s == [] then 0 else HexDigitValue(s[0]) * Pow(16, |s| - 1) + HexValue(s[1..])
  }

  /** A number below the modulus is its own remainder. */
  lemma ModBelow(v: nat, p: nat)
    requires v < p
    ensures v % p == v
  {
    assert v / p == 0;
  }

  lemma Regroup(d: nat, p: nat, h: nat, e: nat)
    ensures d * (16 * p) + (16 * h + e) == 16 * (d * p + h) + e
  {
  }

  lemma ScaleDigit(d: nat, p: nat)
    requires d < 16
    ensures d * p + p <= 16 * p
  {
  }

  /** The positional sum can be evaluated by Horner's rule. */
  lemma {:induction false} HexValueSnoc(s: string, c: char)
    requires AllHex(s) && IsHexDigit(c)
    ensures AllHex(s + [c])
    ensures HexValue(s + [c]) == 16 * HexValue(s) + HexDigitValue(c)
    decreases |s|
  {
    var t := s + [c];
    assert AllHex(t) by {
      forall k | 0 <= k < |t| ensures IsHexDigit(t[k]) {
        if k < |s| { assert t[k] == s[k]; }
      }
    }
    if s == [] {
      assert t == [c] && t[1..] == [];
    } else {
      var d, p := HexDigitValue(s[0]), Pow(16, |s| - 1);
      assert t[0] == s[0];
      assert t[1..] == s[1..] + [c];
      HexValueSnoc(s[1..], c);
      assert Pow(16, |t| - 1) == 16 * p;
      assert HexValue(t) == d * (16 * p) + HexValue(s[1..] + [c]);
      Regroup(d, p, HexValue(s[1..]), HexDigitValue(c));
    }
  }

  /** `n` hexadecimal digits hold less than 16^n. */
  lemma {:induction false} HexValueBound(s: string)
    requires AllHex(s)
    ensures HexValue(s) < Pow(16, |s|)
    decreases |s|
  {
    if s != [] {
      var d, p := HexDigitValue(s[0]), Pow(16, |s| - 1);
      HexValueBound(s[1..]);
      ScaleDigit(d, p);
      assert Pow(16, |s|) == 16 * p;
    }
  }

  function Zeros(k: nat): (z: string)
    ensures |z| == k && AllDec(z) && AllHex(z)
  {
    seq(k, _ => '0')
  }

  /** Leading zeros do not change the value. */
  lemma {:induction false} HexValueZeros(k: nat, s: string)
    requires AllHex(s)
    ensures AllHex(Zeros(k) + s) && HexValue(Zeros(k) + s) == HexValue(s)
    decreases k
  {
    var t := Zeros(k) + s;
    assert AllHex(t) by {
      forall i | 0 <= i < |t| ensures IsHexDigit(t[i]) {
        if i < k { assert t[i] == '0'; } else { assert t[i] == s[i - k]; }
      }
    }
    if k > 0 {
      assert t[0] == '0' && HexDigitValue(t[0]) == 0;
      assert t[1..] == Zeros(k - 1) + s;
      assert 0 * Pow(16, |t| - 1) == 0;
      assert HexValue(t) == HexValue(t[1..]);
      HexValueZeros(k - 1, s);
    } else {
      assert t == s;
    }
  }

  // ---------------------------------------------------------------------
  // Spelling numbers
  // ---------------------------------------------------------------------

  /** The decimal spelling printed by Rust's `{}`: no leading zeros. */
  function DecimalText(n: nat): (r: string)
    ensures |r| > 0 && AllDec(r) && DecValue(r) == n
    decreases n
  {
    if n < 10 then
      [DigitChar(n)]
    else
      var r := DecimalText(n / 10) + [DigitChar(n % 10)];
      assert r[..|r| - 1] == DecimalText(n / 10);
      r
  }

  /** The lower-case hexadecimal spelling printed by Rust's `{:x}`: no
      prefix and no leading zeros. */
  function HexText(n: nat): (r: string)
    ensures |r| > 0 && AllHex(r) && HexValue(r) == n
    ensures forall k :: 0 <= k < |r| ==> !('A' <= r[k] <= 'Z')
    decreases n
  {
    if n < 16 then
      assert [DigitChar(n)][1..] == [];
      [DigitChar(n)]
    else
      var t := HexText(n / 16);
      HexValueSnoc(t, DigitChar(n % 16));
      t + [DigitChar(n % 16)]
  }

  /** A number below 16^k needs at most k digits. */
  lemma {:induction false} HexTextLength(n: nat, k: nat)
    requires k >= 1 && n < Pow(16, k)
    ensures |HexText(n)| <= k
    decreases k
  {
    if n >= 16 {
      assert Pow(16, 1) == 16;
      assert k >= 2;
      assert Pow(16, k) == 16 * Pow(16, k - 1);
      assert n / 16 < Pow(16, k - 1);
      HexTextLength(n / 16, k - 1);
    }
  }

  /** Rust's `{:#0w$x}`: the prefix `0x` followed by the lower-case digits,
      zero-padded so that the whole text is at least `width` characters. */
  function PrefixedHex(n: nat, width: nat): (r: string)
    ensures |r| >= 3 && r[0] == '0' && r[1] == 'x'
    ensures AllHex(r[2..]) && HexValue(r[2..]) == n
    ensures |r| == if width > 2 + |HexText(n)| then width else 2 + |HexText(n)|
  {
    var digits := HexText(n);
    var pad := if width > 2 + |digits| then width - 2 - |digits| else 0;
    HexValueZeros(pad, digits);
    var r := "0x" + Zeros(pad) + digits;
    assert r[2..] == Zeros(pad) + digits;
    r
  }

  /** The padded spelling of a number below 16^k, padded to at most k
      digits, has at most k digits. */
  lemma PrefixedHexLength(n: nat, width: nat, k: nat)
    requires k >= 1 && n < Pow(16, k) && width <= 2 + k
    ensures |PrefixedHex(n, width)| <= 2 + k
  {
    HexTextLength(n, k);
  }
}
