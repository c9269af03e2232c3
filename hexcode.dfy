/** The code text of a card: Python's `f"0x{codepoint:04x}"`, that is "0x"
    followed by the lower-case hexadecimal digits of the codepoint, padded
    with zeros on the left to at least four digits. `ParseCode` reads a code
    text back; `CodeRoundTrip` shows it inverts `Code`. */
module HexCode {
  import opened Text

  datatype Option<T> = None | Some(value: T)

  const Digits: string := "0123456789abcdef"

  /** The characters `format(..., 'x')` may print. */
  predicate IsHexDigit(c: char) { '0' <= c <= '9' || 'a' <= c <= 'f' }

  function HexDigit(d: nat): (c: char)
    requires d < 16
    ensures IsHexDigit(c)
    ensures DigitValue(c) == Some(d)
  {
    Digits[d]
  }

  /** The value of one lower-case hexadecimal digit, or None. */
  function DigitValue(c: char): (r: Option<nat>)
    ensures r.Some? <==> IsHexDigit(c)
    ensures r.Some? ==> r.value < 16
  {
    if '0' <= c <= '9' then Some(c as int - '0' as int)
    else if 'a' <= c <= 'f' then Some(c as int - 'a' as int + 10)
    else None
  }

  function Pow16(k: nat): (p: nat)
    ensures p >= 1
  {
    if k == 0 then 1 else 16 * Pow16(k - 1)
  }

  /** The shortest hexadecimal rendering of n, as `format(n, 'x')`. */
  function ToHex(n: nat): (s: string)
    ensures |s| >= 1
    ensures forall i :: 0 <= i < |s| ==> IsHexDigit(s[i])
    decreases n
  {
    if n < 16 then [HexDigit(n)] else ToHex(n / 16) + [HexDigit(n % 16)]
  }

  function Zeros(k: nat): (s: string)
    ensures |s| == k
    ensures forall i :: 0 <= i < k ==> s[i] == '0'
  {
    seq(k, _ => '0')
  }

  /** Left padding with '0' to a minimum width, as the `04` of `:04x`. */
  function PadLeft(s: string, width: nat): (r: string)
    ensures |r| == if |s| >= width then |s| else width
  {
    if |s| >= width then s else Zeros(width - |s|) + s
  }

  /** `hex_code` for a codepoint. */
  function Code(cp: nat): string {
    "0x" + PadLeft(ToHex(cp), 4)
  }

  /** The value of a string of hexadecimal digits (None on any other
      character); the empty string reads as zero. */
  function DigitsValue(s: string): (r: Option<nat>)
    ensures r.Some? <==> forall i :: 0 <= i < |s| ==> IsHexDigit(s[i])
  {
    if s == [] then Some(0)
    else
      var init := DigitsValue(s[..|s| - 1]);
      var last := DigitValue(s[|s| - 1]);
      if init.Some? && last.Some? then Some(16 * init.value + last.value) else None
  }

  /** Reads a code text back: "0x" and at least one hexadecimal digit. */
  function ParseCode(t: string): Option<nat> {
    if |t| < 3 || t[..2] != "0x" then None else DigitsValue(t[2..])
  }

  lemma {:induction false} ToHexValue(n: nat)
    ensures DigitsValue(ToHex(n)) == Some(n)
    decreases n
  {
    if n >= 16 {
      var s := ToHex(n);
      assert s[..|s| - 1] == ToHex(n / 16);
      ToHexValue(n / 16);
    }
  }

  lemma {:induction false} LeadingZerosValue(k: nat, s: string)
    ensures DigitsValue(Zeros(k) + s) == DigitsValue(s)
    decreases |s|
  {
    if s == [] {
      assert Zeros(k) + s == Zeros(k);
      ZerosValue(k);
    } else {
      var t := Zeros(k) + s;
      assert t[..|t| - 1] == Zeros(k) + s[..|s| - 1];
      LeadingZerosValue(k, s[..|s| - 1]);
    }
  }

  lemma {:induction false} ZerosValue(k: nat)
    ensures DigitsValue(Zeros(k)) == Some(0)
  {
    if k > 0 {
      assert Zeros(k)[..k - 1] == Zeros(k - 1);
      ZerosValue(k - 1);
    }
  }

  /** The digits of n do not start with '0' unless n is zero: padding is the
      only source of leading zeros. */
  lemma {:induction false} ToHexNoLeadingZero(n: nat)
    ensures ToHex(n)[0] == '0' <==> n == 0
    decreases n
  {
    if n >= 16 {
      ToHexNoLeadingZero(n / 16);
    }
  }

  /** n fits in k hexadecimal digits exactly when n < 16^k. */
  lemma {:induction false} ToHexLength(n: nat, k: nat)
    requires k >= 1
    ensures |ToHex(n)| <= k <==> n < Pow16(k)
    decreases n
  {
    if n >= 16 {
      if k == 1 {
        assert Pow16(1) == 16;
      } else {
        ToHexLength(n / 16, k - 1);
        assert n / 16 < Pow16(k - 1) <==> n < 16 * Pow16(k - 1);
      }
    } else {
      assert Pow16(k) >= 16 by { Pow16AtLeast16(k); }
    }
  }

  lemma {:induction false} Pow16AtLeast16(k: nat)
    requires k >= 1
    ensures Pow16(k) >= 16
  {
    if k > 1 { Pow16AtLeast16(k - 1); }
  }

  /** The form of `hex_code`: "0x" followed by lower-case hexadecimal digits
      only, at least four of them, and nothing upper-case anywhere. */
  lemma CodeShape(cp: nat)
    ensures |Code(cp)| >= 6 && Code(cp)[..2] == "0x"
    ensures forall i :: 2 <= i < |Code(cp)| ==> IsHexDigit(Code(cp)[i])
    ensures NoUpper(Code(cp))
  {
    var d := PadLeft(ToHex(cp), 4);
    assert Code(cp)[2..] == d;
    assert forall i :: 0 <= i < |d| ==> IsHexDigit(d[i]);
  }

  /** Exactly four digits, zero-padded, precisely for the codepoints below
      0x10000; above that, as many digits as the value needs, with no
      leading zero. */
  lemma CodeWidth(cp: nat)
    ensures |Code(cp)| == 6 <==> cp < 0x10000
    ensures |Code(cp)| > 6 ==> Code(cp)[2] != '0'
  {
    ToHexLength(cp, 4);
    assert Pow16(4) == 0x10000;
    ToHexNoLeadingZero(cp);
  }

  /** Reading the code text back gives the codepoint. */
  lemma CodeRoundTrip(cp: nat)
    ensures ParseCode(Code(cp)) == Some(cp)
  {
    var h := ToHex(cp);
    var t := Code(cp);
    assert t[2..] == PadLeft(h, 4);
    ToHexValue(cp);
    if |h| < 4 {
      LeadingZerosValue(4 - |h|, h);
    }
  }

  /** Different codepoints get different code texts. */
  lemma CodeInjective(a: nat, b: nat)
    requires Code(a) == Code(b)
    ensures a == b
  {
    CodeRoundTrip(a);
    CodeRoundTrip(b);
  }

  /** The code text holds no space. */
  lemma CodeHasNoSpace(cp: nat)
    ensures ' ' !in Code(cp)
  {
    CodeShape(cp);
    var t := Code(cp);
    assert t[0] == t[..2][0] && t[1] == t[..2][1];
  }
}
