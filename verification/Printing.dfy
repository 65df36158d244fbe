/** Text that several of the programs write. */
module Printing {
  /** The digits of lower-case hexadecimal numbers. */
  const HEX_DIGITS := "0123456789abcdef"

  /** The conversion `%x`. */
  function Hex(n: nat): (s: string)
    ensures s != ""
  {
    if n < 16 then [HEX_DIGITS[n]] else Hex(n / 16) + [HEX_DIGITS[n % 16]]
  }

  lemma HexStep(n: nat)
    requires n >= 16
    ensures Hex(n) == Hex(n / 16) + [HEX_DIGITS[n % 16]]
  {
  }

  function DigitOf(c: char): nat {
    if '0' <= c <= '9' then c as int - '0' as int
    else if 'a' <= c <= 'f' then c as int - 'a' as int + 10
    else 0
  }

  /** The number that a numeral stands for. */
  function ValueOf(s: string, base: nat): nat {
    if s == "" then 0 else ValueOf(s[..|s| - 1], base) * base + DigitOf(s[|s| - 1])
  }

  predicate IsDigit(c: char, base: nat) {
    if base <= 10 then '0' <= c <= '9' else '0' <= c <= '9' || 'a' <= c <= 'f'
  }

  /** At least one digit, and no zero in front. */
  predicate IsNumeral(s: string, base: nat) {
    && s != "" && (|s| > 1 ==> s[0] != '0')
    && forall i :: 0 <= i < |s| ==> IsDigit(s[i], base)
  }

  lemma ValueMore(s: string, c: char, base: nat)
    ensures ValueOf(s + [c], base) == ValueOf(s, base) * base + DigitOf(c)
  {
    assert (s + [c])[..|s|] == s;
  }

  lemma HexDigitIs(d: nat)
    requires d < 16
    ensures DigitOf(HEX_DIGITS[d]) == d && IsDigit(HEX_DIGITS[d], 16) && (d > 0 ==> HEX_DIGITS[d] != '0')
  {
  }

  /** What the conversion `%x` prints is the hexadecimal numeral of the number. */
  lemma {:induction false} HexReadsBack(n: nat)
    ensures IsNumeral(Hex(n), 16) && ValueOf(Hex(n), 16) == n && (n > 0 ==> Hex(n)[0] != '0')
  {
    HexDigitIs(n % 16);
    if n < 16 {
      assert Hex(n) == "" + [HEX_DIGITS[n]];
      ValueMore("", HEX_DIGITS[n], 16);
    } else {
      HexReadsBack(n / 16);
      ValueMore(Hex(n / 16), HEX_DIGITS[n % 16], 16);
    }
  }

  lemma {:induction false} LeadingZero(s: string, base: nat)
    ensures ValueOf("0" + s, base) == ValueOf(s, base)
  {
    if s == "" {
      assert "0" + s == "" + ['0'];
      ValueMore("", '0', base);
    } else {
      var n := |s| - 1;
      LeadingZero(s[..n], base);
      assert ("0" + s)[..n + 1] == "0" + s[..n];
    }
  }

  /** The names with slashes between them. */
  function Join(names: seq<string>): string {
    if names == [] then ""
    else if |names| == 1 then names[0]
    else names[0] + "/" + Join(names[1..])
  }

  lemma {:induction false} JoinConcat(a: seq<string>, b: seq<string>)
    requires a != [] && b != []
    ensures Join(a + b) == Join(a) + "/" + Join(b)
  {
    if |a| == 1 {
      assert (a + b)[1..] == b;
    } else {
      assert (a + b)[1..] == a[1..] + b;
      JoinConcat(a[1..], b);
      assert a[0] + "/" + (Join(a[1..]) + "/" + Join(b)) == (a[0] + "/" + Join(a[1..])) + "/" + Join(b);
    }
  }
}
