/** C strings and the pieces of `snprintf` the servers use: `%d`, `%s` and the size bound. */
module CText {
  import opened Wrappers
  import opened Search

  /** The C string held in a buffer: everything before the first NUL, or all of it when there is none. */
  function CStr(buf: seq<char>): (s: string)
    ensures '\0' !in s
    ensures |s| <= |buf| && s == buf[..|s|]
    ensures |s| < |buf| ==> buf[|s|] == '\0'
    ensures '\0' !in buf ==> s == buf
  {
    match FirstIndex(buf, '\0')
    case None => buf
    case Some(i) => buf[..i]
  }

  /** A NUL at position k with none before it ends the C string there. */
  lemma CStrAt(buf: seq<char>, k: nat)
    requires k < |buf| && buf[k] == '\0' && '\0' !in buf[..k]
    ensures CStr(buf) == buf[..k]
  {
    FirstIndexAt(buf, '\0', k);
  }

  /** The C string starting inside another C string is its tail (`strlen(s + k)`). */
  lemma CStrSuffix(buf: seq<char>, k: nat)
    requires k <= |CStr(buf)|
    ensures CStr(buf[k..]) == CStr(buf)[k..]
  {
    var n := |CStr(buf)|;
    if n < |buf| {
      assert buf[k..][n - k] == '\0';
      assert buf[k..][..n - k] == CStr(buf)[k..];
      CStrAt(buf[k..], n - k);
    } else {
      assert buf[k..] == CStr(buf)[k..];
    }
  }

  /**
   * What `snprintf(out, size, "%s", s)` leaves in `out` as a C string: s cut
   * to at most size - 1 characters, one byte being kept for the NUL.
   */
  function Snprintf(size: nat, s: string): (out: string)
    requires size >= 1
    ensures |out| <= size - 1
    ensures |out| <= |s| && out == s[..|out|]
    ensures |s| <= size - 1 ==> out == s
    ensures |s| > size - 1 ==> |out| == size - 1
  {
    if |s| < size then s else s[..size - 1]
  }

  /** The digit character for 0..9. */
  function DigitChar(d: nat): (c: char)
    requires d < 10
    ensures '0' <= c <= '9'
  {
    ('0' as int + d) as char
  }

  /** The value of a digit character. */
  function DigitValue(c: char): nat
    requires '0' <= c <= '9'
  {
    c as int - '0' as int
  }

  /** The decimal digits of n, most significant first, without leading zeros. */
  function NatDigits(n: nat): (s: string)
    ensures |s| >= 1
    ensures forall i :: 0 <= i < |s| ==> '0' <= s[i] <= '9'
    ensures |s| == 1 <==> n < 10
    ensures n >= 1 ==> s[0] != '0'
  {
    if n < 10 then [DigitChar(n)] else NatDigits(n / 10) + [DigitChar(n % 10)]
  }

  /** `%d`: a minus sign for negative numbers, then the digits. */
  function Decimal(n: int): (s: string)
    ensures |s| >= 1
    ensures '\0' !in s
  {
    if n < 0 then "-" + NatDigits(-n) else NatDigits(n)
  }

  /** The number a string of decimal digits stands for. */
  function ParseDigits(s: string): nat
    requires forall i :: 0 <= i < |s| ==> '0' <= s[i] <= '9'
  {
    if s == [] then 0 else ParseDigits(s[..|s| - 1]) * 10 + DigitValue(s[|s| - 1])
  }

  /** The number an optional minus sign and decimal digits stand for. */
  function ParseDecimal(s: string): int
    requires |s| >= 1
    requires forall i :: (if s[0] == '-' then 1 else 0) <= i < |s| ==> '0' <= s[i] <= '9'
  {
    if s[0] == '-' then -(ParseDigits(s[1..]) as int) else ParseDigits(s)
  }

  /** Reading the digits of n back gives n. */
  lemma {:induction false} ParseNatDigits(n: nat)
    ensures ParseDigits(NatDigits(n)) == n
  {
    if n >= 10 {
      ParseNatDigits(n / 10);
      var s := NatDigits(n);
      assert s[..|s| - 1] == NatDigits(n / 10);
    }
  }

  /** `%d` is read back as the number it printed, so distinct numbers print differently. */
  lemma DecimalRoundTrip(n: int)
    ensures ParseDecimal(Decimal(n)) == n
    ensures var d := Decimal(n);
      var digits := if n < 0 then d[1..] else d;
      (d[0] == '-' <==> n < 0) && |digits| >= 1 && (|digits| > 1 ==> digits[0] != '0')
  {
    var d := Decimal(n);
    if n < 0 {
      var digits := NatDigits(-n);
      assert d == "-" + digits;
      assert d[1..] == digits;
      ParseNatDigits(-n);
    } else {
      assert d == NatDigits(n);
      assert '0' <= d[0] <= '9';
      ParseNatDigits(n);
    }
  }

  /** A number below 10^k has at most k digits. */
  lemma {:induction false} NatDigitsLength(n: nat, k: nat, bound: nat)
    requires k >= 1 && bound == Pow10(k) && n < bound
    ensures |NatDigits(n)| <= k
  {
    if n >= 10 {
      NatDigitsLength(n / 10, k - 1, Pow10(k - 1));
    }
  }

  /** 10^k. */
  function Pow10(k: nat): nat
  {
    if k == 0 then 1 else 10 * Pow10(k - 1)
  }

  /** A C `int` prints in at most 11 characters. */
  lemma DecimalInt32Length(n: int)
    requires -0x8000_0000 <= n < 0x8000_0000
    ensures |Decimal(n)| <= 11
  {
    assert Pow10(10) == 10_000_000_000;
    if n < 0 {
      NatDigitsLength(-n, 10, Pow10(10));
    } else {
      NatDigitsLength(n, 10, Pow10(10));
    }
  }
}
