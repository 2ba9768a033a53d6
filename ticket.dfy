/** The hall-ticket code: "HT-" followed by the record's id in decimal,
    left-padded with zeros to at least six digits (Python's f"HT-{id:06}"). */
module Ticket {
  import opened Wrappers

  const Prefix: string := "HT-"

  /** Minimum number of digits in a hall-ticket code. */
  const Width: nat := 6

  predicate IsDigit(c: char)
  {
    '0' <= c <= '9'
  }

  predicate AllDigits(s: string)
  {
    forall i :: 0 <= i < |s| ==> IsDigit(s[i])
  }

  function DigitChar(d: nat): (c: char)
    requires d < 10
    ensures IsDigit(c)
  {
    ('0' as int + d) as char
  }

  function DigitValue(c: char): (d: nat)
    requires IsDigit(c)
    ensures d < 10
  {
    c as int - '0' as int
  }

  function Pow10(k: nat): (p: nat)
    ensures p >= 1
  {
    if k == 0 then 1 else 10 * Pow10(k - 1)
  }

  /** Decimal text of `n`, as Python's `str(n)`: digits only, no leading zero. */
  function Decimal(n: nat): (s: string)
    ensures |s| >= 1 && AllDigits(s)
    ensures s[0] == '0' ==> n == 0
  {
    if n < 10 then [DigitChar(n)] else Decimal(n / 10) + [DigitChar(n % 10)]
  }

  /** Numeric value of a string of decimal digits (leading zeros allowed). */
  function ValueOf(s: string): nat
    requires AllDigits(s)
  {
    if |s| == 0 then 0 else ValueOf(s[..|s| - 1]) * 10 + DigitValue(s[|s| - 1])
  }

  /** Reading back the decimal text of `n` gives `n`. */
  lemma {:induction false} DecimalRoundTrip(n: nat)
    ensures ValueOf(Decimal(n)) == n
  {
    var s := Decimal(n);
    if n >= 10 {
      DecimalRoundTrip(n / 10);
      assert s[..|s| - 1] == Decimal(n / 10);
    }
  }

  /** A number below 10^k has at most k decimal digits. */
  lemma {:induction false} DecimalLength(n: nat, k: nat)
    requires 1 <= k && n < Pow10(k)
    ensures |Decimal(n)| <= k
  {
    if n >= 10 {
      DecimalLength(n / 10, k - 1);
    }
  }

  function Zeros(k: nat): (z: string)
    ensures |z| == k && forall i :: 0 <= i < k ==> z[i] == '0'
  {
    seq(k, i => '0')
  }

  /** `s` left-padded with zeros to at least `width` characters. */
  function ZeroPad(s: string, width: nat): (r: string)
    ensures |r| == if |s| >= width then |s| else width
    ensures r[|r| - |s|..] == s
    ensures forall i :: 0 <= i < |r| - |s| ==> r[i] == '0'
  {
    if |s| >= width then s else Zeros(width - |s|) + s
  }

  /** Leading zeros do not change the value of a digit string. */
  lemma {:induction false} LeadingZerosValue(k: nat, s: string)
    requires AllDigits(s)
    ensures AllDigits(Zeros(k) + s) && ValueOf(Zeros(k) + s) == ValueOf(s)
  {
    var t := Zeros(k) + s;
    if |s| == 0 {
      assert t == Zeros(k);
      ZerosValue(k);
    } else {
      var s' := s[..|s| - 1];
      assert t[..|t| - 1] == Zeros(k) + s';
      LeadingZerosValue(k, s');
    }
  }

  lemma {:induction false} ZerosValue(k: nat)
    ensures AllDigits(Zeros(k)) && ValueOf(Zeros(k)) == 0
  {
    if k > 0 {
      assert Zeros(k)[..k - 1] == Zeros(k - 1);
      ZerosValue(k - 1);
    }
  }

  /** The hall-ticket code of the record with identifier `id`. */
  function HallTicket(id: nat): (t: string)
  {
    Prefix + ZeroPad(Decimal(id), Width)
  }

  /** Reads a hall-ticket code back into the identifier it encodes. */
  function ParseHallTicket(t: string): Option<nat>
  {
    if |t| > |Prefix| && t[..|Prefix|] == Prefix && AllDigits(t[|Prefix|..])
    then Some(ValueOf(t[|Prefix|..]))
    else None
  }

  /** Every code starts with "HT-" and carries at least six digits, all of them decimal. */
  lemma HallTicketShape(id: nat)
    ensures |HallTicket(id)| >= |Prefix| + Width
    ensures HallTicket(id)[..|Prefix|] == Prefix
    ensures AllDigits(HallTicket(id)[|Prefix|..])
  {
    var d := Decimal(id);
    var t := HallTicket(id);
    assert t[|Prefix|..] == ZeroPad(d, Width);
  }

  /** Parsing a code gives back the identifier it was made from. */
  lemma HallTicketRoundTrip(id: nat)
    ensures ParseHallTicket(HallTicket(id)) == Some(id)
  {
    var d := Decimal(id);
    var t := HallTicket(id);
    var digits := ZeroPad(d, Width);
    assert t[..|Prefix|] == Prefix && t[|Prefix|..] == digits;
    if |d| < Width {
      LeadingZerosValue(Width - |d|, d);
    }
    DecimalRoundTrip(id);
  }

  /** Distinct identifiers always give distinct hall-ticket codes. */
  lemma HallTicketInjective(a: nat, b: nat)
    requires a != b
    ensures HallTicket(a) != HallTicket(b)
  {
    HallTicketRoundTrip(a);
    HallTicketRoundTrip(b);
  }

  /** For an identifier below one million the code is exactly nine characters:
      "HT-" and six digits. */
  lemma HallTicketLength(id: nat)
    requires id < 1000000
    ensures |HallTicket(id)| == |Prefix| + Width
  {
    assert Pow10(6) == 1000000;
    DecimalLength(id, 6);
  }

  /** The first record's code. */
  lemma FirstHallTicket()
    ensures HallTicket(1) == "HT-000001"
  {
    assert Decimal(1) == "1";
    assert Zeros(5) == "00000";
  }
}
