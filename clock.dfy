/**
 * formatTime: elapsed seconds shown as minutes and seconds, each padded to
 * two digits, separated by a colon (the minutes grow past two digits after
 * 100 minutes). ParseTime reads such a display back.
 */
module Clock {
  import opened Wrappers

  predicate IsDigit(c: char)
  {
    '0' <= c <= '9'
  }

  predicate AllDigits(t: string)
  {
    forall k :: 0 <= k < |t| ==> IsDigit(t[k])
  }

  function DigitChar(d: nat): (c: char)
    requires d < 10
    ensures IsDigit(c)
  {
    (48 + d) as char
  }

  function DigitValue(c: char): (d: nat)
    requires IsDigit(c)
    ensures d < 10
  {
    c as int - 48
  }

  /** toString of a non-negative integer: its decimal digits without leading zeros. */
  function Decimal(v: nat): (r: string)
    ensures 1 <= |r| && AllDigits(r)
    ensures |r| == 1 <==> v < 10
    ensures |r| <= 2 <==> v < 100
    ensures r[0] == '0' <==> v == 0
  {
    if v < 10 then [DigitChar(v)] else Decimal(v / 10) + [DigitChar(v % 10)]
  }

  /** padStart(2, '0'): zeros in front up to a length of two. */
  function PadStart2(t: string): (r: string)
    ensures |r| == if |t| >= 2 then |t| else 2
    ensures r[|r| - |t|..] == t
    ensures forall k :: 0 <= k < |r| - |t| ==> r[k] == '0'
  {
    if |t| >= 2 then t else seq(2 - |t|, _ => '0') + t
  }

  /**
   * formatTime: the display reads as s / 60 minutes and s % 60 seconds, the
   * seconds field two digits below 60; it is the five-character mm:ss
   * exactly below 6000 seconds, and the minutes carry a leading zero
   * exactly below 600 seconds (from 10 minutes on they are written as they are).
   */
  function FormatTime(s: nat): (r: string)
    ensures Shows(r, s / 60, s % 60) && s % 60 < 60
    ensures s < 6000 <==> |r| == 5
    ensures r[0] == '0' <==> s < 600
  {
    var q, rem := s / 60, s % 60;
    var m, ss := PadStart2(Decimal(q)), PadStart2(Decimal(rem));
    MinutesWidth(s, q);
    PaddedDecimal(q);
    PaddedDecimal(rem);
    Pieces(m, ss, m + ":" + ss, q, rem);
    m + ":" + ss
  }

  /** The value of a string of decimal digits, most significant first. */
  function ParseDecimal(t: string): nat
    requires AllDigits(t)
  {
    if |t| == 0 then 0 else ParseDecimal(t[..|t| - 1]) * 10 + DigitValue(t[|t| - 1])
  }

  /** Minutes, a colon and two digits of seconds, read back as a number of seconds. */
  function ParseTime(r: string): (s: Option<nat>)
  {
    if |r| >= 4 && r[|r| - 3] == ':' && AllDigits(r[..|r| - 3]) && AllDigits(r[|r| - 2..]) then
      Some(ParseDecimal(r[..|r| - 3]) * 60 + ParseDecimal(r[|r| - 2..]))
    else None
  }

  lemma {:induction false} DecimalRoundTrip(v: nat)
    ensures ParseDecimal(Decimal(v)) == v
  {
    if v >= 10 {
      var t := Decimal(v / 10);
      var r := Decimal(v);
      assert r == t + [DigitChar(v % 10)];
      assert r[..|r| - 1] == t;
      DecimalRoundTrip(v / 10);
    }
  }

  /** Leading zeros do not change the value. */
  lemma {:induction false} LeadingZero(t: string)
    requires AllDigits(t)
    ensures AllDigits("0" + t) && ParseDecimal("0" + t) == ParseDecimal(t)
  {
    if |t| > 0 {
      var z := "0" + t;
      assert z[..|z| - 1] == "0" + t[..|t| - 1];
      LeadingZero(t[..|t| - 1]);
    }
  }

  lemma PaddedDecimal(v: nat)
    ensures |PadStart2(Decimal(v))| == 2 <==> v < 100
    ensures AllDigits(PadStart2(Decimal(v)))
    ensures ParseDecimal(PadStart2(Decimal(v))) == v
    ensures PadStart2(Decimal(v))[0] == '0' <==> v < 10
  {
    var t := Decimal(v);
    DecimalRoundTrip(v);
    if |t| < 2 {
      assert PadStart2(t) == "0" + t;
      LeadingZero(t);
    }
  }

  /**
   * r reads as q minutes and rem seconds: at least two digits, a colon in
   * the third place from the end, then two digits.
   */
  predicate Shows(r: string, q: nat, rem: nat)
  {
    && |r| >= 5 && r[|r| - 3] == ':'
    && AllDigits(r[..|r| - 3]) && AllDigits(r[|r| - 2..])
    && ParseDecimal(r[..|r| - 3]) == q && ParseDecimal(r[|r| - 2..]) == rem
  }

  lemma Pieces(m: string, ss: string, r: string, q: nat, rem: nat)
    requires r == m + ":" + ss && |m| >= 2 && |ss| == 2 && AllDigits(m) && AllDigits(ss)
    requires ParseDecimal(m) == q && ParseDecimal(ss) == rem
    ensures Shows(r, q, rem)
    ensures |m| == 2 <==> |r| == 5
  {
    assert r[..|r| - 3] == m && r[|r| - 2..] == ss;
  }

  lemma MinutesWidth(s: nat, q: nat)
    requires q == s / 60
    ensures s < 6000 <==> q < 100
    ensures s < 600 <==> q < 10
  {
    assert s == q * 60 + s % 60;
  }

  /** Reading a display back gives the seconds it was made from. */
  lemma FormatParseRoundTrip(s: nat)
    ensures ParseTime(FormatTime(s)) == Some(s)
  {
  }

  /** Different numbers of seconds are displayed differently. */
  lemma FormatTimeInjective(s: nat, t: nat)
    requires FormatTime(s) == FormatTime(t)
    ensures s == t
  {
    FormatParseRoundTrip(s);
    FormatParseRoundTrip(t);
  }

  /** A reset clock shows the text resetStats writes. */
  lemma ZeroDisplay()
    ensures FormatTime(0) == "00:00"
  {
  }

  /** From 100 minutes on the minutes field outgrows its two-digit padding. */
  lemma LongDisplay()
    ensures FormatTime(6000) == "100:00"
  {
    assert Decimal(100) == "100";
  }
}
