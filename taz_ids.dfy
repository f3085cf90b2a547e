/** TAZ identifiers: zero-padding of TAZ numbers and the CO_TAZID key built
    from a county FIPS code and a padded TAZ number. */
module TazIds {

  /** A pandas object-column cell after `Series.map(addLeadingZeroesTAZ)`:
      the function returns a string for small numbers and the integer
      itself otherwise, so the column mixes the two. */
  datatype PyValue = Str(s: string) | Int(i: int)

  predicate IsDigit(c: char)
  {
    '0' <= c <= '9'
  }

  predicate AllDigits(s: string)
  {
    forall j :: 0 <= j < |s| ==> IsDigit(s[j])
  }

  function DigitChar(d: nat): (c: char)
    requires d < 10
    ensures IsDigit(c)
  {
    "0123456789"[d]
  }

  function DigitValue(c: char): (d: nat)
    requires IsDigit(c)
    ensures d < 10 && DigitChar(d) == c
  {
    (c as int - '0' as int) as nat
  }

  /** Python's `str(n)` for a non-negative integer: its decimal digits, most
      significant first, with no leading zero except for 0 itself. */
  function NatToString(n: nat): (s: string)
    ensures |s| >= 1 && AllDigits(s)
    ensures s[0] == '0' ==> n == 0
    decreases n
  {
    if n < 10 then [DigitChar(n)] else NatToString(n / 10) + [DigitChar(n % 10)]
  }

  /** Python's `str(i)` for any integer: a minus sign before the digits of a
      negative number. */
  function IntToString(i: int): (s: string)
    ensures i >= 0 ==> s == NatToString(i)
    ensures i < 0 ==> s == "-" + NatToString(-i)
  {
    if i < 0 then "-" + NatToString(-i) else NatToString(i)
  }

  /** The value of a string of decimal digits, leading zeros allowed (the
      reading of a padded TAZ number back into the number it pads). */
  function ParseDigits(s: string): nat
    requires AllDigits(s)
    decreases |s|
  {
    if s == [] then 0 else ParseDigits(s[..|s| - 1]) * 10 + DigitValue(s[|s| - 1])
  }

  /** Reading back the decimal digits of `n` gives `n`. */
  lemma {:induction false} ParseNatToString(n: nat)
    ensures ParseDigits(NatToString(n)) == n
    decreases n
  {
    if n >= 10 {
      var s := NatToString(n / 10) + [DigitChar(n % 10)];
      assert s[..|s| - 1] == NatToString(n / 10);
      ParseNatToString(n / 10);
    }
  }

  /** A leading zero does not change the value of a digit string. */
  lemma {:induction false} ParseLeadingZero(s: string)
    requires AllDigits(s)
    ensures AllDigits("0" + s) && ParseDigits("0" + s) == ParseDigits(s)
    decreases |s|
  {
    if s != [] {
      var t := "0" + s;
      assert t[..|t| - 1] == "0" + s[..|s| - 1];
      ParseLeadingZero(s[..|s| - 1]);
    }
  }

  /** The number of digits of `n` by the magnitude bands the padding tests. */
  lemma NatToStringLength(n: nat)
    ensures n < 10 ==> |NatToString(n)| == 1
    ensures 10 <= n < 100 ==> |NatToString(n)| == 2
    ensures 100 <= n < 1000 ==> |NatToString(n)| == 3
    ensures 1000 <= n < 10000 ==> |NatToString(n)| == 4
    ensures n >= 10000 ==> |NatToString(n)| >= 5
  {
    if n >= 10 {
      NatToStringLength(n / 10);
    }
  }

  /** `addLeadingZeroesTAZ`: three, two or one zeros before `str(n)` for
      n < 10, 10 <= n < 100 and 100 <= n < 1000 respectively; otherwise the
      integer itself, not a string. A negative number takes the first branch. */
  function AddLeadingZeroes(n: int): (r: PyValue)
    ensures n < 1000 ==> r.Str?
    ensures n >= 1000 ==> r == Int(n)
    ensures n < 0 ==> r == Str("000-" + NatToString(-n))
  {
    if n < 10 then Str("000" + IntToString(n))
    else if n >= 10 && n < 100 then Str("00" + IntToString(n))
    else if n >= 100 && n < 1000 then Str("0" + IntToString(n))
    else Int(n)
  }

  /** pandas `astype(str)` on one cell of the mapped column. */
  function AsString(v: PyValue): (s: string)
    ensures v.Str? ==> s == v.s
    ensures v.Int? ==> s == IntToString(v.i)
  {
    match v
    case Str(t) => t
    case Int(i) => IntToString(i)
  }

  /** The padded TAZ number as it enters CO_TAZID. */
  function PaddedTaz(n: int): string
  {
    AsString(AddLeadingZeroes(n))
  }

  /** For 0 <= n < 10000 the padded form is exactly four digits: zeros, then
      the decimal digits of `n`, and it reads back as `n`. */
  lemma PaddedTazForm(n: int)
    requires 0 <= n < 10000
    ensures |PaddedTaz(n)| == 4 && AllDigits(PaddedTaz(n))
    ensures PaddedTaz(n) == seq(4 - |NatToString(n)|, _ => '0') + NatToString(n)
    ensures ParseDigits(PaddedTaz(n)) == n
  {
    var d := NatToString(n);
    NatToStringLength(n);
    ParseNatToString(n);
    if n < 10 {
      assert PaddedTaz(n) == "0" + ("0" + ("0" + d));
      ParseLeadingZero(d);
      ParseLeadingZero("0" + d);
      ParseLeadingZero("0" + ("0" + d));
    } else if n < 100 {
      assert PaddedTaz(n) == "0" + ("0" + d);
      ParseLeadingZero(d);
      ParseLeadingZero("0" + d);
    } else if n < 1000 {
      assert PaddedTaz(n) == "0" + d;
      ParseLeadingZero(d);
    }
  }

  /** A number of 1000 or more is passed through unpadded, so its string has
      no leading zero; a negative number keeps its sign after the zeros. */
  lemma PaddedTazUnpadded(n: int)
    ensures n >= 1000 ==> PaddedTaz(n) == NatToString(n) && PaddedTaz(n)[0] != '0'
    ensures n < 0 ==> PaddedTaz(n) == "000-" + NatToString(-n) && !AllDigits(PaddedTaz(n))
  {
    if n < 0 {
      assert PaddedTaz(n)[3] == '-';
    }
  }

  /** CO_TAZID: the county FIPS code as a string followed by the string of
      the padded TAZ number. */
  function CoTazId(fips: int, z: int): (id: string)
    ensures |id| >= |IntToString(fips)| && id[..|IntToString(fips)|] == IntToString(fips)
  {
    IntToString(fips) + PaddedTaz(z)
  }

  /** For 0 <= z < 10000 the last four characters of CO_TAZID are z padded
      to four digits and decode back to z; the rest is the FIPS code. */
  lemma CoTazIdDecodes(fips: int, z: int)
    requires 0 <= z < 10000
    ensures var id := CoTazId(fips, z);
      && |id| == |IntToString(fips)| + 4
      && id[..|id| - 4] == IntToString(fips)
      && AllDigits(id[|id| - 4..])
      && ParseDigits(id[|id| - 4..]) == z
  {
    PaddedTazForm(z);
    var id := CoTazId(fips, z);
    assert id[|id| - 4..] == PaddedTaz(z);
  }

  /** Within one county, CO_TAZID tells TAZ numbers 0..9999 apart. */
  lemma CoTazIdInjective(fips: int, z1: int, z2: int)
    requires 0 <= z1 < 10000 && 0 <= z2 < 10000
    requires CoTazId(fips, z1) == CoTazId(fips, z2)
    ensures z1 == z2
  {
    CoTazIdDecodes(fips, z1);
    CoTazIdDecodes(fips, z2);
  }
}
