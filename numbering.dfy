/**
 * Invoice identity: `generate_invoice_id` renders `N° #DD-MM-YYYY-XX` from
 * the emission date and the invoice number, the number zero-padded to at
 * least two characters.
 */
module Numbering {
  import opened Wrappers
  import opened Text
  import opened Calendar

  /** The fixed head of every identifier: "N° #". */
  const IdPrefix: string := "N\U{00B0} #"

  /**
   * `f"{n:02d}"`: at least two characters, zero-filled after the sign; a
   * negative number already has two characters and is rendered as is.
   */
  function Format02(n: int): (r: string)
    ensures |r| >= 2
    ensures r[0] == '-' <==> n < 0
  {
    if n < 0 then "-" + Decimal(-n)
    else if n < 10 then "0" + Decimal(n)
    else
      DecimalLength(n);
      assert IsDigit(Decimal(n)[0]);
      Decimal(n)
  }

  /** `int(t)` on the renderings `Format02` produces: an optional minus sign and decimal digits. */
  function ParseNumber(t: string): Option<int>
  {
    if |t| >= 2 && t[0] == '-' && AllDigits(t[1..]) then Some(0 - ParseDigits(t[1..]))
    else if |t| >= 1 && AllDigits(t) then Some(ParseDigits(t))
    else None
  }

  /**
   * The padded number: non-negative numbers are digits only, a single
   * digit gets a leading zero, and numbers of two or more digits keep every
   * digit unpadded.
   */
  lemma Format02Shape(n: int)
    ensures n >= 0 ==> AllDigits(Format02(n))
    ensures 0 <= n < 10 ==> Format02(n) == ['0', DigitChar(n)]
    ensures n >= 10 ==> Format02(n) == Decimal(n)
  {
    if n >= 10 {
      DecimalLength(n);
    }
    if 0 <= n {
      assert AllDigits("0");
    }
  }

  /** The rendering loses nothing: reading it back gives the number. */
  lemma ParseFormat02(n: int)
    ensures ParseNumber(Format02(n)) == Some(n)
  {
    var t := Format02(n);
    if n < 0 {
      assert t[1..] == Decimal(-n);
      ParseDecimal(-n);
    } else if n < 10 {
      Format02Shape(n);
      ParseZeroPadded(n);
    } else {
      ParseDecimal(n);
    }
  }

  /** A digit after a leading zero reads back as the digit. */
  lemma ParseZeroPadded(n: nat)
    requires n < 10
    ensures var t := ['0', DigitChar(n)];
      AllDigits(t) && ParseDigits(t) == n
  {
    var t := ['0', DigitChar(n)];
    assert t[..1] == "0";
    assert ParseDigits("0") == 0 by {
      assert "0"[..0] == [];
    }
    assert ParseDigits(t) == 10 * ParseDigits("0") + n;
  }

  /** The identifier of an invoice with number `n` emitted on `d`. */
  function IdOf(d: Date, n: int): string
    requires Valid(d)
  {
    IdPrefix + FormatDMY(d, '-') + "-" + Format02(n)
  }

  /**
   * `generate_invoice_id(date_str, number)`: `None` where `strptime`
   * rejects the date; otherwise an identifier that reads back as the
   * parsed date and the number.
   */
  function InvoiceId(dateStr: string, n: int): (r: Option<string>)
    ensures r.Some? <==> ParseDMY(dateStr).Some?
    ensures r.Some? ==> r.value == IdOf(ParseDMY(dateStr).value, n)
    ensures r.Some? ==> ParseId(r.value) == Some((ParseDMY(dateStr).value, n))
  {
    match ParseDMY(dateStr)
    case None => None
    case Some(d) =>
      ParseIdOf(d, n);
      Some(IdOf(d, n))
  }

  /** Re-rendering a parsed date with dashes copies its three fields in order. */
  lemma DashedDate(dateStr: string)
    requires ParseDMY(dateStr).Some?
    ensures FormatDMY(ParseDMY(dateStr).value, '-') == dateStr[..2] + "-" + dateStr[3..5] + "-" + dateStr[6..]
  {
    var d := ParseDMY(dateStr).value;
    FormatParseDMY(dateStr);
    FormatDMYFields(d, '/');
    FormatDMYFields(d, '-');
  }

  /** The identifier copies the day, month and year fields of the date string in order, `-` between them. */
  lemma InvoiceIdCopiesDate(dateStr: string, n: int)
    requires ParseDMY(dateStr).Some?
    ensures InvoiceId(dateStr, n).value
            == IdPrefix + dateStr[..2] + "-" + dateStr[3..5] + "-" + dateStr[6..] + "-" + Format02(n)
  {
    var d := ParseDMY(dateStr).value;
    var dd, mm, yy := dateStr[..2], dateStr[3..5], dateStr[6..];
    DashedDate(dateStr);
    assert InvoiceId(dateStr, n).value == IdPrefix + FormatDMY(d, '-') + "-" + Format02(n);
    ConcatGroupMiddle(IdPrefix, dd, "-", mm, "-", yy, "-", Format02(n));
  }

  /** Reads an identifier back into its date and number. */
  function ParseId(id: string): Option<(Date, int)>
  {
    var p := |IdPrefix|;
    if |id| >= p + 11 && id[..p] == IdPrefix && id[p + 10] == '-' then
      var dmy := id[p .. p + 10];
      match ParseDMY(dmy[..2] + "/" + dmy[3..5] + "/" + dmy[6..])
      case None => None
      case Some(d) =>
        if dmy[2] != '-' || dmy[5] != '-' then None
        else match ParseNumber(id[p + 11..])
          case None => None
          case Some(n) => Some((d, n))
    else None
  }

  /** Every identifier names its date and its number. */
  lemma ParseIdOf(d: Date, n: int)
    requires Valid(d)
    ensures ParseId(IdOf(d, n)) == Some((d, n))
  {
    var p := |IdPrefix|;
    var dmy := FormatDMY(d, '-');
    var num := Format02(n);
    var id := IdPrefix + dmy + "-" + num;
    assert id == IdOf(d, n);
    assert |id| >= p + 11;
    assert id[..p] == IdPrefix;
    assert id[p .. p + 10] == dmy;
    assert id[p + 10] == '-';
    assert id[p + 11..] == num;
    assert dmy[..2] + "/" + dmy[3..5] + "/" + dmy[6..] == FormatDMY(d, '/');
    ParseFormatDMY(d);
    ParseFormat02(n);
  }

  /** Two invoices get the same identifier only if they share both the date and the number. */
  lemma IdInjective(d1: Date, n1: int, d2: Date, n2: int)
    requires Valid(d1) && Valid(d2) && IdOf(d1, n1) == IdOf(d2, n2)
    ensures d1 == d2 && n1 == n2
  {
    ParseIdOf(d1, n1);
    ParseIdOf(d2, n2);
  }
}
