/** Dates carried in article file names: `YYYYMMDD_<rest>`. */
module Dates {
  import opened Strings

  /** The date-format setting that selects the ISO rendering; any other value selects the Chinese one. */
  const IsoFormat := "YYYY-MM-DD"

  /** What a file name says about its date: numeric parts and the text shown in the manifest. */
  datatype FileDate = FileDate(year: int, month: int, day: int, text: string)

  const Undated := FileDate(0, 0, 0, "")

  /** The name starts with eight digits followed by an underscore. */
  predicate HasDatePrefix(name: string) {
    |name| >= 9 && AllDigits(name[..8]) && name[8] == '_'
  }

  /**
   * The date encoded at the start of `name`, rendered under `format`.
   * The year keeps its four digits as written; in the Chinese rendering month and day
   * lose their leading zeros, in the ISO rendering they are copied verbatim.
   */
  function ParseFileDate(name: string, format: string): (r: FileDate)
    ensures !HasDatePrefix(name) <==> r == Undated
    ensures 0 <= r.year < 10000 && 0 <= r.month < 100 && 0 <= r.day < 100
    ensures HasDatePrefix(name) ==> |r.text| > 0
  {
    if HasDatePrefix(name) then
      var year, month, day := name[..4], name[4..6], name[6..8];
      var text :=
        if format == IsoFormat then year + "-" + month + "-" + day
        else year + "年" + NatToString(DigitsValue(month)) + "月" + NatToString(DigitsValue(day)) + "日";
      FileDate(DigitsValue(year), DigitsValue(month), DigitsValue(day), text)
    else
      Undated
  }

  /** The digits a dated name starts with are the zero-padded year, month and day read from it. */
  lemma {:induction false} DatePrefixRoundTrip(name: string, format: string)
    requires HasDatePrefix(name)
    ensures var d := ParseFileDate(name, format);
      name[..8] == PadDigits(d.year, 4) + PadDigits(d.month, 2) + PadDigits(d.day, 2)
  {
    PrefixPartsDigits(name);
    var d := ParseFileDate(name, format);
    var year, month, day := name[..4], name[4..6], name[6..8];
    assert d.year == DigitsValue(year) && d.month == DigitsValue(month) && d.day == DigitsValue(day);
    calc {
      name[..8];
      year + month + day;
      { PadDigitsOfValue(year); PadDigitsOfValue(month); PadDigitsOfValue(day); }
      PadDigits(d.year, 4) + PadDigits(d.month, 2) + PadDigits(d.day, 2);
    }
  }

  /** The year, month and day fields of a dated name are all digits. */
  lemma PrefixPartsDigits(name: string)
    requires HasDatePrefix(name)
    ensures AllDigits(name[..4]) && AllDigits(name[4..6]) && AllDigits(name[6..8])
  {
    assert forall i :: 0 <= i < 4 ==> name[..4][i] == name[..8][i];
    assert forall i :: 0 <= i < 2 ==> name[4..6][i] == name[..8][4 + i];
    assert forall i :: 0 <= i < 2 ==> name[6..8][i] == name[..8][6 + i];
  }

  /** In the ISO rendering the date text is the zero-padded `YYYY-MM-DD` of the numeric parts. */
  lemma {:induction false} IsoTextOfParts(name: string)
    requires HasDatePrefix(name)
    ensures var d := ParseFileDate(name, IsoFormat);
      d.text == PadDigits(d.year, 4) + "-" + PadDigits(d.month, 2) + "-" + PadDigits(d.day, 2)
  {
    DatePrefixRoundTrip(name, IsoFormat);
    PrefixPartsDigits(name);
    PadDigitsOfValue(name[..4]);
    PadDigitsOfValue(name[4..6]);
    PadDigitsOfValue(name[6..8]);
  }

  /**
   * Any other format renders `<YYYY>年<month>月<day>日`, month and day as plain decimal
   * numbers without leading zeros, so the text between the markers reads back as the
   * numeric month and day.
   */
  lemma {:induction false} ChineseTextOfParts(name: string, format: string)
    requires HasDatePrefix(name) && format != IsoFormat
    ensures var d := ParseFileDate(name, format);
      exists m, dd ::
        && d.text == PadDigits(d.year, 4) + "年" + m + "月" + dd + "日"
        && AllDigits(m) && AllDigits(dd)
        && DigitsValue(m) == d.month && DigitsValue(dd) == d.day
        && m == NatToString(d.month) && dd == NatToString(d.day)
  {
    var d := ParseFileDate(name, format);
    assert AllDigits(name[..4]) by {
      assert forall i :: 0 <= i < 4 ==> name[..4][i] == name[..8][i];
    }
    PadDigitsOfValue(name[..4]);
    NatToStringRoundTrip(d.month);
    NatToStringRoundTrip(d.day);
    var m, dd := NatToString(d.month), NatToString(d.day);
    assert d.text == PadDigits(d.year, 4) + "年" + m + "月" + dd + "日";
  }

  /**
   * A dated name whose year digits are all zero yields year 0 with a non-empty date text;
   * the manifest files such an article with the undated ones although it carries a date.
   */
  lemma ZeroYearIsDated(name: string, format: string)
    requires HasDatePrefix(name) && name[..4] == "0000"
    ensures var d := ParseFileDate(name, format);
      d.year == 0 && d.text != ""
  {
    assert "0000"[..3] == "000" && "000"[..2] == "00" && "00"[..1] == "0" && "0"[..0] == [];
    assert DigitsValue("0000") == 0;
  }
}
