/** Calendar dates: their chronological order, the ISO `YYYY-MM-DD` form the
    program reads and prints, and the earliest of several dates. */
module Dates {
  import Text
  import opened Wrappers

  datatype Date = Date(year: nat, month: nat, day: nat)

  /** Python's `date.min.year` and `date.max.year`. */
  const MinYear: nat := 1
  const MaxYear: nat := 9999

  predicate IsLeapYear(y: nat) {
    y % 4 == 0 && (y % 100 != 0 || y % 400 == 0)
  }

  function DaysInMonth(y: nat, m: nat): (n: nat)
    requires 1 <= m <= 12
    ensures 28 <= n <= 31
  {
    if m == 2 then (if IsLeapYear(y) then 29 else 28)
    else if m == 4 || m == 6 || m == 9 || m == 11 then 30
    else 31
  }

  /** The dates Python's `date` type can represent. */
  predicate Valid(d: Date) {
    && MinYear <= d.year <= MaxYear
    && 1 <= d.month <= 12
    && 1 <= d.day <= DaysInMonth(d.year, d.month)
  }

  /** Chronological order: year, then month, then day. */
  predicate Le(a: Date, b: Date) {
    || a.year < b.year
    || (a.year == b.year && a.month < b.month)
    || (a.year == b.year && a.month == b.month && a.day <= b.day)
  }

  predicate Lt(a: Date, b: Date) {
    Le(a, b) && a != b
  }

  /** Python's `date.isoformat()`: `%04d-%02d-%02d`. */
  function IsoFormat(d: Date): string
  {
    Text.PadNat(d.year, 4) + "-" + Text.PadNat(d.month, 2) + "-" + Text.PadNat(d.day, 2)
  }

  /** Python's `date.fromisoformat(s)` as of Python 3.7 to 3.10: exactly ten
      characters `YYYY-MM-DD` of ASCII digits and dashes naming a real calendar
      day; anything else raises `ValueError`, here `None`. */
  function ParseIsoDate(s: string): (r: Option<Date>)
    ensures r.Some? ==> Valid(r.value) && IsoFormat(r.value) == s
  {
    if |s| == 10 && s[4] == '-' && s[7] == '-'
       && Text.AllDigits(s[..4]) && Text.AllDigits(s[5..7]) && Text.AllDigits(s[8..])
    then
      var d := Date(Text.DigitsValue(s[..4]), Text.DigitsValue(s[5..7]), Text.DigitsValue(s[8..]));
      if Valid(d) then
        IsoFormatOfFields(s);
        Some(d)
      else None
    else None
  }

  /** A `YYYY-MM-DD` string of digits is the ISO form of the date its fields name. */
  lemma IsoFormatOfFields(s: string)
    requires |s| == 10 && s[4] == '-' && s[7] == '-'
    requires Text.AllDigits(s[..4]) && Text.AllDigits(s[5..7]) && Text.AllDigits(s[8..])
    ensures IsoFormat(Date(Text.DigitsValue(s[..4]), Text.DigitsValue(s[5..7]), Text.DigitsValue(s[8..]))) == s
  {
    Text.PadNatOfDigits(s[..4]);
    Text.PadNatOfDigits(s[5..7]);
    Text.PadNatOfDigits(s[8..]);
    assert s == s[..4] + "-" + s[5..7] + "-" + s[8..];
  }

  /** Printing a valid date and reading it back gives the same date. */
  lemma ParseIsoFormat(d: Date)
    requires Valid(d)
    ensures ParseIsoDate(IsoFormat(d)) == Some(d)
  {
    var s := IsoFormat(d);
    assert s[..4] == Text.PadNat(d.year, 4);
    assert s[5..7] == Text.PadNat(d.month, 2);
    assert s[8..] == Text.PadNat(d.day, 2);
  }

  /** A string is accepted exactly when it is the ISO form of a valid date. */
  lemma ParseIsoDateIff(s: string)
    ensures ParseIsoDate(s).Some? <==> exists d :: Valid(d) && IsoFormat(d) == s
  {
    if exists d :: Valid(d) && IsoFormat(d) == s {
      var d :| Valid(d) && IsoFormat(d) == s;
      ParseIsoFormat(d);
    }
  }

  /** `upload_time[:10]`: the date part of an ISO timestamp. */
  function DatePart(timestamp: string): string
  {
    if |timestamp| <= 10 then timestamp else timestamp[..10]
  }

  /** `get_release_date`: the calendar date in the first ten characters of an
      artifact's upload timestamp, or `None` where Python raises. */
  function UploadDate(uploadTime: string): (r: Option<Date>)
    ensures r.Some? ==> Valid(r.value)
    ensures r.Some? ==> |uploadTime| >= 10 && IsoFormat(r.value) == uploadTime[..10]
  {
    ParseIsoDate(DatePart(uploadTime))
  }

  /** Python's `min(ds)`: scan left to right, replacing the candidate only by a
      strictly earlier date. */
  function Min(ds: seq<Date>): (m: Date)
    requires |ds| > 0
    ensures m in ds
    ensures forall i :: 0 <= i < |ds| ==> Le(m, ds[i])
  {
    if |ds| == 1 then ds[0]
    else
      var init := ds[..|ds| - 1];
      var last := ds[|ds| - 1];
      var m := Min(init);
      assert forall i :: 0 <= i < |ds| - 1 ==> ds[i] == init[i];
      if Lt(last, m) then last else m
  }
}
