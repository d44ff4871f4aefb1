/**
 * Timestamps: the broken-down time a clock or a parser yields, the text
 * `date('Y-m-d H:i:s')` prints for it, the canonical shape the handlers test
 * with `/^\d{4}-\d{2}-\d{2} \d{2}:\d{2}:\d{2}$/`, and
 * `convert_to_mysql_datetime` (index.php:57-72).
 */
module DateTimes {
  import opened Text
  import opened Wrappers

  /** A point in time as PHP's `DateTime` holds it, in the zone it was parsed or created in. */
  datatype DateTime = DateTime(year: int, month: nat, day: nat, hour: nat, minute: nat, second: nat)

  /** The ranges a clock reading or a successful parse keeps to. */
  predicate WellFormed(t: DateTime)
  {
    1 <= t.month <= 12 && 1 <= t.day <= 31 && t.hour < 24 && t.minute < 60 && t.second < 60
  }

  /** `Y`: at least four digits, a minus sign in front of years before 0. */
  function YearText(y: int): string
  {
    if y < 0 then "-" + PadNat(-y, 4) else PadNat(y, 4)
  }

  /** `Y-m-d`, also what MySQL's `DATE()` and `CURDATE()` print. */
  function DateText(t: DateTime): string
  {
    YearText(t.year) + "-" + PadNat(t.month, 2) + "-" + PadNat(t.day, 2)
  }

  /** `Y-m-d H:i:s`, the format of `date()` and `DateTime::format` in the source. */
  function Format(t: DateTime): string
  {
    DateText(t) + " " + PadNat(t.hour, 2) + ":" + PadNat(t.minute, 2) + ":" + PadNat(t.second, 2)
  }

  /** `Ymd_His`, the stamp in an export's file name. */
  function CompactFormat(t: DateTime): string
  {
    YearText(t.year) + PadNat(t.month, 2) + PadNat(t.day, 2) + "_"
      + PadNat(t.hour, 2) + PadNat(t.minute, 2) + PadNat(t.second, 2)
  }

  /** `\d{4}-\d{2}-\d{2} \d{2}:\d{2}:\d{2}`, piece by piece. */
  predicate FitsTemplate(s: string)
  {
    && |s| == 19
    && IsDigits(s[0..4]) && s[4] == '-' && IsDigits(s[5..7]) && s[7] == '-' && IsDigits(s[8..10])
    && s[10] == ' '
    && IsDigits(s[11..13]) && s[13] == ':' && IsDigits(s[14..16]) && s[16] == ':' && IsDigits(s[17..19])
  }

  /**
   * The regex at index.php:61 and index.php:159. Without the `D` modifier,
   * PCRE's `$` also matches just before a final newline, so the template
   * followed by "\n" matches too.
   */
  predicate IsCanonical(s: string)
  {
    FitsTemplate(s) || (|s| == 20 && s[19] == '\n' && FitsTemplate(s[..19]))
  }

  /** The year prints in four characters exactly for the years 0 through 9999. */
  lemma YearTextLength(y: int)
    ensures |YearText(y)| == 4 <==> 0 <= y <= 9999
    ensures |YearText(y)| >= 4
    ensures 0 <= y ==> IsDigits(YearText(y))
    ensures y < 0 ==> YearText(y)[0] == '-'
  {
    if y < 0 {
      assert |YearText(y)| >= 5;
    } else {
      PadNatLength(y, 4);
    }
  }

  /**
   * What `date` and `DateTime::format` print matches the canonical regex
   * exactly when the year has four digits: a year past 9999 or before 0
   * gives a longer text the regex refuses.
   */
  lemma FormatCanonical(t: DateTime)
    requires WellFormed(t)
    ensures IsCanonical(Format(t)) <==> 0 <= t.year <= 9999
  {
    PadNatLength(t.month, 2);
    PadNatLength(t.day, 2);
    PadNatLength(t.hour, 2);
    PadNatLength(t.minute, 2);
    PadNatLength(t.second, 2);
    YearTextLength(t.year);
    Assembled(YearText(t.year), PadNat(t.month, 2), PadNat(t.day, 2),
      PadNat(t.hour, 2), PadNat(t.minute, 2), PadNat(t.second, 2));
  }

  /** The shape of the `Y-m-d H:i:s` text, from the shapes of its fields. */
  lemma Assembled(y: string, mo: string, d: string, h: string, mi: string, s: string)
    requires |y| >= 4 && (IsDigits(y) || y[0] == '-')
    requires |mo| == |d| == |h| == |mi| == |s| == 2
    requires IsDigits(mo) && IsDigits(d) && IsDigits(h) && IsDigits(mi) && IsDigits(s)
    ensures IsCanonical(y + "-" + mo + "-" + d + " " + h + ":" + mi + ":" + s)
      <==> |y| == 4 && IsDigits(y)
  {
    var f := y + "-" + mo + "-" + d + " " + h + ":" + mi + ":" + s;
    assert |f| == |y| + 15;
    if |y| == 4 && IsDigits(y) {
      assert f[0..4] == y;
      assert f[5..7] == mo && f[8..10] == d;
      assert f[11..13] == h && f[14..16] == mi && f[17..19] == s;
    } else {
      assert f[|f| - 1] == s[1];
      if |y| == 4 {
        assert f[0] == y[0] == '-' && !IsDigits(f[0..4]);
      }
    }
  }

  /**
   * `convert_to_mysql_datetime`: a canonical text is kept; otherwise the
   * text is handed to `new DateTime` (the oracle `parse`, None when it
   * throws) and the result printed, and when parsing fails the current time
   * `now` is printed instead.
   */
  function ConvertToMysqlDatetime(text: string, parse: string -> Option<DateTime>, now: DateTime): (r: string)
    ensures IsCanonical(text) ==> r == text
  {
    if IsCanonical(text) then text
    else match parse(text)
      case Some(t) => Format(t)
      case None => Format(now)
  }

  /**
   * The converted text is canonical whenever the date it comes from (the
   * parsed one, or `now` when parsing fails) is well formed with a
   * four-digit year.
   */
  lemma ConvertedIsCanonical(text: string, parse: string -> Option<DateTime>, now: DateTime)
    requires parse(text).Some? ==> WellFormed(parse(text).value) && 0 <= parse(text).value.year <= 9999
    requires WellFormed(now) && 0 <= now.year <= 9999
    ensures IsCanonical(ConvertToMysqlDatetime(text, parse, now))
  {
    if !IsCanonical(text) {
      match parse(text)
      case Some(t) => FormatCanonical(t);
      case None => FormatCanonical(now);
    }
  }

  /** `DATE(ts)`: the date part of a stored datetime text. */
  function DatePart(ts: string): (r: string)
    ensures |r| <= 10
  {
    if |ts| >= 10 then ts[..10] else ts
  }

  /** The date part of a printed time is its `Y-m-d` text when the year has four digits. */
  lemma DatePartOfFormat(t: DateTime)
    requires WellFormed(t) && 0 <= t.year <= 9999
    ensures DatePart(Format(t)) == DateText(t)
  {
    YearTextLength(t.year);
    PadNatLength(t.month, 2);
    PadNatLength(t.day, 2);
    assert |YearText(t.year)| == 4;
    assert |DateText(t)| == 10;
    assert Format(t)[..10] == DateText(t);
  }
}
