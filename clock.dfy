/** Clock readings and the two `strftime` layouts the report uses:
    `%Y%m%d_%H%M%S` in file names and `%Y-%m-%d %H:%M:%S` in the
    metadata table. The clock itself is not modelled: readings are
    parameters. */
module Clock {
  import opened Strings

  datatype DateTime = DateTime(year: nat, month: nat, day: nat, hour: nat, minute: nat, second: nat)

  /** A reading the clock can give, with a four-digit year. */
  predicate Valid(t: DateTime) {
    1000 <= t.year <= 9999 && 1 <= t.month <= 12 && 1 <= t.day <= 31 &&
    t.hour < 24 && t.minute < 60 && t.second < 60
  }

  /** `%Y%m%d_%H%M%S`. */
  function FileStamp(t: DateTime): string {
    PadDigits(t.year, 4) + PadDigits(t.month, 2) + PadDigits(t.day, 2) + "_" +
    PadDigits(t.hour, 2) + PadDigits(t.minute, 2) + PadDigits(t.second, 2)
  }

  /** `%Y-%m-%d %H:%M:%S`. */
  function TableStamp(t: DateTime): string {
    PadDigits(t.year, 4) + "-" + PadDigits(t.month, 2) + "-" + PadDigits(t.day, 2) + " " +
    PadDigits(t.hour, 2) + ":" + PadDigits(t.minute, 2) + ":" + PadDigits(t.second, 2)
  }

  /** Reads a reading back from its file-name stamp. */
  function ParseFileStamp(s: string): DateTime
    requires |s| == 15 && AllDigits(s[..8]) && AllDigits(s[9..])
  {
    DateTime(ParseDigits(s[0..4]), ParseDigits(s[4..6]), ParseDigits(s[6..8]),
             ParseDigits(s[9..11]), ParseDigits(s[11..13]), ParseDigits(s[13..15]))
  }

  /** Reads a reading back from its table stamp. */
  function ParseTableStamp(s: string): DateTime
    requires |s| == 19
    requires AllDigits(s[0..4]) && AllDigits(s[5..7]) && AllDigits(s[8..10])
    requires AllDigits(s[11..13]) && AllDigits(s[14..16]) && AllDigits(s[17..19])
  {
    DateTime(ParseDigits(s[0..4]), ParseDigits(s[5..7]), ParseDigits(s[8..10]),
             ParseDigits(s[11..13]), ParseDigits(s[14..16]), ParseDigits(s[17..19]))
  }

  lemma FieldsRoundTrip(t: DateTime)
    requires Valid(t)
    ensures ParseDigits(PadDigits(t.year, 4)) == t.year && ParseDigits(PadDigits(t.month, 2)) == t.month
    ensures ParseDigits(PadDigits(t.day, 2)) == t.day && ParseDigits(PadDigits(t.hour, 2)) == t.hour
    ensures ParseDigits(PadDigits(t.minute, 2)) == t.minute && ParseDigits(PadDigits(t.second, 2)) == t.second
  {
    assert Pow10(2) == 100;
    assert Pow10(4) == 10000;
    PadDigitsRoundTrip(t.year, 4);
    PadDigitsRoundTrip(t.month, 2);
    PadDigitsRoundTrip(t.day, 2);
    PadDigitsRoundTrip(t.hour, 2);
    PadDigitsRoundTrip(t.minute, 2);
    PadDigitsRoundTrip(t.second, 2);
  }

  /** The file-name stamp is fifteen characters, digits around one
      underscore, and it determines the reading: two reports made in
      different seconds get different names, and two made in the same
      second get the same one. */
  lemma FileStampRoundTrip(t: DateTime)
    requires Valid(t)
    ensures |FileStamp(t)| == 15 && FileStamp(t)[8] == '_'
    ensures AllDigits(FileStamp(t)[..8]) && AllDigits(FileStamp(t)[9..])
    ensures ParseFileStamp(FileStamp(t)) == t
  {
    var y, mo, d := PadDigits(t.year, 4), PadDigits(t.month, 2), PadDigits(t.day, 2);
    var h, mi, s := PadDigits(t.hour, 2), PadDigits(t.minute, 2), PadDigits(t.second, 2);
    FileLayout(y, mo, d, h, mi, s);
    FieldsRoundTrip(t);
  }

  /** Where the six fields sit in a file-name stamp. */
  lemma FileLayout(y: string, mo: string, d: string, h: string, mi: string, s: string)
    requires |y| == 4 && |mo| == 2 && |d| == 2 && |h| == 2 && |mi| == 2 && |s| == 2
    requires AllDigits(y) && AllDigits(mo) && AllDigits(d) && AllDigits(h) && AllDigits(mi) && AllDigits(s)
    ensures var st := y + mo + d + "_" + h + mi + s;
      |st| == 15 && st[8] == '_' && AllDigits(st[..8]) && AllDigits(st[9..]) &&
      st[0..4] == y && st[4..6] == mo && st[6..8] == d && st[9..11] == h && st[11..13] == mi && st[13..15] == s
  {
    var st := y + mo + d + "_" + h + mi + s;
    assert st[..8] == y + mo + d;
    assert st[9..] == h + mi + s;
  }

  lemma FileStampInjective(t1: DateTime, t2: DateTime)
    requires Valid(t1) && Valid(t2)
    ensures FileStamp(t1) == FileStamp(t2) <==> t1 == t2
  {
    if FileStamp(t1) == FileStamp(t2) {
      FileStampRoundTrip(t1);
      FileStampRoundTrip(t2);
    }
  }

  /** Where the six fields sit in a table stamp. */
  lemma TableLayout(y: string, mo: string, d: string, h: string, mi: string, s: string)
    requires |y| == 4 && |mo| == 2 && |d| == 2 && |h| == 2 && |mi| == 2 && |s| == 2
    ensures var st := y + "-" + mo + "-" + d + " " + h + ":" + mi + ":" + s;
      |st| == 19 && st[4] == '-' && st[7] == '-' && st[10] == ' ' && st[13] == ':' && st[16] == ':' &&
      st[0..4] == y && st[5..7] == mo && st[8..10] == d && st[11..13] == h && st[14..16] == mi && st[17..19] == s
  {
    var st := y + "-" + mo + "-" + d + " " + h + ":" + mi + ":" + s;
    var date, time := y + "-" + mo + "-" + d, h + ":" + mi + ":" + s;
    assert st == date + " " + time;
    assert st[..10] == date && st[11..] == time;
    assert st[0..4] == date[0..4] && st[5..7] == date[5..7] && st[8..10] == date[8..10];
    assert st[11..13] == time[0..2] && st[14..16] == time[3..5] && st[17..19] == time[6..8];
  }

  /** The table stamp is nineteen characters with its separators in fixed
      places, and reading it back gives the reading. */
  lemma TableStampRoundTrip(t: DateTime)
    requires Valid(t)
    ensures |TableStamp(t)| == 19
    ensures TableStamp(t)[4] == '-' && TableStamp(t)[7] == '-' && TableStamp(t)[10] == ' '
    ensures TableStamp(t)[13] == ':' && TableStamp(t)[16] == ':'
    ensures ParseTableStamp(TableStamp(t)) == t
  {
    var y, mo, d := PadDigits(t.year, 4), PadDigits(t.month, 2), PadDigits(t.day, 2);
    var h, mi, s := PadDigits(t.hour, 2), PadDigits(t.minute, 2), PadDigits(t.second, 2);
    TableLayout(y, mo, d, h, mi, s);
    FieldsRoundTrip(t);
  }
}
