/** Zero padding and the `y-MM-DD hh:mm` rendering of the target moment
    (app.js `pad2` and `formatLocal`). `ParseLocal` reads the rendering back
    and is the partner that shows no two valid calendar readings display the
    same text. */
module Format {
  import opened Options
  import opened Decimal

  /** The calendar components of a moment, as the browser's local-time getters
      report them; `month` is zero-based like `getMonth`. */
  datatype Calendar = Calendar(year: int, month: int, day: int, hour: int, minute: int)

  /** The ranges the local-time getters of a valid date stay within. */
  predicate ValidCalendar(c: Calendar) {
    && 0 <= c.month < 12
    && 1 <= c.day <= 31
    && 0 <= c.hour < 24
    && 0 <= c.minute < 60
  }

  function Repeat(c: char, n: nat): (r: string)
    ensures |r| == n
    ensures forall i :: 0 <= i < n ==> r[i] == c
  {
    if n == 0 then [] else [c] + Repeat(c, n - 1)
  }

  /** `s.padStart(width, c)` with a one-character pad string. */
  function PadStart(s: string, width: nat, c: char): (r: string)
    ensures |s| >= width ==> r == s
    ensures |r| == if |s| >= width then |s| else width
    ensures r[|r| - |s|..] == s
    ensures forall i :: 0 <= i < |r| - |s| ==> r[i] == c
  {
    if |s| >= width then s else Repeat(c, width - |s|) + s
  }

  /** app.js `pad2`: `String(n).padStart(2, "0")`. */
  function Pad2(n: int): (r: string)
    ensures |r| >= 2
    ensures |r| == if |IntToString(n)| >= 2 then |IntToString(n)| else 2
    ensures r[|r| - |IntToString(n)|..] == IntToString(n)
    ensures forall i :: 0 <= i < |r| - |IntToString(n)| ==> r[i] == '0'
  {
    PadStart(IntToString(n), 2, '0')
  }

  /** The three shapes `pad2` produces: a zero before a single digit, the
      plain decimal from 10 on, and the signed decimal (already two
      characters long) for negative numbers. */
  lemma Pad2Shape(n: int)
    ensures 0 <= n < 10 ==> Pad2(n) == ['0', DigitChar(n)]
    ensures n >= 10 ==> Pad2(n) == NatToString(n)
    ensures n < 0 ==> Pad2(n) == IntToString(n)
  {
    if 0 <= n < 10 {
      assert IntToString(n) == [DigitChar(n)];
    } else if n >= 10 {
      assert NatToString(n) == NatToString(n / 10) + [DigitChar(n % 10)];
    } else {
      assert |IntToString(n)| >= 2;
    }
  }

  /** Two-digit fields read back to the number they were padded from. */
  lemma Pad2RoundTrip(n: int)
    requires 0 <= n < 100
    ensures |Pad2(n)| == 2
    ensures AllDigits(Pad2(n))
    ensures ParseInt(Pad2(n)) == Some(n)
  {
    Pad2Shape(n);
    if n < 10 {
      var p := Pad2(n);
      assert p[..1] == "0";
      assert Value(p[..1]) == 0;
      DigitRoundTrip(n);
    } else {
      assert NatToString(n) == NatToString(n / 10) + [DigitChar(n % 10)];
      NatRoundTrip(n);
    }
  }

  /** app.js `formatLocal`: year, then the one-based month, day, hour and
      minute, each padded to two places. */
  function FormatLocal(c: Calendar): string {
    IntToString(c.year) + Fields(c)
  }

  /** The part of the display after the year: `-MM-DD hh:mm`. */
  function Fields(c: Calendar): string {
    Separate(Pad2(c.month + 1), Pad2(c.day), Pad2(c.hour), Pad2(c.minute))
  }

  /** Month, day, hour and minute text joined as `-MM-DD hh:mm`. */
  function Separate(mo: string, d: string, h: string, mi: string): string {
    "-" + mo + "-" + d + " " + h + ":" + mi
  }

  /** Reads the twelve characters after the year back into components. */
  function ParseFields(y: int, t: string): Option<Calendar>
    requires |t| == 12
  {
    if t[0] != '-' || t[3] != '-' || t[6] != ' ' || t[9] != ':' then None
    else
      match (ParseInt(t[1..3]), ParseInt(t[4..6]), ParseInt(t[7..9]), ParseInt(t[10..]))
      case (Some(mo), Some(d), Some(h), Some(mi)) => Some(Calendar(y, mo - 1, d, h, mi))
      case _ => None
  }

  /** Reads a `y-MM-DD hh:mm` display string back into its components. */
  function ParseLocal(s: string): Option<Calendar> {
    if |s| < 13 then None
    else
      match ParseInt(s[..|s| - 12])
      case Some(y) => ParseFields(y, s[|s| - 12..])
      case None => None
  }

  lemma FieldsRoundTrip(c: Calendar)
    requires ValidCalendar(c)
    ensures |Fields(c)| == 12
    ensures ParseFields(c.year, Fields(c)) == Some(c)
  {
    var mo, d, h, mi := Pad2(c.month + 1), Pad2(c.day), Pad2(c.hour), Pad2(c.minute);
    assert |mo| == 2 && ParseInt(mo) == Some(c.month + 1) by { Pad2RoundTrip(c.month + 1); }
    assert |d| == 2 && ParseInt(d) == Some(c.day) by { Pad2RoundTrip(c.day); }
    assert |h| == 2 && ParseInt(h) == Some(c.hour) by { Pad2RoundTrip(c.hour); }
    assert |mi| == 2 && ParseInt(mi) == Some(c.minute) by { Pad2RoundTrip(c.minute); }
    ParseSeparatedPairs(c.year, mo, d, h, mi, c.month + 1, c.day, c.hour, c.minute);
    SeparatedPairs(mo, d, h, mi);
  }

  /** Reading `-MM-DD hh:mm` back once each two-character field reads back. */
  lemma ParseSeparatedPairs(y: int, mo: string, d: string, h: string, mi: string,
                            month: int, day: int, hour: int, minute: int)
    requires |mo| == 2 && |d| == 2 && |h| == 2 && |mi| == 2
    requires ParseInt(mo) == Some(month) && ParseInt(d) == Some(day)
    requires ParseInt(h) == Some(hour) && ParseInt(mi) == Some(minute)
    ensures ParseFields(y, Separate(mo, d, h, mi))
            == Some(Calendar(y, month - 1, day, hour, minute))
  {
    SeparatedPairs(mo, d, h, mi);
  }

  /** Where the four two-character fields sit in `-MM-DD hh:mm`. */
  lemma SeparatedPairs(mo: string, d: string, h: string, mi: string)
    requires |mo| == 2 && |d| == 2 && |h| == 2 && |mi| == 2
    ensures var t := Separate(mo, d, h, mi);
      && |t| == 12
      && t[0] == '-' && t[3] == '-' && t[6] == ' ' && t[9] == ':'
      && t[1..3] == mo && t[4..6] == d && t[7..9] == h && t[10..] == mi
  {
  }

  /** The display string of a valid calendar reading determines it. */
  lemma FormatLocalRoundTrip(c: Calendar)
    requires ValidCalendar(c)
    ensures |FormatLocal(c)| == |IntToString(c.year)| + 12
    ensures ParseLocal(FormatLocal(c)) == Some(c)
  {
    var y := IntToString(c.year);
    var s := FormatLocal(c);
    FieldsRoundTrip(c);
    IntRoundTrip(c.year);
    assert s[..|s| - 12] == y;
    assert s[|s| - 12..] == Fields(c);
  }

  lemma FormatLocalInjective(a: Calendar, b: Calendar)
    requires ValidCalendar(a) && ValidCalendar(b)
    requires FormatLocal(a) == FormatLocal(b)
    ensures a == b
  {
    FormatLocalRoundTrip(a);
    FormatLocalRoundTrip(b);
  }
}
