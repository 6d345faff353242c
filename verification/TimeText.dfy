/** Dates, times and zone offsets as text: the C formats that write them and the template that reads them. */
module TimeText {
  import opened Prelude
  import opened PgNodes
  import opened SqlText

  // C's division truncates toward zero, unlike Dafny's.

  function CDiv(a: int, b: int): int
    requires b > 0
  {
    if a >= 0 then a / b else -(-a / b)
  }

  function CMod(a: int, b: int): int
    requires b > 0
  {
    a - CDiv(a, b) * b
  }

  // Writing

  function Digits(n: nat): string {
    if n < 10 then ['0' + n as char] else Digits(n / 10) + ['0' + (n % 10) as char]
  }

  function ZeroPad(s: string, width: nat): string
    decreases width - |s|
  {
    if |s| >= width then s else ZeroPad("0" + s, width)
  }

  /** %0wd */
  function Padded(n: int, width: nat): string
    requires width > 0
  {
    if n < 0 then "-" + ZeroPad(Digits(-n), width - 1) else ZeroPad(Digits(n), width)
  }

  /** %+03d */
  function SignedPadded(n: int): string {
    if n < 0 then "-" + ZeroPad(Digits(-n), 2) else "+" + ZeroPad(Digits(n), 2)
  }

  function DayText(year: int, month: nat, day: nat): string {
    Padded(year, 4) + "-" + (Padded(month, 2) + "-" + Padded(day, 2))
  }

  function StampText(t: Stamp): string {
    DayText(t.year, t.month, t.day) + " " +
    (Padded(t.hour, 2) + ":" + (Padded(t.minute, 2) + ":" + (Padded(t.second, 2) + "." + Padded(t.micros, 6))))
  }

  function OffsetText(tzoffset: int): string {
    SignedPadded(CDiv(-tzoffset, 3600)) + ":" +
    Padded(CDiv(if tzoffset > 0 then CMod(tzoffset, 3600) else CMod(-tzoffset, 3600), 60), 2)
  }

  // Reading

  function NatOf(s: string): nat
    requires AllChars(IsDigit, s)
  {
    if s == "" then 0 else 10 * NatOf(s[..|s| - 1]) + (s[|s| - 1] - '0') as nat
  }

  function ReadNat(s: string): Option<(nat, string)> {
    var n := Run(IsDigit, s);
    if n == 0 then None else Some((NatOf(s[..n]), s[n..]))
  }

  /** Exactly `width` digits. */
  function ReadFixed(width: nat, s: string): Option<(nat, string)> {
    if |s| >= width && AllChars(IsDigit, s[..width]) then Some((NatOf(s[..width]), s[width..])) else None
  }

  /** SYYYY: a sign and four digits. There is no year 0, and -N is N BC, which PostgreSQL counts as 1 - N. */
  function ReadYear(s: string): Option<(int, string)> {
    if s != "" && s[0] == '-' then
      var (n, rest) :- ReadFixed(4, s[1..]);
      if n == 0 then None else Some((1 - n, rest))
    else
      var (n, rest) :- ReadFixed(4, s);
      if n == 0 then None else Some((n as int, rest))
  }

  function Expect(c: char, s: string): Option<string> {
    if s != "" && s[0] == c then Some(s[1..]) else None
  }

  /** SYYYY-MM-DD */
  function ReadDay(s: string): Option<((int, nat, nat), string)> {
    var (year, s1) :- ReadYear(s);
    var s2 :- Expect('-', s1);
    var (monthDay, rest) :- ReadMonthDay(s2);
    Some(((year, monthDay.0, monthDay.1), rest))
  }

  function ReadMonthDay(s: string): Option<((nat, nat), string)> {
    var (month, s1) :- ReadFixed(2, s);
    var s2 :- Expect('-', s1);
    var (day, s3) :- ReadFixed(2, s2);
    Some(((month, day), s3))
  }

  /** HH24:MI:SS.FF, with a fraction of six digits */
  function ReadClock(s: string): Option<((nat, nat, nat, nat), string)> {
    var (hour, s1) :- ReadFixed(2, s);
    var s2 :- Expect(':', s1);
    var (minute, s3) :- ReadFixed(2, s2);
    var s4 :- Expect(':', s3);
    var (second, s5) :- ReadFixed(2, s4);
    var s6 :- Expect('.', s5);
    var (micros, s7) :- ReadFixed(6, s6);
    Some(((hour, minute, second, micros), s7))
  }

  function ReadStamp(s: string): Option<(Stamp, string)> {
    var (d, s1) :- ReadDay(s);
    var s2 :- Expect(' ', s1);
    var (c, s3) :- ReadClock(s2);
    Some((Stamp(d.0, d.1, d.2, c.0, c.1, c.2, c.3), s3))
  }

  /** TZH:TZM, in seconds east of UTC: the hour's sign governs the minutes too. */
  function ReadOffset(s: string): Option<(int, string)> {
    if s == "" || s[0] !in "+-" then None
    else
      var (hours, s1) :- ReadNat(s[1..]);
      var s2 :- Expect(':', s1);
      var (minutes, s3) :- ReadNat(s2);
      var magnitude := 3600 * hours + 60 * minutes;
      Some((if s[0] == '-' then -magnitude else magnitude, s3))
  }

  /** What a text says by its template, in the template's own terms; `west` is the sign of the zone. */
  datatype Fields = Fields(year: int, month: nat, day: nat, hour: nat, minute: nat, second: nat, micros: nat,
                           west: bool, zoneHour: nat, zoneMinute: nat)

  const NO_FIELDS := Fields(0, 0, 0, 0, 0, 0, 0, false, 0, 0)

  /** The server's reading of a date or time: the template says what each part of the text stands for. Other characters
      stand for themselves, but for a blank, which may be missing. */
  function ReadTemplate(template: string, s: string, f: Fields): Option<Fields>
    decreases |template|
  {
    if template == "" then
      if s == "" then Some(f) else None
    else if "SYYYY" <= template then
      var (n, rest) :- ReadYear(s);
      ReadTemplate(template[5..], rest, f.(year := n))
    else if "MM" <= template then
      var (n, rest) :- ReadFixed(2, s);
      ReadTemplate(template[2..], rest, f.(month := n))
    else if "DD" <= template then
      var (n, rest) :- ReadFixed(2, s);
      ReadTemplate(template[2..], rest, f.(day := n))
    else if "HH24" <= template then
      var (n, rest) :- ReadFixed(2, s);
      ReadTemplate(template[4..], rest, f.(hour := n))
    else if "MI" <= template then
      var (n, rest) :- ReadFixed(2, s);
      ReadTemplate(template[2..], rest, f.(minute := n))
    else if "SS" <= template then
      var (n, rest) :- ReadFixed(2, s);
      ReadTemplate(template[2..], rest, f.(second := n))
    else if "FF" <= template then
      var (n, rest) :- ReadFixed(6, s);
      ReadTemplate(template[2..], rest, f.(micros := n))
    else if "TZH" <= template then
      if s == "" || s[0] !in "+-" then None
      else
        var (n, rest) :- ReadNat(s[1..]);
        ReadTemplate(template[3..], rest, f.(west := s[0] == '-', zoneHour := n))
    else if "TZM" <= template then
      var (n, rest) :- ReadNat(s);
      ReadTemplate(template[3..], rest, f.(zoneMinute := n))
    else if template[0] == ' ' && (s == "" || s[0] != ' ') then
      ReadTemplate(template[1..], s, f)
    else
      var rest :- Expect(template[0], s);
      ReadTemplate(template[1..], rest, f)
  }

  /** Seconds east of UTC: the hour's sign governs the minutes too. */
  function EastOf(f: Fields): int {
    var magnitude := 3600 * f.zoneHour + 60 * f.zoneMinute;
    if f.west then -magnitude else magnitude
  }

  lemma TemplateYear(more: string, s: string, f: Fields)
    ensures ReadTemplate("SYYYY" + more, s, f) ==
            match ReadYear(s) case None => None case Some((n, rest)) => ReadTemplate(more, rest, f.(year := n))
  {
    assert ("SYYYY" + more)[5..] == more;
  }

  lemma TemplateMonth(more: string, s: string, f: Fields)
    ensures ReadTemplate("MM" + more, s, f) ==
            match ReadFixed(2, s) case None => None case Some((n, rest)) => ReadTemplate(more, rest, f.(month := n))
  {
    assert ("MM" + more)[2..] == more && ("MM" + more)[0] == 'M';
  }

  lemma TemplateDay(more: string, s: string, f: Fields)
    ensures ReadTemplate("DD" + more, s, f) ==
            match ReadFixed(2, s) case None => None case Some((n, rest)) => ReadTemplate(more, rest, f.(day := n))
  {
    assert ("DD" + more)[2..] == more && ("DD" + more)[0] == 'D';
  }

  lemma TemplateHour(more: string, s: string, f: Fields)
    ensures ReadTemplate("HH24" + more, s, f) ==
            match ReadFixed(2, s) case None => None case Some((n, rest)) => ReadTemplate(more, rest, f.(hour := n))
  {
    assert ("HH24" + more)[4..] == more && ("HH24" + more)[0] == 'H';
  }

  lemma TemplateMinute(more: string, s: string, f: Fields)
    ensures ReadTemplate("MI" + more, s, f) ==
            match ReadFixed(2, s) case None => None case Some((n, rest)) => ReadTemplate(more, rest, f.(minute := n))
  {
    assert ("MI" + more)[2..] == more && ("MI" + more)[0] == 'M' && ("MI" + more)[1] == 'I';
  }

  lemma TemplateSecond(more: string, s: string, f: Fields)
    ensures ReadTemplate("SS" + more, s, f) ==
            match ReadFixed(2, s) case None => None case Some((n, rest)) => ReadTemplate(more, rest, f.(second := n))
  {
    assert ("SS" + more)[2..] == more && ("SS" + more)[0] == 'S' && ("SS" + more)[1] == 'S';
  }

  lemma TemplateFraction(more: string, s: string, f: Fields)
    ensures ReadTemplate("FF" + more, s, f) ==
            match ReadFixed(6, s) case None => None case Some((n, rest)) => ReadTemplate(more, rest, f.(micros := n))
  {
    assert ("FF" + more)[2..] == more && ("FF" + more)[0] == 'F';
  }

  lemma TemplateChar(c: char, more: string, s: string, f: Fields)
    requires c in "-:. "
    ensures (c != ' ' || (s != "" && s[0] == ' ')) ==>
              ReadTemplate([c] + more, s, f) ==
              match Expect(c, s) case None => None case Some(rest) => ReadTemplate(more, rest, f)
    ensures c == ' ' && (s == "" || s[0] != ' ') ==> ReadTemplate([c] + more, s, f) == ReadTemplate(more, s, f)
  {
    assert ([c] + more)[1..] == more && ([c] + more)[0] == c;
  }

  /** The template of a date asks for what `ReadDay` reads, ... */
  lemma DayTemplate(more: string, s: string, f: Fields)
    ensures ReadTemplate("SYYYY-MM-DD" + more, s, f) ==
            match ReadDay(s)
            case None => None
            case Some((d, rest)) => ReadTemplate(more, rest, f.(year := d.0, month := d.1, day := d.2))
  {
    hide ReadTemplate, ReadYear, ReadFixed;
    assert "SYYYY-MM-DD" + more == "SYYYY" + ("-" + ("MM" + ("-" + ("DD" + more))));
    TemplateYear("-" + ("MM" + ("-" + ("DD" + more))), s, f);
    if ReadYear(s).Some? {
      var (year, s1) := ReadYear(s).value;
      var f1 := f.(year := year);
      TemplateChar('-', "MM" + ("-" + ("DD" + more)), s1, f1);
      if Expect('-', s1).Some? {
        MonthDayTemplate(more, Expect('-', s1).value, f1);
      }
    }
  }

  lemma MonthDayTemplate(more: string, s: string, f: Fields)
    ensures ReadTemplate("MM" + ("-" + ("DD" + more)), s, f) ==
            match ReadMonthDay(s)
            case None => None
            case Some((d, rest)) => ReadTemplate(more, rest, f.(month := d.0, day := d.1))
  {
    hide ReadTemplate, ReadFixed;
    TemplateMonth("-" + ("DD" + more), s, f);
    if ReadFixed(2, s).Some? {
      var (month, s1) := ReadFixed(2, s).value;
      var f1 := f.(month := month);
      TemplateChar('-', "DD" + more, s1, f1);
      if Expect('-', s1).Some? {
        TemplateDay(more, Expect('-', s1).value, f1);
      }
    }
  }

  /** ... that of a clock for what `ReadClock` reads, */
  lemma ClockTemplate(more: string, s: string, f: Fields)
    ensures ReadTemplate("HH24:MI:SS.FF" + more, s, f) ==
            match ReadClock(s)
            case None => None
            case Some((c, rest)) =>
              ReadTemplate(more, rest, f.(hour := c.0, minute := c.1, second := c.2, micros := c.3))
  {
    hide ReadTemplate, ReadFixed;
    var tail := "SS" + ("." + ("FF" + more));
    assert "HH24:MI:SS.FF" + more == "HH24" + (":" + ("MI" + (":" + tail)));
    TemplateHour(":" + ("MI" + (":" + tail)), s, f);
    if ReadFixed(2, s).Some? {
      var (hour, s1) := ReadFixed(2, s).value;
      var f1 := f.(hour := hour);
      TemplateChar(':', "MI" + (":" + tail), s1, f1);
      if Expect(':', s1).Some? {
        var s2 := Expect(':', s1).value;
        TemplateMinute(":" + tail, s2, f1);
        if ReadFixed(2, s2).Some? {
          var (minute, s3) := ReadFixed(2, s2).value;
          TemplateChar(':', tail, s3, f1.(minute := minute));
          if Expect(':', s3).Some? {
            SecondsTemplate(more, Expect(':', s3).value, f1.(minute := minute));
          }
        }
      }
    }
  }

  lemma SecondsTemplate(more: string, s: string, f: Fields)
    ensures ReadTemplate("SS" + ("." + ("FF" + more)), s, f) ==
            match ReadFixed(2, s)
            case None => None
            case Some((second, s1)) =>
              match Expect('.', s1)
              case None => None
              case Some(s2) =>
                match ReadFixed(6, s2)
                case None => None
                case Some((micros, rest)) => ReadTemplate(more, rest, f.(second := second, micros := micros))
  {
    hide ReadTemplate, ReadFixed;
    TemplateSecond("." + ("FF" + more), s, f);
    if ReadFixed(2, s).Some? {
      var (second, s1) := ReadFixed(2, s).value;
      var f1 := f.(second := second);
      TemplateChar('.', "FF" + more, s1, f1);
      if Expect('.', s1).Some? {
        TemplateFraction(more, Expect('.', s1).value, f1);
      }
    }
  }

  /** ... and both together for what `ReadStamp` reads. */
  lemma StampTemplate(more: string, s: string, f: Fields)
    ensures ReadStamp(s).Some? ==>
              var (t, rest) := ReadStamp(s).value;
              ReadTemplate("SYYYY-MM-DD HH24:MI:SS.FF" + more, s, f) ==
              ReadTemplate(more, rest, f.(year := t.year, month := t.month, day := t.day, hour := t.hour,
                                          minute := t.minute, second := t.second, micros := t.micros))
    ensures ReadDay(s).None? ==> ReadTemplate("SYYYY-MM-DD HH24:MI:SS.FF" + more, s, f) == None
  {
    hide ReadTemplate, ReadDay, ReadClock;
    var tail := "HH24:MI:SS.FF" + more;
    assert "SYYYY-MM-DD HH24:MI:SS.FF" + more == "SYYYY-MM-DD" + (" " + tail);
    DayTemplate(" " + tail, s, f);
    if ReadStamp(s).Some? {
      var (d, s1) := ReadDay(s).value;
      var f1 := f.(year := d.0, month := d.1, day := d.2);
      TemplateChar(' ', tail, s1, f1);
      ClockTemplate(more, Expect(' ', s1).value, f1);
    }
  }

  lemma TemplateZoneHour(more: string, s: string, f: Fields)
    requires s != "" && s[0] in "+-"
    ensures ReadTemplate("TZH" + more, s, f) ==
            match ReadNat(s[1..])
            case None => None
            case Some((n, rest)) => ReadTemplate(more, rest, f.(west := s[0] == '-', zoneHour := n))
  {
    hide ReadNat;
    assert ("TZH" + more)[3..] == more && ("TZH" + more)[0] == 'T';
  }

  lemma TemplateZoneMinute(more: string, s: string, f: Fields)
    ensures ReadTemplate("TZM" + more, s, f) ==
            match ReadNat(s) case None => None case Some((n, rest)) => ReadTemplate(more, rest, f.(zoneMinute := n))
  {
    hide ReadNat;
    assert ("TZM" + more)[3..] == more && ("TZM" + more)[0] == 'T' && ("TZM" + more)[2] == 'M';
  }

  /** The zone's template, though it starts with a blank, asks for what `ReadOffset` reads. */
  lemma ZoneTemplate(s: string, f: Fields)
    requires ReadOffset(s).Some? && ReadOffset(s).value.1 == ""
    ensures var g := ReadTemplate(" TZH:TZM", s, f);
            && g.Some? && EastOf(g.value) == ReadOffset(s).value.0
            && g.value == f.(west := g.value.west, zoneHour := g.value.zoneHour, zoneMinute := g.value.zoneMinute)
  {
    hide ReadNat, ReadTemplate;
    var (hours, s1) := ReadNat(s[1..]).value;
    var s2 := Expect(':', s1).value;
    var f1 := f.(west := s[0] == '-', zoneHour := hours);
    var tail := "TZM" + "";
    assert " TZH:TZM" == " " + ("TZH" + (":" + tail));
    TemplateChar(' ', "TZH" + (":" + tail), s, f);
    TemplateZoneHour(":" + tail, s, f);
    TemplateChar(':', tail, s1, f1);
    TemplateZoneMinute("", s2, f1);
    TemplateEnd(f1.(zoneMinute := ReadNat(s2).value.0));
  }

  lemma TemplateEnd(f: Fields)
    ensures ReadTemplate("", "", f) == Some(f)
  {
  }

  // Each writer is undone by its reader.

  /** `s` is a run of digits denoting `n`. */
  predicate Denotes(s: string, n: nat) {
    s != "" && AllChars(IsDigit, s) && NatOf(s) == n
  }

  lemma {:induction false} DigitsDenote(n: nat)
    ensures Denotes(Digits(n), n)
  {
    if n >= 10 {
      DigitsDenote(n / 10);
      assert Digits(n)[..|Digits(n)| - 1] == Digits(n / 10);
    }
  }

  function Pow10(k: nat): (p: nat)
    ensures p >= 1
  {
    if k == 0 then 1 else 10 * Pow10(k - 1)
  }

  lemma {:induction false} DigitsShort(n: nat, k: nat)
    requires 0 < k && n < Pow10(k)
    ensures |Digits(n)| <= k
  {
    assert Pow10(1) == 10;
    if n >= 10 {
      DigitsShort(n / 10, k - 1);
    }
  }

  lemma {:induction false} LeadingZero(s: string, n: nat)
    requires Denotes(s, n)
    ensures Denotes("0" + s, n)
  {
    var t := "0" + s;
    assert t[..|t| - 1] == "0" + s[..|s| - 1];
    if |s| > 1 {
      LeadingZero(s[..|s| - 1], NatOf(s[..|s| - 1]));
    } else {
      assert s[..0] == "" && NatOf("0") == 0;
    }
  }

  lemma {:induction false} ZeroPadDenotes(s: string, n: nat, width: nat)
    requires Denotes(s, n)
    ensures Denotes(ZeroPad(s, width), n)
    ensures |ZeroPad(s, width)| == if |s| >= width then |s| else width
    decreases width - |s|
  {
    if |s| < width {
      LeadingZero(s, n);
      ZeroPadDenotes("0" + s, n, width);
    }
  }

  lemma PaddedDenotes(n: nat, width: nat)
    requires width > 0
    ensures Denotes(Padded(n, width), n)
  {
    DigitsDenote(n);
    ZeroPadDenotes(Digits(n), n, width);
  }

  lemma ReadDigits(s: string, n: nat, rest: string)
    requires Denotes(s, n) && Stops(IsDigit, rest)
    ensures ReadNat(s + rest) == Some((n, rest))
  {
    RunExact(IsDigit, s, rest);
    assert (s + rest)[..|s|] == s && (s + rest)[|s|..] == rest;
  }

  lemma ReadThen(s: string, n: nat, c: char, tail: string)
    requires Denotes(s, n) && !IsDigit(c)
    ensures ReadNat(s + ([c] + tail)) == Some((n, [c] + tail))
    ensures Expect(c, [c] + tail) == Some(tail)
  {
    ReadDigits(s, n, [c] + tail);
  }

  lemma {:induction false} DigitsLong(n: nat, k: nat)
    requires n >= Pow10(k)
    ensures |Digits(n)| > k
  {
    if k > 0 {
      assert n >= 10 * Pow10(k - 1);
      DigitsLong(n / 10, k - 1);
    }
  }

  lemma FixedWidth(n: nat, width: nat)
    requires width > 0 && n < Pow10(width)
    ensures |Padded(n, width)| == width && Denotes(Padded(n, width), n)
  {
    DigitsShort(n, width);
    DigitsDenote(n);
    ZeroPadDenotes(Digits(n), n, width);
  }

  lemma Powers()
    ensures Pow10(2) == 100 && Pow10(3) == 1000 && Pow10(4) == 10000 && Pow10(6) == 1000000
  {
    assert Pow10(1) == 10 && Pow10(2) == 100 && Pow10(3) == 1000;
    assert Pow10(4) == 10000 && Pow10(5) == 100000;
  }

  lemma ReadWidth(s: string, n: nat, width: nat, rest: string)
    requires Denotes(s, n) && |s| == width
    ensures ReadFixed(width, s + rest) == Some((n, rest))
  {
    assert (s + rest)[..width] == s && (s + rest)[width..] == rest;
  }

  /** Four digits before a hyphen: too few are not read, too many leave a digit where the hyphen should be. */
  lemma ReadFourDigits(s: string, n: nat, tail: string)
    requires Denotes(s, n) && tail != "" && tail[0] == '-'
    ensures var r := ReadFixed(4, s + tail);
            if |s| == 4 then r == Some((n, tail))
            else r == None || Expect('-', r.value.1) == None
  {
    if |s| == 4 {
      ReadWidth(s, n, 4, tail);
    } else if |s| < 4 {
      assert |s + tail| >= 4 ==> (s + tail)[..4][|s|] == '-';
    } else {
      assert (s + tail)[4..][0] == s[4] && IsDigit(s[4]);
    }
  }

  /** The year that the template reads from a printed year, if it reads one: beyond four digits and around
      the turn of the era it does not, and before that it is a year off. */
  function YearRead(year: int): Option<int> {
    if 1 <= year <= 9999 then Some(year)
    else if -9999 <= year <= -1000 then Some(year + 1)
    else None
  }

  lemma ReadPrintedYear(year: int, tail: string)
    requires tail != "" && tail[0] == '-'
    ensures var r := ReadYear(Padded(year, 4) + tail);
            if YearRead(year).Some? then r == Some((YearRead(year).value, tail))
            else r == None || Expect('-', r.value.1) == None
  {
    var n, width := if year < 0 then -year else year, if year < 0 then 3 else 4;
    var s := ZeroPad(Digits(n), width);
    DigitsDenote(n);
    ZeroPadDenotes(Digits(n), n, width);
    PrintedYearWidth(n, width);
    ReadFourDigits(s, n, tail);
    if year < 0 {
      assert (("-" + s) + tail)[1..] == s + tail;
    } else {
      assert (s + tail)[0] == s[0] && IsDigit(s[0]);
    }
  }

  lemma PrintedYearWidth(n: nat, width: nat)
    requires width == 3 || width == 4
    ensures |ZeroPad(Digits(n), width)| == 4 <==> n < 10000 && (width == 3 ==> n >= 1000)
  {
    hide ZeroPad;
    Powers();
    DigitsDenote(n);
    ZeroPadDenotes(Digits(n), n, width);
    if n >= 10000 {
      DigitsLong(n, 4);
    } else {
      DigitsShort(n, 4);
      if n >= 1000 {
        DigitsLong(n, 3);
      } else {
        DigitsShort(n, 3);
      }
    }
  }

  /** What the template makes of a printed date. */
  lemma DayReadsAs(year: int, month: nat, day: nat, rest: string)
    requires month < 100 && day < 100
    ensures ReadDay(DayText(year, month, day) + rest) ==
            match YearRead(year) case Some(y) => Some(((y, month, day), rest)) case None => None
  {
    hide ReadYear, ReadMonthDay, Padded, YearRead;
    var y, m, d := Padded(year, 4), Padded(month, 2), Padded(day, 2);
    var tail := "-" + (m + ("-" + (d + rest)));
    assert DayText(year, month, day) + rest == y + tail;
    assert tail[1..] == m + ("-" + (d + rest));
    ReadPrintedYear(year, tail);
    ReadPrintedMonthDay(month, day, rest);
  }

  lemma ReadPrintedMonthDay(month: nat, day: nat, rest: string)
    requires month < 100 && day < 100
    ensures ReadMonthDay(Padded(month, 2) + ("-" + (Padded(day, 2) + rest))) == Some(((month, day), rest))
  {
    hide ReadFixed, Denotes, Padded;
    Powers();
    FixedWidth(month, 2);
    FixedWidth(day, 2);
    ReadWidth(Padded(month, 2), month, 2, "-" + (Padded(day, 2) + rest));
    ReadWidth(Padded(day, 2), day, 2, rest);
    assert ("-" + (Padded(day, 2) + rest))[1..] == Padded(day, 2) + rest;
  }

  /** A printed date reads back to the same fields exactly in the years 1 to 9999. */
  lemma DayRoundTrip(year: int, month: nat, day: nat, rest: string)
    requires month < 100 && day < 100
    ensures ReadDay(DayText(year, month, day) + rest) == Some(((year, month, day), rest)) <==> 1 <= year <= 9999
  {
    hide ReadDay;
    DayReadsAs(year, month, day, rest);
  }

  /** The first of January of AD 10000, 1 BC, 44 BC and 4712 BC. */
  lemma YearsMisread()
    ensures ReadDay(DayText(10000, 1, 1)) == None && ReadDay(DayText(0, 1, 1)) == None
    ensures ReadDay(DayText(-43, 1, 1)) == None && ReadDay(DayText(-4711, 1, 1)) == Some(((-4710, 1, 1), ""))
  {
    hide ReadDay, DayText;
    forall y: int
      ensures DayText(y, 1, 1) + "" == DayText(y, 1, 1)
    {
    }
    DayReadsAs(10000, 1, 1, "");
    DayReadsAs(0, 1, 1, "");
    DayReadsAs(-43, 1, 1, "");
    DayReadsAs(-4711, 1, 1, "");
  }

  predicate ClockFits(t: Stamp) {
    t.hour < 100 && t.minute < 100 && t.second < 100 && t.micros < 1000000
  }

  lemma ReadPrintedClock(t: Stamp, rest: string)
    requires ClockFits(t)
    ensures ReadClock(Padded(t.hour, 2) + (":" + (Padded(t.minute, 2) + (":" + (Padded(t.second, 2) +
                      ("." + (Padded(t.micros, 6) + rest))))))) ==
            Some(((t.hour, t.minute, t.second, t.micros), rest))
  {
    hide ReadFixed, Denotes, Padded;
    Powers();
    FixedWidth(t.hour, 2);
    FixedWidth(t.minute, 2);
    FixedWidth(t.second, 2);
    FixedWidth(t.micros, 6);
    ReadClockParts(Padded(t.hour, 2), t.hour, Padded(t.minute, 2), t.minute, Padded(t.second, 2), t.second,
                   Padded(t.micros, 6), t.micros, rest);
  }

  lemma ReadClockParts(h: string, hour: nat, m: string, minute: nat, s: string, second: nat,
                       f: string, micros: nat, rest: string)
    requires Denotes(h, hour) && Denotes(m, minute) && Denotes(s, second) && Denotes(f, micros)
    requires |h| == 2 && |m| == 2 && |s| == 2 && |f| == 6
    ensures ReadClock(h + (":" + (m + (":" + (s + ("." + (f + rest))))))) ==
            Some(((hour, minute, second, micros), rest))
  {
    hide ReadFixed, Denotes;
    ReadWidth(h, hour, 2, ":" + (m + (":" + (s + ("." + (f + rest))))));
    ReadWidth(m, minute, 2, ":" + (s + ("." + (f + rest))));
    ReadWidth(s, second, 2, "." + (f + rest));
    ReadWidth(f, micros, 6, rest);
    assert (":" + (m + (":" + (s + ("." + (f + rest))))))[1..] == m + (":" + (s + ("." + (f + rest))));
    assert (":" + (s + ("." + (f + rest))))[1..] == s + ("." + (f + rest));
    assert ("." + (f + rest))[1..] == f + rest;
  }

  /** What the template makes of a printed timestamp. */
  lemma StampReadsAs(t: Stamp, rest: string)
    requires t.month < 100 && t.day < 100 && ClockFits(t)
    ensures ReadStamp(StampText(t) + rest) ==
            match YearRead(t.year) case Some(y) => Some((t.(year := y), rest)) case None => None
    ensures YearRead(t.year).None? ==> ReadDay(StampText(t) + rest).None?
  {
    hide ReadDay, ReadClock, Padded, DayText, YearRead;
    var h, m, s, f := Padded(t.hour, 2), Padded(t.minute, 2), Padded(t.second, 2), Padded(t.micros, 6);
    var clock := h + (":" + (m + (":" + (s + ("." + (f + rest))))));
    ReadPrintedClock(t, rest);
    DayReadsAs(t.year, t.month, t.day, " " + clock);
    StampTextParts(DayText(t.year, t.month, t.day), h, m, s, f, rest);
    assert Expect(' ', " " + clock) == Some(clock);
  }

  /** A printed timestamp reads back to the same fields exactly in the years 1 to 9999. */
  lemma StampRoundTrip(t: Stamp, rest: string)
    requires t.month < 100 && t.day < 100 && ClockFits(t)
    ensures ReadStamp(StampText(t) + rest) == Some((t, rest)) <==> 1 <= t.year <= 9999
  {
    hide ReadStamp;
    StampReadsAs(t, rest);
  }

  /** A date, by its template. */
  lemma DayByTemplate(year: int, month: nat, day: nat)
    requires month < 100 && day < 100
    ensures ReadTemplate("SYYYY-MM-DD", DayText(year, month, day), NO_FIELDS) ==
            match YearRead(year)
            case Some(y) => Some(NO_FIELDS.(year := y, month := month, day := day))
            case None => None
  {
    hide DayText, ReadDay, YearRead, ReadTemplate;
    DayReadsAs(year, month, day, "");
    assert DayText(year, month, day) + "" == DayText(year, month, day);
    DayTemplate("", DayText(year, month, day), NO_FIELDS);
    assert "SYYYY-MM-DD" + "" == "SYYYY-MM-DD";
    if YearRead(year).Some? {
      TemplateEnd(NO_FIELDS.(year := YearRead(year).value, month := month, day := day));
    }
  }

  function StampFields(t: Stamp): Fields {
    NO_FIELDS.(year := t.year, month := t.month, day := t.day, hour := t.hour, minute := t.minute, second := t.second,
               micros := t.micros)
  }

  lemma StampThen(t: Stamp, more: string, rest: string)
    requires t.month < 100 && t.day < 100 && ClockFits(t)
    ensures ReadTemplate("SYYYY-MM-DD HH24:MI:SS.FF" + more, StampText(t) + rest, NO_FIELDS) ==
            match YearRead(t.year)
            case Some(y) => ReadTemplate(more, rest, StampFields(t.(year := y)))
            case None => None
  {
    hide StampText, ReadStamp, ReadDay, YearRead, ReadTemplate;
    StampReadsAs(t, rest);
    StampTemplate(more, StampText(t) + rest, NO_FIELDS);
  }

  /** A timestamp, by its template. */
  lemma StampByTemplate(t: Stamp)
    requires t.month < 100 && t.day < 100 && ClockFits(t)
    ensures ReadTemplate("SYYYY-MM-DD HH24:MI:SS.FF", StampText(t), NO_FIELDS) ==
            match YearRead(t.year) case Some(y) => Some(StampFields(t.(year := y))) case None => None
  {
    hide StampText, YearRead, ReadTemplate, StampFields;
    StampThen(t, "", "");
    assert StampText(t) + "" == StampText(t) && "SYYYY-MM-DD HH24:MI:SS.FF" + "" == "SYYYY-MM-DD HH24:MI:SS.FF";
    if YearRead(t.year).Some? {
      TemplateEnd(StampFields(t.(year := YearRead(t.year).value)));
    }
  }

  /** A timestamp with its zone, by its template. */
  lemma InstantByTemplate(t: Stamp, tzoffset: int)
    requires t.month < 100 && t.day < 100 && ClockFits(t)
    ensures var r := ReadTemplate("SYYYY-MM-DD HH24:MI:SS.FF TZH:TZM", StampText(t) + OffsetText(tzoffset), NO_FIELDS);
            match YearRead(t.year)
            case None => r == None
            case Some(y) =>
              && r.Some? && EastOf(r.value) == PrintedOffset(tzoffset)
              && r.value.(west := false, zoneHour := 0, zoneMinute := 0) == StampFields(t.(year := y))
  {
    hide StampText, OffsetText, PrintedOffset, ReadOffset, YearRead, ReadTemplate;
    OffsetRoundTrip(tzoffset, "");
    assert OffsetText(tzoffset) + "" == OffsetText(tzoffset);
    StampThen(t, " TZH:TZM", OffsetText(tzoffset));
    assert "SYYYY-MM-DD HH24:MI:SS.FF" + " TZH:TZM" == "SYYYY-MM-DD HH24:MI:SS.FF TZH:TZM";
    if YearRead(t.year).Some? {
      ZoneTemplate(OffsetText(tzoffset), StampFields(t.(year := YearRead(t.year).value)));
    }
  }

  lemma StampTextParts(d: string, h: string, m: string, s: string, f: string, rest: string)
    ensures (d + " " + (h + ":" + (m + ":" + (s + "." + f)))) + rest ==
            d + (" " + (h + (":" + (m + (":" + (s + ("." + (f + rest))))))))
  {
  }

  /** The offset that the printed text stands for, in seconds east of UTC. */
  function PrintedOffset(tzoffset: int): (east: int)
  {
    var truncated := CDiv(tzoffset, 60) * 60;
    if 0 < tzoffset < 3600 then truncated else -truncated
  }

  lemma ReadOffsetParts(east: bool, h: string, hours: nat, m: string, minutes: nat, rest: string)
    requires Denotes(h, hours) && Denotes(m, minutes) && Stops(IsDigit, rest)
    ensures ReadOffset((if east then "+" else "-") + (h + (":" + (m + rest)))) ==
            Some((if east then 3600 * hours + 60 * minutes else -(3600 * hours + 60 * minutes), rest))
  {
    hide ReadNat, Denotes, Stops;
    var text := (if east then "+" else "-") + (h + (":" + (m + rest)));
    assert text[1..] == h + (":" + (m + rest));
    ReadThen(h, hours, ':', m + rest);
    ReadDigits(m, minutes, rest);
  }

  lemma OffsetTextParts(s: string, h: string, m: string, rest: string)
    ensures ((s + h) + ":" + m) + rest == s + (h + (":" + (m + rest)))
  {
  }

  lemma SignKept(tzoffset: int)
    ensures CDiv(-tzoffset, 3600) >= 0 <==> tzoffset < 3600
    ensures tzoffset < 3600 ==> CDiv(-tzoffset, 3600) == (if tzoffset > 0 then tzoffset else -tzoffset) / 3600
    ensures tzoffset >= 3600 ==> CDiv(-tzoffset, 3600) == -(tzoffset / 3600)
  {
  }

  /** Reading back gives the offset truncated to a whole minute, but for the hour west of UTC, where a
      zero hour prints as +00 and the sign is lost. */
  lemma OffsetRoundTrip(tzoffset: int, rest: string)
    requires Stops(IsDigit, rest)
    ensures ReadOffset(OffsetText(tzoffset) + rest) == Some((PrintedOffset(tzoffset), rest))
  {
    var hours, minutes := OffsetParts(tzoffset);
    ReadOffsetText(tzoffset < 3600, hours, minutes, rest);
  }

  /** The hours and minutes that the format arguments denote, and what they add up to. */
  lemma OffsetParts(tzoffset: int) returns (hours: nat, minutes: nat)
    ensures OffsetText(tzoffset) ==
            ((if tzoffset < 3600 then "+" else "-") + ZeroPad(Digits(hours), 2)) + ":" + Padded(minutes, 2)
    ensures PrintedOffset(tzoffset) ==
            if tzoffset < 3600 then 3600 * hours + 60 * minutes else -(3600 * hours + 60 * minutes)
  {
    var t: nat := if tzoffset > 0 then tzoffset else -tzoffset;
    HoursMinutes(t);
    hours, minutes := t / 3600, CDiv(CMod(t, 3600), 60);
    OffsetTextIs(tzoffset, t, minutes);
    PrintedOffsetIs(tzoffset, t);
  }

  lemma PrintedOffsetIs(tzoffset: int, t: nat)
    requires t == if tzoffset > 0 then tzoffset else -tzoffset
    ensures PrintedOffset(tzoffset) == if tzoffset < 3600 then t / 60 * 60 else -(t / 60 * 60)
  {
  }

  lemma ReadOffsetText(east: bool, hours: nat, minutes: nat, rest: string)
    requires Stops(IsDigit, rest)
    ensures ReadOffset((((if east then "+" else "-") + ZeroPad(Digits(hours), 2)) + ":" + Padded(minutes, 2)) + rest) ==
            Some((if east then 3600 * hours + 60 * minutes else -(3600 * hours + 60 * minutes), rest))
  {
    var h, m := ZeroPad(Digits(hours), 2), Padded(minutes, 2);
    DigitsDenote(hours);
    ZeroPadDenotes(Digits(hours), hours, 2);
    PaddedDenotes(minutes, 2);
    ReadOffsetParts(east, h, hours, m, minutes, rest);
    OffsetTextParts(if east then "+" else "-", h, m, rest);
  }

  lemma OffsetTextIs(tzoffset: int, t: nat, minutes: nat)
    requires t == if tzoffset > 0 then tzoffset else -tzoffset
    requires minutes == CDiv(CMod(t, 3600), 60)
    ensures OffsetText(tzoffset) ==
            ((if tzoffset < 3600 then "+" else "-") + ZeroPad(Digits(t / 3600), 2)) + ":" + Padded(minutes, 2)
  {
    SignKept(tzoffset);
  }

  lemma HoursMinutes(t: nat)
    ensures CDiv(CMod(t, 3600), 60) >= 0
    ensures 3600 * (t / 3600) + 60 * CDiv(CMod(t, 3600), 60) == t / 60 * 60
  {
    var h := t / 3600;
    var r := t - h * 3600;
    assert 0 <= r < 3600;
    var m := r / 60;
    var s := r - m * 60;
    assert 0 <= s < 60;
    assert t == 60 * (60 * h + m) + s;
    assert t / 60 == 60 * h + m;
  }

  /** The printed offset is right exactly for whole minutes outside that hour, and off by under a minute
      for the rest outside it. */
  lemma OffsetExactness(tzoffset: int)
    ensures PrintedOffset(tzoffset) == -tzoffset <==> tzoffset % 60 == 0 && !(0 < tzoffset < 3600)
    ensures !(0 < tzoffset < 3600) ==> -60 < PrintedOffset(tzoffset) + tzoffset < 60
  {
  }

  lemma SmallNumerals()
    ensures SignedPadded(0) == "+00" && Padded(30, 2) == "30"
  {
    assert Digits(0) == "0" && Digits(3) == "3";
    assert Digits(30) == Digits(3) + "0" == "30";
    assert ZeroPad("0", 2) == ZeroPad("00", 2) == "00" && ZeroPad("30", 2) == "30";
  }

  lemma SmallQuotients()
    ensures CDiv(-1800, 3600) == 0 && CMod(1800, 3600) == 1800 && CDiv(1800, 60) == 30
  {
  }

  /** Half an hour west of UTC prints as half an hour east. */
  lemma HalfHourWest()
    ensures OffsetText(1800) == "+00:30" && PrintedOffset(1800) == 1800
  {
    hide SignedPadded, Padded, CDiv, CMod;
    SmallNumerals();
    SmallQuotients();
  }
}
