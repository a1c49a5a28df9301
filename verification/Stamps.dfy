/**
  The timestamp in a backup's name: how it is printed and parsed, and why comparing names
  as strings compares the instants they were taken. Digits are ASCII.
*/
module Stamps {
  import opened Options
  import opened Seqs

  // ---------------------------------------------------------------- the calendar

  datatype Stamp = Stamp(year: nat, month: nat, day: nat, hour: nat, minute: nat, second: nat)

  predicate Leap(year: nat) {
    year % 4 == 0 && (year % 100 != 0 || year % 400 == 0)
  }

  function YearLength(year: nat): nat {
    if Leap(year) then 366 else 365
  }

  function MonthLength(year: nat, month: nat): nat {
    if month == 2 then (if Leap(year) then 29 else 28)
    else if month in {4, 6, 9, 11} then 30
    else 31
  }

  /** A second a datetime can hold: datetime rejects year 0, impossible dates and leap seconds. */
  predicate ValidStamp(s: Stamp) {
    && 1 <= s.year <= 9999 && 1 <= s.month <= 12 && 1 <= s.day <= MonthLength(s.year, s.month)
    && s.hour < 24 && s.minute < 60 && s.second < 60
  }

  function DaysBeforeYear(year: nat): nat {
    if year == 0 then 0 else DaysBeforeYear(year - 1) + YearLength(year - 1)
  }

  function DaysBeforeMonth(year: nat, month: nat): nat {
    if month <= 1 then 0 else DaysBeforeMonth(year, month - 1) + MonthLength(year, month - 1)
  }

  /** Seconds since the start of year 0. */
  function Instant(s: Stamp): nat {
    (DaysBeforeYear(s.year) + DaysBeforeMonth(s.year, s.month) + s.day) * 86400
      + s.hour * 3600 + s.minute * 60 + s.second
  }

  lemma {:induction false} YearsPass(a: nat, b: nat)
    requires a < b
    ensures DaysBeforeYear(a) + YearLength(a) <= DaysBeforeYear(b)
  {
    if a < b - 1 {
      YearsPass(a, b - 1);
    }
  }

  lemma {:induction false} MonthsPass(year: nat, a: nat, b: nat)
    requires 1 <= a < b
    ensures DaysBeforeMonth(year, a) + MonthLength(year, a) <= DaysBeforeMonth(year, b)
  {
    if a < b - 1 {
      MonthsPass(year, a, b - 1);
    }
  }

  lemma {:induction false} YearIsTwelveMonths(year: nat)
    ensures DaysBeforeMonth(year, 13) == YearLength(year)
  {
    assert DaysBeforeMonth(year, 2) == 31;
    assert DaysBeforeMonth(year, 3) == 31 + MonthLength(year, 2);
    assert DaysBeforeMonth(year, 5) == DaysBeforeMonth(year, 3) + 61;
    assert DaysBeforeMonth(year, 7) == DaysBeforeMonth(year, 5) + 61;
    assert DaysBeforeMonth(year, 9) == DaysBeforeMonth(year, 7) + 62;
    assert DaysBeforeMonth(year, 11) == DaysBeforeMonth(year, 9) + 61;
    assert DaysBeforeMonth(year, 13) == DaysBeforeMonth(year, 11) + 61;
  }

  /** The Gregorian count of days: 365 a year, and a leap day for each leap year gone by. */
  lemma {:induction false} DaysBeforeYearClosed(year: nat)
    requires year > 0
    ensures DaysBeforeYear(year) == 365 * year + (year + 3) / 4 - (year + 99) / 100 + (year + 399) / 400
  {
    LeapDayStep(year - 1);
    if year > 1 {
      DaysBeforeYearClosed(year - 1);
    } else {
      assert DaysBeforeYear(0) == 0;
    }
  }

  /** Years divisible by four less those divisible by a hundred, more those divisible by four hundred. */
  lemma {:induction false} LeapDayStep(y: nat)
    ensures YearLength(y) == 365 + ((y + 4) / 4 - (y + 3) / 4) - ((y + 100) / 100 - (y + 99) / 100)
                                 + ((y + 400) / 400 - (y + 399) / 400)
  {
    assert (y + 4) / 4 - (y + 3) / 4 == if y % 4 == 0 then 1 else 0;
    assert (y + 100) / 100 - (y + 99) / 100 == if y % 100 == 0 then 1 else 0;
    assert (y + 400) / 400 - (y + 399) / 400 == if y % 400 == 0 then 1 else 0;
    assert y % 400 == 0 ==> y % 100 == 0;
    assert y % 100 == 0 ==> y % 4 == 0;
  }

  /** The months as everyone counts them: thirty days hath September. */
  lemma {:induction false} MonthTable(year: nat)
    ensures MonthLength(year, 1) == MonthLength(year, 3) == MonthLength(year, 5) == MonthLength(year, 7) == 31
    ensures MonthLength(year, 8) == MonthLength(year, 10) == MonthLength(year, 12) == 31
    ensures MonthLength(year, 4) == MonthLength(year, 6) == MonthLength(year, 9) == MonthLength(year, 11) == 30
    ensures MonthLength(year, 2) == DaysBeforeYear(year + 1) - DaysBeforeYear(year) - 337
  {
  }

  function DayNumber(s: Stamp): nat {
    DaysBeforeYear(s.year) + DaysBeforeMonth(s.year, s.month) + s.day
  }

  predicate DateBefore(s: Stamp, t: Stamp) {
    || s.year < t.year
    || (s.year == t.year && s.month < t.month)
    || (s.year == t.year && s.month == t.month && s.day < t.day)
  }

  lemma {:induction false} EarlierDateSmallerDay(s: Stamp, t: Stamp)
    requires ValidStamp(s) && ValidStamp(t) && DateBefore(s, t)
    ensures DayNumber(s) < DayNumber(t)
  {
    if s.year < t.year {
      YearsPass(s.year, t.year);
      YearIsTwelveMonths(s.year);
      MonthsPass(s.year, s.month, 13);
    } else if s.month < t.month {
      MonthsPass(s.year, s.month, t.month);
    }
  }

  /** Field by field, most significant first: how datetime compares. */
  predicate Before(s: Stamp, t: Stamp) {
    || DateBefore(s, t)
    || (s.year == t.year && s.month == t.month && s.day == t.day &&
        (s.hour < t.hour ||
         (s.hour == t.hour && (s.minute < t.minute || (s.minute == t.minute && s.second < t.second)))))
  }

  lemma {:induction false} BeforeIsEarlier(s: Stamp, t: Stamp)
    requires ValidStamp(s) && ValidStamp(t)
    ensures Before(s, t) <==> Instant(s) < Instant(t)
    ensures s == t <==> Instant(s) == Instant(t)
  {
    if DateBefore(s, t) {
      EarlierDateSmallerDay(s, t);
    } else if DateBefore(t, s) {
      EarlierDateSmallerDay(t, s);
    }
  }

  lemma {:induction false} YearOf(d: nat, y: nat) returns (year: nat)
    requires 1 <= y && DaysBeforeYear(1) < d <= DaysBeforeYear(y + 1)
    ensures 1 <= year <= y && DaysBeforeYear(year) < d <= DaysBeforeYear(year + 1)
  {
    if d > DaysBeforeYear(y) {
      year := y;
    } else {
      year := YearOf(d, y - 1);
    }
  }

  lemma {:induction false} MonthOf(year: nat, d: nat, m: nat) returns (month: nat)
    requires 1 <= m && 0 < d <= DaysBeforeMonth(year, m + 1)
    ensures 1 <= month <= m && DaysBeforeMonth(year, month) < d <= DaysBeforeMonth(year, month + 1)
  {
    if d > DaysBeforeMonth(year, m) {
      month := m;
    } else {
      month := MonthOf(year, d, m - 1);
    }
  }

  /** No second is left out: from the first to the last, each is the instant of a valid stamp. */
  lemma {:induction false} EverySecondHasAStamp(n: nat) returns (s: Stamp)
    requires DaysBeforeYear(1) < n / 86400 <= DaysBeforeYear(10000)
    ensures ValidStamp(s) && Instant(s) == n
  {
    var d, secs := n / 86400, n % 86400;
    var year := YearOf(d, 9999);
    var inYear := d - DaysBeforeYear(year);
    YearIsTwelveMonths(year);
    var month := MonthOf(year, inYear, 12);
    s := Stamp(year, month, inYear - DaysBeforeMonth(year, month), secs / 3600, secs % 3600 / 60, secs % 60);
    assert secs / 3600 * 3600 + secs % 3600 / 60 * 60 + secs % 60 == secs;
  }

  // ---------------------------------------------------------------- digits

  function Digit(n: nat): char
    requires n < 10
  {
    '0' + n as char
  }

  /** n in exactly w decimal digits. */
  function Digits(n: nat, w: nat): (t: string)
    ensures |t| == w
  {
    if w == 0 then "" else Digits(n / 10, w - 1) + [Digit(n % 10)]
  }

  predicate IsDigits(t: string) {
    forall i :: 0 <= i < |t| ==> '0' <= t[i] <= '9'
  }

  function ValueOf(t: string): nat
    requires IsDigits(t)
  {
    if t == "" then 0 else ValueOf(Init(t)) * 10 + (Last(t) - '0') as nat
  }

  function Pow10(w: nat): nat {
    if w == 0 then 1 else 10 * Pow10(w - 1)
  }

  lemma {:induction false} DigitsHaveValue(n: nat, w: nat)
    requires n < Pow10(w)
    ensures IsDigits(Digits(n, w)) && ValueOf(Digits(n, w)) == n
  {
    if w > 0 {
      DigitsHaveValue(n / 10, w - 1);
      assert Init(Digits(n, w)) == Digits(n / 10, w - 1);
    }
  }

  lemma {:induction false} ValueHasDigits(t: string)
    requires IsDigits(t)
    ensures ValueOf(t) < Pow10(|t|) && Digits(ValueOf(t), |t|) == t
  {
    if t != "" {
      ValueHasDigits(Init(t));
      assert Init(t) + [Last(t)] == t;
    }
  }

  // ---------------------------------------------------------------- string order

  predicate LexLess(a: string, b: string) {
    b != "" && (a == "" || a[0] < b[0] || (a[0] == b[0] && LexLess(a[1..], b[1..])))
  }

  lemma {:induction false} LexIsStrictOrder(a: string, b: string)
    ensures a == b || LexLess(a, b) || LexLess(b, a)
    ensures !(LexLess(a, b) && LexLess(b, a)) && !LexLess(a, a)
  {
    if a != "" {
      LexIsStrictOrder(a[1..], if b == "" then b else b[1..]);
      assert a == [a[0]] + a[1..];
      assert b != "" ==> b == [b[0]] + b[1..];
    }
  }

  lemma {:induction false} LexIsTransitive(a: string, b: string, c: string)
    requires LexLess(a, b) && LexLess(b, c)
    ensures LexLess(a, c)
  {
    if a != "" && a[0] == b[0] && b[0] == c[0] {
      LexIsTransitive(a[1..], b[1..], c[1..]);
    }
  }

  /** Equal-length leading blocks decide first. */
  lemma {:induction false} LexByBlocks(a: string, b: string, a': string, b': string)
    requires |a| == |a'|
    ensures LexLess(a + b, a' + b') <==> LexLess(a, a') || (a == a' && LexLess(b, b'))
  {
    if a == "" {
      assert a + b == b && a' + b' == b';
    } else {
      LexByBlocks(a[1..], b, a'[1..], b');
      assert (a + b)[1..] == a[1..] + b && (a' + b')[1..] == a'[1..] + b';
      assert a == [a[0]] + a[1..] && a' == [a'[0]] + a'[1..];
    }
  }

  lemma {:induction false} DigitsOrder(m: nat, n: nat, w: nat)
    requires m < Pow10(w) && n < Pow10(w)
    ensures LexLess(Digits(m, w), Digits(n, w)) <==> m < n
    ensures Digits(m, w) == Digits(n, w) <==> m == n
  {
    DigitsHaveValue(m, w);
    DigitsHaveValue(n, w);
    if w > 0 {
      DigitsOrder(m / 10, n / 10, w - 1);
      LexByBlocks(Digits(m / 10, w - 1), [Digit(m % 10)], Digits(n / 10, w - 1), [Digit(n % 10)]);
      assert LexLess([Digit(m % 10)], [Digit(n % 10)]) <==> m % 10 < n % 10;
    }
  }

  // ---------------------------------------------------------------- stamp text

  /** strftime("%Y%m%dT%H%M%SZ") for years from 1000 on. */
  function StampText(s: Stamp): (t: string)
    ensures |t| == 16
  {
    Digits(s.year, 4) + (Digits(s.month, 2) + (Digits(s.day, 2) + ("T" +
      (Digits(s.hour, 2) + (Digits(s.minute, 2) + (Digits(s.second, 2) + "Z"))))))
  }

  /** The regex group: 8 digits, T, 6 digits, Z. */
  predicate Shaped(t: string) {
    && |t| == 16 && t[8] == 'T' && t[15] == 'Z'
    && IsDigits(t[..4]) && IsDigits(t[4..6]) && IsDigits(t[6..8])
    && IsDigits(t[9..11]) && IsDigits(t[11..13]) && IsDigits(t[13..15])
  }

  function Fields(t: string): Stamp
    requires Shaped(t)
  {
    Stamp(ValueOf(t[..4]), ValueOf(t[4..6]), ValueOf(t[6..8]),
          ValueOf(t[9..11]), ValueOf(t[11..13]), ValueOf(t[13..15]))
  }

  /** The regex group, then strptime, which refuses fields that name no real second. */
  function ParseStamp(t: string): Option<Stamp> {
    if Shaped(t) && ValidStamp(Fields(t)) then Some(Fields(t)) else None
  }

  lemma {:induction false} PowersOfTen()
    ensures Pow10(2) == 100 && Pow10(4) == 10000
  {
    assert Pow10(1) == 10;
    assert Pow10(3) == 1000;
  }

  lemma {:induction false} StampTextParts(s: Stamp)
    ensures var t := StampText(s);
            && t[..4] == Digits(s.year, 4) && t[4..6] == Digits(s.month, 2) && t[6..8] == Digits(s.day, 2)
            && t[8] == 'T' && t[9..11] == Digits(s.hour, 2) && t[11..13] == Digits(s.minute, 2)
            && t[13..15] == Digits(s.second, 2) && t[15] == 'Z'
  {
  }

  lemma {:induction false} FieldsPrinted(s: Stamp)
    requires s.year < 10000 && s.month < 100 && s.day < 100 && s.hour < 100 && s.minute < 100 && s.second < 100
    ensures IsDigits(Digits(s.year, 4)) && IsDigits(Digits(s.month, 2)) && IsDigits(Digits(s.day, 2))
    ensures IsDigits(Digits(s.hour, 2)) && IsDigits(Digits(s.minute, 2)) && IsDigits(Digits(s.second, 2))
    ensures s == Stamp(ValueOf(Digits(s.year, 4)), ValueOf(Digits(s.month, 2)), ValueOf(Digits(s.day, 2)),
                       ValueOf(Digits(s.hour, 2)), ValueOf(Digits(s.minute, 2)), ValueOf(Digits(s.second, 2)))
  {
    PowersOfTen();
    DigitsHaveValue(s.year, 4);
    DigitsHaveValue(s.month, 2);
    DigitsHaveValue(s.day, 2);
    DigitsHaveValue(s.hour, 2);
    DigitsHaveValue(s.minute, 2);
    DigitsHaveValue(s.second, 2);
  }

  lemma {:induction false} PrintedStampParses(s: Stamp)
    requires ValidStamp(s)
    ensures ParseStamp(StampText(s)) == Some(s)
  {
    StampTextParts(s);
    FieldsPrinted(s);
  }

  lemma {:induction false} ParsedStampPrints(t: string)
    requires Shaped(t)
    ensures StampText(Fields(t)) == t
  {
    var s := Fields(t);
    assert t == t[..4] + (t[4..6] + (t[6..8] + ([t[8]] + (t[9..11] + (t[11..13] + (t[13..15] + [t[15]]))))));
    ValueHasDigits(t[..4]);
    ValueHasDigits(t[4..6]);
    ValueHasDigits(t[6..8]);
    ValueHasDigits(t[9..11]);
    ValueHasDigits(t[11..13]);
    ValueHasDigits(t[13..15]);
  }

  /** Printer and parser are inverse: a text parses to s exactly when it is s printed and s is real. */
  lemma {:induction false} ParsesToIff(t: string, s: Stamp)
    ensures ParseStamp(t) == Some(s) <==> ValidStamp(s) && t == StampText(s)
  {
    if ParseStamp(t).Some? {
      ParsedStampPrints(t);
    }
    if ValidStamp(s) {
      PrintedStampParses(s);
    }
  }

  /** Fields that fit the digits but name no real second are refused: February 29 of a common year, say. */
  lemma {:induction false} ImpossibleIsRefused(s: Stamp)
    requires s.year < 10000 && s.month < 100 && s.day < 100 && s.hour < 100 && s.minute < 100 && s.second < 100
    ensures ParseStamp(StampText(s)) == None <==> !ValidStamp(s)
  {
    if ValidStamp(s) {
      PrintedStampParses(s);
    } else if ParseStamp(StampText(s)).Some? {
      var x := ParseStamp(StampText(s)).value;
      ParsesToIff(StampText(s), x);
      StampTextParts(s);
      StampTextParts(x);
      FieldsPrinted(x);
      FieldsPrinted(s);
    }
  }

  /** String order of stamps is chronological order. */
  lemma {:induction false} TextOrderIsTimeOrder(s: Stamp, t: Stamp)
    requires ValidStamp(s) && ValidStamp(t)
    ensures LexLess(StampText(s), StampText(t)) <==> Instant(s) < Instant(t)
  {
    BeforeIsEarlier(s, t);
    PowersOfTen();
    DigitsOrder(s.year, t.year, 4);
    DigitsOrder(s.month, t.month, 2);
    DigitsOrder(s.day, t.day, 2);
    DigitsOrder(s.hour, t.hour, 2);
    DigitsOrder(s.minute, t.minute, 2);
    DigitsOrder(s.second, t.second, 2);
    var s1, t1 := Digits(s.second, 2) + "Z", Digits(t.second, 2) + "Z";
    var s2, t2 := Digits(s.minute, 2) + s1, Digits(t.minute, 2) + t1;
    var s3, t3 := Digits(s.hour, 2) + s2, Digits(t.hour, 2) + t2;
    var s4, t4 := "T" + s3, "T" + t3;
    var s5, t5 := Digits(s.day, 2) + s4, Digits(t.day, 2) + t4;
    var s6, t6 := Digits(s.month, 2) + s5, Digits(t.month, 2) + t5;
    LexIsStrictOrder("Z", "Z");
    LexIsStrictOrder("T", "T");
    LexByBlocks(Digits(s.second, 2), "Z", Digits(t.second, 2), "Z");
    LexByBlocks(Digits(s.minute, 2), s1, Digits(t.minute, 2), t1);
    LexByBlocks(Digits(s.hour, 2), s2, Digits(t.hour, 2), t2);
    LexByBlocks("T", s3, "T", t3);
    LexByBlocks(Digits(s.day, 2), s4, Digits(t.day, 2), t4);
    LexByBlocks(Digits(s.month, 2), s5, Digits(t.month, 2), t5);
    LexByBlocks(Digits(s.year, 4), s6, Digits(t.year, 4), t6);
  }

  // ---------------------------------------------------------------- file names

  const PREFIX := "fasttak-backup-"
  const SUFFIX := ".age"

  function Filename(s: Stamp, version: string): string {
    PREFIX + (StampText(s) + ("-" + (version + SUFFIX)))
  }

  predicate EndsWith(s: string, suffix: string) {
    |s| >= |suffix| && s[|s| - |suffix|..] == suffix
  }

  /** The glob fasttak-backup-*<suffix>. */
  predicate Globbed(name: string, suffix: string) {
    |name| >= |PREFIX| + |suffix| && PREFIX <= name && EndsWith(name, suffix)
  }

  /** Prefix, stamp, a dash, at least one character and no newline, then the suffix. */
  function ParseName(name: string): Option<Stamp> {
    if Globbed(name, SUFFIX) && |name| > 36 && name[31] == '-' && '\n' !in name[32..|name| - 4]
    then ParseStamp(name[15..31]) else None
  }

  /**
    A name the runner writes is placed in the order, at the instant printed, exactly when
    the configured version is neither empty nor holds a newline; otherwise it is never placed.
  */
  lemma {:induction false} FilenameRoundTrip(s: Stamp, version: string)
    requires ValidStamp(s)
    ensures ParseName(Filename(s, version)) == Some(s) <==> version != "" && '\n' !in version
    ensures ParseName(Filename(s, version)) != Some(s) ==> ParseName(Filename(s, version)) == None
  {
    var name := Filename(s, version);
    assert name[15..31] == StampText(s) && name[31] == '-' && name[32..|name| - 4] == version;
    assert name[|name| - 4..] == SUFFIX && PREFIX <= name;
    PrintedStampParses(s);
  }

  lemma {:induction false} NameParts(name: string) returns (s: Stamp)
    requires ParseName(name).Some?
    ensures s == ParseName(name).value && ValidStamp(s)
    ensures name == PREFIX + (StampText(s) + name[31..])
  {
    s := ParseName(name).value;
    ParsedStampPrints(name[15..31]);
    assert name == name[..15] + (name[15..31] + name[31..]);
  }

  /** Which names parse, and to what: those of the runner's own form, whatever non-empty one-line version they carry. */
  lemma {:induction false} NameParsesToIff(name: string, s: Stamp)
    ensures ParseName(name) == Some(s) <==>
              ValidStamp(s) && exists version :: version != "" && '\n' !in version && name == Filename(s, version)
  {
    if ParseName(name) == Some(s) {
      var t := NameParts(name);
      var version := name[32..|name| - 4];
      assert name[31..] == "-" + (version + name[|name| - 4..]);
      assert name == Filename(s, version);
    }
    if ValidStamp(s) {
      if version :| version != "" && '\n' !in version && name == Filename(s, version) {
        FilenameRoundTrip(s, version);
      }
    }
  }

  /** One name, part by part. */
  lemma {:induction false} SampleName()
    ensures Filename(Stamp(2024, 2, 29, 3, 4, 5), "1.2")
              == "fasttak-backup-" + "20240229T030405Z" + "-" + "1.2" + ".age"
  {
    SampleText(Stamp(2024, 2, 29, 3, 4, 5));
    Joined("fasttak-backup-", "20240229T030405Z", "-", "1.2", ".age");
  }

  lemma {:induction false} Joined(a: string, b: string, c: string, d: string, e: string)
    ensures a + (b + (c + (d + e))) == a + b + c + d + e
  {
  }

  lemma {:induction false} SampleText(s: Stamp)
    requires s == Stamp(2024, 2, 29, 3, 4, 5)
    ensures StampText(s) == "20240229T030405Z"
  {
    SampleDigits();
    assert "2024" + ("02" + ("29" + ("T" + ("03" + ("04" + ("05" + "Z")))))) == "20240229T030405Z";
  }

  lemma {:induction false} SampleDigits()
    ensures Digits(2024, 4) == "2024" && Digits(2, 2) == "02" && Digits(29, 2) == "29"
    ensures Digits(3, 2) == "03" && Digits(4, 2) == "04" && Digits(5, 2) == "05"
  {
    assert Digits(20, 2) == "20" && Digits(202, 3) == "202";
  }

  /** When an archive was taken, by its name; names that do not parse come before all. */
  function TakenAt(name: string): int {
    match ParseName(name)
    case None => -1
    case Some(s) => Instant(s)
  }

  /** How sorted() orders (instant, path) pairs. */
  predicate Newer(p: string, q: string) {
    TakenAt(p) > TakenAt(q) || (TakenAt(p) == TakenAt(q) && LexLess(q, p))
  }

  lemma {:induction false} NewerIsStrictOrder(p: string, q: string)
    ensures p == q || Newer(p, q) || Newer(q, p)
    ensures !(Newer(p, q) && Newer(q, p)) && !Newer(p, p)
  {
    LexIsStrictOrder(p, q);
  }

  lemma {:induction false} NewerIsTransitive(p: string, q: string, r: string)
    requires Newer(p, q) && Newer(q, r)
    ensures Newer(p, r)
  {
    if TakenAt(p) == TakenAt(r) {
      LexIsTransitive(r, q, p);
    }
  }

  lemma {:induction false} SecondBlockDecides(pre: string, a: string, b: string, a': string, b': string)
    requires |a| == |a'| && LexLess(a, a')
    ensures LexLess(pre + (a + b), pre + (a' + b'))
  {
    LexByBlocks(pre, a + b, pre, a' + b');
    LexByBlocks(a, b, a', b');
  }

  lemma {:induction false} EarlierStampSmallerName(p: string, q: string)
    requires ParseName(p).Some? && ParseName(q).Some?
    requires TakenAt(p) < TakenAt(q)
    ensures LexLess(p, q)
  {
    var s := NameParts(p);
    var t := NameParts(q);
    TextOrderIsTimeOrder(s, t);
    SecondBlockDecides(PREFIX, StampText(s), p[31..], StampText(t), q[31..]);
  }

  /** The order of sorted() is plain string order of the names. */
  lemma {:induction false} NewerIsStringOrder(p: string, q: string)
    requires ParseName(p).Some? && ParseName(q).Some?
    ensures Newer(p, q) <==> LexLess(q, p)
  {
    LexIsStrictOrder(p, q);
    if TakenAt(p) < TakenAt(q) {
      EarlierStampSmallerName(p, q);
    } else if TakenAt(q) < TakenAt(p) {
      EarlierStampSmallerName(q, p);
    }
  }
}
