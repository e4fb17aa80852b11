/**
 * Dated backups of a settings file (`Backup` and `BackupPrivate` in
 * ShellBat/Utilities/JsonBasedSettings.cs): the file is copied into a
 * sibling `<name>.bak` directory as `yyyy_MM_dd.<tick>.<name>.json`, then
 * every other file of that directory whose name starts with a date older
 * than the retention span is deleted.
 */
module Backup {
  import opened Common

  const TicksPerDay := 864_000_000_000
  const BackupDirectoryExtension := ".bak"

  // ------------------------------------------------------ calendar

  datatype Date = Date(year: int, month: int, day: int)

  predicate IsLeapYear(y: int) {
    y % 4 == 0 && (y % 100 != 0 || y % 400 == 0)
  }

  function DaysInMonth(year: int, month: int): (r: int)
    requires 1 <= month <= 12
    ensures 28 <= r <= 31
  {
    if month == 2 then (if IsLeapYear(year) then 29 else 28)
    else if month == 4 || month == 6 || month == 9 || month == 11 then 30
    else 31
  }

  /** The dates `DateTime` can hold. */
  predicate ValidDate(d: Date) {
    1 <= d.year <= 9999 && 1 <= d.month <= 12 && 1 <= d.day <= DaysInMonth(d.year, d.month)
  }

  function DaysBeforeMonth(year: int, month: nat): (r: nat)
    requires 1 <= month <= 13
  {
    if month == 1 then 0 else DaysBeforeMonth(year, month - 1) + DaysInMonth(year, month - 1)
  }

  /** Days from 0001-01-01 to `d` in the proleptic Gregorian calendar. */
  function DayNumber(d: Date): int
    requires ValidDate(d)
  {
    var y := d.year - 1;
    365 * y + y / 4 - y / 100 + y / 400 + DaysBeforeMonth(d.year, d.month) + d.day - 1
  }

  /** `DateTime.Now`: a valid date and the ticks elapsed since its midnight. */
  datatype Instant = Instant(date: Date, timeOfDay: int)

  predicate ValidInstant(t: Instant) {
    ValidDate(t.date) && 0 <= t.timeOfDay < TicksPerDay
  }

  // ------------------------------------------------------ digits

  predicate IsDigit(c: char) {
    '0' <= c <= '9'
  }

  /** A non-empty run of decimal digits. */
  predicate Numeral(s: string) {
    |s| > 0 && forall i :: 0 <= i < |s| ==> IsDigit(s[i])
  }

  function NatToString(n: nat): (r: string)
    ensures Numeral(r)
  {
    if n < 10 then [(n + '0' as int) as char]
    else NatToString(n / 10) + [(n % 10 + '0' as int) as char]
  }

  /** `{0:0000}`-style padding: at least `width` digits, zeros in front. */
  function Pad(n: nat, width: nat): (r: string)
    ensures Numeral(r) && |r| >= width
  {
    var digits := NatToString(n);
    if |digits| >= width then digits else seq(width - |digits|, _ => '0') + digits
  }

  /** `Environment.TickCount` formatted with the invariant culture. */
  function IntToString(i: int): (r: string)
    ensures forall k :: 0 <= k < |r| ==> r[k] != '.'
  {
    if i < 0 then "-" + NatToString(-i) else NatToString(i)
  }

  function Pow10(k: nat): (r: nat)
    ensures r >= 1
  {
    if k == 0 then 1 else 10 * Pow10(k - 1)
  }

  lemma {:induction false} NatToStringLength(n: nat, k: nat)
    requires 1 <= k && n < Pow10(k)
    ensures |NatToString(n)| <= k
  {
    if n >= 10 && k >= 2 {
      NatToStringLength(n / 10, k - 1);
    }
  }

  /** Padding a number below 10^width gives exactly `width` digits. */
  lemma PadLength(n: nat, width: nat)
    requires 1 <= width && n < Pow10(width)
    ensures |Pad(n, width)| == width
  {
    NatToStringLength(n, width);
  }

  /** The value of a run of decimal digits. */
  function ParseNat(s: string): nat
    requires forall i :: 0 <= i < |s| ==> IsDigit(s[i])
  {
    if s == [] then 0 else 10 * ParseNat(s[..|s| - 1]) + DigitValue(s[|s| - 1])
  }

  function DigitValue(c: char): nat
    requires IsDigit(c)
  {
    c as int - '0' as int
  }

  lemma {:induction false} ParseNatToString(n: nat)
    ensures ParseNat(NatToString(n)) == n
  {
    if n >= 10 {
      var s := NatToString(n);
      assert s[..|s| - 1] == NatToString(n / 10);
      ParseNatToString(n / 10);
    }
  }

  /** Leading zeros do not change the value. */
  lemma {:induction false} ParseNatLeadingZeros(z: nat, t: string)
    requires forall i :: 0 <= i < |t| ==> IsDigit(t[i])
    ensures ParseNat(seq(z, _ => '0') + t) == ParseNat(t)
    decreases |t|
  {
    var zeros: string := seq(z, _ => '0');
    if t == [] {
      assert zeros + t == zeros;
      ParseNatZeros(z);
    } else {
      var s := zeros + t;
      assert s[..|s| - 1] == zeros + t[..|t| - 1];
      ParseNatLeadingZeros(z, t[..|t| - 1]);
    }
  }

  lemma {:induction false} ParseNatZeros(z: nat)
    ensures ParseNat(seq(z, _ => '0')) == 0
  {
    if z > 0 {
      var s: string := seq(z, _ => '0');
      assert s[..z - 1] == seq(z - 1, _ => '0');
      ParseNatZeros(z - 1);
    }
  }

  lemma ParsePad(n: nat, width: nat)
    ensures ParseNat(Pad(n, width)) == n
  {
    ParseNatToString(n);
    var digits := NatToString(n);
    if |digits| < width {
      ParseNatLeadingZeros(width - |digits|, digits);
    }
  }

  // ------------------------------------------------------ names

  predicate IsSeparator(c: char) {
    c == '\\' || c == '/'
  }

  /** `Path.GetFileName`: what follows the last directory separator. */
  function FileName(path: string): (r: string)
    ensures forall i :: 0 <= i < |r| ==> !IsSeparator(r[i])
  {
    var k := LastIndexOf(path, IsSeparator);
    path[k + 1..]
  }

  /** `Path.GetFileNameWithoutExtension` of a name without separators. */
  function StripExtension(name: string): (r: string)
    ensures |r| <= |name| && r == name[..|r|]
  {
    var dot := LastIndexOf(name, Is('.'));
    if dot < 0 then name else name[..dot]
  }

  /** `{0:yyyy}_{0:MM}_{0:dd}`: always ten characters, digits and '_'. */
  function DateStamp(d: Date): (r: string)
    requires ValidDate(d)
    ensures |r| == 10
    ensures forall i :: 0 <= i < |r| ==> IsDigit(r[i]) || r[i] == '_'
  {
    PadLength(d.year, 4);
    PadLength(d.month, 2);
    PadLength(d.day, 2);
    Pad(d.year, 4) + "_" + Pad(d.month, 2) + "_" + Pad(d.day, 2)
  }

  /** The name of a new backup: `yyyy_MM_dd.<tick>.<name>.json`. */
  function BackupFileName(today: Date, tick: int, name: string): string
    requires ValidDate(today)
  {
    DateStamp(today) + "." + IntToString(tick) + "." + name + ".json"
  }

  /** Every occurrence of `a` replaced by `b` (`string.Replace(char, char)`). */
  function ReplaceChar(s: string, a: char, b: char): (r: string)
    ensures |r| == |s|
    ensures forall i :: 0 <= i < |s| ==> r[i] == if s[i] == a then b else s[i]
  {
    seq(|s|, i requires 0 <= i < |s| => if s[i] == a then b else s[i])
  }

  /**
   * `DateTime.TryParse(text, InvariantCulture)` restricted to the only shape
   * a backup name produces, `y/M/d`: three digit runs separated by '/',
   * forming a date of the calendar.
   */
  function ParseDate(text: string): (r: Option<Date>)
    ensures r.Some? ==> ValidDate(r.value)
  {
    var i := IndexOf(text, Is('/'));
    if i < 0 then None
    else
      var rest := text[i + 1..];
      var j := IndexOf(rest, Is('/'));
      if j < 0 then None
      else
        var y, m, d := text[..i], rest[..j], rest[j + 1..];
        if !(Numeral(y) && Numeral(m) && Numeral(d)) then None
        else
          var date := Date(ParseNat(y), ParseNat(m), ParseNat(d));
          if ValidDate(date) then Some(date) else None
  }

  /**
   * The date a file of the backup directory is dated by: the part of its
   * name (extension removed) before the first '.', with '_' read as '/'.
   * A name without '.' is not a backup. (`Split('.')` on a text without '.'
   * yields that text, so the source's "no part" check never fires.)
   */
  function BackupDate(file: string): (r: Option<Date>)
    ensures r.Some? ==> ValidDate(r.value)
  {
    var name := StripExtension(file);
    var tick := IndexOf(name, Is('.'));
    if tick < 0 then None
    else ParseDate(ReplaceChar(name[..tick], '_', '/'))
  }

  /** Three numerals joined by '/' parse as the date they spell, when it is one. */
  lemma ParseDateOfParts(y: string, m: string, d: string)
    requires Numeral(y) && Numeral(m) && Numeral(d)
    ensures var date := Date(ParseNat(y), ParseNat(m), ParseNat(d));
      ParseDate(y + "/" + m + "/" + d) == if ValidDate(date) then Some(date) else None
  {
    var text := y + "/" + m + "/" + d;
    assert text == y + ("/" + m + "/" + d);
    IndexOfAfter(y, "/" + m + "/" + d, Is('/'));
    var rest := text[|y| + 1..];
    assert rest == m + ("/" + d);
    IndexOfAfter(m, "/" + d, Is('/'));
    assert text[..|y|] == y;
    assert rest[..|m|] == m && rest[|m| + 1..] == d;
  }

  lemma ReplaceInStamp(y: string, m: string, d: string)
    requires Numeral(y) && Numeral(m) && Numeral(d)
    ensures ReplaceChar(y + "_" + m + "_" + d, '_', '/') == y + "/" + m + "/" + d
  {
    var s := y + "_" + m + "_" + d;
    var t := y + "/" + m + "/" + d;
    forall i | 0 <= i < |s|
      ensures ReplaceChar(s, '_', '/')[i] == t[i]
    {
      if i < |y| {
        assert s[i] == y[i] == t[i];
      } else if i == |y| {
      } else if i < |y| + 1 + |m| {
        assert s[i] == m[i - |y| - 1] == t[i];
      } else if i == |y| + 1 + |m| {
      } else {
        assert s[i] == d[i - |y| - |m| - 2] == t[i];
      }
    }
  }

  lemma ParseDateOfStamp(d: Date)
    requires ValidDate(d)
    ensures ParseDate(ReplaceChar(DateStamp(d), '_', '/')) == Some(d)
  {
    var y, m, dd := Pad(d.year, 4), Pad(d.month, 2), Pad(d.day, 2);
    ReplaceInStamp(y, m, dd);
    ParseDateOfParts(y, m, dd);
    ParsePad(d.year, 4);
    ParsePad(d.month, 2);
    ParsePad(d.day, 2);
  }

  /** The date written into a backup's name is the date read back from it. */
  lemma BackupNameRoundTrip(today: Date, tick: int, name: string)
    requires ValidDate(today)
    ensures BackupDate(BackupFileName(today, tick, name)) == Some(today)
  {
    var stamp := DateStamp(today);
    var rest := "." + IntToString(tick) + "." + name;
    var stem := stamp + rest;
    assert BackupFileName(today, tick, name) == stem + ".json";
    StripJsonExtension(stem);
    StampBeforeFirstDot(stamp, rest);
    ParseDateOfStamp(today);
    BackupDateOfStem(stem + ".json", stem, |stamp|);
  }

  /** `BackupDate` once the extension and the first '.' are located. */
  lemma BackupDateOfStem(file: string, stem: string, tick: nat)
    requires StripExtension(file) == stem
    requires IndexOf(stem, Is('.')) == tick
    ensures BackupDate(file) == ParseDate(ReplaceChar(stem[..tick], '_', '/'))
  {
  }

  lemma StripJsonExtension(stem: string)
    ensures StripExtension(stem + ".json") == stem
  {
    assert stem + ".json" == stem + ['.'] + "json";
    LastIndexOfBefore(stem, '.', "json", Is('.'));
  }

  lemma StampBeforeFirstDot(stamp: string, rest: string)
    requires forall i :: 0 <= i < |stamp| ==> IsDigit(stamp[i]) || stamp[i] == '_'
    requires |rest| > 0 && rest[0] == '.'
    ensures IndexOf(stamp + rest, Is('.')) == |stamp|
    ensures (stamp + rest)[..|stamp|] == stamp
  {
    IndexOfAfter(stamp, rest, Is('.'));
  }

  // ------------------------------------------------------ retention

  /** `DateTime.Now - dt` in ticks, for the midnight `dt` of `d`. */
  function Age(now: Instant, d: Date): int
    requires ValidInstant(now) && ValidDate(d)
  {
    (DayNumber(now.date) - DayNumber(d)) * TicksPerDay + now.timeOfDay
  }

  /**
   * Whether the loop deletes `file`: not the backup just written (compared
   * ignoring case), dated by its name, and older than `maxDuration` ticks.
   */
  predicate ShouldDelete(file: string, bakName: string, now: Instant, maxDuration: int)
    requires ValidInstant(now)
  {
    && !EqualsIgnoreCase(file, bakName)
    && BackupDate(file).Some?
    && Age(now, BackupDate(file).value) > maxDuration
  }

  function Doomed(bakName: string, now: Instant, maxDuration: int): string -> bool
    requires ValidInstant(now)
  {
    file => ShouldDelete(file, bakName, now, maxDuration)
  }

  lemma WholeDays(e: int, t: int)
    requires 0 <= t < TicksPerDay
    ensures e * TicksPerDay + t > 0 <==> e > 0 || (e == 0 && t > 0)
  {
    if e >= 1 {
      assert e * TicksPerDay >= TicksPerDay;
    } else if e <= -1 {
      assert e * TicksPerDay <= -TicksPerDay;
    }
  }

  /**
   * With a span of whole days, a backup dated exactly that many days ago is
   * deleted unless it is precisely midnight; older ones always are, younger
   * ones never.
   */
  lemma RetentionInDays(file: string, bakName: string, now: Instant, maxDays: int)
    requires ValidInstant(now)
    requires !EqualsIgnoreCase(file, bakName) && BackupDate(file).Some?
    ensures var days := DayNumber(now.date) - DayNumber(BackupDate(file).value);
      ShouldDelete(file, bakName, now, maxDays * TicksPerDay) <==>
        days > maxDays || (days == maxDays && now.timeOfDay > 0)
  {
    var days := DayNumber(now.date) - DayNumber(BackupDate(file).value);
    WholeDays(days - maxDays, now.timeOfDay);
    assert Age(now, BackupDate(file).value) - maxDays * TicksPerDay
        == (days - maxDays) * TicksPerDay + now.timeOfDay;
  }

  datatype BackupOutcome =
    | NoFilePath                                   // `InvalidOperationException`
    | NothingDone                                  // negative span, missing file, or a swallowed failure
    | Done(bakName: string, deleted: seq<string>)  // the copy's name and the files removed, in listing order

  /**
   * `Backup(maxDuration)`. `isFile` is `PathIsFile(filePath)`; `copied`
   * says whether creating the directory and copying succeeded (a failure
   * there is swallowed); `listing` is the backup directory's file names
   * after the copy.
   */
  function Backup(filePath: Option<string>, isFile: bool, maxDuration: int, now: Instant, tick: int,
                  copied: bool, listing: seq<string>): (r: BackupOutcome)
    requires ValidInstant(now)
    ensures r.NoFilePath? <==> filePath.None?
    ensures r.Done? <==> filePath.Some? && maxDuration >= 0 && isFile && copied
    ensures r.Done? ==> r.bakName == BackupFileName(now.date, tick, StripExtension(FileName(filePath.value)))
    ensures r.Done? ==> BackupDate(r.bakName) == Some(now.date)
    ensures r.Done? ==> r.deleted == Filter(Doomed(r.bakName, now, maxDuration), listing)
    ensures r.Done? ==> forall i :: 0 <= i < |listing| ==>
      (listing[i] in r.deleted <==> ShouldDelete(listing[i], r.bakName, now, maxDuration))
    ensures r.Done? ==> forall i :: 0 <= i < |r.deleted| ==>
      && !EqualsIgnoreCase(r.deleted[i], r.bakName)
      && BackupDate(r.deleted[i]).Some?
      && Age(now, BackupDate(r.deleted[i]).value) > maxDuration
  {
    match filePath
    case None => NoFilePath
    case Some(path) =>
      if maxDuration < 0 || !isFile || !copied then NothingDone
      else
        var bakName := BackupFileName(now.date, tick, StripExtension(FileName(path)));
        BackupNameRoundTrip(now.date, tick, StripExtension(FileName(path)));
        FilterMembers(Doomed(bakName, now, maxDuration), listing);
        Done(bakName, Filter(Doomed(bakName, now, maxDuration), listing))
  }

  /** `Path.Combine(directory, name + ".bak")`: where backups of `filePath` go. */
  function BackupDirectory(directory: string, filePath: string): (r: string)
    ensures FileName(r) == StripExtension(FileName(filePath)) + BackupDirectoryExtension
  {
    var leaf := StripExtension(FileName(filePath)) + BackupDirectoryExtension;
    var r := if directory == [] then leaf
      else if IsSeparator(directory[|directory| - 1]) then directory + leaf
      else directory + "\\" + leaf;
    FileNameOfCombined(directory, leaf);
    r
  }

  lemma FileNameOfCombined(directory: string, leaf: string)
    requires forall i :: 0 <= i < |leaf| ==> !IsSeparator(leaf[i])
    ensures directory == [] ==> FileName(leaf) == leaf
    ensures directory != [] && IsSeparator(directory[|directory| - 1]) ==> FileName(directory + leaf) == leaf
    ensures directory != [] && !IsSeparator(directory[|directory| - 1]) ==> FileName(directory + "\\" + leaf) == leaf
  {
    if directory == [] {
      assert LastIndexOf(leaf, IsSeparator) == -1;
    } else if IsSeparator(directory[|directory| - 1]) {
      var d := directory[..|directory| - 1];
      assert directory + leaf == d + [directory[|directory| - 1]] + leaf;
      LastIndexOfBefore(d, directory[|directory| - 1], leaf, IsSeparator);
    } else {
      assert directory + "\\" + leaf == directory + ['\\'] + leaf;
      LastIndexOfBefore(directory, '\\', leaf, IsSeparator);
    }
  }

  /**
   * A retention example: a 30-day span, taken at noon on
   * 2024-03-31, with backups dated 45, 30 and 10 days earlier. The first two
   * go, the last stays, and the copy just written is never touched.
   */
  lemma RetentionExample()
    ensures var now := Instant(Date(2024, 3, 31), TicksPerDay / 2);
      var bak := BackupFileName(Date(2024, 3, 31), 7, "settings");
      var span := 30 * TicksPerDay;
      && ShouldDelete(BackupFileName(Date(2024, 2, 15), 1, "settings"), bak, now, span)
      && ShouldDelete(BackupFileName(Date(2024, 3, 1), 2, "settings"), bak, now, span)
      && !ShouldDelete(BackupFileName(Date(2024, 3, 21), 3, "settings"), bak, now, span)
      && !ShouldDelete(bak, bak, now, span)
  {
    assert DaysBeforeMonth(2024, 3) == 60 && DaysBeforeMonth(2024, 2) == 31;
    assert DayNumber(Date(2024, 3, 31)) - DayNumber(Date(2024, 2, 15)) == 45;
    assert DayNumber(Date(2024, 3, 31)) - DayNumber(Date(2024, 3, 1)) == 30;
    assert DayNumber(Date(2024, 3, 31)) - DayNumber(Date(2024, 3, 21)) == 10;
    RetentionAtNoon(Date(2024, 2, 15), 1);
    RetentionAtNoon(Date(2024, 3, 1), 2);
    RetentionAtNoon(Date(2024, 3, 21), 3);
  }

  /** One older backup in the example: at noon it goes once it is 30 days old. */
  lemma RetentionAtNoon(d: Date, tick: int)
    requires ValidDate(d) && d != Date(2024, 3, 31)
    ensures ShouldDelete(BackupFileName(d, tick, "settings"), BackupFileName(Date(2024, 3, 31), 7, "settings"),
                         Instant(Date(2024, 3, 31), TicksPerDay / 2), 30 * TicksPerDay)
      <==> DayNumber(Date(2024, 3, 31)) - DayNumber(d) >= 30
  {
    var file := BackupFileName(d, tick, "settings");
    var bak := BackupFileName(Date(2024, 3, 31), 7, "settings");
    BackupNameRoundTrip(d, tick, "settings");
    StampsDiffer(d, Date(2024, 3, 31), tick, 7, "settings");
    RetentionInDays(file, bak, Instant(Date(2024, 3, 31), TicksPerDay / 2), 30);
  }

  /** Backups of different days have names that differ even ignoring case. */
  lemma StampsDiffer(a: Date, b: Date, ta: int, tb: int, name: string)
    requires ValidDate(a) && ValidDate(b) && a != b
    ensures !EqualsIgnoreCase(BackupFileName(a, ta, name), BackupFileName(b, tb, name))
  {
    var x, y := BackupFileName(a, ta, name), BackupFileName(b, tb, name);
    var sa, sb := DateStamp(a), DateStamp(b);
    assert x[..10] == sa && y[..10] == sb;
    FoldStringPrefix(x, 10);
    FoldStringPrefix(y, 10);
    FoldKeepsStamp(sa);
    FoldKeepsStamp(sb);
    ParseDateOfStamp(a);
    ParseDateOfStamp(b);
  }

  /** A stamp holds digits and '_' only, which case folding leaves alone. */
  lemma FoldKeepsStamp(s: string)
    requires forall i :: 0 <= i < |s| ==> IsDigit(s[i]) || s[i] == '_'
    ensures FoldString(s) == s
  {
  }
}
