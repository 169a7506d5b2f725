/** The migrations directory: timestamped schema dumps, one for each change. */
module Migrations {
  import opened Calendar
  import opened Text

  // File names are compared as strings, character by character.

  predicate LexLess(a: string, b: string) {
    b != [] && (a == [] || a[0] < b[0] || (a[0] == b[0] && LexLess(a[1..], b[1..])))
  }

  /** The first difference decides, and a proper beginning comes first. */
  lemma {:induction false} LexAt(a: string, b: string, k: nat)
    requires k <= |a| && k <= |b| && a[..k] == b[..k]
    requires k == |a| || k == |b| || a[k] != b[k]
    ensures LexLess(a, b) <==> k < |b| && (k == |a| || a[k] < b[k])
    decreases k
  {
    if k > 0 {
      assert a[..k][0] == b[..k][0];
      assert a[1..][..k - 1] == a[..k][1..] && b[1..][..k - 1] == b[..k][1..];
      LexAt(a[1..], b[1..], k - 1);
    }
  }

  lemma {:induction false} LexIsTotal(a: string, b: string)
    ensures a == b || LexLess(a, b) || LexLess(b, a)
  {
    if a != [] && b != [] && a[0] == b[0] {
      LexIsTotal(a[1..], b[1..]);
      assert [a[0]] + a[1..] == a && [b[0]] + b[1..] == b;
    }
  }

  lemma {:induction false} LexIsStrict(a: string, b: string)
    requires LexLess(a, b)
    ensures !LexLess(b, a) && a != b
  {
    if a != [] && a[0] == b[0] {
      LexIsStrict(a[1..], b[1..]);
    }
  }

  lemma {:induction false} LexIsTransitive(a: string, b: string, c: string)
    requires LexLess(a, b) && LexLess(b, c)
    ensures LexLess(a, c)
  {
    if a != [] && a[0] == b[0] == c[0] {
      LexIsTransitive(a[1..], b[1..], c[1..]);
    }
  }

  /** With a first part of the same length, that part decides. */
  lemma {:induction false} LexByPart(a: string, b: string, x: string, y: string)
    requires |a| == |b| && (LexLess(a, b) || (a == b && LexLess(x, y)))
    ensures LexLess(a + x, b + y)
  {
    if a == [] {
      assert a + x == x && b + y == y;
    } else {
      assert (a + x)[1..] == a[1..] + x && (b + y)[1..] == b[1..] + y;
      if a[0] == b[0] {
        LexByPart(a[1..], b[1..], x, y);
      }
    }
  }

  // The time stamp: fixed-width decimal fields.

  /** `n` in exactly `width` digits. */
  function Pad(n: nat, width: nat): (s: string)
    ensures |s| == width
  {
    if width == 0 then [] else Pad(n / 10, width - 1) + [DigitChar(n % 10)]
  }

  predicate Fits(n: nat, width: nat) {
    if width == 0 then n == 0 else Fits(n / 10, width - 1)
  }

  lemma {:induction false} PadAscends(a: nat, b: nat, width: nat)
    requires a < b && Fits(b, width)
    ensures LexLess(Pad(a, width), Pad(b, width))
    decreases width
  {
    if width > 0 {
      var x, y := [DigitChar(a % 10)], [DigitChar(b % 10)];
      if a / 10 < b / 10 {
        PadAscends(a / 10, b / 10, width - 1);
      } else {
        assert a / 10 == b / 10 && a % 10 < b % 10;
        assert LexLess(x, y);
      }
      LexByPart(Pad(a / 10, width - 1), Pad(b / 10, width - 1), x, y);
    }
  }

  /** A field followed by the rest of the stamp. */
  lemma FieldDecides(a: nat, b: nat, width: nat, x: string, y: string)
    requires Fits(b, width) && (a < b || (a == b && LexLess(x, y)))
    ensures LexLess(Pad(a, width) + x, Pad(b, width) + y)
  {
    if a < b {
      PadAscends(a, b, width);
    }
    LexByPart(Pad(a, width), Pad(b, width), x, y);
  }

  const DAY: int := 86400

  /** Whole seconds from 1970-01-01T00:00:00 to 9999-12-31T23:59:59. */
  predicate InRange(t: int) {
    0 <= t < ToDays(Date(10000, 1, 1)) * DAY
  }

  type Time = t: int | InRange(t) witness 0

  function ClockText(time: nat): string {
    Pad(time / 3600, 2) + (Pad(time / 60 % 60, 2) + (Pad(time % 60, 2) + "_schema.sql"))
  }

  function DateText(x: Date, rest: string): string
    requires 0 <= x.year && 0 <= x.month && 0 <= x.day
  {
    Pad(x.year, 4) + (Pad(x.month, 2) + (Pad(x.day, 2) + rest))
  }

  lemma YearInRange(t: Time)
    ensures 1970 <= FromDays(t / DAY).year <= 9999 && Valid(FromDays(t / DAY))
  {
    hide FromDays, ToDays;
    assert InRange(t);
    Epoch();
    var day, end := t / DAY, ToDays(Date(10000, 1, 1));
    FromDaysToDays(day);
    if day > 0 {
      FromDaysAscends(0, day);
    }
    ToDaysFromDays(Date(10000, 1, 1));
    FromDaysAscends(day, end);
  }

  /** `%Y%m%d%H%M%S` followed by the fixed suffix. */
  function FileName(t: Time): string {
    YearInRange(t);
    DateText(FromDays(t / DAY), ClockText(t % DAY))
  }

  lemma SmallFits(n: nat)
    ensures n < 100 ==> Fits(n, 2)
    ensures n < 10000 ==> Fits(n, 4)
  {
    assert n < 100 ==> n / 10 / 10 == 0;
    assert n < 10000 ==> n / 10 / 10 / 10 / 10 == 0;
    assert n < 10000 ==> Fits(n / 10 / 10, 2) by {
      assert n < 10000 ==> n / 10 / 10 / 10 / 10 == 0;
    }
  }

  /** Hours, minutes and seconds order the time of day. */
  lemma ClockOrder(a: nat, b: nat)
    requires a < b < DAY
    ensures 0 <= b / 3600 < 24 && 0 <= b / 60 % 60 < 60 && 0 <= b % 60 < 60
    ensures a / 3600 < b / 3600 ||
            (a / 3600 == b / 3600 &&
             (a / 60 % 60 < b / 60 % 60 || (a / 60 % 60 == b / 60 % 60 && a % 60 < b % 60)))
  {
    assert a / 60 / 60 == a / 3600 && b / 60 / 60 == b / 3600;
  }

  lemma ClockAscends(a: nat, b: nat)
    requires a < b < DAY
    ensures LexLess(ClockText(a), ClockText(b))
  {
    hide Pad, LexLess, Fits;
    ClockOrder(a, b);
    FieldsAscend(a / 3600, b / 3600, a / 60 % 60, b / 60 % 60, a % 60, b % 60, "_schema.sql", "_schema.sql");
  }

  /** Three two-digit fields in order of weight. */
  lemma FieldsAscend(a1: nat, b1: nat, a2: nat, b2: nat, a3: nat, b3: nat, x: string, y: string)
    requires b1 < 100 && b2 < 100 && b3 < 100
    requires a1 < b1 || (a1 == b1 && (a2 < b2 || (a2 == b2 && (a3 < b3 || (a3 == b3 && LexLess(x, y))))))
    ensures LexLess(Pad(a1, 2) + (Pad(a2, 2) + (Pad(a3, 2) + x)), Pad(b1, 2) + (Pad(b2, 2) + (Pad(b3, 2) + y)))
  {
    hide Pad, LexLess, Fits;
    SmallFits(b1);
    SmallFits(b2);
    SmallFits(b3);
    if a1 == b1 && a2 == b2 {
      FieldDecides(a3, b3, 2, x, y);
    }
    if a1 == b1 {
      FieldDecides(a2, b2, 2, Pad(a3, 2) + x, Pad(b3, 2) + y);
    }
    FieldDecides(a1, b1, 2, Pad(a2, 2) + (Pad(a3, 2) + x), Pad(b2, 2) + (Pad(b3, 2) + y));
  }

  lemma DateTextAscends(a: Date, b: Date, x: string, y: string)
    requires Valid(a) && Valid(b) && 0 <= a.year && 0 <= b.year <= 9999
    requires Before(a, b) || (a == b && LexLess(x, y))
    ensures LexLess(DateText(a, x), DateText(b, y))
  {
    hide Pad, LexLess, Fits, IsLeap;
    SmallFits(b.year);
    SmallFits(b.month);
    SmallFits(b.day);
    if a.year == b.year && a.month == b.month {
      FieldDecides(a.day, b.day, 2, x, y);
    }
    if a.year == b.year {
      FieldDecides(a.month, b.month, 2, Pad(a.day, 2) + x, Pad(b.day, 2) + y);
    }
    FieldDecides(a.year, b.year, 4, Pad(a.month, 2) + (Pad(a.day, 2) + x), Pad(b.month, 2) + (Pad(b.day, 2) + y));
  }

  /** File-name order is time order. */
  lemma NamesAscend(s: Time, t: Time)
    requires s < t
    ensures LexLess(FileName(s), FileName(t))
  {
    hide FromDays, ToDays, LexLess, DateText, ClockText;
    YearInRange(s);
    YearInRange(t);
    if s / DAY < t / DAY {
      FromDaysAscends(s / DAY, t / DAY);
    } else {
      ClockAscends(s % DAY, t % DAY);
    }
    DateTextAscends(FromDays(s / DAY), FromDays(t / DAY), ClockText(s % DAY), ClockText(t % DAY));
  }

  // Reading a name: fourteen digits and the suffix tell the moment.

  datatype Stamp = Stamp(year: nat, month: nat, day: nat, hour: nat, minute: nat, second: nat)

  /** The number in the first `width` characters, and what follows. */
  function ReadFixed(s: string, width: nat): Option<(nat, string)> {
    if |s| >= width && AllDigits(s[..width]) then Some((NumberOf(s[..width]), s[width..])) else None
  }

  function ReadStamp(name: string): Option<Stamp> {
    var (year, s1) :- ReadFixed(name, 4);
    var (month, s2) :- ReadFixed(s1, 2);
    var (day, s3) :- ReadFixed(s2, 2);
    var (hour, s4) :- ReadFixed(s3, 2);
    var (minute, s5) :- ReadFixed(s4, 2);
    var (second, s6) :- ReadFixed(s5, 2);
    if s6 == "_schema.sql" then Some(Stamp(year, month, day, hour, minute, second)) else None
  }

  /** The stamp is the calendar date and the time of day of second `t` since 1970. */
  predicate Tells(x: Stamp, t: int) {
    && Valid(Date(x.year, x.month, x.day)) && x.hour < 24 && x.minute < 60 && x.second < 60
    && t == ToDays(Date(x.year, x.month, x.day)) * 86400 + x.hour * 3600 + x.minute * 60 + x.second
  }

  lemma {:induction false} PadReadsBack(n: nat, width: nat)
    requires Fits(n, width)
    ensures AllDigits(Pad(n, width)) && NumberOf(Pad(n, width)) == n
    decreases width
  {
    if width > 0 {
      PadReadsBack(n / 10, width - 1);
      assert Pad(n, width)[..width - 1] == Pad(n / 10, width - 1);
    }
  }

  lemma FixedReads(n: nat, width: nat, rest: string)
    requires Fits(n, width)
    ensures ReadFixed(Pad(n, width) + rest, width) == Some((n, rest))
  {
    hide Pad, Fits, NumberOf;
    PadReadsBack(n, width);
    assert (Pad(n, width) + rest)[..width] == Pad(n, width) && (Pad(n, width) + rest)[width..] == rest;
  }

  lemma ClockParts(time: nat)
    requires time < DAY
    ensures time / 3600 < 24 && time / 60 % 60 < 60 && time % 60 < 60
    ensures time == time / 3600 * 3600 + time / 60 % 60 * 60 + time % 60
  {
    assert time / 60 / 60 == time / 3600;
  }

  lemma TwoDigitsRead(n: nat, rest: string)
    requires n < 100
    ensures ReadFixed(Pad(n, 2) + rest, 2) == Some((n, rest))
  {
    SmallFits(n);
    FixedReads(n, 2, rest);
  }

  lemma ClockReads(time: nat)
    requires time < DAY
    ensures var s3 := ReadFixed(ClockText(time), 2);
            && s3.Some? && s3.value.0 == time / 3600
            && var s4 := ReadFixed(s3.value.1, 2);
            && s4.Some? && s4.value.0 == time / 60 % 60
            && ReadFixed(s4.value.1, 2) == Some((time % 60, "_schema.sql"))
  {
    hide Pad, ReadFixed;
    ClockParts(time);
    var s5 := Pad(time % 60, 2) + "_schema.sql";
    var s4 := Pad(time / 60 % 60, 2) + s5;
    TwoDigitsRead(time / 3600, s4);
    TwoDigitsRead(time / 60 % 60, s5);
    TwoDigitsRead(time % 60, "_schema.sql");
  }

  /** The name of a run's file reads back as the moment of the run. */
  lemma NameReadsBack(t: Time)
    ensures ReadStamp(FileName(t)).Some? && Tells(ReadStamp(FileName(t)).value, t)
  {
    hide FromDays, ToDays, Pad, IsLeap, ReadFixed, ClockText, Fits;
    YearInRange(t);
    var x, time := FromDays(t / DAY), t % DAY;
    FromDaysToDays(t / DAY);
    ClockParts(time);
    SmallFits(x.year);
    var clock := ClockText(time);
    FixedReads(x.year, 4, Pad(x.month, 2) + (Pad(x.day, 2) + clock));
    TwoDigitsRead(x.month, Pad(x.day, 2) + clock);
    TwoDigitsRead(x.day, clock);
    ClockReads(time);
  }

  // The directory and one `migrate` run on it.

  datatype Entry = Regular(contents: string) | Other

  type Directory = map<string, Entry>

  /** A regular file with the extension `.sql`; a bare `.sql` has no extension. */
  predicate IsMigration(dir: Directory, name: string) {
    name in dir && dir[name].Regular? && |name| > 4 && name[|name| - 4..] == ".sql"
  }

  ghost predicate IsLast(dir: Directory, name: string) {
    IsMigration(dir, name) && forall other :: IsMigration(dir, other) && other != name ==> LexLess(other, name)
  }

  /** Anything but a regular file with a name and `.sql` after it is as if it were not there. */
  lemma StraysDoNotCount(dir: Directory, name: string, entry: Entry, last: string)
    requires name !in dir && (entry.Other? || |name| <= 4 || name[|name| - 4..] != ".sql")
    ensures IsLast(dir[name := entry], last) <==> IsLast(dir, last)
  {
    hide LexLess;
    var more := dir[name := entry];
    assert forall other :: IsMigration(more, other) <==> IsMigration(dir, other);
  }

  /** A regular `.sql` file counts, and the lexically greater of it and the last one is the last. */
  lemma LastOfMore(dir: Directory, name: string, contents: string, last: string)
    requires name !in dir && |name| > 4 && name[|name| - 4..] == ".sql" && IsLast(dir, last)
    ensures IsLast(dir[name := Regular(contents)], if LexLess(last, name) then name else last)
  {
    hide LexLess;
    var more := dir[name := Regular(contents)];
    assert forall other :: IsMigration(more, other) <==> other == name || IsMigration(dir, other);
    if LexLess(last, name) {
      forall other | IsMigration(more, other) && other != name
        ensures LexLess(other, name)
      {
        if other != last {
          LexIsTransitive(other, last, name);
        }
      }
    } else {
      LexIsTotal(last, name);
    }
  }

  /** Scans the directory in any order for the lexically last migration. */
  method FindLastMigration(dir: Directory) returns (last: Option<string>)
    ensures last.Some? ==> IsLast(dir, last.value)
    ensures last.None? ==> forall name :: !IsMigration(dir, name)
  {
    hide LexLess;
    last := None;
    var todo := dir.Keys;
    while todo != {}
      invariant todo <= dir.Keys
      invariant last.None? ==> forall name :: IsMigration(dir, name) ==> name in todo
      invariant last.Some? ==> IsMigration(dir, last.value) && last.value !in todo
      invariant last.Some? ==> forall name :: IsMigration(dir, name) && name !in todo && name != last.value ==>
                  LexLess(name, last.value)
      decreases todo
    {
      var name :| name in todo;
      todo := todo - {name};
      if !IsMigration(dir, name) {
        continue;
      }
      if last.None? || LexLess(last.value, name) {
        if last.Some? {
          forall other | IsMigration(dir, other) && other !in todo && other != name && other != last.value
            ensures LexLess(other, name)
          {
            LexIsTransitive(other, last.value, name);
          }
        }
        last := Some(name);
      } else {
        LexIsTotal(last.value, name);
      }
    }
  }

  lemma LastIsUnique(dir: Directory, a: string, b: string)
    requires IsLast(dir, a) && IsLast(dir, b)
    ensures a == b
  {
    hide LexLess;
    if a != b {
      LexIsStrict(a, b);
    }
  }

  /** The last migration has the dump's checksum. */
  ghost predicate SameAsLast(dir: Directory, hash: string -> string, dump: string) {
    exists last :: IsLast(dir, last) && hash(dir[last].contents) == hash(dump)
  }

  /** One run of the command. Whether the file system lets it open a new file is up to the environment. */
  datatype Run = Run(time: Time, dump: string, opens: bool)

  /** The new file can be written: the environment allows it, and nothing but a regular file has its name. */
  predicate Writable(dir: Directory, run: Run) {
    run.opens && !(FileName(run.time) in dir && dir[FileName(run.time)].Other?)
  }

  /** The directory after one run: unchanged if the last migration has the dump's checksum or the file cannot be written,
      else with a new file. */
  ghost predicate Migrated(before: Directory, after: Directory, hash: string -> string, run: Run) {
    if SameAsLast(before, hash, run.dump) || !Writable(before, run) then after == before
    else after == before[FileName(run.time) := Regular(run.dump)]
  }

  class MigrationsDirectory {
    var entries: Directory

    constructor ()
      ensures entries == map[]
    {
      entries := map[];
    }

    /** False when the file cannot be written. */
    method Migrate(hash: string -> string, run: Run) returns (ok: bool)
      modifies this
      ensures Migrated(old(entries), entries, hash, run)
      ensures ok <==> SameAsLast(old(entries), hash, run.dump) || Writable(old(entries), run)
    {
      hide LexLess;
      var checksum := hash(run.dump);
      var last := FindLastMigration(entries);
      if last.Some? {
        if hash(entries[last.value].contents) == checksum {
          return true;
        }
        forall other | IsLast(entries, other) ensures other == last.value {
          LastIsUnique(entries, other, last.value);
        }
      }
      if !Writable(entries, run) {
        return false;
      }
      entries := entries[FileName(run.time) := Regular(run.dump)];
      return true;
    }
  }

  // Whole runs from an empty directory.

  predicate TimesRise(runs: seq<Run>) {
    forall i, j :: 0 <= i < j < |runs| ==> runs[i].time < runs[j].time
  }

  ghost predicate Injective(hash: string -> string) {
    forall a, b :: hash(a) == hash(b) ==> a == b
  }

  /** `dirs[k]` is the directory before run `k`, `dirs[k + 1]` after it. */
  ghost predicate IsRun(dirs: seq<Directory>, runs: seq<Run>, hash: string -> string) {
    && |dirs| == |runs| + 1 && dirs[0] == map[]
    && TimesRise(runs)
    && forall k :: 0 <= k < |runs| ==> Migrated(dirs[k], dirs[k + 1], hash, runs[k])
  }

  /** The latest run that could open its file. */
  function LatestOpened(runs: seq<Run>): Option<Run> {
    if runs == [] then None
    else
      var run := runs[|runs| - 1];
      if run.opens then Some(run) else LatestOpened(runs[..|runs| - 1])
  }

  /** The runs that could open their file and whose dump differs from the one before them among these. */
  function Changes(runs: seq<Run>): (changes: seq<Run>)
    ensures changes == [] <==> LatestOpened(runs).None?
    ensures changes != [] ==> changes[|changes| - 1].dump == LatestOpened(runs).value.dump
    ensures forall i :: 0 <= i < |changes| ==> changes[i] in runs && changes[i].opens
    ensures forall i :: 0 < i < |changes| ==> changes[i - 1].dump != changes[i].dump
  {
    if runs == [] then []
    else
      var n := |runs| - 1;
      var earlier := Changes(runs[..n]);
      if !runs[n].opens || (earlier != [] && earlier[|earlier| - 1].dump == runs[n].dump) then earlier
      else earlier + [runs[n]]
  }

  /** The directory holds exactly the changes, each under its own time. */
  ghost predicate Holds(dir: Directory, changes: seq<Run>) {
    && (forall name :: name in dir ==> exists i :: 0 <= i < |changes| && name == FileName(changes[i].time))
    && (forall i :: 0 <= i < |changes| ==>
          && FileName(changes[i].time) in dir
          && dir[FileName(changes[i].time)] == Regular(changes[i].dump))
  }

  lemma {:induction false} ChangesRise(runs: seq<Run>)
    requires TimesRise(runs)
    ensures TimesRise(Changes(runs))
    decreases |runs|
  {
    if runs != [] {
      ChangesRise(runs[..|runs| - 1]);
    }
  }

  lemma NameIsSql(t: Time)
    ensures |FileName(t)| > 4 && FileName(t)[|FileName(t)| - 4..] == ".sql"
  {
    hide FromDays, ToDays;
    YearInRange(t);
    var s := FileName(t);
    assert s[|s| - 11..] == "_schema.sql";
    assert s[|s| - 4..] == s[|s| - 11..][7..];
  }

  /** In a directory of changes the last file is the latest change. */
  lemma LatestIsLast(dir: Directory, changes: seq<Run>)
    requires TimesRise(changes) && changes != [] && Holds(dir, changes)
    ensures IsLast(dir, FileName(changes[|changes| - 1].time))
  {
    hide FileName, LexLess;
    var n := |changes| - 1;
    NameIsSql(changes[n].time);
    forall other | IsMigration(dir, other) && other != FileName(changes[n].time)
      ensures LexLess(other, FileName(changes[n].time))
    {
      var i :| 0 <= i < |changes| && other == FileName(changes[i].time);
      NamesAscend(changes[i].time, changes[n].time);
    }
  }

  /** The checksum test finds out whether the dump has changed. */
  lemma ChecksumTellsChange(dir: Directory, changes: seq<Run>, hash: string -> string, dump: string)
    requires TimesRise(changes) && Holds(dir, changes) && Injective(hash)
    ensures SameAsLast(dir, hash, dump) <==>
            changes != [] && changes[|changes| - 1].dump == dump
  {
    hide FileName, LexLess;
    if changes == [] {
      assert forall name :: !IsMigration(dir, name);
    } else {
      var last := FileName(changes[|changes| - 1].time);
      LatestIsLast(dir, changes);
      forall other | IsLast(dir, other) ensures other == last {
        LastIsUnique(dir, other, last);
      }
    }
  }

  lemma NewNameIsFresh(dir: Directory, changes: seq<Run>, run: Run)
    requires TimesRise(changes + [run]) && TimesRise(changes) && Holds(dir, changes)
    ensures FileName(run.time) !in dir
  {
    hide FileName, LexLess;
    if FileName(run.time) in dir {
      var i :| 0 <= i < |changes| && FileName(run.time) == FileName(changes[i].time);
      assert (changes + [run])[i] == changes[i] && (changes + [run])[|changes|] == run;
      NamesAscend(changes[i].time, run.time);
      LexIsStrict(FileName(changes[i].time), FileName(run.time));
    }
  }

  lemma ChangeIsAdded(dir: Directory, changes: seq<Run>, run: Run)
    requires Holds(dir, changes) && FileName(run.time) !in dir
    ensures Holds(dir[FileName(run.time) := Regular(run.dump)], changes + [run])
  {
    hide FileName;
    var all, after := changes + [run], dir[FileName(run.time) := Regular(run.dump)];
    assert all[|changes|] == run;
    forall name | name in after
      ensures exists i :: 0 <= i < |all| && name == FileName(all[i].time)
    {
      if name != FileName(run.time) {
        var i :| 0 <= i < |changes| && name == FileName(changes[i].time);
        assert all[i] == changes[i];
      }
    }
  }

  /** One more run on a directory of changes. */
  lemma OneMoreRun(before: Directory, after: Directory, hash: string -> string, runs: seq<Run>)
    requires runs != [] && TimesRise(runs) && Injective(hash)
    requires TimesRise(Changes(runs[..|runs| - 1])) && TimesRise(Changes(runs))
    requires Holds(before, Changes(runs[..|runs| - 1]))
    requires Migrated(before, after, hash, runs[|runs| - 1])
    ensures Holds(after, Changes(runs))
  {
    hide FileName, LexLess, Holds, IsLast, Injective, SameAsLast;
    var run, earlier := runs[|runs| - 1], Changes(runs[..|runs| - 1]);
    ChecksumTellsChange(before, earlier, hash, run.dump);
    if run.opens && (earlier == [] || earlier[|earlier| - 1].dump != run.dump) {
      NewNameIsFresh(before, earlier, run);
      ChangeIsAdded(before, earlier, run);
    }
  }

  /** After every run of a sequence from an empty directory: the directory holds exactly the changes so far, ... */
  lemma {:induction false} RunsHoldChanges(dirs: seq<Directory>, runs: seq<Run>, hash: string -> string)
    requires IsRun(dirs, runs, hash) && Injective(hash)
    ensures TimesRise(Changes(runs)) && Holds(dirs[|runs|], Changes(runs))
    decreases |runs|
  {
    hide FileName, Migrated, Holds;
    ChangesRise(runs);
    if runs == [] {
      EmptyHolds();
    } else {
      var n := |runs| - 1;
      ChangesRise(runs[..n]);
      RunsHoldChanges(dirs[..n + 1], runs[..n], hash);
      OneMoreRun(dirs[n], dirs[n + 1], hash, runs);
    }
  }

  lemma EmptyHolds()
    ensures Holds(map[], [])
  {
  }

  /** ... its lexically last file holds the dump of the latest run that could write, names sort as their times, and
      neighbours differ. */
  lemma RunsKeepHistory(dirs: seq<Directory>, runs: seq<Run>, hash: string -> string)
    requires IsRun(dirs, runs, hash) && Injective(hash) && LatestOpened(runs).Some?
    ensures exists last :: IsLast(dirs[|runs|], last) && dirs[|runs|][last] == Regular(LatestOpened(runs).value.dump)
    ensures TimesRise(Changes(runs)) && Holds(dirs[|runs|], Changes(runs))
    ensures forall i, j :: 0 <= i < j < |Changes(runs)| ==>
              LexLess(FileName(Changes(runs)[i].time), FileName(Changes(runs)[j].time))
    ensures forall i :: 0 < i < |Changes(runs)| ==> Changes(runs)[i - 1].dump != Changes(runs)[i].dump
  {
    hide FileName, LexLess, Migrated, IsLast, Injective;
    RunsHoldChanges(dirs, runs, hash);
    LatestIsLast(dirs[|runs|], Changes(runs));
    AllNamesAscend(Changes(runs));
  }

  lemma AllNamesAscend(changes: seq<Run>)
    requires TimesRise(changes)
    ensures forall i, j :: 0 <= i < j < |changes| ==> LexLess(FileName(changes[i].time), FileName(changes[j].time))
  {
    hide FileName, LexLess;
    forall i, j | 0 <= i < j < |changes|
      ensures LexLess(FileName(changes[i].time), FileName(changes[j].time))
    {
      NamesAscend(changes[i].time, changes[j].time);
    }
  }
}
