/**
 * `clean_log_files`: archive last month's log files per logger, then remove
 * the archives of months a year or more before it. The clock reading and the
 * two `glob` listings are parameters.
 */
module CleanUp {
  import opened Text
  import opened Calendar
  import opened MonthFormat
  import opened Occurrence
  import opened Jobs


  /** Months counted from January of year 0. */
  function MonthNumber(year: int, month: int): int {
    12 * year + month - 1
  }

  /** `now.replace(day=1) - timedelta(days=1)`: the last day of the month
      before `now`, at the same time of day; None where that falls before
      year 1 and Python raises OverflowError. */
  function PreviousMonth(now: Moment): (p: Option<Moment>)
    requires Representable(now)
    ensures p.None? <==> now.date.year == 1 && now.date.month == 1
    ensures p.Some? ==>
      && Representable(p.value) && p.value.micros == now.micros
      && MonthNumber(p.value.date.year, p.value.date.month) + 1 == MonthNumber(now.date.year, now.date.month)
      && p.value.date.day == DaysInMonth(p.value.date.year, p.value.date.month)
  {
    var first := now.date.(day := 1);
    var last := PrevDay(first);
    if last.year < 1 then None else Some(Moment(last, now.micros))
  }

  /** The month stamp of a date-time. */
  function MonthOf(t: Moment): (ym: YearMonth)
    requires Representable(t)
    ensures ValidYearMonth(ym)
  {
    YearMonth(t.date.year, t.date.month)
  }

  /** `f"{month}.{key}.logs.zip"`. */
  function ArchiveName(month: string, key: string): string {
    month + "." + key + ".logs.zip"
  }

  /** `os.path.join(BASE_DIR, "logs", key, name)`. */
  function ArchiveLocation(base: string, month: string, key: string): string {
    PathJoin(PathJoin(PathJoin(base, "logs"), key), ArchiveName(month, key))
  }

  /** The stamp at the head of an archive's basename is the month it was
      written for, and `strptime` reads that month back. */
  lemma ArchiveStem(base: string, ym: YearMonth, key: string)
    requires ValidYearMonth(ym) && '/' !in key
    ensures var month := FormatYearMonth(ym);
      Stem(ArchiveLocation(base, month, key)) == month
      && ParseYearMonth(Stem(ArchiveLocation(base, month, key))) == Parsed(ym)
  {
    var month := FormatYearMonth(ym);
    var rest := key + ".logs.zip";
    assert ArchiveName(month, key) == month + "." + rest;
    assert forall i :: 0 <= i < |month| ==> month[i] != '/' && month[i] != '.';
    assert forall i :: 0 <= i < |rest| ==> rest[i] != '/' by {
      assert forall i :: |key| <= i < |rest| ==> rest[i] == ".logs.zip"[i - |key|];
    }
    StemOfLogFile(PathJoin(PathJoin(base, "logs"), key), month, rest);
    ParseFormat(ym);
  }

  // ---------------------------------------------------------------------
  // The expiry cutoff

  /** `previous_month.replace(year=previous_month.year - 1)` as written:
      None where Python raises ValueError, for a 29 February whose year
      before has none, and for year 0. */
  function CutoffAsWritten(prev: Moment): (c: Option<Moment>)
    requires ValidMoment(prev)
    ensures c.None? <==>
      prev.date.year <= 1 || (prev.date.month == 2 && prev.date.day == 29 && !IsLeap(prev.date.year - 1))
    ensures c.Some? ==> c.value == Moment(prev.date.(year := prev.date.year - 1), prev.micros)
  {
    var d := prev.date.(year := prev.date.year - 1);
    if d.year < 1 || !Valid(d) then None else Some(Moment(d, prev.micros))
  }

  /** The cutoff corrected: the same day of the same month a year earlier,
      moved back to that month's last day where the day does not exist. */
  function Cutoff(prev: Moment): (c: Option<Moment>)
    requires ValidMoment(prev)
    ensures c.Some? <==> prev.date.year >= 2
    ensures c.Some? ==>
      && ValidMoment(c.value) && c.value.micros == prev.micros
      && c.value.date.year == prev.date.year - 1 && c.value.date.month == prev.date.month
      && (c.value.date.day == prev.date.day || c.value.date.day == DaysInMonth(c.value.date.year, c.value.date.month) < prev.date.day)
  {
    var y := prev.date.year - 1;
    if y < 1 then None
    else
      var last := DaysInMonth(y, prev.date.month);
      Some(Moment(Date(y, prev.date.month, if prev.date.day <= last then prev.date.day else last), prev.micros))
  }

  /** Every March of a leap year the previous month ends on 29 February,
      which the year before does not have: the cutoff as written raises. */
  lemma MarchOfLeapYearRaises(now: Moment)
    requires Representable(now) && now.date.month == 3 && IsLeap(now.date.year)
    ensures PreviousMonth(now).Some?
    ensures var prev := PreviousMonth(now).value;
      prev.date == Date(now.date.year, 2, 29) && CutoffAsWritten(prev).None? && Cutoff(prev).Some?
  {
    var y := now.date.year;
    assert y % 4 == 0;
    assert (y - 1) % 4 == 3;
  }

  /** Where the cutoff as written exists, the corrected one is the same. */
  lemma CutoffAgrees(prev: Moment)
    requires ValidMoment(prev) && CutoffAsWritten(prev).Some?
    ensures Cutoff(prev) == CutoffAsWritten(prev)
  {
  }

  /** With the cutoff taken from a previous month's last day, an archive
      expires exactly when its month lies twelve or more months before that
      previous month: the twelve months up to it are kept. */
  lemma ExpiryKeepsTwelveMonths(prev: Moment, ym: YearMonth)
    requires ValidMoment(prev) && prev.date.year >= 2 && prev.date.day >= 2 && ValidYearMonth(ym)
    ensures Before(Creation(ym), Cutoff(prev).value) <==>
      MonthNumber(ym.year, ym.month) <= MonthNumber(prev.date.year, prev.date.month) - 12
  {
    var c := Cutoff(prev).value;
    assert c.date.day >= 2;
  }

  /** The archive written for the previous month never expires under the cutoff. */
  lemma FreshArchiveKept(base: string, prev: Moment, key: string)
    requires Representable(prev) && prev.date.year >= 2 && prev.date.day >= 2 && '/' !in key
    ensures !Expired(ArchiveLocation(base, FormatYearMonth(MonthOf(prev)), key), Cutoff(prev).value)
  {
    ArchiveStem(base, MonthOf(prev), key);
    ExpiryKeepsTwelveMonths(prev, MonthOf(prev));
  }

  // ---------------------------------------------------------------------
  // The archiving loop

  /** The paths filed under the keys `keys`. */
  function Grouped<K, T>(keys: seq<K>, groups: map<K, seq<T>>): set<T> {
    if keys == [] then {}
    else
      var g := keys[|keys| - 1];
      Grouped(keys[..|keys| - 1], groups) + (if g in groups then set x | x in groups[g] else {})
  }

  lemma {:induction false} GroupedMembers<K, T>(keys: seq<K>, groups: map<K, seq<T>>, x: T)
    ensures x in Grouped(keys, groups) <==> exists i :: 0 <= i < |keys| && keys[i] in groups && x in groups[keys[i]]
  {
    if keys != [] {
      var n := |keys| - 1;
      GroupedMembers(keys[..n], groups, x);
      if x in Grouped(keys, groups) && x !in Grouped(keys[..n], groups) {
        assert keys[n] in groups && x in groups[keys[n]];
      }
      if exists i :: 0 <= i < |keys| && keys[i] in groups && x in groups[keys[i]] {
        var i :| 0 <= i < |keys| && keys[i] in groups && x in groups[keys[i]];
        if i < n {
          assert keys[..n][i] == keys[i];
        }
      }
    }
  }

  /** The archives still standing once the keys `keys` are archived, each
      at its own location: those whose key's files do not include the
      archive's own path. */
  function Kept<K, T>(keys: seq<K>, groups: map<K, seq<T>>, locations: seq<T>): set<T>
    requires |locations| == |keys|
  {
    if keys == [] then {}
    else
      var n := |keys| - 1;
      Kept(keys[..n], groups, locations[..n])
        + (if keys[n] in groups && locations[n] in groups[keys[n]] then {} else {locations[n]})
  }

  lemma {:induction false} KeptMembers<K, T>(keys: seq<K>, groups: map<K, seq<T>>, locations: seq<T>)
    requires |locations| == |keys| && NoDups(locations)
    ensures forall x :: x in Kept(keys, groups, locations) ==> x in locations
    ensures forall i :: 0 <= i < |keys| ==>
      (locations[i] in Kept(keys, groups, locations) <==> !(keys[i] in groups && locations[i] in groups[keys[i]]))
  {
    if keys != [] {
      var n := |keys| - 1;
      var locs := locations[..n];
      KeptMembers(keys[..n], groups, locs);
      forall i | 0 <= i < n
        ensures locations[i] == locs[i] && keys[i] == keys[..n][i] && locations[i] != locations[n]
      {
      }
      forall x | x in locs
        ensures x in locations
      {
        var i :| 0 <= i < n && locs[i] == x;
      }
    }
  }

  /** One more key archived. Its archive is written and stands unless it
      was among the key's own files; the key's files are gone unless one is
      an archive still standing. Stated over any paths and keys, for the
      disk before the loop (`files`, `zips`), before this step (`files1`,
      `zips1`) and after it (`files2`, `zips2`). */
  lemma ArchiveStep<K, T>(keys: seq<K>, groups: map<K, seq<T>>, locations: seq<T>, j: int,
                          files: set<T>, zips: set<T>, files1: set<T>, zips1: set<T>,
                          archived: seq<T>, files2: set<T>, zips2: set<T>)
    requires 0 <= j < |keys| == |locations| && keys[j] in groups && NoDups(locations)
    requires forall f :: f in groups[keys[j]] ==> f in files && f !in zips && f !in Grouped(keys[..j], groups)
    requires forall x :: x in zips1 <==> x in zips || x in Kept(keys[..j], groups, locations[..j])
    requires forall x :: x in files1 <==> x in Kept(keys[..j], groups, locations[..j]) || (x in files && x !in Grouped(keys[..j], groups))
    requires forall f :: f in archived <==> f in groups[keys[j]] && (f == locations[j] || (f in files1 && f !in zips1))
    requires forall x :: x in files2 <==> (x in files1 || x == locations[j]) && x !in archived
    requires forall x :: x in zips2 <==> (x in zips1 || x == locations[j]) && x !in archived
    ensures forall x :: x in zips2 <==> x in zips || x in Kept(keys[..j + 1], groups, locations[..j + 1])
    ensures forall x :: x in files2 <==> x in Kept(keys[..j + 1], groups, locations[..j + 1]) || (x in files && x !in Grouped(keys[..j + 1], groups))
  {
    assert keys[..j + 1][..j] == keys[..j];
    assert locations[..j + 1][..j] == locations[..j];
    var locs := locations[..j];
    assert NoDups(locs) by {
      forall a, b | 0 <= a < b < j
        ensures locs[a] != locs[b]
      {
        assert locs[a] == locations[a] && locs[b] == locations[b];
      }
    }
    KeptMembers(keys[..j], groups, locs);
    assert locations[j] !in locs by {
      forall i | 0 <= i < j
        ensures locs[i] != locations[j]
      {
        assert locs[i] == locations[i];
      }
    }
  }

  /** Where each key's archive goes. */
  function Locations(base: string, month: string, keys: seq<string>): (r: seq<string>)
    ensures |r| == |keys| && forall i :: 0 <= i < |keys| ==> r[i] == ArchiveLocation(base, month, keys[i])
  {
    seq(|keys|, i requires 0 <= i < |keys| => ArchiveLocation(base, month, keys[i]))
  }

  /** The archive's basename, which names the logger, is the last
      component of its location. */
  lemma ArchiveNameLast(base: string, ym: YearMonth, key: string)
    requires ValidYearMonth(ym) && '/' !in key
    ensures AfterLast(ArchiveLocation(base, FormatYearMonth(ym), key), '/') == ArchiveName(FormatYearMonth(ym), key)
  {
    var month := FormatYearMonth(ym);
    var name := ArchiveName(month, key);
    assert forall i :: 0 <= i < |month| ==> month[i] != '/';
    assert forall i :: 0 <= i < |name| ==> name[i] != '/' by {
      forall i | 0 <= i < |name|
        ensures name[i] != '/'
      {
        if i < |month| {
          assert name[i] == month[i];
        } else if |month| + 1 <= i < |month| + 1 + |key| {
          assert name[i] == key[i - |month| - 1];
        }
      }
    }
    assert name[0] == month[0];
    PathJoinLast(PathJoin(PathJoin(base, "logs"), key), name);
  }

  /** Different loggers' archives for one month are at different locations. */
  lemma LocationsApart(base: string, ym: YearMonth, k1: string, k2: string)
    requires ValidYearMonth(ym) && '/' !in k1 && '/' !in k2
    requires ArchiveLocation(base, FormatYearMonth(ym), k1) == ArchiveLocation(base, FormatYearMonth(ym), k2)
    ensures k1 == k2
  {
    ArchiveNameLast(base, ym, k1);
    ArchiveNameLast(base, ym, k2);
    NamesApart(FormatYearMonth(ym), k1, k2);
  }

  /** The logger can be read back from the archive's basename. */
  lemma NamesApart(month: string, k1: string, k2: string)
    requires ArchiveName(month, k1) == ArchiveName(month, k2)
    ensures k1 == k2
  {
    var n1, n2 := ArchiveName(month, k1), ArchiveName(month, k2);
    assert |k1| == |k2|;
    assert k1 == n1[|month| + 1..|month| + 1 + |k1|];
    assert k2 == n2[|month| + 1..|month| + 1 + |k2|];
  }

  lemma LocationsDistinct(base: string, ym: YearMonth, keys: seq<string>)
    requires ValidYearMonth(ym) && NoDups(keys) && forall k :: k in keys ==> '/' !in k
    ensures NoDups(Locations(base, FormatYearMonth(ym), keys))
  {
    var r := Locations(base, FormatYearMonth(ym), keys);
    forall i, j | 0 <= i < j < |r|
      ensures r[i] != r[j]
    {
      if r[i] == r[j] {
        LocationsApart(base, ym, keys[i], keys[j]);
      }
    }
  }

  /** Groups filed by key under different keys share no path, and every
      grouped path is an existing plain file. */
  lemma GroupApart<K, T>(key: T -> K, keys: seq<K>, groups: map<K, seq<T>>, j: int, files: set<T>, zips: set<T>)
    requires 0 <= j < |keys| && NoDups(keys) && keys[j] in groups
    requires forall g, f :: g in groups && f in groups[g] ==> key(f) == g
    requires forall x :: x in Grouped(keys, groups) ==> x in files && x !in zips
    ensures forall f :: f in groups[keys[j]] ==> f in files && f !in zips && f !in Grouped(keys[..j], groups)
  {
    forall f | f in groups[keys[j]]
      ensures f in files && f !in zips && f !in Grouped(keys[..j], groups)
    {
      GroupedMembers(keys, groups, f);
      GroupedMembers(keys[..j], groups, f);
      forall i | 0 <= i < j
        ensures keys[..j][i] == keys[i] && !(keys[i] in groups && f in groups[keys[i]])
      {
        assert keys[i] != keys[j] == key(f);
      }
    }
  }

  /** The `for key, value in grouped_files.items()` loop: one archive per
      logger, named for the month and the logger, holding that logger's
      files, which are removed. An archive stands at the end unless its own
      path was among its logger's files. */
  method ArchiveGroups(base: string, ym: YearMonth, d: Disk, keys: seq<string>, groups: map<string, seq<string>>)
    returns (d': Disk, archives: seq<string>)
    requires ValidYearMonth(ym)
    requires NoDups(keys) && forall g :: g in keys ==> g in groups && '/' !in g
    requires forall g, f :: g in groups && f in groups[g] ==> Stem(f) == g
    requires forall x :: x in Grouped(keys, groups) ==> x in d.files && x !in d.zips
    ensures |archives| == |keys| && forall i :: 0 <= i < |keys| ==> archives[i] == ArchiveLocation(base, FormatYearMonth(ym), keys[i])
    ensures forall x :: x in d'.zips <==> x in d.zips || x in Kept(keys, groups, archives)
    ensures forall x :: x in d'.files <==> x in Kept(keys, groups, archives) || (x in d.files && x !in Grouped(keys, groups))
  {
    archives := Locations(base, FormatYearMonth(ym), keys);
    LocationsDistinct(base, ym, keys);
    d' := d;
    for j := 0 to |keys|
      invariant forall x :: x in d'.zips <==> x in d.zips || x in Kept(keys[..j], groups, archives[..j])
      invariant forall x :: x in d'.files <==> x in Kept(keys[..j], groups, archives[..j]) || (x in d.files && x !in Grouped(keys[..j], groups))
    {
      var key := keys[j];
      GroupApart(Stem, keys, groups, j, d.files, d.zips);
      var dz, archived, entries := ZipFiles(d', groups[key], archives[j]);
      ArchiveStep(keys, groups, archives, j, d.files, d.zips, d'.files, d'.zips, archived, dz.files, dz.zips);
      d' := dz;
    }
    assert keys[..|keys|] == keys;
    assert archives[..|keys|] == archives;
  }

  /** The first lines of `clean_log_files`: last month's log files selected
      and grouped per logger, each logger once. */
  method GroupMonth(d: Disk, month: string, logs: seq<string>) returns (keys: seq<string>, groups: map<string, seq<string>>)
    ensures forall g :: g in keys ==> g in groups
    ensures forall x :: x in Grouped(keys, groups) <==> x in logs && Selected(d, month, x)
    ensures NoDups(keys) && forall k :: k in keys ==> '/' !in k
    ensures forall f :: f in logs && Selected(d, month, f) ==> Stem(f) in keys
    ensures forall k :: k in keys ==> exists f :: f in logs && Selected(d, month, f) && Stem(f) == k
    ensures forall g, f :: g in groups && f in groups[g] ==> Stem(f) == g
  {
    var toZip := FilesToZip(d, logs, month);
    keys, groups := GroupLogFiles(d, toZip);
    GroupedMonth(d, month, logs, toZip, keys, groups);
  }

  /** What grouping the selected log files establishes, from the two
      helpers' contracts. */
  lemma GroupedMonth(d: Disk, month: string, logs: seq<string>, toZip: seq<string>,
                     keys: seq<string>, groups: map<string, seq<string>>)
    requires forall f :: f in toZip <==> f in logs && Selected(d, month, f)
    requires forall g :: g in groups <==> g in keys
    requires forall g :: g in groups ==> groups[g] != []
    requires forall g, f :: g in groups && f in groups[g] ==> f in toZip && !SkipFile(d, f) && Stem(f) == g
    requires forall f :: f in toZip && !SkipFile(d, f) ==> Stem(f) in groups && f in groups[Stem(f)]
    ensures forall g :: g in keys ==> g in groups
    ensures forall x :: x in Grouped(keys, groups) <==> x in logs && Selected(d, month, x)
    ensures forall k :: k in keys ==> '/' !in k
    ensures forall f :: f in logs && Selected(d, month, f) ==> Stem(f) in keys
    ensures forall k :: k in keys ==> exists f :: f in logs && Selected(d, month, f) && Stem(f) == k
  {
    forall f | f in toZip
      ensures Stem(f) in groups && f in groups[Stem(f)]
    {
      assert !SkipFile(d, f);
    }
    GroupedListed(Stem, toZip, keys, groups);
    forall k | k in keys
      ensures '/' !in k
    {
      var f :| f in toZip && Stem(f) == k;
    }
  }

  /** The archive of the logger named like the month itself, when its path
      is one of the month's selected log files: that logger's `_zip_files`
      stores the archive into itself and removes it. */
  predicate ArchivedIntoItself(base: string, month: string, d: Disk, logs: seq<string>, x: string) {
    x == ArchiveLocation(base, month, month) && x in logs && Selected(d, month, x)
  }

  /** Lines 32-44 of `clean_log_files`: last month's log files selected,
      grouped per logger and archived, one archive per logger. */
  method ArchiveMonth(base: string, ym: YearMonth, d: Disk, logs: seq<string>)
    returns (d': Disk, keys: seq<string>, archives: seq<string>)
    requires ValidYearMonth(ym)
    ensures |archives| == |keys| && forall i :: 0 <= i < |keys| ==> archives[i] == ArchiveLocation(base, FormatYearMonth(ym), keys[i])
    ensures NoDups(keys) && forall k :: k in keys ==> '/' !in k
    ensures forall f :: f in logs && Selected(d, FormatYearMonth(ym), f) ==> Stem(f) in keys
    ensures forall k :: k in keys ==> exists f :: f in logs && Selected(d, FormatYearMonth(ym), f) && Stem(f) == k
    ensures forall x :: x in d'.zips <==>
      x in d.zips || (x in archives && !ArchivedIntoItself(base, FormatYearMonth(ym), d, logs, x))
    ensures forall x :: x in d'.files <==>
      (x in archives && !ArchivedIntoItself(base, FormatYearMonth(ym), d, logs, x))
      || (x in d.files && !(x in logs && Selected(d, FormatYearMonth(ym), x)))
  {
    var month := FormatYearMonth(ym);
    var groups;
    keys, groups := GroupMonth(d, month, logs);
    d', archives := ArchiveGroups(base, ym, d, keys, groups);
    LocationsDistinct(base, ym, keys);
    KeptMembers(keys, groups, archives);
    forall x
      ensures x in Kept(keys, groups, archives) <==> x in archives && !ArchivedIntoItself(base, month, d, logs, x)
    {
      if x in archives {
        var i :| 0 <= i < |archives| && archives[i] == x;
        ArchiveStem(base, ym, keys[i]);
        GroupedMembers(keys, groups, x);
        if x in groups[keys[i]] {
          assert Stem(x) == keys[i];
          assert x in Grouped(keys, groups);
        }
        if ArchivedIntoItself(base, month, d, logs, x) {
          var m :| 0 <= m < |keys| && keys[m] in groups && x in groups[keys[m]];
          assert keys[m] == Stem(x) == month;
          LocationsApart(base, ym, keys[i], keys[m]);
        }
      }
    }
  }

  /** Groups that hold exactly the listed paths, each under its key, hold
      between them exactly those paths, and their keys are exactly the keys
      of those paths. */
  lemma GroupedListed<K, T>(key: T -> K, listed: seq<T>, keys: seq<K>, groups: map<K, seq<T>>)
    requires forall g :: g in groups <==> g in keys
    requires forall g :: g in groups ==> groups[g] != []
    requires forall g, f :: g in groups && f in groups[g] ==> f in listed && key(f) == g
    requires forall f :: f in listed ==> key(f) in groups && f in groups[key(f)]
    ensures forall x :: x in Grouped(keys, groups) <==> x in listed
    ensures forall f :: f in listed ==> key(f) in keys
    ensures forall k :: k in keys ==> exists f :: f in listed && key(f) == k
  {
    forall x
      ensures x in Grouped(keys, groups) <==> x in listed
    {
      GroupedMembers(keys, groups, x);
      if x in listed {
        assert key(x) in keys;
        var i :| 0 <= i < |keys| && keys[i] == key(x);
      }
    }
    forall k | k in keys
      ensures exists f :: f in listed && key(f) == k
    {
      var f := groups[k][0];
      assert f in groups[k];
      assert f in listed && key(f) == k;
    }
  }

  // ---------------------------------------------------------------------
  // The whole job

  datatype Failure = OutOfRange | CutoffRaised | UnreadableArchive(index: nat)

  /** The archives written for month `ym` are those of loggers with a
      selected log file, carry the month's stamp, and each is on disk unless
      it was archived into itself. */
  predicate ArchivesKept(base: string, ym: YearMonth, d: Disk, logs: seq<string>, d': Disk, archives: seq<string>)
    requires ValidYearMonth(ym)
  {
    var month := FormatYearMonth(ym);
    forall a :: a in archives ==>
      && (exists f :: f in logs && Selected(d, month, f) && ArchiveLocation(base, month, Stem(f)) == a)
      && ParseYearMonth(Stem(a)) == Parsed(ym)
      && (a in d'.zips <==> !ArchivedIntoItself(base, month, d, logs, a))
  }

  /** Every selected log file has its logger's archive, and is gone unless
      it is itself an archive still standing. */
  predicate LogsArchived(base: string, month: string, d: Disk, logs: seq<string>, archives: seq<string>, d': Disk) {
    forall f :: f in logs && Selected(d, month, f) ==>
      && ArchiveLocation(base, month, Stem(f)) in archives
      && (f in d'.files <==> f in archives && !ArchivedIntoItself(base, month, d, logs, f))
  }

  /** Every listed archive that expires is gone, unless just written. */
  predicate ArchivesExpired(d: Disk, zips: seq<string>, archives: seq<string>, cutoff: Moment, d': Disk) {
    forall f :: f in zips && f in d.zips && f !in archives && Expired(f, cutoff) ==> f !in d'.files
  }

  /** Nothing was removed but selected log files and listed archives that expire. */
  predicate RemovedOnly(d: Disk, month: string, logs: seq<string>, zips: seq<string>, cutoff: Option<Moment>, d': Disk) {
    forall f :: f in d.files && f !in d'.files ==>
      (f in logs && Selected(d, month, f)) || (cutoff.Some? && f in zips && f in d.zips && Expired(f, cutoff.value))
  }

  predicate AllReadable(d: Disk, zips: seq<string>) {
    forall i :: 0 <= i < |zips| ==> !Unreadable(d, zips[i])
  }

  /** `zips[i]` is the first listed archive whose stamp `strptime` refuses. */
  predicate FirstUnreadable(d: Disk, zips: seq<string>, i: nat) {
    i < |zips| && Unreadable(d, zips[i]) && forall j :: 0 <= j < i ==> !Unreadable(d, zips[j])
  }

  /** The disk once the month's log files are archived: every archive
      written stands as a zip unless it was archived into itself, the
      selected log files are gone and nothing else changed. */
  function ArchivedDisk(base: string, month: string, d: Disk, logs: seq<string>, archives: seq<string>): Disk {
    var written := set x | x in archives && !ArchivedIntoItself(base, month, d, logs, x);
    Disk(written + (set x | x in d.files && !(x in logs && Selected(d, month, x))), d.zips + written)
  }

  /** The disk `ArchiveMonth` leaves is the archived disk. */
  lemma ArchivedDiskExact(base: string, month: string, d: Disk, logs: seq<string>, archives: seq<string>, dz: Disk)
    requires forall x :: x in dz.zips <==> x in d.zips || (x in archives && !ArchivedIntoItself(base, month, d, logs, x))
    requires forall x :: x in dz.files <==>
      (x in archives && !ArchivedIntoItself(base, month, d, logs, x)) || (x in d.files && !(x in logs && Selected(d, month, x)))
    ensures dz == ArchivedDisk(base, month, d, logs, archives)
  {
    var a := ArchivedDisk(base, month, d, logs, archives);
    assert dz.files == a.files;
    assert dz.zips == a.zips;
  }

  /** What `clean_log_files` leaves behind once the previous month `prev`
      is known, with `cutoff` the expiry cutoff taken from it, None where
      taking it raises. Besides what the archiving and the expiry promise,
      it pins the disk: the archived disk with the expired archives among
      those the removal got through taken away. */
  predicate Cleaned(base: string, prev: Moment, cutoff: Option<Moment>, d: Disk, logs: seq<string>, zips: seq<string>,
                    d': Disk, archives: seq<string>, failure: Option<Failure>)
    requires Representable(prev)
  {
    var month := FormatYearMonth(MonthOf(prev));
    && ArchivesKept(base, MonthOf(prev), d, logs, d', archives)
    && LogsArchived(base, month, d, logs, archives, d')
    && RemovedOnly(d, month, logs, zips, cutoff, d')
    && var a := ArchivedDisk(base, month, d, logs, archives);
       match failure
       case None =>
         && cutoff.Some? && AllReadable(d, zips) && ArchivesExpired(d, zips, archives, cutoff.value, d')
         && d' == Without(a, ExpiredAmong(a, zips, cutoff.value))
       case Some(CutoffRaised) => cutoff.None? && d' == a
       case Some(UnreadableArchive(i)) =>
         && cutoff.Some? && FirstUnreadable(d, zips, i)
         && d' == Without(a, ExpiredAmong(a, zips[..i], cutoff.value))
       case Some(OutOfRange) => false
  }

  /** After archiving: the archives carry the month's stamp and stand unless
      archived into themselves, every selected log file is archived and gone
      unless it is such an archive, nothing else was removed, and the same
      archives are unreadable as before. */
  lemma ArchivedState(base: string, prev: Moment, d: Disk, logs: seq<string>, zips: seq<string>,
                      dz: Disk, keys: seq<string>, archives: seq<string>, cutoff: Option<Moment>)
    requires Representable(prev)
    requires var month := FormatYearMonth(MonthOf(prev));
      && |archives| == |keys|
      && (forall i :: 0 <= i < |keys| ==> archives[i] == ArchiveLocation(base, month, keys[i]))
      && (forall k :: k in keys ==> '/' !in k)
      && (forall f :: f in logs && Selected(d, month, f) ==> Stem(f) in keys)
      && (forall k :: k in keys ==> exists f :: f in logs && Selected(d, month, f) && Stem(f) == k)
      && (forall x :: x in dz.zips <==> x in d.zips || (x in archives && !ArchivedIntoItself(base, month, d, logs, x)))
      && (forall x :: x in dz.files <==>
            (x in archives && !ArchivedIntoItself(base, month, d, logs, x)) || (x in d.files && !(x in logs && Selected(d, month, x))))
    ensures ArchivesKept(base, MonthOf(prev), d, logs, dz, archives)
    ensures LogsArchived(base, FormatYearMonth(MonthOf(prev)), d, logs, archives, dz)
    ensures RemovedOnly(d, FormatYearMonth(MonthOf(prev)), logs, zips, cutoff, dz)
    ensures forall f :: Unreadable(dz, f) <==> Unreadable(d, f)
  {
    var month := FormatYearMonth(MonthOf(prev));
    forall a | a in archives
      ensures ParseYearMonth(Stem(a)) == Parsed(MonthOf(prev))
      ensures exists f :: f in logs && Selected(d, month, f) && ArchiveLocation(base, month, Stem(f)) == a
    {
      var i :| 0 <= i < |archives| && archives[i] == a;
      ArchiveStem(base, MonthOf(prev), keys[i]);
      var f :| f in logs && Selected(d, month, f) && Stem(f) == keys[i];
    }
    forall f | f in logs && Selected(d, month, f)
      ensures ArchiveLocation(base, month, Stem(f)) in archives
    {
      var i :| 0 <= i < |keys| && keys[i] == Stem(f);
      assert archives[i] == ArchiveLocation(base, month, Stem(f));
    }
  }

  /** After removing expired archives up to the `n`-th listed one: what
      archiving established still holds, and with the whole list gone
      through, every expired listed archive is gone. */
  lemma RemovalState(base: string, prev: Moment, d: Disk, logs: seq<string>, zips: seq<string>,
                     dz: Disk, archives: seq<string>, cutoff: Moment, n: nat, d': Disk)
    requires Representable(prev) && prev.date.day >= 2 && Cutoff(prev) == Some(cutoff) && n <= |zips|
    requires var month := FormatYearMonth(MonthOf(prev));
      && ArchivesKept(base, MonthOf(prev), d, logs, dz, archives)
      && LogsArchived(base, month, d, logs, archives, dz)
      && RemovedOnly(d, month, logs, zips, Some(cutoff), dz)
      && (forall x :: x in dz.zips <==> x in d.zips || (x in archives && !ArchivedIntoItself(base, month, d, logs, x)))
    requires d' == Without(dz, ExpiredAmong(dz, zips[..n], cutoff))
    ensures ArchivesKept(base, MonthOf(prev), d, logs, d', archives)
    ensures LogsArchived(base, FormatYearMonth(MonthOf(prev)), d, logs, archives, d')
    ensures RemovedOnly(d, FormatYearMonth(MonthOf(prev)), logs, zips, Some(cutoff), d')
    ensures n == |zips| ==> ArchivesExpired(d, zips, archives, cutoff, d')
  {
    var month := FormatYearMonth(MonthOf(prev));
    var gone := ExpiredAmong(dz, zips[..n], cutoff);
    forall x
      ensures x in gone <==> x in zips[..n] && x in dz.zips && Expired(x, cutoff)
    {
      ExpiredAmongMembers(dz, zips[..n], cutoff, x);
    }
    ExpiryKeepsTwelveMonths(prev, MonthOf(prev));
    forall a | a in archives
      ensures a !in gone
    {
      assert ParseYearMonth(Stem(a)) == Parsed(MonthOf(prev));
    }
    forall f | f in logs && Selected(d, month, f)
      ensures f !in gone
    {
      assert f !in d.zips;
    }
    forall f | f in d.files && f !in d'.files
      ensures (f in logs && Selected(d, month, f)) || (f in zips && f in d.zips && Expired(f, cutoff))
    {
      if f in gone {
        assert f in zips[..n] && f !in archives;
      }
    }
    if n == |zips| {
      assert zips[..n] == zips;
    }
  }

  /** The job once the previous month `prev` is known and the cutoff taken
      from it: archive the month's log files, then, unless taking the cutoff
      raised, remove the expired archives among those listed. */
  method ArchiveThenExpire(base: string, prev: Moment, cutoff: Option<Moment>, d: Disk, logs: seq<string>, zips: seq<string>)
    returns (d': Disk, archives: seq<string>, failure: Option<Failure>)
    requires Representable(prev) && prev.date.day == DaysInMonth(prev.date.year, prev.date.month)
    requires cutoff.Some? ==> Cutoff(prev) == cutoff
    ensures Cleaned(base, prev, cutoff, d, logs, zips, d', archives, failure)
  {
    var dz, keys;
    dz, keys, archives := ArchiveMonth(base, MonthOf(prev), d, logs);
    ArchivedDiskExact(base, FormatYearMonth(MonthOf(prev)), d, logs, archives, dz);
    if cutoff.None? {
      d', failure := dz, Some(CutoffRaised);
      ArchivedState(base, prev, d, logs, zips, dz, keys, archives, cutoff);
      return;
    }
    var fail;
    d', fail := RemoveZipFiles(dz, zips, cutoff.value);
    if fail.Some? {
      failure := Some(UnreadableArchive(fail.value));
    } else {
      failure := None;
      assert zips[..|zips|] == zips;
    }
    ArchivedState(base, prev, d, logs, zips, dz, keys, archives, cutoff);
    RemovalState(base, prev, d, logs, zips, dz, archives, cutoff.value, Reached(fail, |zips|), d');
  }

  /** `clean_log_files` as written, at the moment `now`, with `logs` and
      `zips` the two `glob` listings taken at its start. */
  method CleanLogFiles(base: string, now: Moment, d: Disk, logs: seq<string>, zips: seq<string>)
    returns (d': Disk, archives: seq<string>, failure: Option<Failure>)
    requires Representable(now)
    ensures PreviousMonth(now).None? ==> d' == d && archives == [] && failure == Some(OutOfRange)
    ensures PreviousMonth(now).Some? ==>
      var prev := PreviousMonth(now).value;
      Cleaned(base, prev, CutoffAsWritten(prev), d, logs, zips, d', archives, failure)
  {
    var p := PreviousMonth(now);
    if p.None? {
      return d, [], Some(OutOfRange);
    }
    var prev := p.value;
    var c := CutoffAsWritten(prev);
    if c.Some? {
      CutoffAgrees(prev);
    }
    d', archives, failure := ArchiveThenExpire(base, prev, c, d, logs, zips);
  }

  /** `clean_log_files` with the corrected cutoff. */
  method CleanLogFilesCorrected(base: string, now: Moment, d: Disk, logs: seq<string>, zips: seq<string>)
    returns (d': Disk, archives: seq<string>, failure: Option<Failure>)
    requires Representable(now)
    ensures PreviousMonth(now).None? ==> d' == d && archives == [] && failure == Some(OutOfRange)
    ensures PreviousMonth(now).Some? ==>
      var prev := PreviousMonth(now).value;
      Cleaned(base, prev, Cutoff(prev), d, logs, zips, d', archives, failure)
  {
    var p := PreviousMonth(now);
    if p.None? {
      return d, [], Some(OutOfRange);
    }
    var prev := p.value;
    d', archives, failure := ArchiveThenExpire(base, prev, Cutoff(prev), d, logs, zips);
  }

  /** As written, a run in March of a leap year stops at the cutoff, after
      archiving and before removing anything: every archive on disk is
      still there. */
  lemma LeapMarchRemovesNoArchive(base: string, now: Moment, d: Disk, logs: seq<string>, zips: seq<string>,
                                  d': Disk, archives: seq<string>, failure: Option<Failure>)
    requires Representable(now) && now.date.month == 3 && IsLeap(now.date.year)
    requires var prev := PreviousMonth(now).value;
      Cleaned(base, prev, CutoffAsWritten(prev), d, logs, zips, d', archives, failure)
    ensures failure == Some(CutoffRaised)
    ensures forall f :: f in d.files && f in d.zips ==> f in d'.files
  {
    MarchOfLeapYearRaises(now);
  }

  /** The job adds nothing but the archives it writes, and a path it
      neither selects, lists as an archive nor writes keeps its place on
      disk and its kind. */
  lemma CleanedFrame(base: string, prev: Moment, cutoff: Option<Moment>, d: Disk, logs: seq<string>, zips: seq<string>,
                     d': Disk, archives: seq<string>, failure: Option<Failure>, x: string)
    requires Representable(prev)
    requires Cleaned(base, prev, cutoff, d, logs, zips, d', archives, failure)
    ensures x in d'.files ==> x in d.files || x in archives
    ensures x in d'.zips ==> x in d.zips || x in archives
    ensures x !in archives && x !in zips && !(x in logs && Selected(d, FormatYearMonth(MonthOf(prev)), x)) ==>
      (x in d'.files <==> x in d.files) && (x in d'.zips <==> x in d.zips)
  {
    var a := ArchivedDisk(base, FormatYearMonth(MonthOf(prev)), d, logs, archives);
    match failure
    case None =>
      ExpiredAmongMembers(a, zips, cutoff.value, x);
    case Some(UnreadableArchive(i)) =>
      ExpiredAmongMembers(a, zips[..i], cutoff.value, x);
    case Some(CutoffRaised) =>
  }

  /** With the corrected cutoff the job only ever stops at an unreadable
      archive, and runs through exactly when every listed archive is
      readable; then every expired listed archive is gone. */
  lemma CorrectedJobStopsOnlyOnUnreadable(base: string, prev: Moment, d: Disk, logs: seq<string>, zips: seq<string>,
                                          d': Disk, archives: seq<string>, failure: Option<Failure>)
    requires Representable(prev) && prev.date.year >= 2
    requires Cleaned(base, prev, Cutoff(prev), d, logs, zips, d', archives, failure)
    ensures failure == None || failure.value.UnreadableArchive?
    ensures failure == None <==> AllReadable(d, zips)
    ensures failure == None ==> ArchivesExpired(d, zips, archives, Cutoff(prev).value, d')
  {
    if failure.Some? && failure.value.UnreadableArchive? {
      var i := failure.value.index;
      assert Unreadable(d, zips[i]);
    }
  }
}
