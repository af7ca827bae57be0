/**
 * The log jobs' selection, grouping, archiving and expiry of log files. The
 * file system is reduced to the two facts the jobs ask of a path,
 * `os.path.isfile` and `zipfile.is_zipfile`; writing an archive and
 * `os.remove` are the changes they make to it.
 */
module Jobs {
  import opened Text
  import opened Calendar
  import opened MonthFormat
  import opened Occurrence

  /** The existing regular files and, among them, the zip archives. */
  datatype Disk = Disk(files: set<string>, zips: set<string>)

  /** `is_zipfile` only says yes of an existing file. */
  predicate Consistent(d: Disk) {
    d.zips <= d.files
  }

  /** `_skip_file(f)`: not an existing file, or a zip archive. */
  predicate SkipFile(d: Disk, f: string) {
    f !in d.files || f in d.zips
  }

  /** `_skip_file(f, include_zip=True)`: not a zip archive. */
  predicate SkipZip(d: Disk, f: string) {
    f !in d.zips
  }

  /** The two guards skip every missing path and split the existing files
      between them: log files pass the first, archives the second. */
  lemma SkipGuardsSplitFiles(d: Disk, f: string)
    requires Consistent(d)
    ensures f !in d.files ==> SkipFile(d, f) && SkipZip(d, f)
    ensures f in d.files ==> (SkipFile(d, f) <==> !SkipZip(d, f))
  {
  }

  // ---------------------------------------------------------------------
  // `_get_files_to_zip`

  /** A log file `_get_files_to_zip` keeps for the month stamp `month`. */
  predicate Selected(d: Disk, month: string, f: string) {
    !SkipFile(d, f) && Contains(f, month)
  }

  /** `_get_files_to_zip`: the log files whose path contains the month stamp,
      each once, in the order they are first listed. */
  method FilesToZip(d: Disk, files: seq<string>, month: string) returns (r: seq<string>)
    ensures forall f :: f in r <==> f in files && Selected(d, month, f)
    ensures NoDups(r) && InFirstOccurrenceOrder(r, files)
  {
    r := [];
    for k := 0 to |files|
      invariant Gathered(r, files, k)
      invariant forall f :: f in files[..k] && Selected(d, month, f) ==> f in r
      invariant forall f :: f in r ==> Selected(d, month, f)
    {
      var f := files[k];
      if !SkipFile(d, f) && Contains(f, month) && f !in r {
        GatherStep(r, files, k);
        r := r + [f];
      }
      assert files[..k + 1] == files[..k] + [f];
    }
    assert files[..|files|] == files;
    OrderedNoDups(r, files);
  }

  // ---------------------------------------------------------------------
  // `_group_log_files`

  /** `path.split("/")[-1].split(".")[0]`: the basename up to its first `.`,
      the logger of a log file and the month stamp of an archive. */
  function Stem(path: string): (r: string)
    ensures '.' !in r && '/' !in r
  {
    var base := AfterLast(path, '/');
    var r := BeforeFirst(base, '.');
    assert forall i :: 0 <= i < |r| ==> r[i] == base[i];
    r
  }

  /** `Stem` is the first piece of the last piece of the two splits. */
  lemma StemIsSplit(path: string)
    ensures var pieces := Split(path, '/');
      Stem(path) == Split(pieces[|pieces| - 1], '.')[0]
  {
    AfterLastIsLastPiece(path, '/');
    BeforeFirstIsFirstPiece(AfterLast(path, '/'), '.');
  }

  /** A file named `<logger>.<rest>` under any directory belongs to `logger`. */
  lemma StemOfLogFile(dir: string, logger: string, rest: string)
    requires '/' !in logger && '/' !in rest && '.' !in logger
    ensures Stem(PathJoin(dir, logger + "." + rest)) == logger
  {
    var name := logger + "." + rest;
    assert name[|logger|] == '.';
    assert forall ch :: ch in name ==> ch in logger || ch == '.' || ch in rest;
    PathJoinLast(dir, name);
    BeforeFirstPast(logger, rest, '.');
  }

  /** `_group_log_files`: the files that are not skipped, grouped by logger;
      the loggers come in the order their first file is listed, and each
      group lists its files once, in the order they are first listed. */
  method GroupLogFiles(d: Disk, files: seq<string>) returns (keys: seq<string>, groups: map<string, seq<string>>)
    ensures forall g :: g in groups <==> g in keys
    ensures forall g :: g in groups ==> groups[g] != [] && NoDups(groups[g]) && InFirstOccurrenceOrder(groups[g], files)
    ensures forall g, f :: g in groups && f in groups[g] ==> f in files && !SkipFile(d, f) && Stem(f) == g
    ensures forall f :: f in files && !SkipFile(d, f) ==> Stem(f) in groups && f in groups[Stem(f)]
    ensures forall i, j :: 0 <= i < j < |keys| ==> Precedes(files, groups, keys[i], keys[j])
    ensures NoDups(keys)
  {
    var keep := f => !SkipFile(d, f);
    keys, groups := [], map[];
    for k := 0 to |files|
      invariant Grouping(keep, Stem, files, k, keys, groups)
    {
      var f := files[k];
      FileStep(keep, Stem, files, k, keys, groups);
      if !SkipFile(d, f) {
        var g := Stem(f);
        // a new logger gets an empty group, then the file joins its group once
        if g !in groups {
          keys := keys + [g];
        }
        groups := groups[g := Filed(groups, g, f)];
      }
    }
    GroupsDone(keep, Stem, files, keys, groups);
  }

  /** With every file skipped there is nothing to group. */
  lemma NothingToGroup(d: Disk, files: seq<string>, keys: seq<string>, groups: map<string, seq<string>>)
    requires forall g :: g in groups <==> g in keys
    requires forall g :: g in groups ==> groups[g] != []
    requires forall g, f :: g in groups && f in groups[g] ==> f in files && !SkipFile(d, f)
    requires forall f :: f in files ==> SkipFile(d, f)
    ensures keys == [] && groups == map[]
  {
    assert forall g :: g in groups ==> groups[g][0] in groups[g];
    assert forall g :: g in groups ==> groups[g][0] in files && !SkipFile(d, groups[g][0]);
    assert forall g :: g !in groups;
    assert groups == map[];
    FirstInSeq(keys);
  }

  lemma FirstInSeq<T>(s: seq<T>)
    ensures s == [] || s[0] in s
  {
  }

  // ---------------------------------------------------------------------
  // `_zip_files`

  /** `s` with the elements of `a` removed one after another. */
  function RemoveAll<T>(s: set<T>, a: seq<T>): set<T> {
    if a == [] then s else RemoveAll(s, a[..|a| - 1]) - {a[|a| - 1]}
  }

  lemma {:induction false} RemoveAllMembers<T>(s: set<T>, a: seq<T>, x: T)
    ensures x in RemoveAll(s, a) <==> x in s && x !in a
  {
    if a != [] {
      RemoveAllMembers(s, a[..|a| - 1], x);
      assert a == a[..|a| - 1] + [a[|a| - 1]];
    }
  }

  /** The elements of `a` that `keep` admits, gathered from the front. */
  function Admitted<T>(a: seq<T>, keep: T -> bool): set<T> {
    if a == [] then {}
    else Admitted(a[..|a| - 1], keep) + (if keep(a[|a| - 1]) then {a[|a| - 1]} else {})
  }


  lemma {:induction false} AdmittedMembers<T>(a: seq<T>, keep: T -> bool, x: T)
    ensures x in Admitted(a, keep) <==> x in a && keep(x)
  {
    if a != [] {
      AdmittedMembers(a[..|a| - 1], keep, x);
      assert a == a[..|a| - 1] + [a[|a| - 1]];
    }
  }

  /** The disk while `_zip_files` writes to `location`: `ZipFile(location, "w")`
      creates or truncates it as an ordinary file, and its zip directory is
      only written when the `with` block closes. */
  function Writing(d: Disk, location: string): Disk {
    Disk(d.files + {location}, d.zips - {location})
  }

  /** The disk `w` once the files `archived` are removed. */
  function AfterZip(w: Disk, archived: seq<string>): Disk {
    Disk(RemoveAll(w.files, archived), w.zips)
  }

  /** `f` applied to each element. */
  function MapSeq<A, B>(f: A -> B, s: seq<A>): (r: seq<B>)
    ensures |r| == |s| && forall i :: 0 <= i < |s| ==> r[i] == f(s[i])
  {
    if s == [] then [] else [f(s[0])] + MapSeq(f, s[1..])
  }

  /** Archiving `files[k]` when it is still a plain file, skipping it otherwise,
      keeps the archived list and the disk in step. */
  lemma ZipStep(w: Disk, files: seq<string>, k: int, archived: seq<string>)
    requires 0 <= k < |files| && Gathered(archived, files, k)
    requires forall f :: f in archived <==> f in files[..k] && !SkipFile(w, f)
    ensures var f := files[k];
      var d' := AfterZip(w, archived);
      var archived' := if SkipFile(d', f) then archived else archived + [f];
      && Gathered(archived', files, k + 1)
      && (forall x :: x in archived' <==> x in files[..k + 1] && !SkipFile(w, x))
      && AfterZip(w, archived') == (if SkipFile(d', f) then d' else d'.(files := d'.files - {f}))
  {
    var f := files[k];
    var d' := AfterZip(w, archived);
    assert files[..k + 1] == files[..k] + [f];
    RemoveAllMembers(w.files, archived, f);
    if SkipFile(d', f) {
      GatheredGrow(archived, files, k);
    } else {
      GatherStep(archived, files, k);
      assert (archived + [f])[..|archived|] == archived;
    }
  }

  /** `_zip_files(files, location)`: every listed file that is still a plain
      file is stored under its basename and removed. The archive being
      written is such a file too, so when it is listed it is stored into
      itself and removed, and nothing is left at `location`; otherwise the
      archive is there once the block closes. Returns the new disk, the
      paths archived and the entry names, in order. */
  method ZipFiles(d: Disk, files: seq<string>, location: string) returns (d': Disk, archived: seq<string>, entries: seq<string>)
    ensures forall f :: f in archived <==> f in files && (f == location || !SkipFile(d, f))
    ensures forall f :: f in d'.files <==> (f in d.files || f == location) && f !in archived
    ensures forall f :: f in d'.zips <==> (f in d.zips || f == location) && f !in archived
    ensures NoDups(archived) && InFirstOccurrenceOrder(archived, files)
    ensures |entries| == |archived| && forall i :: 0 <= i < |archived| ==> entries[i] == AfterLast(archived[i], '/')
  {
    var w := Writing(d, location);
    var dw := w;
    archived := [];
    for k := 0 to |files|
      invariant Gathered(archived, files, k)
      invariant forall f :: f in archived <==> f in files[..k] && !SkipFile(w, f)
      invariant dw == AfterZip(w, archived)
    {
      var f := files[k];
      ZipStep(w, files, k, archived);
      if !SkipFile(dw, f) {
        archived := archived + [f];
        dw := dw.(files := dw.files - {f});
      }
    }
    entries := MapSeq(f => AfterLast(f, '/'), archived);
    assert files[..|files|] == files;
    ZipClosed(d, files, location, archived);
    d' := if location in dw.files then dw.(zips := dw.zips + {location}) else dw;
    GatheredAll(archived, files);
  }

  /** Closing the block: the archive becomes a zip, unless it was itself
      among the files removed. */
  lemma ZipClosed(d: Disk, files: seq<string>, location: string, archived: seq<string>)
    requires forall f :: f in archived <==> f in files && !SkipFile(Writing(d, location), f)
    ensures var dw := AfterZip(Writing(d, location), archived);
      var d' := if location in dw.files then dw.(zips := dw.zips + {location}) else dw;
      && (forall f :: f in archived <==> f in files && (f == location || !SkipFile(d, f)))
      && (forall f :: f in d'.files <==> (f in d.files || f == location) && f !in archived)
      && (forall f :: f in d'.zips <==> (f in d.zips || f == location) && f !in archived)
  {
    forall f
      ensures f in RemoveAll(d.files + {location}, archived) <==> (f in d.files || f == location) && f !in archived
    {
      RemoveAllMembers(d.files + {location}, archived, f);
    }
  }

  // ---------------------------------------------------------------------
  // `_remove_zip_files`

  /** The moment `strptime` gives a month stamp: its first day at midnight. */
  function Creation(ym: YearMonth): (t: Moment)
    requires ValidYearMonth(ym)
    ensures ValidMoment(t) && t.date.year == ym.year && t.date.month == ym.month
  {
    Moment(Date(ym.year, ym.month, 1), 0)
  }

  /** An archive whose month stamp reads as a month created before `cutoff`. */
  predicate Expired(f: string, cutoff: Moment) {
    var p := ParseYearMonth(Stem(f));
    p.Parsed? && Before(Creation(p.value), cutoff)
  }

  /** An archive still on disk whose stamp `strptime` refuses. */
  predicate Unreadable(d: Disk, f: string) {
    f in d.zips && ParseYearMonth(Stem(f)).ValueError?
  }

  /** The archives listed in `s` that expire. */
  function ExpiredAmong(d: Disk, s: seq<string>, cutoff: Moment): set<string> {
    Admitted(s, f => f in d.zips && Expired(f, cutoff))
  }

  lemma ExpiredAmongSnoc(d: Disk, s: seq<string>, k: int, cutoff: Moment)
    requires 0 <= k < |s|
    ensures ExpiredAmong(d, s[..k + 1], cutoff) ==
      ExpiredAmong(d, s[..k], cutoff) + (if s[k] in d.zips && Expired(s[k], cutoff) then {s[k]} else {})
  {
    assert s[..k + 1][..k] == s[..k];
  }

  lemma ExpiredAmongMembers(d: Disk, s: seq<string>, cutoff: Moment, x: string)
    ensures x in ExpiredAmong(d, s, cutoff) <==> x in s && x in d.zips && Expired(x, cutoff)
  {
    AdmittedMembers(s, f => f in d.zips && Expired(f, cutoff), x);
  }

  function Without(d: Disk, gone: set<string>): Disk {
    Disk(d.files - gone, d.zips - gone)
  }

  /** The number of listed archives `_remove_zip_files` gets through. */
  function Reached(failure: Option<nat>, n: nat): nat {
    if failure.Some? && failure.value < n then failure.value else n
  }

  /** One more listed archive: a path no longer among the archives was
      never unreadable, and one still among them is unreadable exactly when
      its stamp is refused ... */
  lemma RemoveGuards(d: Disk, zips: seq<string>, k: int, cutoff: Moment)
    requires 0 <= k < |zips|
    ensures var d' := Without(d, ExpiredAmong(d, zips[..k], cutoff));
      var f := zips[k];
      && (SkipZip(d', f) ==> !Unreadable(d, f))
      && (!SkipZip(d', f) ==> (Unreadable(d, f) <==> ParseYearMonth(Stem(f)).ValueError?))
  {
    ExpiredAmongMembers(d, zips[..k], cutoff, zips[k]);
  }

  /** ... and it joins the removed ones exactly when it is still an archive
      and expires. */
  lemma RemoveStep(d: Disk, zips: seq<string>, k: int, cutoff: Moment)
    requires 0 <= k < |zips|
    ensures var d' := Without(d, ExpiredAmong(d, zips[..k], cutoff));
      var f := zips[k];
      Without(d, ExpiredAmong(d, zips[..k + 1], cutoff)) ==
        (if !SkipZip(d', f) && Expired(f, cutoff) then Disk(d'.files - {f}, d'.zips - {f}) else d')
  {
    ExpiredAmongSnoc(d, zips, k, cutoff);
    WithoutStep(d, ExpiredAmong(d, zips[..k], cutoff), zips[k], Expired(zips[k], cutoff));
  }

  /** Removing one more path `f`, when it is an archive and `due`: it goes
      exactly when it is still an archive. */
  lemma WithoutStep(d: Disk, e: set<string>, f: string, due: bool)
    ensures var d' := Without(d, e);
      Without(d, e + (if f in d.zips && due then {f} else {})) ==
        (if !SkipZip(d', f) && due then Disk(d'.files - {f}, d'.zips - {f}) else d')
  {
    if f in d.zips && due && f !in e {
      assert d.files - (e + {f}) == (d.files - e) - {f};
      assert d.zips - (e + {f}) == (d.zips - e) - {f};
    } else if f in d.zips && due {
      assert e + {f} == e;
    } else {
      assert e + {} == e;
    }
  }

  /** `_remove_zip_files`: every listed archive whose stamp reads as a month
      before the cutoff is removed, a path listed twice only once; the first
      archive whose stamp `strptime` refuses stops the job with a ValueError,
      and the archives listed after it are left alone. */
  method RemoveZipFiles(d: Disk, zips: seq<string>, cutoff: Moment) returns (d': Disk, failure: Option<nat>)
    ensures failure.None? <==> forall i :: 0 <= i < |zips| ==> !Unreadable(d, zips[i])
    ensures failure.Some? ==>
      failure.value < |zips| && Unreadable(d, zips[failure.value])
      && forall i :: 0 <= i < failure.value ==> !Unreadable(d, zips[i])
    ensures d' == Without(d, ExpiredAmong(d, zips[..Reached(failure, |zips|)], cutoff))
  {
    d', failure := d, None;
    for k := 0 to |zips|
      invariant d' == Without(d, ExpiredAmong(d, zips[..k], cutoff))
      invariant forall i :: 0 <= i < k ==> !Unreadable(d, zips[i])
    {
      var f := zips[k];
      RemoveGuards(d, zips, k, cutoff);
      RemoveStep(d, zips, k, cutoff);
      if !SkipZip(d', f) {
        match ParseYearMonth(Stem(f))
        case ValueError =>
          failure := Some(k);
          return;
        case Parsed(ym) =>
          if Before(Creation(ym), cutoff) {
            d' := Disk(d'.files - {f}, d'.zips - {f});
          }
      }
    }
    assert zips[..|zips|] == zips;
  }

  /** Only listed archives that expire are removed; nothing else changes. */
  lemma RemovalOnlyExpired(d: Disk, zips: seq<string>, cutoff: Moment, n: int, f: string)
    requires 0 <= n <= |zips|
    ensures var d' := Without(d, ExpiredAmong(d, zips[..n], cutoff));
      (f in d.files && f !in d'.files) <==> (f in d.files && f in d.zips && f in zips[..n] && Expired(f, cutoff))
  {
    ExpiredAmongMembers(d, zips[..n], cutoff, f);
  }
}
