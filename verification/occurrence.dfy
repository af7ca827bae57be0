/**
 * Lists built by scanning a sequence and appending what is met for the first
 * time, as the log jobs build their file lists and their per-logger groups
 * (a Python list guarded by `not in`, and a dict of such lists).
 */
module Occurrence {

  predicate NoDups<T(==)>(r: seq<T>) {
    forall i, j :: 0 <= i < j < |r| ==> r[i] != r[j]
  }

  /** Where `x` first occurs in `s`. */
  function FirstIndex<T(==)>(s: seq<T>, x: T): (i: nat)
    requires x in s
    ensures i < |s| && s[i] == x
  {
    if s[0] == x then 0 else FirstIndex(s[1..], x) + 1
  }

  /** ... and it does not occur before. */
  lemma {:induction false} FirstIndexFirst<T>(s: seq<T>, x: T)
    requires x in s
    ensures x !in s[..FirstIndex(s, x)]
  {
    if s[0] != x {
      var j := FirstIndex(s[1..], x);
      FirstIndexFirst(s[1..], x);
      assert s[..j + 1] == [s[0]] + s[1..][..j];
    }
  }

  /** `r` lists elements of `s` in the order they first occur in `s`. */
  predicate InFirstOccurrenceOrder<T(==)>(r: seq<T>, s: seq<T>) {
    forall i, j :: 0 <= i < j < |r| ==> r[i] in s && r[j] in s && FirstIndex(s, r[i]) < FirstIndex(s, r[j])
  }

  /** `r` lists elements of `s[..k]` in the order they first occur in `s`. */
  predicate Gathered<T(==)>(r: seq<T>, s: seq<T>, k: int) {
    0 <= k <= |s| && (forall x :: x in r ==> x in s[..k]) && InFirstOccurrenceOrder(r, s)
  }

  /** `x` first occurs before position `k` exactly when it occurs before it at all. */
  lemma FirstIndexBelow<T>(s: seq<T>, x: T, k: int)
    requires x in s && 0 <= k <= |s|
    ensures FirstIndex(s, x) < k <==> x in s[..k]
  {
    var i := FirstIndex(s, x);
    FirstIndexFirst(s, x);
    if i < k {
      assert s[..k][i] == x;
    } else {
      assert s[..k] == s[..i][..k];
    }
  }

  /** Appending an element met for the first time keeps the order. */
  lemma GatherStep<T>(r: seq<T>, s: seq<T>, k: int)
    requires Gathered(r, s, k) && k < |s| && s[k] !in s[..k]
    ensures Gathered(r + [s[k]], s, k + 1)
  {
    var r' := r + [s[k]];
    assert s[..k + 1] == s[..k] + [s[k]];
    FirstIndexBelow(s, s[k], k);
    forall x | x in r
      ensures x in s && FirstIndex(s, x) < k
    {
      FirstIndexBelow(s, x, k);
    }
    forall i, j | 0 <= i < j < |r'|
      ensures r'[i] in s && r'[j] in s && FirstIndex(s, r'[i]) < FirstIndex(s, r'[j])
    {
      if j == |r| {
        assert r'[i] == r[i] && r[i] in r;
      } else {
        assert r'[i] == r[i] && r'[j] == r[j];
      }
    }
  }

  /** Skipping an element keeps what was gathered. */
  lemma GatheredGrow<T>(r: seq<T>, s: seq<T>, k: int)
    requires Gathered(r, s, k) && k < |s|
    ensures Gathered(r, s, k + 1)
  {
    assert s[..k + 1] == s[..k] + [s[k]];
  }

  /** Strictly ordered by first occurrence, so no element twice. */
  lemma OrderedNoDups<T>(r: seq<T>, s: seq<T>)
    requires InFirstOccurrenceOrder(r, s)
    ensures NoDups(r)
  {
  }

  /** Everything gathered from the whole of `s` is in `s`. */
  lemma GatheredAll<T>(r: seq<T>, s: seq<T>)
    requires Gathered(r, s, |s|)
    ensures forall x :: x in r ==> x in s
    ensures NoDups(r)
  {
    assert s[..|s|] == s;
    OrderedNoDups(r, s);
  }

  // ---------------------------------------------------------------------
  // Grouping by key, one invariant at a time: the elements of `s[..k]` that
  // `keep` admits, filed under `key`, each group in first-occurrence order
  // and the keys in the order their first element occurs.

  /** Key `a` was met before key `b`: the first element of group `a` comes first. */
  predicate Precedes<K(==,!new), T(==,!new)>(s: seq<T>, groups: map<K, seq<T>>, a: K, b: K) {
    a in groups && b in groups && groups[a] != [] && groups[b] != []
    && groups[a][0] in s && groups[b][0] in s
    && FirstIndex(s, groups[a][0]) < FirstIndex(s, groups[b][0])
  }

  ghost predicate KeysMatch<K(!new), T(!new)>(keys: seq<K>, groups: map<K, seq<T>>) {
    forall g :: g in groups <==> g in keys
  }

  ghost predicate GroupsGathered<K(!new), T(!new)>(s: seq<T>, k: int, groups: map<K, seq<T>>) {
    forall g :: g in groups ==> groups[g] != [] && Gathered(groups[g], s, k)
  }

  ghost predicate GroupsSound<K(!new), T(!new)>(keep: T -> bool, key: T -> K, groups: map<K, seq<T>>) {
    forall g, x :: g in groups && x in groups[g] ==> keep(x) && key(x) == g
  }

  ghost predicate GroupsComplete<K(!new), T(!new)>(keep: T -> bool, key: T -> K, s: seq<T>, k: int, groups: map<K, seq<T>>)
    requires 0 <= k <= |s|
  {
    forall x :: x in s[..k] && keep(x) ==> key(x) in groups && x in groups[key(x)]
  }

  ghost predicate KeysOrdered<K(!new), T(!new)>(s: seq<T>, keys: seq<K>, groups: map<K, seq<T>>) {
    forall i, j :: 0 <= i < j < |keys| ==> Precedes(s, groups, keys[i], keys[j])
  }

  /** All five together, for the elements of `s[..k]`. */
  ghost predicate Grouping<K(!new), T(!new)>(keep: T -> bool, key: T -> K, s: seq<T>, k: int, keys: seq<K>, groups: map<K, seq<T>>)
    requires 0 <= k <= |s|
  {
    && KeysMatch(keys, groups) && GroupsGathered(s, k, groups) && GroupsSound(keep, key, groups)
    && GroupsComplete(keep, key, s, k, groups) && KeysOrdered(s, keys, groups)
  }

  /** The group of key `g` once `x` is filed under it. */
  function Filed<K(==,!new), T(==,!new)>(groups: map<K, seq<T>>, g: K, x: T): (r: seq<T>)
    ensures x in r
    ensures forall y :: y in r ==> y == x || (g in groups && y in groups[g])
  {
    var group := if g in groups then groups[g] else [];
    if x in group then group else group + [x]
  }

  lemma FiledKeys<K(!new), T(!new)>(keys: seq<K>, groups: map<K, seq<T>>, g: K, x: T)
    requires KeysMatch(keys, groups)
    ensures KeysMatch(if g in groups then keys else keys + [g], groups[g := Filed(groups, g, x)])
  {
  }

  /** An element met again is already in its group; a new one was not met before. */
  lemma FiledGathered<K(!new), T(!new)>(keep: T -> bool, key: T -> K, s: seq<T>, k: int, groups: map<K, seq<T>>)
    requires 0 <= k < |s| && keep(s[k])
    requires GroupsGathered(s, k, groups) && GroupsComplete(keep, key, s, k, groups)
    ensures GroupsGathered(s, k + 1, groups[key(s[k]) := Filed(groups, key(s[k]), s[k])])
  {
    var x := s[k];
    var g := key(x);
    var group := if g in groups then groups[g] else [];
    assert Gathered(group, s, k);
    if x in group {
      GatheredGrow(group, s, k);
    } else {
      GatherStep(group, s, k);
    }
    forall h | h in groups && h != g
      ensures Gathered(groups[h], s, k + 1)
    {
      GatheredGrow(groups[h], s, k);
    }
  }

  lemma FiledSound<K(!new), T(!new)>(keep: T -> bool, key: T -> K, x: T, groups: map<K, seq<T>>)
    requires keep(x) && GroupsSound(keep, key, groups)
    ensures GroupsSound(keep, key, groups[key(x) := Filed(groups, key(x), x)])
  {
  }

  lemma FiledComplete<K(!new), T(!new)>(keep: T -> bool, key: T -> K, s: seq<T>, k: int, groups: map<K, seq<T>>)
    requires 0 <= k < |s| && keep(s[k]) && GroupsComplete(keep, key, s, k, groups)
    ensures GroupsComplete(keep, key, s, k + 1, groups[key(s[k]) := Filed(groups, key(s[k]), s[k])])
  {
    assert s[..k + 1] == s[..k] + [s[k]];
  }

  lemma SkippedComplete<K(!new), T(!new)>(keep: T -> bool, key: T -> K, s: seq<T>, k: int, groups: map<K, seq<T>>)
    requires 0 <= k < |s| && !keep(s[k]) && GroupsComplete(keep, key, s, k, groups)
    ensures GroupsComplete(keep, key, s, k + 1, groups)
  {
    assert s[..k + 1] == s[..k] + [s[k]];
  }

  lemma SkippedGathered<K(!new), T(!new)>(s: seq<T>, k: int, groups: map<K, seq<T>>)
    requires 0 <= k < |s| && GroupsGathered(s, k, groups)
    ensures GroupsGathered(s, k + 1, groups)
  {
    forall h | h in groups
      ensures Gathered(groups[h], s, k + 1)
    {
      GatheredGrow(groups[h], s, k);
    }
  }

  lemma FiledOrdered<K(!new), T(!new)>(keep: T -> bool, key: T -> K, s: seq<T>, k: int, keys: seq<K>, groups: map<K, seq<T>>)
    requires 0 <= k < |s| && keep(s[k])
    requires KeysMatch(keys, groups) && GroupsGathered(s, k, groups) && KeysOrdered(s, keys, groups)
    requires GroupsComplete(keep, key, s, k, groups)
    ensures var g := key(s[k]);
      KeysOrdered(s, if g in groups then keys else keys + [g], groups[g := Filed(groups, g, s[k])])
  {
    var x := s[k];
    var g := key(x);
    var keys' := if g in groups then keys else keys + [g];
    var groups' := groups[g := Filed(groups, g, x)];
    forall h | h in groups
      ensures groups'[h] != [] && groups'[h][0] == groups[h][0]
    {
    }
    forall i, j | 0 <= i < j < |keys'|
      ensures Precedes(s, groups', keys'[i], keys'[j])
    {
      if j < |keys| {
        assert Precedes(s, groups, keys[i], keys[j]);
      } else {
        var a := keys[i];
        assert groups[a][0] in groups[a] && Gathered(groups[a], s, k);
        FirstIndexBelow(s, groups[a][0], k);
        if x in s[..k] {
          assert false;
        }
        FirstIndexBelow(s, x, k);
        FirstIndexBelow(s, x, k + 1);
        assert s[..k + 1] == s[..k] + [x];
      }
    }
  }

  /** One more element scanned: an admitted one is filed under its key,
      which is appended to the keys when new; any other is passed over. */
  lemma FileStep<K(!new), T(!new)>(keep: T -> bool, key: T -> K, s: seq<T>, k: int, keys: seq<K>, groups: map<K, seq<T>>)
    requires 0 <= k < |s| && Grouping(keep, key, s, k, keys, groups)
    ensures var x := s[k];
      var g := key(x);
      if keep(x) then Grouping(keep, key, s, k + 1, if g in groups then keys else keys + [g], groups[g := Filed(groups, g, x)])
      else Grouping(keep, key, s, k + 1, keys, groups)
  {
    var x := s[k];
    if keep(x) {
      var g := key(x);
      FiledKeys(keys, groups, g, x);
      FiledGathered(keep, key, s, k, groups);
      FiledSound(keep, key, x, groups);
      FiledComplete(keep, key, s, k, groups);
      FiledOrdered(keep, key, s, k, keys, groups);
    } else {
      SkippedGathered(s, k, groups);
      SkippedComplete(keep, key, s, k, groups);
    }
  }

  /** Once the whole sequence is scanned, the invariants say what the
      grouping holds: exactly the admitted elements, each once under its own
      key, groups in first-occurrence order, keys distinct and in order. */
  lemma GroupsDone<K(!new), T(!new)>(keep: T -> bool, key: T -> K, s: seq<T>, keys: seq<K>, groups: map<K, seq<T>>)
    requires Grouping(keep, key, s, |s|, keys, groups)
    ensures forall g :: g in groups <==> g in keys
    ensures forall g :: g in groups ==> groups[g] != [] && NoDups(groups[g]) && InFirstOccurrenceOrder(groups[g], s)
    ensures forall g, x :: g in groups && x in groups[g] ==> x in s && keep(x) && key(x) == g
    ensures forall x :: x in s && keep(x) ==> key(x) in groups && x in groups[key(x)]
    ensures forall i, j :: 0 <= i < j < |keys| ==> Precedes(s, groups, keys[i], keys[j])
    ensures NoDups(keys)
  {
    assert s[..|s|] == s;
    PrecedingKeysDistinct(s, keys, groups);
    forall g | g in groups
      ensures NoDups(groups[g]) && forall x :: x in groups[g] ==> x in s
    {
      GatheredAll(groups[g], s);
    }
  }

  /** Keys each met strictly before the next are all different. */
  lemma PrecedingKeysDistinct<K(!new), T(!new)>(s: seq<T>, keys: seq<K>, groups: map<K, seq<T>>)
    requires KeysOrdered(s, keys, groups)
    ensures NoDups(keys)
  {
    forall i, j | 0 <= i < j < |keys|
      ensures keys[i] != keys[j]
    {
      assert Precedes(s, groups, keys[i], keys[j]);
    }
  }
}
