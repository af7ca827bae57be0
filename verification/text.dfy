/**
 * The string operations the log jobs rely on: `sub in s`, `s.split(c)` and
 * the two pieces the jobs take of it, and `posixpath.join`.
 */
module Text {

  predicate IsPrefix(p: string, s: string) {
    |p| <= |s| && s[..|p|] == p
  }

  /** `sub in s`: `sub` occurs somewhere in `s`. */
  predicate Contains(s: string, sub: string)
    decreases |s|
  {
    IsPrefix(sub, s) || (s != [] && Contains(s[1..], sub))
  }

  /** `sub` occurs in `s` at position `i`. */
  predicate OccursAt(s: string, sub: string, i: int) {
    0 <= i && i + |sub| <= |s| && s[i..i + |sub|] == sub
  }

  /** `Contains` finds every occurrence ... */
  lemma {:induction false} ContainsOccurrence(s: string, sub: string, i: int)
    requires OccursAt(s, sub, i)
    ensures Contains(s, sub)
    decreases i
  {
    if i > 0 {
      assert s[1..][i - 1..i - 1 + |sub|] == s[i..i + |sub|];
      ContainsOccurrence(s[1..], sub, i - 1);
    }
  }

  /** ... and nothing else. */
  lemma {:induction false} ContainsWitness(s: string, sub: string) returns (i: int)
    requires Contains(s, sub)
    ensures OccursAt(s, sub, i)
    decreases |s|
  {
    if IsPrefix(sub, s) {
      i := 0;
    } else {
      var j := ContainsWitness(s[1..], sub);
      assert s[1..][j..j + |sub|] == s[j + 1..j + 1 + |sub|];
      i := j + 1;
    }
  }

  /** `s.split(c)`: the pieces between the occurrences of `c`. */
  function Split(s: string, c: char): (pieces: seq<string>)
    ensures |pieces| >= 1
  {
    if s == [] then [[]]
    else
      var rest := Split(s[1..], c);
      if s[0] == c then [[]] + rest else [[s[0]] + rest[0]] + rest[1..]
  }

  /** `c.join(pieces)`. */
  function Join(pieces: seq<string>, c: char): string
    requires |pieces| >= 1
  {
    if |pieces| == 1 then pieces[0] else pieces[0] + [c] + Join(pieces[1..], c)
  }

  /** Joining the pieces of a split gives back the string ... */
  lemma {:induction false} JoinSplit(s: string, c: char)
    ensures Join(Split(s, c), c) == s
  {
    if s != [] {
      var rest := Split(s[1..], c);
      JoinSplit(s[1..], c);
      if s[0] == c {
        assert Split(s, c)[1..] == rest;
      } else {
        var pieces := Split(s, c);
        assert pieces[0] == [s[0]] + rest[0];
        assert pieces[1..] == rest[1..];
        if |rest| > 1 {
          assert Join(rest, c) == rest[0] + [c] + Join(rest[1..], c);
        }
      }
    }
  }

  /** ... and no piece contains the separator. */
  lemma {:induction false} SplitPiecesFree(s: string, c: char)
    ensures forall k :: 0 <= k < |Split(s, c)| ==> c !in Split(s, c)[k]
  {
    if s != [] {
      SplitPiecesFree(s[1..], c);
      var rest := Split(s[1..], c);
      if s[0] != c {
        assert forall k :: 1 <= k < |Split(s, c)| ==> Split(s, c)[k] == rest[k];
      } else {
        assert forall k :: 1 <= k < |Split(s, c)| ==> Split(s, c)[k] == rest[k - 1];
      }
    }
  }

  /** `s.split(c)[0]`: the text before the first `c`. */
  function BeforeFirst(s: string, c: char): (r: string)
    ensures IsPrefix(r, s) && c !in r
    ensures |r| < |s| ==> s[|r|] == c
  {
    if s == [] || s[0] == c then [] else [s[0]] + BeforeFirst(s[1..], c)
  }

  /** `s.split(c)[-1]`: the text after the last `c`. */
  function AfterLast(s: string, c: char): (r: string)
    ensures |r| <= |s| && s[|s| - |r|..] == r && c !in r
    ensures |r| < |s| ==> s[|s| - |r| - 1] == c
  {
    if s == [] || s[|s| - 1] == c then [] else AfterLast(s[..|s| - 1], c) + [s[|s| - 1]]
  }

  /** `BeforeFirst` is the first piece of the split ... */
  lemma {:induction false} BeforeFirstIsFirstPiece(s: string, c: char)
    ensures BeforeFirst(s, c) == Split(s, c)[0]
  {
    if s != [] && s[0] != c {
      BeforeFirstIsFirstPiece(s[1..], c);
    }
  }

  /** ... and `AfterLast` the last. */
  lemma {:induction false} AfterLastIsLastPiece(s: string, c: char)
    ensures AfterLast(s, c) == Split(s, c)[|Split(s, c)| - 1]
    decreases |s|
  {
    if s != [] {
      SplitSnoc(s[..|s| - 1], s[|s| - 1], c);
      assert s[..|s| - 1] + [s[|s| - 1]] == s;
      if s[|s| - 1] != c {
        AfterLastIsLastPiece(s[..|s| - 1], c);
      }
    }
  }

  /** The pieces of `s + [x]`: a new empty piece when `x` is the separator,
      otherwise `x` ends the last piece. */
  function SplitSnocPieces(p: seq<string>, x: char, c: char): seq<string>
    requires |p| >= 1
  {
    if x == c then p + [[]] else p[..|p| - 1] + [p[|p| - 1] + [x]]
  }

  /** Splitting a string with one more character at the end. */
  lemma {:induction false} SplitSnoc(s: string, x: char, c: char)
    ensures Split(s + [x], c) == SplitSnocPieces(Split(s, c), x, c)
  {
    if s == [] {
      assert s + [x] == [x];
      assert [x][1..] == [];
      var none: seq<string> := [[]];
      assert Split([], c) == none;
      if x == c {
        assert Split([x], c) == [[]] + none;
      } else {
        var e: string := [];
        assert [x] + e == [x] && e + [x] == [x];
        assert Split([x], c) == [[x] + none[0]] + none[1..];
        assert none[..0] == [];
        assert SplitSnocPieces(none, x, c) == [e + [x]];
      }
    } else {
      var p1 := Split(s[1..], c);
      var q1 := Split(s[1..] + [x], c);
      SplitSnoc(s[1..], x, c);
      assert (s + [x])[1..] == s[1..] + [x];
      assert (s + [x])[0] == s[0];
      if s[0] == c {
        SnocSepHead(p1, x, c);
      } else {
        SnocCharHead(s[0], p1, x, c);
      }
    }
  }

  lemma SnocSepHead(p1: seq<string>, x: char, c: char)
    requires |p1| >= 1
    ensures [[]] + SplitSnocPieces(p1, x, c) == SplitSnocPieces([[]] + p1, x, c)
  {
    if x != c {
      assert ([[]] + p1)[..|p1|] == [[]] + p1[..|p1| - 1];
    }
  }

  lemma SnocCharHead(h: char, p1: seq<string>, x: char, c: char)
    requires |p1| >= 1
    ensures var q1 := SplitSnocPieces(p1, x, c);
      [[h] + q1[0]] + q1[1..] == SplitSnocPieces([[h] + p1[0]] + p1[1..], x, c)
  {
    var q1 := SplitSnocPieces(p1, x, c);
    var p := [[h] + p1[0]] + p1[1..];
    if x == c {
      assert q1[0] == p1[0];
      assert q1[1..] == p1[1..] + [[]];
    } else if |p1| == 1 {
      assert p1[1..] == [];
      assert q1 == [p1[0] + [x]];
      assert p == [[h] + p1[0]];
      assert [h] + (p1[0] + [x]) == ([h] + p1[0]) + [x];
    } else {
      assert q1[0] == p1[0];
      assert q1[1..] == p1[1..|p1| - 1] + [p1[|p1| - 1] + [x]];
      assert p[..|p| - 1] == [[h] + p1[0]] + p1[1..|p1| - 1];
    }
  }

  /** `posixpath.join(a, b)`: an absolute `b` replaces `a`, otherwise a `/`
      separates them unless `a` is empty or already ends with one. */
  function PathJoin(a: string, b: string): string {
    if |b| > 0 && b[0] == '/' then b
    else if a == [] || a[|a| - 1] == '/' then a + b
    else a + "/" + b
  }

  /** A string without the separator is its own last piece ... */
  lemma {:induction false} AfterLastFree(y: string, c: char)
    requires c !in y
    ensures AfterLast(y, c) == y
    decreases |y|
  {
    if y != [] {
      var y' := y[..|y| - 1];
      assert y[|y| - 1] in y;
      AfterLastFree(y', c);
      assert y' + [y[|y| - 1]] == y;
    }
  }

  /** ... and so is it after a separator. */
  lemma {:induction false} AfterLastPast(x: string, y: string, c: char)
    requires c !in y
    ensures AfterLast(x + [c] + y, c) == y
    decreases |y|
  {
    var s := x + [c] + y;
    if y == [] {
      assert s == x + [c];
    } else {
      var y' := y[..|y| - 1];
      var last := y[|y| - 1];
      assert last in y;
      assert s[|s| - 1] == last;
      assert s[..|s| - 1] == x + [c] + y';
      AfterLastPast(x, y', c);
      assert y' + [last] == y;
    }
  }

  /** A name joined under a directory is the last component of the result. */
  lemma PathJoinLast(a: string, b: string)
    requires b != [] && '/' !in b
    ensures AfterLast(PathJoin(a, b), '/') == b
  {
    assert b[0] in b;
    if a == [] {
      AfterLastFree(b, '/');
    } else if a[|a| - 1] == '/' {
      var a' := a[..|a| - 1];
      assert a + b == a' + ['/'] + b;
      AfterLastPast(a', b, '/');
    } else {
      AfterLastPast(a, b, '/');
    }
  }

  /** The text before a separator that is preceded by no other one. */
  lemma {:induction false} BeforeFirstPast(x: string, y: string, c: char)
    requires c !in x
    ensures BeforeFirst(x + [c] + y, c) == x
    decreases |x|
  {
    if x == [] {
      assert (x + [c] + y)[0] == c;
    } else {
      assert (x + [c] + y)[1..] == x[1..] + [c] + y;
      assert x[0] in x;
      BeforeFirstPast(x[1..], y, c);
      assert [x[0]] + x[1..] == x;
    }
  }
}
