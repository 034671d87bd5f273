/**
 Sequence operations shared by the pipeline: counting occurrences, and keeping the first
 element for each key in order — pandas' `Series.unique()` (key = the value itself) and
 `DataFrame.drop_duplicates(subset=..., keep='first')` (key = the chosen column).
 */
module Seqs {

  /** The number of positions of `s` that hold `x`. */
  function Count<T(==)>(s: seq<T>, x: T): (n: nat)
    ensures n <= |s|
    ensures n > 0 <==> x in s
  {
    if s == [] then 0
    else Count(s[..|s| - 1], x) + (if s[|s| - 1] == x then 1 else 0)
  }

  /** In a sequence without repeats every value occurs at most once. */
  lemma {:induction false} CountDistinct<T>(s: seq<T>, x: T)
    requires forall i, j :: 0 <= i < j < |s| ==> s[i] != s[j]
    ensures Count(s, x) == if x in s then 1 else 0
  {
    if s != [] {
      var p := s[..|s| - 1];
      assert forall i, j :: 0 <= i < j < |p| ==> p[i] != p[j] by {
        forall i, j | 0 <= i < j < |p| ensures p[i] != p[j] {
          assert p[i] == s[i] && p[j] == s[j];
        }
      }
      CountDistinct(p, x);
      if s[|s| - 1] == x {
        forall i | 0 <= i < |p| ensures p[i] != x {
          assert p[i] == s[i];
        }
      }
      assert x in s <==> x in p || s[|s| - 1] == x by {
        assert s == p + [s[|s| - 1]];
      }
    }
  }

  /** Some element of `s` has key `k`. */
  predicate HasKey<T, K(==)>(s: seq<T>, key: T -> K, k: K)
  {
    exists i | 0 <= i < |s| :: key(s[i]) == k
  }

  /** The element at position `i` is the first of `s` with its key. */
  predicate IsFirst<T, K(==)>(s: seq<T>, key: T -> K, i: int)
    requires 0 <= i < |s|
  {
    forall j | 0 <= j < i :: key(s[j]) != key(s[i])
  }

  /** Scans `s` from the left and keeps an element only when no element kept so far has its key.
      The kept elements have pairwise distinct keys and exactly the keys of `s`. */
  function KeepFirst<T, K(==)>(s: seq<T>, key: T -> K): (r: seq<T>)
    ensures |r| <= |s|
    ensures forall i :: 0 <= i < |s| ==> HasKey(r, key, key(s[i]))
    ensures forall i :: 0 <= i < |r| ==> HasKey(s, key, key(r[i]))
    ensures forall i, j :: 0 <= i < j < |r| ==> key(r[i]) != key(r[j])
  {
    if s == [] then []
    else
      var p := s[..|s| - 1];
      var kept := KeepFirst(p, key);
      var x := s[|s| - 1];
      if HasKey(kept, key, key(x)) then
        assert forall i :: 0 <= i < |s| ==> HasKey(kept, key, key(s[i])) by {
          forall i | 0 <= i < |s| ensures HasKey(kept, key, key(s[i])) {
            if i < |s| - 1 { assert s[i] == p[i]; }
          }
        }
        assert forall i :: 0 <= i < |kept| ==> HasKey(s, key, key(kept[i])) by {
          forall i | 0 <= i < |kept| ensures HasKey(s, key, key(kept[i])) {
            var j :| 0 <= j < |p| && key(p[j]) == key(kept[i]);
            assert s[j] == p[j];
          }
        }
        kept
      else
        var r := kept + [x];
        assert forall i :: 0 <= i < |s| ==> HasKey(r, key, key(s[i])) by {
          forall i | 0 <= i < |s| ensures HasKey(r, key, key(s[i])) {
            if i < |s| - 1 {
              assert s[i] == p[i];
              var j :| 0 <= j < |kept| && key(kept[j]) == key(s[i]);
              assert r[j] == kept[j];
            } else {
              assert r[|kept|] == s[i];
            }
          }
        }
        assert forall i :: 0 <= i < |r| ==> HasKey(s, key, key(r[i])) by {
          forall i | 0 <= i < |r| ensures HasKey(s, key, key(r[i])) {
            if i < |kept| {
              assert r[i] == kept[i];
              var j :| 0 <= j < |p| && key(p[j]) == key(kept[i]);
              assert s[j] == p[j];
            } else {
              assert key(s[|s| - 1]) == key(r[i]);
            }
          }
        }
        assert forall i, j :: 0 <= i < j < |r| ==> key(r[i]) != key(r[j]) by {
          forall i, j | 0 <= i < j < |r| ensures key(r[i]) != key(r[j]) {
            if j == |kept| {
              assert r[i] == kept[i] && r[j] == x;
              assert !HasKey(kept, key, key(x));
            } else {
              assert r[i] == kept[i] && r[j] == kept[j];
            }
          }
        }
        r
  }

  /** Reference definition: the elements of `s` at the positions where their key appears for
      the first time, in the order of `s`. */
  function FirstOccurrences<T, K(==)>(s: seq<T>, key: T -> K): seq<T>
  {
    if s == [] then []
    else FirstOccurrences(s[..|s| - 1], key) + (if IsFirst(s, key, |s| - 1) then [s[|s| - 1]] else [])
  }

  /** KeepFirst keeps exactly the first occurrence of every key, in input order. */
  lemma {:induction false} KeepFirstIsFirstOccurrences<T, K>(s: seq<T>, key: T -> K)
    ensures KeepFirst(s, key) == FirstOccurrences(s, key)
  {
    if s != [] {
      var p := s[..|s| - 1];
      var x := s[|s| - 1];
      KeepFirstIsFirstOccurrences(p, key);
      assert HasKey(p, key, key(x)) <==> !IsFirst(s, key, |s| - 1) by {
        if HasKey(p, key, key(x)) {
          var j :| 0 <= j < |p| && key(p[j]) == key(x);
          assert key(s[j]) == key(s[|s| - 1]);
        }
        if !IsFirst(s, key, |s| - 1) {
          var j :| 0 <= j < |s| - 1 && key(s[j]) == key(s[|s| - 1]);
          assert key(p[j]) == key(x);
        }
      }
    }
  }

  /** FirstOccurrences only keeps elements of its input. */
  lemma {:induction false} FirstOccurrencesMember<T, K>(s: seq<T>, key: T -> K, x: T)
    requires x in FirstOccurrences(s, key)
    ensures x in s
  {
    var p := s[..|s| - 1];
    if x in FirstOccurrences(p, key) {
      FirstOccurrencesMember(p, key, x);
      var i :| 0 <= i < |p| && p[i] == x;
      assert s[i] == x;
    } else {
      assert x == s[|s| - 1];
    }
  }

  /** Every element FirstOccurrences keeps is the first of `s` with its key, and they come
      from strictly increasing positions of `s`. */
  lemma {:induction false} FirstOccurrencesPositions<T, K>(s: seq<T>, key: T -> K) returns (pos: seq<nat>)
    ensures |pos| == |FirstOccurrences(s, key)|
    ensures forall m :: 0 <= m < |pos| ==> pos[m] < |s| && IsFirst(s, key, pos[m]) && s[pos[m]] == FirstOccurrences(s, key)[m]
    ensures forall m, n :: 0 <= m < n < |pos| ==> pos[m] < pos[n]
  {
    if s == [] {
      pos := [];
    } else {
      var p := s[..|s| - 1];
      var pp := FirstOccurrencesPositions(p, key);
      forall m | 0 <= m < |pp| ensures IsFirst(s, key, pp[m]) && s[pp[m]] == p[pp[m]] {
        assert IsFirst(p, key, pp[m]);
      }
      if IsFirst(s, key, |s| - 1) {
        pos := pp + [|s| - 1];
      } else {
        pos := pp;
      }
    }
  }

  /** The identity, as the key under which a value is its own key. */
  function Id<T>(x: T): T
  {
    x
  }

  /** `unique()` on a sequence of values: KeepFirst with the value as its own key. */
  function Unique<T(==)>(s: seq<T>): seq<T>
  {
    KeepFirst(s, Id)
  }

  /** Unique returns each value of its input once and nothing else, in first-occurrence order. */
  lemma UniqueSpec<T>(s: seq<T>)
    ensures forall i, j :: 0 <= i < j < |Unique(s)| ==> Unique(s)[i] != Unique(s)[j]
    ensures forall x :: x in Unique(s) <==> x in s
    ensures Unique(s) == FirstOccurrences(s, Id)
  {
    var id := Id;
    var r := KeepFirst(s, id);
    forall x ensures x in r <==> x in s {
      if x in r {
        var i :| 0 <= i < |r| && r[i] == x;
        assert HasKey(s, id, id(r[i]));
        var j :| 0 <= j < |s| && id(s[j]) == id(r[i]);
        assert s[j] == x;
      }
      if x in s {
        var i :| 0 <= i < |s| && s[i] == x;
        assert HasKey(r, id, id(s[i]));
        var j :| 0 <= j < |r| && id(r[j]) == id(s[i]);
        assert r[j] == x;
      }
    }
    KeepFirstIsFirstOccurrences(s, id);
  }

  /** Applies `f` to every element and concatenates the results in order: pandas' `explode`
      of a column of lists, and the row-by-row filtering of a table. */
  function FlatMap<T, U>(s: seq<T>, f: T -> seq<U>): seq<U>
  {
    if s == [] then [] else f(s[0]) + FlatMap(s[1..], f)
  }

  /** FlatMap works element by element: the results for two parts are concatenated. */
  lemma {:induction false} FlatMapAppend<T, U>(a: seq<T>, b: seq<T>, f: T -> seq<U>)
    ensures FlatMap(a + b, f) == FlatMap(a, f) + FlatMap(b, f)
  {
    if a == [] {
      assert a + b == b;
    } else {
      FlatMapAppend(a[1..], b, f);
      assert (a + b)[1..] == a[1..] + b;
    }
  }

  /** A value is in the result exactly when it comes from some element. */
  lemma {:induction false} FlatMapMember<T, U>(s: seq<T>, f: T -> seq<U>, y: U)
    ensures y in FlatMap(s, f) <==> exists i :: 0 <= i < |s| && y in f(s[i])
  {
    if s != [] {
      FlatMapMember(s[1..], f, y);
      if exists i :: 0 <= i < |s| && y in f(s[i]) {
        var i :| 0 <= i < |s| && y in f(s[i]);
        if i > 0 {
          assert s[1..][i - 1] == s[i];
        }
      }
      if exists i :: 0 <= i < |s[1..]| && y in f(s[1..][i]) {
        var i :| 0 <= i < |s[1..]| && y in f(s[1..][i]);
        assert s[i + 1] == s[1..][i];
      }
    }
  }

  /** When every element gives at most one value, there are no more results than elements. */
  lemma {:induction false} FlatMapAtMostOne<T, U>(s: seq<T>, f: T -> seq<U>)
    requires forall i :: 0 <= i < |s| ==> |f(s[i])| <= 1
    ensures |FlatMap(s, f)| <= |s|
  {
    if s != [] {
      assert forall i :: 0 <= i < |s[1..]| ==> s[1..][i] == s[i + 1];
      FlatMapAtMostOne(s[1..], f);
    }
  }

  /** When every element gives at most one value, the results come one per giving element, in
      order: the m-th result is what the element at position pos[m] gives, the positions
      increase strictly, and every element that gives a value has its position in pos. */
  lemma {:induction false} FlatMapPositions<T, U>(s: seq<T>, f: T -> seq<U>) returns (pos: seq<nat>)
    requires forall i :: 0 <= i < |s| ==> |f(s[i])| <= 1
    ensures |pos| == |FlatMap(s, f)|
    ensures forall m :: 0 <= m < |pos| ==> pos[m] < |s| && f(s[pos[m]]) == [FlatMap(s, f)[m]]
    ensures forall m, n :: 0 <= m < n < |pos| ==> pos[m] < pos[n]
    ensures forall i :: 0 <= i < |s| && f(s[i]) != [] ==> i in pos
  {
    if s == [] {
      pos := [];
    } else {
      var tail := s[1..];
      assert forall i :: 0 <= i < |tail| ==> |f(tail[i])| <= 1 by {
        forall i | 0 <= i < |tail| ensures |f(tail[i])| <= 1 {
          assert tail[i] == s[i + 1];
        }
      }
      var rest := FlatMapPositions(tail, f);
      var d := if f(s[0]) == [] then 0 else 1;
      pos := Shifted(rest, d);
      PositionsStep(s, f, rest, d, pos);
    }
  }

  /** The inductive step of FlatMapPositions: the first element's result, if any, then the
      tail's results at positions moved one place right. */
  lemma PositionsStep<T, U>(s: seq<T>, f: T -> seq<U>, rest: seq<nat>, d: nat, pos: seq<nat>)
    requires s != [] && d == |f(s[0])| <= 1
    requires |rest| == |FlatMap(s[1..], f)|
    requires forall m :: 0 <= m < |rest| ==> rest[m] < |s[1..]| && f(s[1..][rest[m]]) == [FlatMap(s[1..], f)[m]]
    requires forall i :: 0 <= i < |s[1..]| && f(s[1..][i]) != [] ==> i in rest
    requires |pos| == |rest| + d
    requires forall m :: d <= m < |pos| ==> pos[m] == rest[m - d] + 1
    requires d == 1 ==> pos[0] == 0
    ensures |pos| == |FlatMap(s, f)|
    ensures forall m :: 0 <= m < |pos| ==> pos[m] < |s| && f(s[pos[m]]) == [FlatMap(s, f)[m]]
    ensures forall i :: 0 <= i < |s| && f(s[i]) != [] ==> i in pos
  {
    var tail := s[1..];
    var r := FlatMap(s, f);
    assert r == f(s[0]) + FlatMap(tail, f);
    forall m | 0 <= m < |pos| ensures pos[m] < |s| && f(s[pos[m]]) == [r[m]] {
      if m >= d {
        assert pos[m] == rest[m - d] + 1 && r[m] == FlatMap(tail, f)[m - d];
        assert s[pos[m]] == tail[rest[m - d]];
      } else {
        assert pos[m] == 0 && r[m] == f(s[0])[0];
      }
    }
    PositionsCover(s, f, rest, d, pos);
  }

  lemma PositionsCover<T, U>(s: seq<T>, f: T -> seq<U>, rest: seq<nat>, d: nat, pos: seq<nat>)
    requires s != [] && d == |f(s[0])| <= 1
    requires forall i :: 0 <= i < |s[1..]| && f(s[1..][i]) != [] ==> i in rest
    requires |pos| == |rest| + d
    requires forall m :: d <= m < |pos| ==> pos[m] == rest[m - d] + 1
    requires d == 1 ==> pos[0] == 0
    ensures forall i :: 0 <= i < |s| && f(s[i]) != [] ==> i in pos
  {
    var tail := s[1..];
    forall i | 0 <= i < |s| && f(s[i]) != [] ensures i in pos {
      if i > 0 {
        assert f(tail[i - 1]) != [] by {
          assert tail[i - 1] == s[i];
        }
        var k :| 0 <= k < |rest| && rest[k] == i - 1;
        assert pos[k + d] == i;
      } else {
        assert pos[0] == 0;
      }
    }
  }

  /** The positions of the tail, moved one place right, after position 0 when `first` is 1. */
  function Shifted(rest: seq<nat>, first: nat): (pos: seq<nat>)
    requires first <= 1
    requires forall m, n :: 0 <= m < n < |rest| ==> rest[m] < rest[n]
    ensures |pos| == |rest| + first
    ensures forall m :: first <= m < |pos| ==> pos[m] == rest[m - first] + 1
    ensures first == 1 ==> pos[0] == 0
    ensures forall m, n :: 0 <= m < n < |pos| ==> pos[m] < pos[n]
  {
    var moved := seq(|rest|, k requires 0 <= k < |rest| => rest[k] + 1);
    if first == 0 then moved else [0] + moved
  }
}
