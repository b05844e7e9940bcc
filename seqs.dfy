/** Sequence facts shared by the models of the pandas selections. */
module Seqs {

  /** No value occurs twice. */
  predicate Distinct<T(==)>(s: seq<T>)
  {
    forall i, j :: 0 <= i < j < |s| ==> s[i] != s[j]
  }

  function Elements<T(==)>(s: seq<T>): set<T>
  {
    set x | x in s
  }

  /** A sequence without repetitions has as many elements as its set. */
  lemma {:induction false} DistinctCard<T>(s: seq<T>)
    requires Distinct(s)
    ensures |Elements(s)| == |s|
  {
    if |s| > 0 {
      var t := s[..|s| - 1];
      assert Distinct(t);
      DistinctCard(t);
      assert Elements(s) == Elements(t) + {s[|s| - 1]};
      assert s[|s| - 1] !in Elements(t);
    }
  }

  /** Counting distinct values never exceeds counting rows. */
  lemma {:induction false} CardAtMostLength<T>(s: seq<T>)
    ensures |Elements(s)| <= |s|
  {
    if |s| > 0 {
      var t := s[..|s| - 1];
      CardAtMostLength(t);
      assert Elements(s) == Elements(t) + {s[|s| - 1]};
    }
  }

  /** Rows that satisfy p, in their original order (a boolean mask). */
  function Filter<T(!new)>(s: seq<T>, p: T -> bool): (r: seq<T>)
    ensures |r| <= |s|
    ensures forall x :: x in r <==> x in s && p(x)
    ensures forall x :: multiset(r)[x] == if p(x) then multiset(s)[x] else 0
  {
    if s == [] then []
    else
      var rest := Filter(s[1..], p);
      assert s == [s[0]] + s[1..];
      assert multiset(s) == multiset([s[0]]) + multiset(s[1..]);
      assert forall x :: x in s <==> x == s[0] || x in s[1..];
      if p(s[0]) then [s[0]] + rest else rest
  }

  /** The positions xs, each moved one place up. */
  function Shift(xs: set<int>): set<int>
  {
    set i | i in xs :: i + 1
  }

  /** Moving every position one place up keeps the number of positions. */
  lemma {:induction false} ShiftCard(xs: set<int>)
    ensures |Shift(xs)| == |xs|
    decreases |xs|
  {
    if x :| x in xs {
      var rest := xs - {x};
      ShiftCard(rest);
      forall y ensures y in Shift(xs) <==> y in Shift(rest) + {x + 1} {
        if y - 1 in xs {
          assert (y - 1) + 1 in Shift(xs);
        }
        if y - 1 in rest {
          assert (y - 1) + 1 in Shift(rest);
        }
      }
      assert Shift(xs) == Shift(rest) + {x + 1};
    } else {
      forall y ensures y in xs <==> y in {} {
      }
      assert xs == {};
      forall y ensures y in Shift(xs) <==> y in {} {
      }
      assert Shift(xs) == {};
    }
  }

  /** The positions of s whose element satisfies p. */
  function Positions<T>(s: seq<T>, p: T -> bool): set<int>
  {
    set i | 0 <= i < |s| && p(s[i])
  }

  lemma PositionsNil<T>(p: T -> bool)
    ensures |Positions([], p)| == 0
  {
    forall i ensures i in Positions([], p) <==> i in {} {
    }
    assert Positions([], p) == {};
  }

  /** The positions of a non-empty sequence are its head, when the head
      satisfies p, and the tail's positions moved one place up. */
  lemma PositionsCons<T>(s: seq<T>, p: T -> bool)
    requires |s| > 0
    ensures |Positions(s, p)| == (if p(s[0]) then 1 else 0) + |Positions(s[1..], p)|
  {
    var tail := Positions(s[1..], p);
    var head: set<int> := if p(s[0]) then {0} else {};
    forall i ensures i in Positions(s, p) <==> i in head + Shift(tail) {
      if i > 0 && i - 1 in tail {
        assert (i - 1) + 1 in Shift(tail);
      }
      if 0 < i < |s| {
        assert s[i] == s[1..][i - 1];
      }
    }
    assert Positions(s, p) == head + Shift(tail);
    ShiftCard(tail);
    assert 0 !in Shift(tail);
  }

  predicate IsPrefix<T(==)>(p: seq<T>, s: seq<T>)
  {
    |p| <= |s| && p == s[..|p|]
  }

  lemma AppendAssoc<T>(a: seq<T>, b: seq<T>, c: seq<T>)
    ensures a + b + c == a + (b + c)
  {
  }

  lemma AppendNil<T>(a: seq<T>)
    ensures a + [] == a
  {
  }

  /** pd.concat of a list of frames. */
  function Flatten<T>(ss: seq<seq<T>>): seq<T>
  {
    if ss == [] then [] else Flatten(ss[..|ss| - 1]) + ss[|ss| - 1]
  }

  lemma FlattenAppend<T>(ss: seq<seq<T>>, xs: seq<T>)
    ensures Flatten(ss + [xs]) == Flatten(ss) + xs
  {
    assert (ss + [xs])[..|ss|] == ss;
  }

  /** Concatenating two lists of frames concatenates their rows. */
  lemma {:induction false} FlattenConcat<T>(ss: seq<seq<T>>, tt: seq<seq<T>>)
    ensures Flatten(ss + tt) == Flatten(ss) + Flatten(tt)
    decreases |tt|
  {
    if tt == [] {
      assert ss + tt == ss;
    } else {
      var init := tt[..|tt| - 1];
      FlattenConcat(ss, init);
      assert (ss + tt)[..|ss + tt| - 1] == ss + init;
    }
  }

  /** Keys of a list of rows. */
  function KeySet<T(==), K(==)>(s: seq<T>, key: T -> K): set<K>
  {
    set x | x in s :: key(x)
  }

  /** Index i holds the first row with its key. */
  predicate FirstWithKey<T, K(==)>(s: seq<T>, key: T -> K, i: int)
    requires 0 <= i < |s|
  {
    forall j :: 0 <= j < i ==> key(s[j]) != key(s[i])
  }

  /** drop_duplicates(subset = key, keep = 'first'): scan the rows in order
      and keep a row only when no earlier row has its key. */
  function KeepFirst<T(==,!new), K(==)>(s: seq<T>, key: T -> K): (r: seq<T>)
    ensures forall x :: x in r ==> x in s
    ensures KeySet(r, key) == KeySet(s, key)
    ensures forall i, j :: 0 <= i < j < |r| ==> key(r[i]) != key(r[j])
    ensures forall x :: x in r ==>
              exists i :: 0 <= i < |s| && s[i] == x && FirstWithKey(s, key, i)
    decreases |s|
  {
    if s == [] then []
    else
      var n := |s| - 1;
      var init := s[..n];
      var p := KeepFirst(init, key);
      assert forall x :: x in s <==> x in init || x == s[n];
      assert KeySet(s, key) == KeySet(init, key) + {key(s[n])};
      assert forall i :: 0 <= i < n ==> (FirstWithKey(init, key, i) <==> FirstWithKey(s, key, i));
      if key(s[n]) in KeySet(p, key) then p
      else
        assert FirstWithKey(s, key, n) by {
          forall j | 0 <= j < n ensures key(s[j]) != key(s[n]) {
            assert s[j] in init;
          }
        }
        p + [s[n]]
  }

  /** KeepFirst keeps its rows in input order: the i-th kept row sits at
      pos[i] in the input, at the first index with its key, and the
      positions increase. */
  lemma {:induction false} KeepFirstInOrder<T(!new), K>(s: seq<T>, key: T -> K) returns (pos: seq<int>)
    ensures |pos| == |KeepFirst(s, key)|
    ensures forall i :: 0 <= i < |pos| ==>
              0 <= pos[i] < |s| && s[pos[i]] == KeepFirst(s, key)[i] && FirstWithKey(s, key, pos[i])
    ensures forall i, j :: 0 <= i < j < |pos| ==> pos[i] < pos[j]
    decreases |s|
  {
    if s == [] {
      pos := [];
    } else {
      var n := |s| - 1;
      var init := s[..n];
      var p := KeepFirst(init, key);
      var q := KeepFirstInOrder(init, key);
      assert forall i :: 0 <= i < n ==> (FirstWithKey(init, key, i) <==> FirstWithKey(s, key, i));
      if key(s[n]) in KeySet(p, key) {
        assert KeepFirst(s, key) == p;
        pos := q;
      } else {
        assert KeepFirst(s, key) == p + [s[n]];
        assert FirstWithKey(s, key, n) by {
          forall j | 0 <= j < n ensures key(s[j]) != key(s[n]) {
            assert s[j] in init;
          }
        }
        pos := q + [n];
        forall i | 0 <= i < |q|
          ensures pos[i] == q[i] < n && s[pos[i]] == KeepFirst(s, key)[i]
        {
          assert s[q[i]] == init[q[i]];
        }
      }
    }
  }
}
