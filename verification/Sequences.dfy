/** Sequences without repetitions, and flattening. */
module Sequences {

  ghost predicate Distinct<T>(s: seq<T>) {
    forall i, j :: 0 <= i < j < |s| ==> s[i] != s[j]
  }

  lemma DistinctParts<T>(a: seq<T>, b: seq<T>)
    ensures Distinct(a + b) <==> Distinct(a) && Distinct(b) && forall x :: x in a ==> x !in b
  {
    if Distinct(a + b) {
      forall i, j | 0 <= i < j < |a|
        ensures a[i] != a[j]
      {
        assert (a + b)[i] != (a + b)[j];
      }
      forall i, j | 0 <= i < j < |b|
        ensures b[i] != b[j]
      {
        assert (a + b)[|a| + i] != (a + b)[|a| + j];
      }
      forall i, j | 0 <= i < |a| && 0 <= j < |b|
        ensures a[i] != b[j]
      {
        assert (a + b)[i] != (a + b)[|a| + j];
      }
    }
    if Distinct(a) && Distinct(b) && forall x :: x in a ==> x !in b {
      forall i, j | 0 <= i < j < |a + b|
        ensures (a + b)[i] != (a + b)[j]
      {
        if i < |a| <= j {
          assert a[i] in a && b[j - |a|] in b;
        }
      }
    }
  }

  /** Sequences with the same elements, none repeated, are permutations. */
  lemma {:induction false} SameElementsPermute<T>(a: seq<T>, b: seq<T>)
    requires Distinct(a) && Distinct(b)
    requires forall x :: x in a <==> x in b
    ensures multiset(a) == multiset(b)
    ensures |a| == |b|
  {
    DistinctCounts(a);
    DistinctCounts(b);
    forall x ensures multiset(a)[x] == multiset(b)[x] {
      assert x in a <==> x in b;
    }
    assert |multiset(a)| == |a| && |multiset(b)| == |b|;
  }

  lemma {:induction false} DistinctCounts<T>(s: seq<T>)
    requires Distinct(s)
    ensures forall x :: multiset(s)[x] == if x in s then 1 else 0
  {
    if s != [] {
      var front, last := s[..|s| - 1], s[|s| - 1];
      assert s == front + [last];
      DistinctParts(front, [last]);
      DistinctCounts(front);
    }
  }

  lemma ConcatAssociates<T>(a: seq<T>, b: seq<T>, c: seq<T>)
    ensures a + b + c == a + (b + c)
  {
  }

  function Flatten<T>(rows: seq<seq<T>>): (flat: seq<T>) {
    if rows == [] then [] else rows[0] + Flatten(rows[1..])
  }

  lemma {:induction false} FlattenConcat<T>(a: seq<seq<T>>, b: seq<seq<T>>)
    ensures Flatten(a + b) == Flatten(a) + Flatten(b)
  {
    if a == [] {
      assert a + b == b;
    } else {
      assert (a + b)[1..] == a[1..] + b;
      FlattenConcat(a[1..], b);
    }
  }

  /** Row `i` of a table, in the middle of its flattening. */
  lemma FlattenAt<T>(rows: seq<seq<T>>, i: nat)
    requires i < |rows|
    ensures Flatten(rows) == Flatten(rows[..i]) + rows[i] + Flatten(rows[i + 1..])
  {
    assert rows == rows[..i] + rows[i..];
    FlattenConcat(rows[..i], rows[i..]);
    assert rows[i..][1..] == rows[i + 1..];
  }

  lemma FlattenUpdate<T>(rows: seq<seq<T>>, i: nat, row: seq<T>)
    requires i < |rows|
    ensures Flatten(rows[i := row]) == Flatten(rows[..i]) + row + Flatten(rows[i + 1..])
  {
    var rows' := rows[i := row];
    FlattenAt(rows', i);
    assert rows'[..i] == rows[..i] && rows'[i + 1..] == rows[i + 1..];
  }

  lemma {:induction false} InFlatten<T>(rows: seq<seq<T>>, x: T)
    ensures x in Flatten(rows) <==> exists i :: 0 <= i < |rows| && x in rows[i]
  {
    if rows != [] {
      InFlatten(rows[1..], x);
      if x in Flatten(rows[1..]) {
        var i :| 0 <= i < |rows[1..]| && x in rows[1..][i];
        assert x in rows[i + 1];
      }
      if exists i :: 0 <= i < |rows| && x in rows[i] {
        var i :| 0 <= i < |rows| && x in rows[i];
        if i > 0 {
          assert x in rows[1..][i - 1];
        }
      }
    }
  }

  /** `ps` with `p` put directly after `anchor`. */
  function InsertAfter<T(==)>(ps: seq<T>, anchor: T, p: T): seq<T> {
    if ps == [] then []
    else if ps[0] == anchor then [anchor, p] + ps[1..]
    else [ps[0]] + InsertAfter(ps[1..], anchor, p)
  }

  lemma {:induction false} InsertAfterAt<T>(a: seq<T>, anchor: T, b: seq<T>, p: T)
    requires anchor !in a
    ensures InsertAfter(a + [anchor] + b, anchor, p) == a + [anchor, p] + b
  {
    if a == [] {
      assert a + [anchor] + b == [anchor] + b;
    } else {
      assert (a + [anchor] + b)[1..] == a[1..] + [anchor] + b;
      InsertAfterAt(a[1..], anchor, b, p);
    }
  }

  /** `ps` without the elements of `gone`. */
  function Without<T(==)>(ps: seq<T>, gone: seq<T>): seq<T> {
    if ps == [] then []
    else if ps[0] in gone then Without(ps[1..], gone)
    else [ps[0]] + Without(ps[1..], gone)
  }

  lemma {:induction false} WithoutConcat<T>(a: seq<T>, b: seq<T>, gone: seq<T>)
    ensures Without(a + b, gone) == Without(a, gone) + Without(b, gone)
  {
    if a == [] {
      assert a + b == b;
    } else {
      assert (a + b)[1..] == a[1..] + b;
      WithoutConcat(a[1..], b, gone);
    }
  }

  lemma {:induction false} WithoutAllOrNone<T>(ps: seq<T>, gone: seq<T>)
    ensures (forall x :: x in ps ==> x !in gone) ==> Without(ps, gone) == ps
    ensures (forall x :: x in ps ==> x in gone) ==> Without(ps, gone) == []
  {
    if ps != [] {
      WithoutAllOrNone(ps[1..], gone);
      assert ps[0] in ps;
    }
  }

  lemma WithoutMiddle<T>(a: seq<T>, gone: seq<T>, b: seq<T>)
    requires forall x :: x in gone ==> x !in a && x !in b
    ensures Without(a + gone + b, gone) == a + b
  {
    WithoutConcat(a + gone, b, gone);
    WithoutConcat(a, gone, gone);
    WithoutAllOrNone(a, gone);
    WithoutAllOrNone(gone, gone);
    WithoutAllOrNone(b, gone);
  }

  /** The middle of a sequence without repetitions is foreign to the rest. */
  lemma DistinctMiddle<T>(a: seq<T>, m: seq<T>, b: seq<T>)
    requires Distinct(a + m + b)
    ensures Distinct(a + b) && Distinct(m)
    ensures forall x :: x in m ==> x !in a && x !in b
  {
    DistinctParts(a + m, b);
    DistinctParts(a, m);
    assert forall x :: x in a || x in m ==> x in a + m;
    DistinctParts(a, b);
  }

  lemma DistinctInsert<T>(a: seq<T>, p: T, b: seq<T>)
    requires Distinct(a + b) && p !in a + b
    ensures Distinct(a + [p] + b)
  {
    DistinctParts(a, b);
    DistinctParts(a, [p]);
    assert forall x :: x in a + [p] ==> x in a || x == p;
    assert forall x :: x in a || x in b ==> x in a + b;
    DistinctParts(a + [p], b);
  }
}
