/** Sorting a finite set by a strict total order: the sorted sequence exists and is unique. */
module Sorting {
  /** Strict and total on the elements of `s`. */
  ghost predicate Orders<T(!new)>(less: (T, T) -> bool, s: set<T>) {
    && (forall x | x in s :: !less(x, x))
    && (forall x, y, z | x in s && y in s && z in s :: less(x, y) && less(y, z) ==> less(x, z))
    && (forall x, y | x in s && y in s :: x == y || less(x, y) || less(y, x))
  }

  ghost predicate Ascending<T(!new)>(less: (T, T) -> bool, q: seq<T>) {
    forall i, j | 0 <= i < j < |q| :: less(q[i], q[j])
  }

  ghost predicate IsLeast<T(!new)>(less: (T, T) -> bool, s: set<T>, m: T) {
    m in s && forall x | x in s && x != m :: less(m, x)
  }

  lemma {:induction false} LeastExists<T(!new)>(less: (T, T) -> bool, s: set<T>) returns (m: T)
    requires Orders(less, s) && s != {}
    ensures IsLeast(less, s, m)
    decreases |s|
  {
    var x :| x in s;
    m := x;
    if s != {x} {
      var m' := LeastExists(less, s - {x});
      if less(m', x) { m := m'; }
    }
  }

  /** The elements of `s` in ascending order. */
  ghost function Sorted<T(!new)>(less: (T, T) -> bool, s: set<T>): (q: seq<T>)
    requires Orders(less, s)
    ensures |q| == |s| && Ascending(less, q) && forall x :: x in q <==> x in s
  {
    if s == {} then []
    else
      var least := LeastOf(less, s);
      [least] + Sorted(less, s - {least})
  }

  ghost function LeastOf<T(!new)>(less: (T, T) -> bool, s: set<T>): (m: T)
    requires Orders(less, s) && s != {}
    ensures IsLeast(less, s, m)
  {
    assert exists m :: IsLeast(less, s, m) by { var m := LeastExists(less, s); }
    var m :| IsLeast(less, s, m);
    m
  }

  /** Any ascending sequence of the elements of `s` is the sorted one. */
  lemma {:induction false} SortedIsUnique<T(!new)>(less: (T, T) -> bool, s: set<T>, q: seq<T>)
    requires Orders(less, s) && Ascending(less, q) && forall x :: x in q <==> x in s
    ensures q == Sorted(less, s)
    decreases |s|
  {
    if q == [] {
      assert s == {};
    } else {
      assert q[0] in s;
      var m := LeastOf(less, s);
      assert q[0] == m by {
        var k :| 0 <= k < |q| && q[k] == m;
      }
      forall x ensures x in q[1..] <==> x in s - {m} {
        if x in q[1..] {
          var k :| 1 <= k < |q| && q[k] == x;
          assert less(q[0], q[k]);
        }
      }
      SortedIsUnique(less, s - {m}, q[1..]);
    }
  }

  /** Where `x` goes in an ascending sequence. */
  method InsertAscending<T(==,!new)>(less: (T, T) -> bool, q: seq<T>, x: T) returns (out: seq<T>)
    requires Orders(less, (set y | y in q) + {x}) && Ascending(less, q) && x !in q
    ensures Ascending(less, out) && forall y :: y in out <==> y in q || y == x
  {
    var i := 0;
    while i < |q| && less(q[i], x)
      invariant 0 <= i <= |q| && forall k | 0 <= k < i :: less(q[k], x)
    {
      i := i + 1;
    }
    out := q[..i] + [x] + q[i..];
    forall k | i <= k < |q| ensures less(x, q[k]) {
      assert q[i] in q && q[k] in q;
    }
    forall y ensures y in out <==> y in q || y == x {
      if y in q {
        var k :| 0 <= k < |q| && q[k] == y;
        assert out[if k < i then k else k + 1] == y;
      }
      if y == x { assert out[i] == x; }
    }
  }

  // ---- Go's string order ----

  predicate StringLess(a: string, b: string) {
    b != "" && (a == "" || a[0] < b[0] || (a[0] == b[0] && StringLess(a[1..], b[1..])))
  }

  /** The order written out: up to some place the strings agree, and there the first ends or has the lower character. */
  ghost predicate Before(a: string, b: string) {
    exists k: nat :: IsBreak(a, b, k)
  }

  predicate IsBreak(a: string, b: string, k: nat) {
    k <= |a| && k < |b| && a[..k] == b[..k] && (k == |a| || a[k] < b[k])
  }

  lemma {:induction false} LessIsBefore(a: string, b: string)
    ensures StringLess(a, b) <==> Before(a, b)
  {
    if a != "" && b != "" {
      LessIsBefore(a[1..], b[1..]);
      if StringLess(a, b) {
        if a[0] < b[0] {
          assert IsBreak(a, b, 0);
        } else {
          var k: nat :| IsBreak(a[1..], b[1..], k);
          assert a[..k + 1] == [a[0]] + a[1..][..k] && b[..k + 1] == [b[0]] + b[1..][..k];
          assert IsBreak(a, b, k + 1);
        }
      }
      if Before(a, b) {
        var k: nat :| IsBreak(a, b, k);
        if k > 0 {
          assert a[..k][0] == b[..k][0];
          assert a[1..][..k - 1] == a[..k][1..] && b[1..][..k - 1] == b[..k][1..];
          assert IsBreak(a[1..], b[1..], k - 1);
        }
      }
    } else if b != "" {
      assert IsBreak(a, b, 0);
    }
  }

  lemma {:induction false} StringOrder(a: string, b: string, c: string)
    ensures !StringLess(a, a)
    ensures StringLess(a, b) && StringLess(b, c) ==> StringLess(a, c)
    ensures a == b || StringLess(a, b) || StringLess(b, a)
    decreases |a| + |b| + |c|
  {
    if a != "" && b != "" && c != "" {
      StringOrder(a[1..], b[1..], c[1..]);
      assert a == [a[0]] + a[1..] && b == [b[0]] + b[1..];
    } else if a != "" && b != "" {
      StringOrder(a[1..], b[1..], c);
      assert a == [a[0]] + a[1..] && b == [b[0]] + b[1..];
    } else if a != "" {
      StringOrder(a[1..], b, c);
    }
  }

  lemma StringsAreOrdered(s: set<string>)
    ensures Orders(StringLess, s)
  {
    forall x, y, z | x in s && y in s && z in s
      ensures !StringLess(x, x) && (StringLess(x, y) && StringLess(y, z) ==> StringLess(x, z))
      ensures x == y || StringLess(x, y) || StringLess(y, x)
    {
      StringOrder(x, y, z);
    }
    forall x | x in s ensures !StringLess(x, x) { StringOrder(x, x, x); }
    forall x, y | x in s && y in s ensures x == y || StringLess(x, y) || StringLess(y, x) { StringOrder(x, y, x); }
  }
}
