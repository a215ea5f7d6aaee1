/** Strict orders on finite sets, sorting by them, and the lemmas the query,
    eviction, reply-tree and timeline proofs share. */
module Order {

  /** JavaScript's `<` on strings: code unit by code unit, a proper prefix first. */
  predicate StrLess(a: string, b: string)
  {
    |b| > 0 && (|a| == 0 || a[0] < b[0] || (a[0] == b[0] && StrLess(a[1..], b[1..])))
  }

  lemma {:induction false} StrLessIrreflexive(a: string)
    ensures !StrLess(a, a)
  {
    if a != [] {
      StrLessIrreflexive(a[1..]);
    }
  }

  lemma {:induction false} StrLessTotal(a: string, b: string)
    ensures a == b || StrLess(a, b) || StrLess(b, a)
  {
    if a != [] && b != [] && a[0] == b[0] {
      StrLessTotal(a[1..], b[1..]);
      assert a == [a[0]] + a[1..] && b == [b[0]] + b[1..];
    }
  }

  lemma {:induction false} StrLessTransitive(a: string, b: string, c: string)
    requires StrLess(a, b) && StrLess(b, c)
    ensures StrLess(a, c)
  {
    if a != [] && a[0] == b[0] && b[0] == c[0] {
      StrLessTransitive(a[1..], b[1..], c[1..]);
    }
  }

  /** `less` is a strict total order on the elements of `s`. */
  ghost predicate StrictOrderOn<T(!new)>(less: (T, T) -> bool, s: set<T>)
  {
    && (forall x | x in s :: !less(x, x))
    && (forall x, y | x in s && y in s && x != y :: less(x, y) || less(y, x))
    && (forall x, y, z | x in s && y in s && z in s && less(x, y) && less(y, z) :: less(x, z))
  }

  ghost predicate Sorted<T>(less: (T, T) -> bool, q: seq<T>)
  {
    forall i, j | 0 <= i < j < |q| :: less(q[i], q[j])
  }

  ghost function Elements<T>(q: seq<T>): set<T>
  {
    set x | x in q
  }

  ghost predicate NoDuplicates<T>(q: seq<T>)
  {
    forall i, j | 0 <= i < j < |q| :: q[i] != q[j]
  }

  /** The elements in the order they first occur: a JavaScript `Set` filled from `q`. */
  function FirstOccurrences<T(==)>(q: seq<T>): (r: seq<T>)
    ensures NoDuplicates(r) && Elements(r) == Elements(q)
  {
    if q == [] then [] else
      var before := FirstOccurrences(q[..|q| - 1]);
      var x := q[|q| - 1];
      assert q == q[..|q| - 1] + [x];
      assert Elements(before + [x]) == Elements(before) + {x};
      assert x in before <==> x in Elements(before);
      if x in before then before else before + [x]
  }

  lemma FirstOccurrencesOfMore<T>(q: seq<T>, x: T)
    ensures FirstOccurrences(q + [x])
         == if x in FirstOccurrences(q) then FirstOccurrences(q) else FirstOccurrences(q) + [x]
  {
    assert (q + [x])[..|q|] == q;
  }

  lemma SizeWithout<T>(all: set<T>, part: set<T>)
    requires part <= all
    ensures |all - part| == |all| - |part|
  {
    assert all == (all - part) + part;
  }

  /** JavaScript's `slice(0, n)` for a non-negative `n`. */
  function Take<T>(q: seq<T>, n: nat): seq<T>
  {
    if n < |q| then q[..n] else q
  }

  lemma {:induction false} DistinctCount<T>(q: seq<T>)
    requires NoDuplicates(q)
    ensures |Elements(q)| == |q|
  {
    if q != [] {
      DistinctCount(q[1..]);
      assert Elements(q) == {q[0]} + Elements(q[1..]);
      assert q[0] !in q[1..];
    }
  }

  lemma {:induction false} SortedHasNoDuplicates<T(!new)>(less: (T, T) -> bool, q: seq<T>)
    requires forall x | x in q :: !less(x, x)
    requires Sorted(less, q)
    ensures NoDuplicates(q)
  {
    forall i, j | 0 <= i < j < |q| ensures q[i] != q[j] {
      assert less(q[i], q[j]) && q[i] in q;
    }
  }

  ghost predicate IsLeast<T(!new)>(less: (T, T) -> bool, s: set<T>, m: T)
  {
    m in s && forall x | x in s && x != m :: less(m, x)
  }

  lemma {:induction false} LeastExists<T(!new)>(less: (T, T) -> bool, s: set<T>)
    requires StrictOrderOn(less, s) && s != {}
    ensures exists m :: IsLeast(less, s, m)
    decreases |s|
  {
    var a :| a in s;
    var rest := s - {a};
    if rest == {} {
      assert s == {a};
      assert IsLeast(less, s, a);
    } else {
      LeastExists(less, rest);
      var m :| IsLeast(less, rest, m);
      assert IsLeast(less, s, if less(a, m) then a else m);
    }
  }

  lemma Prepended<T(!new)>(less: (T, T) -> bool, s: set<T>, m: T, rest: seq<T>)
    requires IsLeast(less, s, m) && Elements(rest) == s - {m}
    requires Sorted(less, rest) && NoDuplicates(rest)
    ensures Sorted(less, [m] + rest) && Elements([m] + rest) == s && NoDuplicates([m] + rest)
  {
    var q := [m] + rest;
    assert Elements(q) == {m} + Elements(rest);
    forall j | 1 <= j < |q| ensures less(m, q[j]) && q[j] != m {
      assert q[j] == rest[j - 1] && rest[j - 1] in Elements(rest);
    }
  }

  /** The elements of `s` in ascending order. */
  ghost function SortSet<T(!new)>(less: (T, T) -> bool, s: set<T>): (q: seq<T>)
    requires StrictOrderOn(less, s)
    ensures Sorted(less, q) && Elements(q) == s && NoDuplicates(q) && |q| == |s|
    decreases |s|
  {
    if s == {} then [] else
      LeastExists(less, s);
      var m :| IsLeast(less, s, m);
      var rest := SortSet(less, s - {m});
      Prepended(less, s, m, rest);
      [m] + rest
  }

  lemma HeadIsLeast<T(!new)>(less: (T, T) -> bool, p: seq<T>)
    requires p != [] && StrictOrderOn(less, Elements(p)) && Sorted(less, p)
    ensures forall x | x in p && x != p[0] :: less(p[0], x)
    ensures Elements(p[1..]) == Elements(p) - {p[0]}
  {
    assert p[0] in Elements(p);
    forall i | 1 <= i < |p| ensures p[i] != p[0] {
      assert less(p[0], p[i]);
    }
    assert forall x | x in p :: x == p[0] || x in p[1..];
  }

  lemma SortedLength<T(!new)>(less: (T, T) -> bool, p: seq<T>)
    requires StrictOrderOn(less, Elements(p)) && Sorted(less, p)
    ensures |p| == |Elements(p)|
  {
    assert forall x | x in p :: x in Elements(p);
    SortedHasNoDuplicates(less, p);
    DistinctCount(p);
  }

  lemma SameHead<T(!new)>(less: (T, T) -> bool, p: seq<T>, q: seq<T>)
    requires StrictOrderOn(less, Elements(p)) && Elements(p) == Elements(q)
    requires Sorted(less, p) && Sorted(less, q) && p != [] && q != []
    ensures p[0] == q[0]
    ensures StrictOrderOn(less, Elements(p[1..])) && Elements(p[1..]) == Elements(q[1..])
  {
    HeadIsLeast(less, p);
    HeadIsLeast(less, q);
    assert p[0] in Elements(p) && q[0] in Elements(q);
  }

  /** A sorted sequence is determined by its elements. */
  lemma {:induction false} SortedUnique<T(!new)>(less: (T, T) -> bool, p: seq<T>, q: seq<T>)
    requires StrictOrderOn(less, Elements(p))
    requires Elements(p) == Elements(q)
    requires Sorted(less, p) && Sorted(less, q)
    ensures p == q
    decreases |p|
  {
    SortedLength(less, p);
    SortedLength(less, q);
    if p != [] {
      SameHead(less, p, q);
      SortedUnique(less, p[1..], q[1..]);
      assert p == [p[0]] + p[1..] && q == [q[0]] + q[1..];
    }
  }

  lemma SortedIndex<T(!new)>(less: (T, T) -> bool, q: seq<T>, i: nat, j: nat)
    requires StrictOrderOn(less, Elements(q)) && Sorted(less, q)
    requires i < |q| && j < |q| && less(q[i], q[j])
    ensures i < j
  {
    assert q[i] in Elements(q) && q[j] in Elements(q);
  }

  /** In ascending order exactly `n` elements precede the one at index `n`. */
  lemma PrecedingSet<T(!new)>(less: (T, T) -> bool, a: set<T>, n: nat)
    requires StrictOrderOn(less, a) && n < |a|
    ensures SortSet(less, a)[n] in a
    ensures |set y | y in a && less(y, SortSet(less, a)[n])| == n
  {
    var q := SortSet(less, a);
    assert q[n] in Elements(q);
    var low := set y | y in a && less(y, q[n]);
    forall y | y in low ensures y in Elements(q[..n]) {
      assert y in Elements(q);
      var j :| 0 <= j < |q| && q[j] == y;
      SortedIndex(less, q, j, n);
      assert q[..n][j] == y;
    }
    forall y | y in Elements(q[..n]) ensures y in low {
      assert y in Elements(q);
      var j :| 0 <= j < n && q[j] == y;
      assert less(q[j], q[n]);
    }
    assert low == Elements(q[..n]);
    DistinctCount(q[..n]);
  }

  /** If `n` elements of the set `a` come before `x`, so does its `n`-th smallest. */
  lemma NthBefore<T(!new)>(less: (T, T) -> bool, a: set<T>, x: T, before: set<T>, n: nat)
    requires StrictOrderOn(less, a + {x})
    requires before <= a && |before| >= n > 0
    requires forall b | b in before :: less(b, x)
    ensures StrictOrderOn(less, a) && |a| >= n && less(SortSet(less, a)[n - 1], x)
  {
    Cardinality(before, a);
    SubsetOrder(less, a, a + {x});
    PrecedingSet(less, a, n - 1);
    var pivot := SortSet(less, a)[n - 1];
    var low := set y | y in a && less(y, pivot);
    if before <= low {
      Cardinality(before, low);
    }
    var b :| b in before && b !in low;
    assert b in a + {x} && pivot in a + {x} && x in a + {x};
    assert b == pivot || less(pivot, b);
  }

  lemma {:induction false} Cardinality<T>(a: set<T>, b: set<T>)
    requires a <= b
    ensures |a| <= |b|
    ensures |a| == |b| ==> a == b
    decreases b
  {
    if a != {} {
      var x :| x in a;
      Cardinality(a - {x}, b - {x});
      assert a == a - {x} + {x} && b == b - {x} + {x};
    }
  }

  /** Everything outside `q` comes after its element at index `n - 1`. */
  ghost predicate OthersLater<T(!new)>(less: (T, T) -> bool, all: set<T>, q: seq<T>, n: nat)
    requires n > 0
  {
    forall x | x in all - Elements(q) :: |q| >= n && less(q[n - 1], x)
  }

  lemma NothingElse<T>(all: set<T>, part: set<T>)
    requires part <= all && all - part == {}
    ensures part == all
  {
    assert forall x | x in all :: x !in all - part;
  }

  lemma SortOfElements<T(!new)>(less: (T, T) -> bool, all: set<T>, q: seq<T>)
    requires StrictOrderOn(less, all) && Elements(q) == all && Sorted(less, q)
    ensures q == SortSet(less, all)
  {
    SortedUnique(less, q, SortSet(less, all));
  }

  /** Leaving out elements that come after the first `n` does not change the first `n`. */
  lemma TopAgrees<T(!new)>(less: (T, T) -> bool, all: set<T>, q: seq<T>, n: nat)
    requires StrictOrderOn(less, all) && Elements(q) <= all && Sorted(less, q) && n > 0
    requires OthersLater(less, all, q, n)
    ensures Take(q, n) == Take(SortSet(less, all), n)
  {
    if all - Elements(q) == {} {
      NothingElse(all, Elements(q));
      SortOfElements(less, all, q);
    } else {
      TopOfSorted(less, all, q, n);
      SameTake(q, SortSet(less, all), n);
    }
  }

  lemma SameTake<T>(p: seq<T>, q: seq<T>, n: nat)
    requires n <= |p| && n <= |q| && p[..n] == q[..n]
    ensures Take(p, n) == Take(q, n)
  {
    assert p[..|p|] == p && q[..|q|] == q;
  }

  lemma TopOfSorted<T(!new)>(less: (T, T) -> bool, all: set<T>, q: seq<T>, n: nat)
    requires StrictOrderOn(less, all) && Elements(q) <= all && Sorted(less, q) && n > 0
    requires OthersLater(less, all, q, n) && all - Elements(q) != {}
    ensures |q| >= n && |SortSet(less, all)| >= n && SortSet(less, all)[..n] == q[..n]
  {
    var x0 :| x0 in all - Elements(q);
    SortedPrefix(less, q, n);
    forall i, y | 0 <= i < n && y in all - Elements(q[..n]) ensures less(q[..n][i], y) {
      assert y !in Elements(q) ==> y in all - Elements(q);
      PrefixBefore(less, all, q, n, i, y);
    }
    PrefixThenRest(less, all, q[..n]);
  }

  lemma SortedPrefix<T(!new)>(less: (T, T) -> bool, q: seq<T>, n: nat)
    requires Sorted(less, q) && n <= |q|
    ensures Sorted(less, q[..n]) && Elements(q[..n]) <= Elements(q)
  {
    assert forall x | x in q[..n] :: x in q;
  }

  /** A sorted prefix below everything else starts the sorted whole. */
  lemma PrefixThenRest<T(!new)>(less: (T, T) -> bool, all: set<T>, top: seq<T>)
    requires StrictOrderOn(less, all) && Elements(top) <= all && Sorted(less, top)
    requires forall i, y | 0 <= i < |top| && y in all - Elements(top) :: less(top[i], y)
    ensures |top| <= |SortSet(less, all)| && SortSet(less, all)[..|top|] == top
  {
    var rest := all - Elements(top);
    SubsetOrder(less, rest, all);
    var q := SortSet(less, rest);
    Concatenated(less, top, q, all);
    SortedUnique(less, top + q, SortSet(less, all));
    assert (top + q)[..|top|] == top;
  }

  lemma PrefixBefore<T(!new)>(less: (T, T) -> bool, all: set<T>, q: seq<T>, n: nat, i: nat, y: T)
    requires StrictOrderOn(less, all) && Elements(q) <= all && Sorted(less, q)
    requires i < n <= |q| && y in all && y !in Elements(q[..n])
    requires y !in Elements(q) ==> less(q[n - 1], y)
    ensures less(q[i], y)
  {
    if y in Elements(q) {
      LaterElement(less, q, n, i, y);
    } else if i < n - 1 {
      assert q[i] in Elements(q) && q[n - 1] in Elements(q);
      Transitive(less, all, q[i], q[n - 1], y);
    }
  }

  lemma Transitive<T(!new)>(less: (T, T) -> bool, s: set<T>, x: T, y: T, z: T)
    requires StrictOrderOn(less, s) && x in s && y in s && z in s
    requires less(x, y) && less(y, z)
    ensures less(x, z)
  {
  }

  lemma LaterElement<T(!new)>(less: (T, T) -> bool, q: seq<T>, n: nat, i: nat, y: T)
    requires Sorted(less, q) && i < n <= |q|
    requires y in Elements(q) && y !in Elements(q[..n])
    ensures less(q[i], y)
  {
    assert q == q[..n] + q[n..];
    var k :| 0 <= k < |q[n..]| && q[n..][k] == y;
    assert q[n + k] == y;
  }

  lemma Concatenated<T(!new)>(less: (T, T) -> bool, p: seq<T>, q: seq<T>, all: set<T>)
    requires Sorted(less, p) && Sorted(less, q) && Elements(p) + Elements(q) == all
    requires forall i, y | 0 <= i < |p| && y in Elements(q) :: less(p[i], y)
    ensures Sorted(less, p + q) && Elements(p + q) == all
  {
    var r := p + q;
    forall i, j | 0 <= i < j < |r| ensures less(r[i], r[j]) {
      if j >= |p| {
        assert q[j - |p|] in Elements(q);
      }
    }
    assert forall x | x in r :: x in p || x in q;
    assert forall x | x in p + q :: x in Elements(p) || x in Elements(q);
    assert Elements(r) == Elements(p) + Elements(q);
  }

  lemma SubsetOrder<T(!new)>(less: (T, T) -> bool, s: set<T>, t: set<T>)
    requires StrictOrderOn(less, t) && s <= t
    ensures StrictOrderOn(less, s)
  {
  }
}
