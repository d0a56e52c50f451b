/** The query operators the services use, over a table held as a sequence of rows
    in store order: `FirstOrDefault`/`FindAsync` (FindIndex), `Where` (Filter),
    `Count`, and `OrderBy` (SortBy). */
module Query {
  import opened Common

  /** Position of the first row satisfying `p`, if any. */
  function FindIndex<T(!new)>(s: seq<T>, p: T -> bool): (r: Option<nat>)
    ensures r.Some? ==> r.value < |s| && p(s[r.value])
    ensures r.Some? ==> forall j :: 0 <= j < r.value ==> !p(s[j])
    ensures r.None? <==> forall j :: 0 <= j < |s| ==> !p(s[j])
  {
    if |s| == 0 then None
    else if p(s[0]) then Some(0)
    else
      var rest := FindIndex(s[1..], p);
      assert forall j :: 1 <= j < |s| ==> s[j] == s[1..][j - 1];
      if rest.None? then None else Some(rest.value + 1)
  }

  /** Appending a row changes the first match only when there was none before. */
  lemma {:induction false} FindIndexAppend<T(!new)>(s: seq<T>, x: T, p: T -> bool)
    ensures FindIndex(s + [x], p) ==
              if FindIndex(s, p).Some? then FindIndex(s, p)
              else if p(x) then Some(|s|) else None
  {
    if |s| > 0 && !p(s[0]) {
      assert (s + [x])[1..] == s[1..] + [x];
      FindIndexAppend(s[1..], x, p);
    }
  }

  /** Rewriting rows without changing which of them satisfy `p` keeps the first match. */
  lemma FindIndexSame<T(!new)>(s: seq<T>, s': seq<T>, p: T -> bool)
    requires |s| == |s'|
    requires forall j :: 0 <= j < |s| ==> p(s[j]) == p(s'[j])
    ensures FindIndex(s', p) == FindIndex(s, p)
  {
  }

  /** `Where`: the rows satisfying `p`, each as often as in `s`, in store order. */
  function Filter<T(!new)>(s: seq<T>, p: T -> bool): (r: seq<T>)
    ensures |r| <= |s|
    ensures forall x :: multiset(r)[x] == if p(x) then multiset(s)[x] else 0
    ensures forall x :: x in r <==> x in s && p(x)
  {
    if |s| == 0 then []
    else
      var rest := Filter(s[1..], p);
      assert s == [s[0]] + s[1..];
      assert multiset(s) == multiset{s[0]} + multiset(s[1..]);
      if p(s[0]) then
        assert multiset([s[0]] + rest) == multiset{s[0]} + multiset(rest);
        [s[0]] + rest
      else rest
  }

  lemma {:induction false} FilterNone<T(!new)>(s: seq<T>, p: T -> bool)
    requires forall j :: 0 <= j < |s| ==> !p(s[j])
    ensures Filter(s, p) == []
  {
    if |s| > 0 {
      assert forall j :: 1 <= j < |s| ==> s[j] == s[1..][j - 1];
      FilterNone(s[1..], p);
    }
  }

  /** `Where` over a table with one more row: that row is kept at the end or dropped. */
  lemma {:induction false} FilterAppend<T(!new)>(s: seq<T>, x: T, p: T -> bool)
    ensures Filter(s + [x], p) == Filter(s, p) + (if p(x) then [x] else [])
  {
    var s' := s + [x];
    if |s| == 0 {
      assert s'[1..] == [];
    } else {
      assert s'[0] == s[0] && s'[1..] == s[1..] + [x];
      FilterAppend(s[1..], x, p);
      if p(s[0]) {
        ConcatAssoc([s[0]], Filter(s[1..], p), if p(x) then [x] else []);
      }
    }
  }

  /** Regrouping a concatenation, as a separate step: stated inline in
      `FilterAppend` it makes that proof unstable. */
  lemma ConcatAssoc<T>(a: seq<T>, b: seq<T>, c: seq<T>)
    ensures a + (b + c) == (a + b) + c
  {
  }

  /** `Count(p)`: the number of rows satisfying `p`. */
  function Count<T(!new)>(s: seq<T>, p: T -> bool): (n: nat)
    ensures n == |Filter(s, p)|
    ensures n <= |s|
  {
    if |s| == 0 then 0 else (if p(s[0]) then 1 else 0) + Count(s[1..], p)
  }

  lemma {:induction false} CountAppend<T(!new)>(s: seq<T>, x: T, p: T -> bool)
    ensures Count(s + [x], p) == Count(s, p) + (if p(x) then 1 else 0)
  {
    if |s| > 0 {
      assert (s + [x])[1..] == s[1..] + [x];
      CountAppend(s[1..], x, p);
    }
  }

  lemma {:induction false} CountUpdate<T(!new)>(s: seq<T>, i: nat, x: T, p: T -> bool)
    requires i < |s|
    ensures Count(s[i := x], p) + (if p(s[i]) then 1 else 0) == Count(s, p) + (if p(x) then 1 else 0)
  {
    if i > 0 {
      assert s[i := x][1..] == s[1..][i - 1 := x];
      CountUpdate(s[1..], i - 1, x, p);
    } else {
      assert s[i := x][1..] == s[1..];
    }
  }

  /** `before` is total and transitive: ties are allowed, as in `OrderBy` on one key. */
  ghost predicate TotalPreorder<T(!new)>(before: (T, T) -> bool) {
    && (forall a, b :: before(a, b) || before(b, a))
    && (forall a, b, c :: before(a, b) && before(b, c) ==> before(a, c))
  }

  predicate Sorted<T(!new)>(s: seq<T>, before: (T, T) -> bool) {
    forall i, j :: 0 <= i < j < |s| ==> before(s[i], s[j])
  }

  /** Inserts `x` in front of the first row it may precede. */
  function Insert<T(!new)>(x: T, s: seq<T>, before: (T, T) -> bool): (r: seq<T>)
    ensures |r| == |s| + 1
    ensures multiset(r) == multiset(s) + multiset{x}
  {
    if |s| == 0 || before(x, s[0]) then
      [x] + s
    else
      var rest := Insert(x, s[1..], before);
      assert s == [s[0]] + s[1..];
      assert multiset([s[0]] + rest) == multiset{s[0]} + multiset(rest);
      [s[0]] + rest
  }

  lemma {:induction false} InsertSorted<T(!new)>(x: T, s: seq<T>, before: (T, T) -> bool)
    ensures TotalPreorder(before) && Sorted(s, before) ==> Sorted(Insert(x, s, before), before)
  {
    if TotalPreorder(before) && Sorted(s, before) {
      var r := Insert(x, s, before);
      if |s| == 0 || before(x, s[0]) {
        forall j | 1 <= j < |r| ensures before(x, r[j]) {
          assert r[j] == s[j - 1];
          assert before(s[0], s[j - 1]) || j == 1;
        }
      } else {
        assert before(s[0], x);
        var rest := Insert(x, s[1..], before);
        assert Sorted(s[1..], before) by {
          forall i, j | 0 <= i < j < |s| - 1 ensures before(s[1..][i], s[1..][j]) {
            assert s[1..][i] == s[i + 1] && s[1..][j] == s[j + 1];
          }
        }
        InsertSorted(x, s[1..], before);
        forall j | 0 <= j < |rest| ensures before(s[0], rest[j]) {
          var y := rest[j];
          assert y in multiset(rest);
          if y != x {
            assert y in multiset(s[1..]);
            var k :| 0 <= k < |s| - 1 && s[1..][k] == y;
            assert s[k + 1] == y;
          }
        }
        assert r == [s[0]] + rest;
      }
    }
  }

  /** `OrderBy`: a permutation of `s` that is sorted by `before`. */
  function SortBy<T(!new)>(s: seq<T>, before: (T, T) -> bool): (r: seq<T>)
    ensures |r| == |s|
    ensures multiset(r) == multiset(s)
    ensures TotalPreorder(before) ==> Sorted(r, before)
  {
    if |s| == 0 then []
    else
      assert s == [s[0]] + s[1..];
      var rest := SortBy(s[1..], before);
      InsertSorted(s[0], rest, before);
      Insert(s[0], rest, before)
  }

  /** `Take(k)` keeps at most the rows it was given, and all of them when `k` covers `s`. */
  lemma TakeKeeps<T>(s: seq<T>, k: nat)
    requires k <= |s|
    ensures forall x :: multiset(s[..k])[x] <= multiset(s)[x]
    ensures k == |s| ==> s[..k] == s
    ensures forall x :: x in s[..k] ==> x in s
  {
    assert s == s[..k] + s[k..];
    assert multiset(s) == multiset(s[..k]) + multiset(s[k..]);
  }

  lemma TakeSorted<T(!new)>(s: seq<T>, before: (T, T) -> bool, k: nat)
    requires Sorted(s, before) && k <= |s|
    ensures Sorted(s[..k], before)
  {
  }

  /** In a sorted sequence, a row beyond the first `k` never ranks strictly ahead
      of a row among them (`Take(k)` keeps a top-k). */
  lemma SortedTake<T(!new)>(s: seq<T>, before: (T, T) -> bool, k: nat, x: T, y: T)
    requires Sorted(s, before) && k <= |s|
    requires x in s && x !in s[..k] && y in s[..k]
    ensures before(y, x)
  {
    var j :| 0 <= j < |s| && s[j] == x;
    var i :| 0 <= i < k && s[..k][i] == y;
  }

  /** No two positions hold the same row. */
  predicate Distinct<T(==,!new)>(s: seq<T>) {
    forall i, j :: 0 <= i < j < |s| ==> s[i] != s[j]
  }

  lemma {:induction false} DistinctOnce<T(!new)>(s: seq<T>, x: T)
    requires Distinct(s)
    ensures multiset(s)[x] == if x in s then 1 else 0
  {
    if |s| > 0 {
      assert s == [s[0]] + s[1..];
      assert multiset(s) == multiset{s[0]} + multiset(s[1..]);
      assert Distinct(s[1..]) by {
        forall i, j | 0 <= i < j < |s| - 1 ensures s[1..][i] != s[1..][j] {
          assert s[1..][i] == s[i + 1] && s[1..][j] == s[j + 1];
        }
      }
      DistinctOnce(s[1..], x);
      assert s[0] !in s[1..] by {
        forall j | 0 <= j < |s| - 1 ensures s[1..][j] != s[0] {
          assert s[1..][j] == s[j + 1];
        }
      }
    }
  }
}
