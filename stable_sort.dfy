/** The first step of line reconstruction: `result.sort(key=lambda x:
    x[0][0][1])`, Python's stable in-place sort of the detections by the y
    of their top-left corner. `SortByY` specifies it as a stable insertion
    sort; `SortByTopLeftY` performs it in place on an array. */
module StableSort {
  import opened Detections

  /** Non-decreasing in top-left y. */
  predicate SortedByY(s: seq<Detection>)
  {
    forall i, j :: 0 <= i < j < |s| ==> s[i].y <= s[j].y
  }

  /** The detections of `s` whose top-left y is `k`, in their order in `s`.
      A sort is stable when it keeps every such subsequence unchanged. */
  function WithY(s: seq<Detection>, k: int): seq<Detection>
  {
    if s == [] then []
    else if s[0].y == k then [s[0]] + WithY(s[1..], k)
    else WithY(s[1..], k)
  }

  lemma {:induction false} WithYAppend(a: seq<Detection>, b: seq<Detection>, k: int)
    ensures WithY(a + b, k) == WithY(a, k) + WithY(b, k)
  {
    if a == [] {
      assert a + b == b;
    } else {
      assert (a + b)[0] == a[0];
      assert (a + b)[1..] == a[1..] + b;
      WithYAppend(a[1..], b, k);
      if a[0].y == k {
        calc {
          WithY(a + b, k);
          [a[0]] + WithY(a[1..] + b, k);
          [a[0]] + (WithY(a[1..], k) + WithY(b, k));
          ([a[0]] + WithY(a[1..], k)) + WithY(b, k);
        }
      }
    }
  }

  lemma {:induction false} WithYAbove(s: seq<Detection>, k: int)
    requires forall i :: 0 <= i < |s| ==> s[i].y > k
    ensures WithY(s, k) == []
  {
    if s != [] {
      WithYAbove(s[1..], k);
    }
  }

  lemma WithYOfHead(s: seq<Detection>)
    requires s != []
    ensures WithY(s, s[0].y) != []
  {
  }

  /** Puts `d` after every leading element of `s` whose y is at most `d.y`:
      one step of a stable insertion sort. */
  function InsertByY(s: seq<Detection>, d: Detection): (r: seq<Detection>)
    ensures |r| == |s| + 1
  {
    if s == [] then [d]
    else if s[0].y <= d.y then [s[0]] + InsertByY(s[1..], d)
    else [d] + s
  }

  lemma {:induction false} InsertByYPermutation(s: seq<Detection>, d: Detection)
    ensures multiset(InsertByY(s, d)) == multiset(s) + multiset{d}
  {
    if s != [] && s[0].y <= d.y {
      InsertByYPermutation(s[1..], d);
      assert s == [s[0]] + s[1..];
    }
  }

  /** The stable sort by top-left y: the elements are inserted one by one,
      in input order, each after the equal ones already placed. */
  function SortByY(s: seq<Detection>): seq<Detection>
  {
    if s == [] then [] else InsertByY(SortByY(s[..|s| - 1]), s[|s| - 1])
  }

  lemma {:induction false} InsertByYSorted(s: seq<Detection>, d: Detection)
    requires SortedByY(s)
    ensures SortedByY(InsertByY(s, d))
  {
    if s != [] && s[0].y <= d.y {
      var rest := InsertByY(s[1..], d);
      InsertByYSorted(s[1..], d);
      InsertByYPermutation(s[1..], d);
      forall k | 0 <= k < |rest|
        ensures s[0].y <= rest[k].y
      {
        assert rest[k] in multiset(rest);
        assert rest[k] in multiset(s[1..]) || rest[k] == d;
      }
    }
  }

  lemma {:induction false} InsertByYWithY(s: seq<Detection>, d: Detection, k: int)
    requires SortedByY(s)
    ensures WithY(InsertByY(s, d), k) == WithY(s, k) + WithY([d], k)
  {
    if s == [] {
      assert InsertByY(s, d) == [d];
    } else if s[0].y <= d.y {
      var rest := InsertByY(s[1..], d);
      assert InsertByY(s, d) == [s[0]] + rest;
      InsertByYWithY(s[1..], d, k);
      WithYAppend([s[0]], rest, k);
      assert s == [s[0]] + s[1..];
      WithYAppend([s[0]], s[1..], k);
    } else {
      assert InsertByY(s, d) == [d] + s;
      if d.y == k {
        WithYAbove(s, k);
      }
      WithYAppend([d], s, k);
    }
  }

  /** Where the insertion goes: if the first `j` elements have y at most
      `d.y` and the rest have a larger y, `d` lands at index `j`. */
  lemma {:induction false} InsertByYAt(s: seq<Detection>, d: Detection, j: nat)
    requires j <= |s|
    requires forall k :: 0 <= k < j ==> s[k].y <= d.y
    requires forall k :: j <= k < |s| ==> s[k].y > d.y
    ensures InsertByY(s, d) == s[..j] + [d] + s[j..]
  {
    if j > 0 {
      InsertByYAt(s[1..], d, j - 1);
      assert s[..j] == [s[0]] + s[1..][..j - 1];
      assert s[1..][j - 1..] == s[j..];
    }
  }

  /** The sort yields a sequence non-decreasing in top-left y. */
  lemma {:induction false} SortByYSorted(s: seq<Detection>)
    ensures SortedByY(SortByY(s))
  {
    if s != [] {
      SortByYSorted(s[..|s| - 1]);
      InsertByYSorted(SortByY(s[..|s| - 1]), s[|s| - 1]);
    }
  }

  /** The sort yields a permutation of its input. */
  lemma {:induction false} SortByYPermutation(s: seq<Detection>)
    ensures |SortByY(s)| == |s|
    ensures multiset(SortByY(s)) == multiset(s)
  {
    if s != [] {
      SortByYPermutation(s[..|s| - 1]);
      InsertByYPermutation(SortByY(s[..|s| - 1]), s[|s| - 1]);
      assert s == s[..|s| - 1] + [s[|s| - 1]];
    }
  }

  /** The sort is stable: detections with equal top-left y keep their input
      order. */
  lemma {:induction false} SortByYStable(s: seq<Detection>, k: int)
    ensures WithY(SortByY(s), k) == WithY(s, k)
  {
    if s != [] {
      var init := s[..|s| - 1];
      SortByYStable(init, k);
      SortByYSorted(init);
      InsertByYWithY(SortByY(init), s[|s| - 1], k);
      assert s == init + [s[|s| - 1]];
      WithYAppend(init, [s[|s| - 1]], k);
    }
  }

  /** Two sequences sorted by y that agree on every equal-y subsequence are
      the same sequence. */
  lemma {:induction false} SortedWithYUnique(r: seq<Detection>, q: seq<Detection>)
    requires SortedByY(r) && SortedByY(q)
    requires forall k :: WithY(r, k) == WithY(q, k)
    ensures r == q
  {
    if r == [] || q == [] {
      if r != [] {
        WithYOfHead(r);
        assert false;
      }
      if q != [] {
        WithYOfHead(q);
        assert false;
      }
    } else {
      if r[0].y < q[0].y {
        WithYAbove(q, r[0].y);
        WithYOfHead(r);
        assert false;
      }
      if q[0].y < r[0].y {
        WithYAbove(r, q[0].y);
        WithYOfHead(q);
        assert false;
      }
      assert WithY(r, r[0].y)[0] == r[0];
      assert WithY(q, r[0].y)[0] == q[0];
      forall k
        ensures WithY(r[1..], k) == WithY(q[1..], k)
      {
        assert WithY(r, k) == WithY(q, k);
        if r[0].y == k {
          assert WithY(r[1..], k) == WithY(r, k)[1..];
          assert WithY(q[1..], k) == WithY(q, k)[1..];
        }
      }
      SortedWithYUnique(r[1..], q[1..]);
      assert r == [r[0]] + r[1..];
      assert q == [q[0]] + q[1..];
    }
  }

  /** SortByY is the only stable sort by y: a sequence sorted by y that keeps
      every equal-y subsequence of `s` is `SortByY(s)`. */
  lemma SortByYIsTheStableSort(s: seq<Detection>, r: seq<Detection>)
    requires SortedByY(r)
    requires forall k :: WithY(r, k) == WithY(s, k)
    ensures r == SortByY(s)
  {
    SortByYSorted(s);
    forall k
      ensures WithY(r, k) == WithY(SortByY(s), k)
    {
      SortByYStable(s, k);
    }
    SortedWithYUnique(r, SortByY(s));
  }

  /** The array shape reached by one pass of insertion sort is the
      insertion of `d` into `s`. */
  lemma InsertedInto(s: seq<Detection>, d: Detection, j: nat, b: seq<Detection>)
    requires SortedByY(s)
    requires j <= |s| && |b| == |s| + 1
    requires j > 0 ==> s[j - 1].y <= d.y
    requires forall k :: j <= k < |s| ==> s[k].y > d.y
    requires forall k :: 0 <= k < j ==> b[k] == s[k]
    requires b[j] == d
    requires forall k :: j < k < |b| ==> b[k] == s[k - 1]
    ensures b == InsertByY(s, d)
  {
    forall k | 0 <= k < j
      ensures s[k].y <= d.y
    {
      assert s[k].y <= s[j - 1].y;
    }
    InsertByYAt(s, d, j);
    assert b == s[..j] + [d] + s[j..];
  }

  /** One pass of insertion sort: with `a[..i]` sorted, moves `a[i]` left
      past every element with a larger y, shifting those one place right. */
  method InsertIntoSorted(a: array<Detection>, i: nat)
    requires i < a.Length
    requires SortedByY(a[..i])
    modifies a
    ensures a[..i + 1] == InsertByY(old(a[..i]), old(a[i]))
    ensures a[i + 1..] == old(a[i + 1..])
  {
    ghost var sorted := a[..i];
    var d := a[i];
    var j := i;
    while j > 0 && a[j - 1].y > d.y
      invariant 0 <= j <= i
      invariant forall k :: 0 <= k < j ==> a[k] == sorted[k]
      invariant forall k :: j < k <= i ==> a[k] == sorted[k - 1]
      invariant a[i + 1..] == old(a[i + 1..])
      invariant forall k :: j <= k < i ==> sorted[k].y > d.y
      invariant j > 0 ==> a[j - 1] == sorted[j - 1]
    {
      a[j] := a[j - 1];
      j := j - 1;
    }
    a[j] := d;
    InsertedInto(sorted, d, j, a[..i + 1]);
  }

  /** `result.sort(key=lambda x: x[0][0][1])`: sorts the array in place by
      top-left y, stably, by insertion. */
  method SortByTopLeftY(a: array<Detection>)
    modifies a
    ensures a[..] == SortByY(old(a[..]))
  {
    ghost var input := a[..];
    var i := 0;
    while i < a.Length
      invariant 0 <= i <= a.Length
      invariant a[..i] == SortByY(input[..i])
      invariant a[i..] == input[i..]
    {
      SortByYSorted(input[..i]);
      InsertIntoSorted(a, i);
      assert input[..i + 1][..i] == input[..i];
      i := i + 1;
    }
    assert input[..a.Length] == input;
  }
}
