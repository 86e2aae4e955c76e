/** Sorted samples over the reals: order statistics, medians and what they survive. */
module OrderStats {

  // ---------- Sorting ----------

  predicate Sorted(s: seq<real>) {
    forall i, j :: 0 <= i <= j < |s| ==> s[i] <= s[j]
  }

  function Insert(x: real, s: seq<real>): (r: seq<real>)
    ensures |r| == |s| + 1
  {
    if s == [] || x <= s[0] then [x] + s else [s[0]] + Insert(x, s[1..])
  }

  function Sort(s: seq<real>): (r: seq<real>)
    ensures |r| == |s|
  {
    if s == [] then [] else Insert(s[0], Sort(s[1..]))
  }

  lemma {:induction false} ConsSorted(x: real, s: seq<real>)
    requires Sorted(s) && (s == [] || x <= s[0])
    ensures Sorted([x] + s)
  {
    forall i, j | 0 <= i <= j < |s| + 1 ensures ([x] + s)[i] <= ([x] + s)[j] {
      if i == 0 && j > 0 { assert s[0] <= s[j - 1]; }
    }
  }

  lemma {:induction false} InsertSorted(x: real, s: seq<real>)
    requires Sorted(s)
    ensures Sorted(Insert(x, s))
    ensures multiset(Insert(x, s)) == multiset{x} + multiset(s)
  {
    if s == [] || x <= s[0] {
      ConsSorted(x, s);
    } else {
      InsertSorted(x, s[1..]);
      InsertHead(x, s[1..]);
      ConsSorted(s[0], Insert(x, s[1..]));
      assert s == [s[0]] + s[1..];
    }
  }

  lemma {:induction false} InsertHead(x: real, s: seq<real>)
    ensures Insert(x, s)[0] == x || (s != [] && Insert(x, s)[0] == s[0])
  {
  }

  /** Sort is a sorting function. */
  lemma {:induction false} SortSorts(s: seq<real>)
    ensures Sorted(Sort(s)) && multiset(Sort(s)) == multiset(s)
  {
    if s != [] {
      SortSorts(s[1..]);
      InsertSorted(s[0], Sort(s[1..]));
      assert s == [s[0]] + s[1..];
    }
  }

  lemma {:induction false} HeadIsLeast(s: seq<real>, x: real)
    requires Sorted(s) && x in multiset(s)
    ensures s != [] && s[0] <= x
  {
    var i :| 0 <= i < |s| && s[i] == x;
    assert s[0] <= s[i];
  }

  lemma {:induction false} TailMultiset(s: seq<real>)
    requires s != []
    ensures multiset(s[1..]) == multiset(s) - multiset{s[0]} && s[0] in multiset(s)
  {
    assert s == [s[0]] + s[1..];
  }

  lemma {:induction false} SameHeads(s: seq<real>, t: seq<real>)
    requires Sorted(s) && Sorted(t) && multiset(s) == multiset(t) && s != [] && t != []
    ensures s[0] == t[0] && multiset(s[1..]) == multiset(t[1..])
  {
    TailMultiset(s);
    TailMultiset(t);
    HeadIsLeast(s, t[0]);
    HeadIsLeast(t, s[0]);
  }

  /** A multiset of samples has one sorted arrangement. */
  lemma {:induction false} SortedUnique(s: seq<real>, t: seq<real>)
    requires Sorted(s) && Sorted(t) && multiset(s) == multiset(t)
    ensures s == t
    decreases |s|
  {
    assert |s| == |t| by { assert |s| == |multiset(s)| == |multiset(t)| == |t|; }
    if s != [] {
      SameHeads(s, t);
      SortedUnique(s[1..], t[1..]);
      assert s == [s[0]] + s[1..] && t == [t[0]] + t[1..];
    }
  }

  /** Order statistics do not depend on the order in which samples arrive. */
  lemma {:induction false} SortPermutation(s: seq<real>, t: seq<real>)
    requires multiset(s) == multiset(t)
    ensures Sort(s) == Sort(t)
  {
    SortSorts(s);
    SortSorts(t);
    SortedUnique(Sort(s), Sort(t));
  }

  // ---------- Order statistics under pointwise comparison ----------

  predicate Below(s: seq<real>, t: seq<real>) {
    |s| == |t| && forall i :: 0 <= i < |s| ==> s[i] <= t[i]
  }

  lemma {:induction false} InsertMonotone(x: real, y: real, s: seq<real>, t: seq<real>)
    requires x <= y && Below(s, t) && Sorted(s) && Sorted(t)
    ensures Below(Insert(x, s), Insert(y, t))
    decreases |s|
  {
    if s != [] {
      if x <= s[0] && y > t[0] {
        // x moves in front of s while y sinks into t: compare [s[0]] + s[1..] shifted with Insert(y, t[1..])
        InsertSelf(s[0], s[1..]);
        InsertMonotone(s[0], y, s[1..], t[1..]);
      } else if x > s[0] && y <= t[0] {
        InsertSelf(t[0], t[1..]);
        InsertMonotone(x, t[0], s[1..], t[1..]);
      } else if x > s[0] {
        InsertMonotone(x, y, s[1..], t[1..]);
      }
    }
  }

  lemma {:induction false} InsertSelf(x: real, s: seq<real>)
    requires s != [] ==> x <= s[0]
    ensures Insert(x, s) == [x] + s
  {
  }

  /** If every sample grows, every order statistic grows. */
  lemma {:induction false} SortMonotone(s: seq<real>, t: seq<real>)
    requires Below(s, t)
    ensures Below(Sort(s), Sort(t))
  {
    if s != [] {
      SortMonotone(s[1..], t[1..]);
      SortSorts(s[1..]);
      SortSorts(t[1..]);
      InsertMonotone(s[0], t[0], Sort(s[1..]), Sort(t[1..]));
    }
  }

  // ---------- Counting ----------

  function CountBelow(s: seq<real>, x: real): (n: nat)
    ensures n <= |s|
  {
    if s == [] then 0 else (if s[0] < x then 1 else 0) + CountBelow(s[1..], x)
  }

  function CountAbove(s: seq<real>, x: real): (n: nat)
    ensures n <= |s|
  {
    if s == [] then 0 else (if s[0] > x then 1 else 0) + CountAbove(s[1..], x)
  }

  lemma {:induction false} CountInsert(y: real, s: seq<real>, x: real)
    ensures CountBelow(Insert(y, s), x) == CountBelow(s, x) + if y < x then 1 else 0
    ensures CountAbove(Insert(y, s), x) == CountAbove(s, x) + if y > x then 1 else 0
  {
    if s == [] || y <= s[0] {
      assert ([y] + s)[1..] == s;
    } else {
      CountInsert(y, s[1..], x);
      assert ([s[0]] + Insert(y, s[1..]))[1..] == Insert(y, s[1..]);
    }
  }

  lemma {:induction false} CountSort(s: seq<real>, x: real)
    ensures CountBelow(Sort(s), x) == CountBelow(s, x)
    ensures CountAbove(Sort(s), x) == CountAbove(s, x)
  {
    if s != [] {
      CountSort(s[1..], x);
      CountInsert(s[0], Sort(s[1..]), x);
    }
  }

  lemma {:induction false} CountBelowAt(s: seq<real>, k: nat, x: real)
    requires Sorted(s) && k < |s| && s[k] < x
    ensures CountBelow(s, x) >= k + 1
  {
    assert s[0] <= s[k];
    if k > 0 { CountBelowAt(s[1..], k - 1, x); }
  }

  lemma {:induction false} CountAboveAt(s: seq<real>, k: nat, x: real)
    requires Sorted(s) && k < |s| && s[k] > x
    ensures CountAbove(s, x) >= |s| - k
  {
    if k > 0 {
      CountAboveAt(s[1..], k - 1, x);
    } else if |s| > 1 {
      assert s[0] <= s[1];
      CountAboveAt(s[1..], 0, x);
    }
  }

  // ---------- Median ----------

  /** np.median: the middle order statistic, or the mean of the two middle ones. */
  function Median(s: seq<real>): real
    requires s != []
  {
    var t, n := Sort(s), |s|;
    if n % 2 == 1 then t[n / 2] else (t[n / 2 - 1] + t[n / 2]) / 2.0
  }

  lemma {:induction false} MedianBetween(s: seq<real>)
    requires s != []
    ensures Sort(s)[(|s| - 1) / 2] <= Median(s) <= Sort(s)[|s| / 2]
  {
    SortSorts(s);
    assert |s| % 2 == 1 ==> (|s| - 1) / 2 == |s| / 2;
    assert |s| % 2 == 0 ==> (|s| - 1) / 2 == |s| / 2 - 1;
  }

  lemma {:induction false} MedianPermutation(s: seq<real>, t: seq<real>)
    requires s != [] && multiset(s) == multiset(t)
    ensures t != [] && Median(s) == Median(t)
  {
    SortPermutation(s, t);
    assert |s| == |multiset(s)| == |multiset(t)| == |t|;
  }

  lemma {:induction false} MedianMonotone(s: seq<real>, t: seq<real>)
    requires s != [] && Below(s, t)
    ensures Median(s) <= Median(t)
  {
    SortMonotone(s, t);
  }

  function Shifted(s: seq<real>, e: real): (r: seq<real>)
    ensures |r| == |s|
  {
    seq(|s|, i requires 0 <= i < |s| => s[i] + e)
  }

  lemma {:induction false} InsertShifted(x: real, s: seq<real>, e: real)
    ensures Insert(x + e, Shifted(s, e)) == Shifted(Insert(x, s), e)
  {
    if s == [] || x <= s[0] {
      assert Shifted([x] + s, e) == [x + e] + Shifted(s, e);
    } else {
      InsertShifted(x, s[1..], e);
      assert Shifted(s, e)[1..] == Shifted(s[1..], e);
      var rest := Insert(x, s[1..]);
      assert Shifted([s[0]] + rest, e) == [s[0] + e] + Shifted(rest, e);
    }
  }

  lemma {:induction false} SortShifted(s: seq<real>, e: real)
    ensures Sort(Shifted(s, e)) == Shifted(Sort(s), e)
  {
    if s != [] {
      SortShifted(s[1..], e);
      InsertShifted(s[0], Sort(s[1..]), e);
      assert Shifted(s, e)[1..] == Shifted(s[1..], e);
    }
  }

  /** If each run moves by at most e, the median moves by at most e. */
  lemma {:induction false} MedianStable(s: seq<real>, t: seq<real>, e: real)
    requires s != [] && |s| == |t| && forall i :: 0 <= i < |s| ==> s[i] - e <= t[i] <= s[i] + e
    ensures Median(s) - e <= Median(t) <= Median(s) + e
  {
    SortShifted(s, e);
    SortShifted(s, -e);
    MedianMonotone(Shifted(s, -e), t);
    MedianMonotone(t, Shifted(s, e));
  }

  /** Number of positions where two columns differ. */
  function Changed(s: seq<real>, t: seq<real>): (n: nat)
    requires |s| == |t|
  {
    if s == [] then 0 else (if s[0] != t[0] then 1 else 0) + Changed(s[1..], t[1..])
  }

  lemma {:induction false} UntouchedBounds(s: seq<real>, t: seq<real>, lo: real, hi: real)
    requires |s| == |t| && forall i :: 0 <= i < |s| && s[i] == t[i] ==> lo <= s[i] <= hi
    ensures CountBelow(t, lo) <= Changed(s, t) && CountAbove(t, hi) <= Changed(s, t)
  {
    if s != [] {
      forall i | 0 <= i < |s[1..]| && s[1..][i] == t[1..][i] ensures lo <= s[1..][i] <= hi {
        assert s[i + 1] == t[i + 1];
      }
      UntouchedBounds(s[1..], t[1..], lo, hi);
    }
  }

  /** If at most (n - 1) / 2 of n runs are replaced by anything, the median stays within the untouched runs. */
  lemma {:induction false} MedianRobust(s: seq<real>, t: seq<real>, lo: real, hi: real)
    requires s != [] && |s| == |t| && Changed(s, t) <= (|s| - 1) / 2
    requires forall i :: 0 <= i < |s| && s[i] == t[i] ==> lo <= s[i] <= hi
    ensures lo <= Median(t) <= hi
  {
    var n := |t|;
    UntouchedBounds(s, t, lo, hi);
    CountSort(t, lo);
    CountSort(t, hi);
    SortSorts(t);
    MedianBetween(t);
    if Sort(t)[(n - 1) / 2] < lo { CountBelowAt(Sort(t), (n - 1) / 2, lo); }
    if Sort(t)[n / 2] > hi { CountAboveAt(Sort(t), n / 2, hi); }
  }

  lemma {:induction false} ChangedTail(s: seq<real>, t: seq<real>, m: nat)
    requires |s| == |t| && m <= |s| && forall i :: 0 <= i < m ==> s[i] == t[i]
    ensures Changed(s, t) <= |s| - m
  {
    if s != [] { ChangedTail(s[1..], t[1..], if m > 0 then m - 1 else 0); }
  }

  /** One replacement more and the median can exceed every bound: (n - 1) / 2 cannot be improved. */
  lemma {:induction false} MedianBreakdown(n: nat, bound: real) returns (s: seq<real>, t: seq<real>)
    requires n > 0
    ensures |s| == |t| == n && Changed(s, t) <= (n - 1) / 2 + 1
    ensures (forall x <- s :: x == 0.0) && Median(t) > bound
  {
    var x := if bound > 0.0 then 2.0 * bound + 1.0 else 1.0;
    s := seq(n, _ => 0.0);
    t := seq(n, i => if i < n / 2 then 0.0 else x);
    ChangedTail(s, t, n / 2);
    SortOfSorted(t);
    MedianOfSplit(t, x);
  }

  lemma {:induction false} SortOfSorted(t: seq<real>)
    requires Sorted(t)
    ensures Sort(t) == t
  {
    SortSorts(t);
    SortedUnique(Sort(t), t);
  }

  lemma {:induction false} MedianOfSplit(t: seq<real>, x: real)
    requires t != [] && Sort(t) == t
    requires forall i :: 0 <= i < |t| ==> t[i] == if i < |t| / 2 then 0.0 else x
    ensures Median(t) == if |t| % 2 == 1 then x else x / 2.0
  {
  }
}
