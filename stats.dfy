/** The median pandas' `Series.median()` computes over the non-null values of a column:
    the middle element of the sorted values, or the mean of the two middle ones when
    their number is even; no value at all gives null. */
module Stats {
  import opened Wrappers

  predicate Sorted(s: seq<real>) {
    forall i, j :: 0 <= i < j < |s| ==> s[i] <= s[j]
  }

  /** `x` placed into the sorted sequence `s` before the first element not smaller than it. */
  function Insert(x: real, s: seq<real>): (r: seq<real>)
    requires Sorted(s)
    ensures Sorted(r)
    ensures multiset(r) == multiset(s) + multiset{x}
  {
    if s == [] || x <= s[0] then [x] + s
    else
      var rest := Insert(x, s[1..]);
      assert s == [s[0]] + s[1..];
      HeadBelowAll(s[0], rest, s[1..], x);
      [s[0]] + rest
  }

  /** A lower bound of `t` and of `x` bounds every rearrangement of `t` with `x` added. */
  lemma HeadBelowAll(h: real, r: seq<real>, t: seq<real>, x: real)
    requires h <= x && forall k :: 0 <= k < |t| ==> h <= t[k]
    requires multiset(r) == multiset(t) + multiset{x}
    ensures forall k :: 0 <= k < |r| ==> h <= r[k]
  {
    forall k | 0 <= k < |r| ensures h <= r[k] {
      assert r[k] in multiset(t) + multiset{x};
      if r[k] != x {
        assert r[k] in t;
      }
    }
  }

  /** The values of `xs` in ascending order. */
  function Sort(xs: seq<real>): (r: seq<real>)
    ensures Sorted(r)
    ensures multiset(r) == multiset(xs)
  {
    if xs == [] then []
    else
      assert xs == [xs[0]] + xs[1..];
      Insert(xs[0], Sort(xs[1..]))
  }

  /** The middle of a non-empty sorted sequence: its middle element, or the mean of its two middle elements. */
  function Middle(s: seq<real>): real
    requires |s| > 0
  {
    var n := |s|;
    if n % 2 == 1 then s[n / 2] else (s[n / 2 - 1] + s[n / 2]) / 2.0
  }

  function Median(xs: seq<real>): (m: Option<real>)
    ensures m.None? <==> |xs| == 0
  {
    if |xs| == 0 then None
    else
      var s := Sort(xs);
      assert |s| == |multiset(s)| == |xs|;
      Some(Middle(s))
  }

  /** The first element of a sorted sequence is its least value. */
  lemma SortedHeadIsLeast(s: seq<real>, x: real)
    requires Sorted(s) && x in multiset(s)
    ensures s[0] <= x
  {
    var j :| 0 <= j < |s| && s[j] == x;
    assert j == 0 || s[0] <= s[j];
  }

  /** Two sorted arrangements of the same values are the same sequence. */
  lemma {:induction false} SortedUnique(a: seq<real>, b: seq<real>)
    requires Sorted(a) && Sorted(b)
    requires multiset(a) == multiset(b)
    ensures a == b
    decreases |a|
  {
    assert |a| == |multiset(a)| == |b|;
    if |a| > 0 {
      SortedHeadIsLeast(a, b[0]);
      SortedHeadIsLeast(b, a[0]);
      assert a == [a[0]] + a[1..];
      assert b == [b[0]] + b[1..];
      assert a[0] == b[0];
      assert multiset(a[1..]) == multiset(b[1..]) by {
        assert multiset(a[1..]) == multiset(a) - multiset{a[0]};
        assert multiset(b[1..]) == multiset(b) - multiset{b[0]};
      }
      SortedUnique(a[1..], b[1..]);
    }
  }

  /** The median depends only on the values, not on the order of the rows holding them. */
  lemma MedianOrderIndependent(xs: seq<real>, ys: seq<real>)
    requires multiset(xs) == multiset(ys)
    ensures Median(xs) == Median(ys)
  {
    SortedUnique(Sort(xs), Sort(ys));
    assert |xs| == |multiset(xs)| == |ys|;
  }

  /** The number of elements of `xs` satisfying `p`. */
  function Count(xs: seq<real>, p: real -> bool): (n: nat)
    ensures n <= |xs|
  {
    if xs == [] then 0 else (if p(xs[0]) then 1 else 0) + Count(xs[1..], p)
  }

  function Below(m: real): real -> bool {
    x => x < m
  }

  function Above(m: real): real -> bool {
    x => x > m
  }

  lemma {:induction false} CountConcat(a: seq<real>, b: seq<real>, p: real -> bool)
    ensures Count(a + b, p) == Count(a, p) + Count(b, p)
    decreases |a|
  {
    if a == [] {
      assert a + b == b;
    } else {
      assert (a + b)[0] == a[0];
      assert (a + b)[1..] == a[1..] + b;
      CountConcat(a[1..], b, p);
    }
  }

  /** Counting is independent of order. */
  lemma {:induction false} CountPermutation(a: seq<real>, b: seq<real>, p: real -> bool)
    requires multiset(a) == multiset(b)
    ensures Count(a, p) == Count(b, p)
    decreases |a|
  {
    assert |a| == |multiset(a)| == |b|;
    if a != [] {
      var x := a[0];
      assert x in multiset(b);
      var j :| 0 <= j < |b| && b[j] == x;
      var rest := b[..j] + b[j + 1..];
      assert b == b[..j] + [x] + b[j + 1..];
      assert a == [x] + a[1..];
      assert multiset(rest) == multiset(a[1..]) by {
        assert multiset(b) == multiset(b[..j]) + multiset{x} + multiset(b[j + 1..]);
        assert multiset(rest) == multiset(b[..j]) + multiset(b[j + 1..]);
        assert multiset(rest) == multiset(b) - multiset{x};
        assert multiset(a[1..]) == multiset(a) - multiset{x};
      }
      CountPermutation(a[1..], rest, p);
      CountConcat(b[..j] + [x], b[j + 1..], p);
      CountConcat(b[..j], [x], p);
      CountConcat(b[..j], b[j + 1..], p);
    }
  }

  /** No element of `xs` satisfies `p`. */
  lemma {:induction false} CountNone(xs: seq<real>, p: real -> bool)
    requires forall k :: 0 <= k < |xs| ==> !p(xs[k])
    ensures Count(xs, p) == 0
    decreases |xs|
  {
    if xs != [] {
      CountNone(xs[1..], p);
    }
  }

  /** In a sorted sequence whose element at `h` is at least `m`, at most `h` values lie below `m`. */
  lemma SortedCountBelow(s: seq<real>, h: nat, m: real)
    requires Sorted(s) && h < |s| && s[h] >= m
    ensures Count(s, Below(m)) <= h
  {
    var tail := s[h..];
    assert s == s[..h] + tail;
    CountConcat(s[..h], tail, Below(m));
    forall k | 0 <= k < |tail| ensures !Below(m)(tail[k]) {
      assert tail[k] == s[h + k];
      assert k == 0 || s[h] <= s[h + k];
    }
    CountNone(tail, Below(m));
  }

  /** In a sorted sequence whose element at `h` is at most `m`, at most `|s| - h - 1` values lie above `m`. */
  lemma SortedCountAbove(s: seq<real>, h: nat, m: real)
    requires Sorted(s) && h < |s| && s[h] <= m
    ensures Count(s, Above(m)) <= |s| - h - 1
  {
    var head := s[..h + 1];
    assert s == head + s[h + 1..];
    CountConcat(head, s[h + 1..], Above(m));
    forall k | 0 <= k < |head| ensures !Above(m)(head[k]) {
      assert head[k] == s[k];
      assert k == h || s[k] <= s[h];
    }
    CountNone(head, Above(m));
  }

  /** In a sorted sequence, at most half of the values lie below its middle and at most half above. */
  lemma MiddleBalanced(s: seq<real>)
    requires Sorted(s) && |s| > 0
    ensures Count(s, Below(Middle(s))) <= |s| / 2
    ensures Count(s, Above(Middle(s))) <= |s| / 2
    ensures s[0] <= Middle(s) <= s[|s| - 1]
  {
    var n := |s|;
    var m := Middle(s);
    var lo, hi := if n % 2 == 1 then n / 2 else n / 2 - 1, n / 2;
    assert s[lo] <= s[hi];
    assert s[lo] <= m <= s[hi];
    SortedCountBelow(s, hi, m);
    SortedCountAbove(s, lo, m);
    assert s[0] <= s[lo] && s[hi] <= s[n - 1];
  }

  /** The median splits the values in half: at most half of them lie strictly below it
      and at most half strictly above it, and it lies between two of the values. */
  lemma MedianBalanced(xs: seq<real>)
    requires |xs| > 0
    ensures Count(xs, Below(Median(xs).value)) <= |xs| / 2
    ensures Count(xs, Above(Median(xs).value)) <= |xs| / 2
    ensures exists i :: 0 <= i < |xs| && xs[i] <= Median(xs).value
    ensures exists j :: 0 <= j < |xs| && Median(xs).value <= xs[j]
  {
    var s := Sort(xs);
    assert |s| == |multiset(s)| == |xs|;
    var m := Middle(s);
    assert Median(xs) == Some(m);
    MiddleBalanced(s);
    CountPermutation(xs, s, Below(m));
    CountPermutation(xs, s, Above(m));
    assert s[0] in multiset(xs) && s[|s| - 1] in multiset(xs);
    var i :| 0 <= i < |xs| && xs[i] == s[0];
    var j :| 0 <= j < |xs| && xs[j] == s[|s| - 1];
  }
}
