/** Generic sequence helpers shared by the incident analytics and the text
    pipeline: order-preserving filtering, counting by index, and sums. */
module Seqs {

  /** The elements of `s` that satisfy `keep`, in their original order. */
  function Filter<T>(s: seq<T>, keep: T -> bool): (r: seq<T>)
    ensures |r| <= |s|
    ensures forall i :: 0 <= i < |r| ==> keep(r[i])
  {
    if |s| == 0 then []
    else (if keep(s[0]) then [s[0]] else []) + Filter(s[1..], keep)
  }

  /** The filter holds exactly the elements of `s` that are kept. */
  lemma {:induction false} FilterMembers<T>(s: seq<T>, keep: T -> bool)
    ensures forall i :: 0 <= i < |Filter(s, keep)| ==> Filter(s, keep)[i] in s
    ensures forall i :: 0 <= i < |s| && keep(s[i]) ==> s[i] in Filter(s, keep)
  {
    if |s| > 0 {
      FilterMembers(s[1..], keep);
      var head := if keep(s[0]) then [s[0]] else [];
      var r := Filter(s, keep);
      assert r == head + Filter(s[1..], keep);
      forall i | 0 <= i < |r| ensures r[i] in s {
        if i >= |head| {
          assert r[i] == Filter(s[1..], keep)[i - |head|];
        }
      }
      forall i | 0 <= i < |s| && keep(s[i]) ensures s[i] in r {
        if i > 0 {
          assert s[i] == s[1..][i - 1];
        }
      }
    }
  }

  lemma {:induction false} FilterAppend<T>(a: seq<T>, b: seq<T>, keep: T -> bool)
    ensures Filter(a + b, keep) == Filter(a, keep) + Filter(b, keep)
  {
    if |a| == 0 {
      assert a + b == b;
    } else {
      assert (a + b)[1..] == a[1..] + b;
      FilterAppend(a[1..], b, keep);
    }
  }

  /** The positions of `s` whose element satisfies `keep`. */
  ghost function IndicesWhere<T>(s: seq<T>, keep: T -> bool): set<int>
  {
    set i | 0 <= i < |s| && keep(s[i])
  }

  /** Concatenation is associative. Proved on its own, away from the
      contracts of the functions whose results are being concatenated. */
  lemma AppendAssoc<T>(a: seq<T>, b: seq<T>, c: seq<T>)
    ensures a + (b + c) == (a + b) + c
  {
    var left, right := a + (b + c), (a + b) + c;
    assert |left| == |right|;
    forall i | 0 <= i < |left| ensures left[i] == right[i] {
      if i < |a| {
      } else if i < |a| + |b| {
      } else {
      }
    }
  }

  /** Regrouping a prefix onto the first part of a concatenation. */
  lemma Regroup<T>(x: seq<T>, y: seq<T>, h: seq<T>, u: seq<T>, v: seq<T>)
    requires x == h + y && y == u + v
    ensures x == (h + u) + v
  {
    AppendAssoc(h, u, v);
  }

  /** Nothing is kept from a sequence none of whose elements is kept. */
  lemma {:induction false} NoneKept<T>(s: seq<T>, keep: T -> bool)
    requires forall i :: 0 <= i < |s| ==> !keep(s[i])
    ensures Filter(s, keep) == []
  {
    if |s| > 0 {
      NoneKept(s[1..], keep);
    }
  }

  /** Dropping a prefix from which nothing is kept does not change the filter. */
  lemma FilterSkip<T>(u: seq<T>, n: int, keep: T -> bool)
    requires 0 <= n <= |u| && Filter(u[..n], keep) == []
    ensures Filter(u[n..], keep) == Filter(u, keep)
  {
    FilterAppend(u[..n], u[n..], keep);
    assert u[..n] + u[n..] == u;
  }

  /** Filtering keeps exactly one element per satisfying position. */
  lemma {:induction false} FilterCountsIndices<T>(s: seq<T>, keep: T -> bool)
    ensures |Filter(s, keep)| == |IndicesWhere(s, keep)|
    decreases |s|
  {
    if |s| == 0 {
      assert IndicesWhere(s, keep) == {};
    } else {
      var n := |s| - 1;
      FilterCountsIndices(s[..n], keep);
      FilterSnoc(s, keep);
      IndicesSnoc(s, keep);
    }
  }

  lemma FilterSnoc<T>(s: seq<T>, keep: T -> bool)
    requires |s| > 0
    ensures |Filter(s, keep)| == |Filter(s[..|s| - 1], keep)| + (if keep(s[|s| - 1]) then 1 else 0)
  {
    var n := |s| - 1;
    assert s == s[..n] + [s[n]];
    FilterAppend(s[..n], [s[n]], keep);
    assert [s[n]][1..] == [];
  }

  lemma IndicesSnoc<T>(s: seq<T>, keep: T -> bool)
    requires |s| > 0
    ensures var n := |s| - 1;
      && n !in IndicesWhere(s[..n], keep)
      && IndicesWhere(s, keep) == IndicesWhere(s[..n], keep) + (if keep(s[n]) then {n} else {})
  {
    var n := |s| - 1;
    var init := s[..n];
    var before := IndicesWhere(init, keep);
    var last := if keep(s[n]) then {n} else {};
    forall i | i in IndicesWhere(s, keep) ensures i in before + last {
      if i < n {
        assert init[i] == s[i];
      }
    }
    forall i | i in before + last ensures i in IndicesWhere(s, keep) {
      if i < n {
        assert init[i] == s[i];
      }
    }
  }

  /** Sum of a sequence of reals. */
  function Sum(s: seq<real>): real
  {
    if |s| == 0 then 0.0 else s[0] + Sum(s[1..])
  }

  /** A sum of `n` values each at least `lo` is at least `n * lo`. */
  lemma {:induction false} SumAtLeast(s: seq<real>, lo: real)
    requires forall i :: 0 <= i < |s| ==> lo <= s[i]
    ensures |s| as real * lo <= Sum(s)
  {
    if |s| > 0 {
      SumAtLeast(s[1..], lo);
    }
  }

  /** A sum of `n` values each at most `hi` is at most `n * hi`. */
  lemma {:induction false} SumAtMost(s: seq<real>, hi: real)
    requires forall i :: 0 <= i < |s| ==> s[i] <= hi
    ensures Sum(s) <= |s| as real * hi
  {
    if |s| > 0 {
      SumAtMost(s[1..], hi);
    }
  }
}
