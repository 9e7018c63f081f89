/** The row filter of the exploratory dashboard.

    The dashboard builds a boolean mask over the table, true where the row's
    age lies in the chosen range (both bounds inclusive) and its platform is
    the chosen one. It then selects the rows where the mask is true, keeping
    their order, and reports how many rows it selected.
 */
module RowFilter {

  /** One row of the table, reduced to the two columns the filter reads. */
  datatype Record = Record(age: int, platform: string)

  /** The mask condition for one row. */
  predicate Keep(r: Record, ageLo: int, ageHi: int, platform: string) {
    ageLo <= r.age && r.age <= ageHi && r.platform == platform
  }

  /** The boolean mask: one entry per row, true where the row passes. */
  function Mask(df: seq<Record>, ageLo: int, ageHi: int, platform: string): seq<bool> {
    seq(|df|, i requires 0 <= i < |df| => Keep(df[i], ageLo, ageHi, platform))
  }

  /** `p` lists, in increasing order, exactly the positions where `m` is true. */
  predicate ArePositionsOf(p: seq<nat>, m: seq<bool>) {
    && |p| == multiset(m)[true]
    && (forall k :: 0 <= k < |p| ==> p[k] < |m| && m[p[k]])
    && (forall i :: 0 <= i < |m| && m[i] ==> i in p)
    && (forall k, l :: 0 <= k < l < |p| ==> p[k] < p[l])
  }

  /** The positions where a mask is true, in increasing order. */
  function TruePositions(m: seq<bool>): (p: seq<nat>)
    ensures |p| == multiset(m)[true]
    ensures forall k :: 0 <= k < |p| ==> p[k] < |m| && m[p[k]]
    ensures forall i :: 0 <= i < |m| && m[i] ==> i in p
    ensures forall k, l :: 0 <= k < l < |p| ==> p[k] < p[l]
  {
    if m == [] then []
    else
      var n := |m| - 1;
      var q := TruePositions(m[..n]);
      PositionsExtend(m, q);
      q + (if m[n] then [n] else [])
  }

  /** One more mask entry adds its position at the end when it is true. */
  lemma PositionsExtend(m: seq<bool>, q: seq<nat>)
    requires m != [] && ArePositionsOf(q, m[..|m| - 1])
    ensures ArePositionsOf(q + (if m[|m| - 1] then [|m| - 1] else []), m)
  {
    var n := |m| - 1;
    assert m == m[..n] + [m[n]];
    assert multiset(m) == multiset(m[..n]) + multiset([m[n]]);
    assert forall k :: 0 <= k < |q| ==> q[k] < n && m[q[k]];
    assert forall i :: 0 <= i < n && m[i] ==> m[..n][i] && i in q;
  }

  /** The rows of `df` at the given positions, in the order of the positions. */
  function Select(df: seq<Record>, p: seq<nat>): (r: seq<Record>)
    requires forall k :: 0 <= k < |p| ==> p[k] < |df|
  {
    seq(|p|, k requires 0 <= k < |p| => df[p[k]])
  }

  /** The selected rows, `df[mask]`: soundness, completeness, nothing invented. */
  function FilterRows(df: seq<Record>, ageLo: int, ageHi: int, platform: string): (r: seq<Record>)
    ensures |r| <= |df|
    ensures forall x :: x in r ==> x in df && Keep(x, ageLo, ageHi, platform)
    ensures forall i :: 0 <= i < |df| && Keep(df[i], ageLo, ageHi, platform) ==> df[i] in r
  {
    var m := Mask(df, ageLo, ageHi, platform);
    var p := TruePositions(m);
    assert multiset(m)[true] <= |m|;
    var r := Select(df, p);
    assert forall i :: 0 <= i < |df| && m[i] ==> df[i] in r by {
      forall i | 0 <= i < |df| && m[i] ensures df[i] in r {
        var k :| 0 <= k < |p| && p[k] == i;
        assert r[k] == df[i];
      }
    }
    r
  }

  /** The count shown above the charts: the number of true entries of the
      mask; zero exactly when no row passes. */
  function MatchCount(df: seq<Record>, ageLo: int, ageHi: int, platform: string): (n: nat)
    ensures n <= |df|
    ensures n == multiset(Mask(df, ageLo, ageHi, platform))[true]
    ensures n == 0 <==> forall i :: 0 <= i < |df| ==> !Keep(df[i], ageLo, ageHi, platform)
  {
    var m := Mask(df, ageLo, ageHi, platform);
    var r := FilterRows(df, ageLo, ageHi, platform);
    assert forall i :: 0 <= i < |df| && m[i] ==> m[i] in multiset(m);
    |r|
  }

  // ---------------------------------------------------------------------------
  // An independent reference: the filter as a fold over the rows.

  /** Rows passing the condition, collected one row at a time. */
  function KeepMatching(df: seq<Record>, ageLo: int, ageHi: int, platform: string): seq<Record>
  {
    if df == [] then []
    else
      var n := |df| - 1;
      KeepMatching(df[..n], ageLo, ageHi, platform)
      + (if Keep(df[n], ageLo, ageHi, platform) then [df[n]] else [])
  }

  /** `xs` is `ys` with some elements left out, the rest in their order. */
  predicate IsSubsequence<T(==)>(xs: seq<T>, ys: seq<T>)
    decreases |ys|
  {
    if xs == [] then true
    else if ys == [] then false
    else
      (xs[|xs| - 1] == ys[|ys| - 1] && IsSubsequence(xs[..|xs| - 1], ys[..|ys| - 1]))
      || IsSubsequence(xs, ys[..|ys| - 1])
  }

  /** The positions of a mask with one more entry. */
  lemma TruePositionsSnoc(m: seq<bool>)
    requires m != []
    ensures TruePositions(m) == TruePositions(m[..|m| - 1]) + (if m[|m| - 1] then [|m| - 1] else [])
  {
  }

  /** Selecting positions that all lie in a prefix reads only the prefix. */
  lemma SelectPrefix(df: seq<Record>, n: nat, p: seq<nat>)
    requires n <= |df|
    requires forall k :: 0 <= k < |p| ==> p[k] < n
    ensures Select(df, p) == Select(df[..n], p)
  {
  }

  lemma SelectSnoc(df: seq<Record>, p: seq<nat>, i: nat)
    requires i < |df|
    requires forall k :: 0 <= k < |p| ==> p[k] < |df|
    ensures Select(df, p + [i]) == Select(df, p) + [df[i]]
  {
  }

  /** The mask selection is the fold over the rows. */
  lemma {:induction false} FilterIsKeepMatching(df: seq<Record>, ageLo: int, ageHi: int, platform: string)
    ensures FilterRows(df, ageLo, ageHi, platform) == KeepMatching(df, ageLo, ageHi, platform)
  {
    if df != [] {
      var n := |df| - 1;
      var m := Mask(df, ageLo, ageHi, platform);
      assert m[..n] == Mask(df[..n], ageLo, ageHi, platform);
      FilterIsKeepMatching(df[..n], ageLo, ageHi, platform);
      var p' := TruePositions(m[..n]);
      TruePositionsSnoc(m);
      SelectPrefix(df, n, p');
      if m[n] {
        SelectSnoc(df, p', n);
      } else {
        assert p' + [] == p';
      }
    }
  }

  /** The result keeps the rows of `df` in their original order and leaves
      them unmodified. */
  lemma {:induction false} KeepMatchingIsSubsequence(df: seq<Record>, ageLo: int, ageHi: int, platform: string)
    ensures IsSubsequence(KeepMatching(df, ageLo, ageHi, platform), df)
  {
    if df != [] {
      var n := |df| - 1;
      var prev := KeepMatching(df[..n], ageLo, ageHi, platform);
      KeepMatchingIsSubsequence(df[..n], ageLo, ageHi, platform);
      if Keep(df[n], ageLo, ageHi, platform) {
        assert (prev + [df[n]])[..|prev|] == prev;
      } else {
        assert prev + [] == prev;
      }
    }
  }

  lemma FilterPreservesOrder(df: seq<Record>, ageLo: int, ageHi: int, platform: string)
    ensures IsSubsequence(FilterRows(df, ageLo, ageHi, platform), df)
  {
    FilterIsKeepMatching(df, ageLo, ageHi, platform);
    KeepMatchingIsSubsequence(df, ageLo, ageHi, platform);
  }

  /** Every passing row appears in the result as many times as in `df`, and
      no other row appears. */
  lemma {:induction false} KeepMatchingMultiplicity(df: seq<Record>, ageLo: int, ageHi: int, platform: string, x: Record)
    ensures multiset(KeepMatching(df, ageLo, ageHi, platform))[x]
         == if Keep(x, ageLo, ageHi, platform) then multiset(df)[x] else 0
  {
    if df != [] {
      var n := |df| - 1;
      assert df == df[..n] + [df[n]];
      KeepMatchingMultiplicity(df[..n], ageLo, ageHi, platform, x);
    }
  }

  lemma FilterMultiplicity(df: seq<Record>, ageLo: int, ageHi: int, platform: string, x: Record)
    ensures multiset(FilterRows(df, ageLo, ageHi, platform))[x]
         == if Keep(x, ageLo, ageHi, platform) then multiset(df)[x] else 0
  {
    FilterIsKeepMatching(df, ageLo, ageHi, platform);
    KeepMatchingMultiplicity(df, ageLo, ageHi, platform, x);
  }

  /** Both age bounds are inclusive: a row of the chosen platform whose age
      equals either bound is selected. */
  lemma BoundsInclusive(df: seq<Record>, ageLo: int, ageHi: int, platform: string, i: int)
    requires ageLo <= ageHi
    requires 0 <= i < |df| && df[i].platform == platform
    requires df[i].age == ageLo || df[i].age == ageHi
    ensures df[i] in FilterRows(df, ageLo, ageHi, platform)
  {
  }

  /** An empty age range selects nothing, and the count is then zero. */
  lemma EmptyRange(df: seq<Record>, ageLo: int, ageHi: int, platform: string)
    requires ageHi < ageLo
    ensures FilterRows(df, ageLo, ageHi, platform) == []
    ensures MatchCount(df, ageLo, ageHi, platform) == 0
  {
  }

  /** Widening the age range never removes a row: the narrow result is a
      subsequence of the wide one. */
  lemma {:induction false} WideningKeepsRows(df: seq<Record>, ageLo: int, ageHi: int, wideLo: int, wideHi: int, platform: string)
    requires wideLo <= ageLo && ageHi <= wideHi
    ensures IsSubsequence(KeepMatching(df, ageLo, ageHi, platform), KeepMatching(df, wideLo, wideHi, platform))
  {
    if df != [] {
      var n := |df| - 1;
      WideningKeepsRows(df[..n], ageLo, ageHi, wideLo, wideHi, platform);
      var narrow := KeepMatching(df[..n], ageLo, ageHi, platform);
      var wide := KeepMatching(df[..n], wideLo, wideHi, platform);
      if Keep(df[n], ageLo, ageHi, platform) {
        assert (narrow + [df[n]])[..|narrow|] == narrow;
        assert (wide + [df[n]])[..|wide|] == wide;
      } else if Keep(df[n], wideLo, wideHi, platform) {
        assert narrow + [] == narrow;
        assert (wide + [df[n]])[..|wide|] == wide;
      } else {
        assert narrow + [] == narrow;
        assert wide + [] == wide;
      }
    }
  }

  lemma Widening(df: seq<Record>, ageLo: int, ageHi: int, wideLo: int, wideHi: int, platform: string)
    requires wideLo <= ageLo && ageHi <= wideHi
    ensures IsSubsequence(FilterRows(df, ageLo, ageHi, platform), FilterRows(df, wideLo, wideHi, platform))
    ensures MatchCount(df, ageLo, ageHi, platform) <= MatchCount(df, wideLo, wideHi, platform)
  {
    FilterIsKeepMatching(df, ageLo, ageHi, platform);
    FilterIsKeepMatching(df, wideLo, wideHi, platform);
    WideningKeepsRows(df, ageLo, ageHi, wideLo, wideHi, platform);
    SubsequenceNotLonger(FilterRows(df, ageLo, ageHi, platform), FilterRows(df, wideLo, wideHi, platform));
  }

  /** A subsequence is never longer than the sequence it is taken from. */
  lemma {:induction false} SubsequenceNotLonger<T>(xs: seq<T>, ys: seq<T>)
    requires IsSubsequence(xs, ys)
    ensures |xs| <= |ys|
    decreases |ys|
  {
    if xs != [] {
      if xs[|xs| - 1] == ys[|ys| - 1] && IsSubsequence(xs[..|xs| - 1], ys[..|ys| - 1]) {
        SubsequenceNotLonger(xs[..|xs| - 1], ys[..|ys| - 1]);
      } else {
        SubsequenceNotLonger(xs, ys[..|ys| - 1]);
      }
    }
  }
}
