/** The overlay selection seen as a history: the selected overlay indexes in
    the order they were selected or added, each at most once. The selected
    index set is the history's members; the last-selected overlay is its
    final element. */
module Selection {

  /** No index occurs twice. */
  predicate Distinct(s: seq<int>)
  {
    forall i, j :: 0 <= i < j < |s| ==> s[i] != s[j]
  }

  /** What an NSIndexSet holds: non-negative indexes, enumerated in ascending order. */
  predicate IsIndexSet(s: seq<int>)
  {
    (forall k :: 0 <= k < |s| ==> 0 <= s[k]) &&
    (forall i, j :: 0 <= i < j < |s| ==> s[i] < s[j])
  }

  /** A well-formed selection history: overlay indexes, each selected once. */
  predicate IsHistory(h: seq<int>)
  {
    Distinct(h) && forall k :: 0 <= k < |h| ==> 0 <= h[k]
  }

  /** The set of indexes a sequence holds. */
  function Members(s: seq<int>): set<int>
  {
    set x | x in s
  }

  /** The last overlay selected, or -1 when nothing is selected. */
  function LastOf(h: seq<int>): int
  {
    if h == [] then -1 else h[|h| - 1]
  }

  /** The history with index x taken out. */
  function Without(h: seq<int>, x: int): seq<int>
  {
    if h == [] then []
    else
      var p := Without(h[..|h| - 1], x);
      if h[|h| - 1] == x then p else p + [h[|h| - 1]]
  }

  /** The history after adding the indexes of idx one by one, in idx's order;
      an index already in the history is not added again. */
  function Extended(h: seq<int>, idx: seq<int>): seq<int>
  {
    if idx == [] then h
    else
      var p := Extended(h, idx[..|idx| - 1]);
      var y := idx[|idx| - 1];
      if y in p then p else p + [y]
  }

  /** The elements of idx that are not in h, in idx's order. */
  function NotIn(idx: seq<int>, h: seq<int>): seq<int>
  {
    if idx == [] then []
    else
      var p := NotIn(idx[..|idx| - 1], h);
      var y := idx[|idx| - 1];
      if y in h then p else p + [y]
  }

  /** The data source's indexes 0, 1, ..., n - 1 in ascending order. */
  function Range(n: nat): seq<int>
  {
    if n == 0 then [] else Range(n - 1) + [n - 1]
  }

  // ---------------------------------------------------------------------
  // Counting and membership
  // ---------------------------------------------------------------------

  /** Appending one element adds exactly that element to the members. */
  lemma MembersAppend(s: seq<int>, y: int)
    ensures Members(s + [y]) == Members(s) + {y}
  {
    assert forall x :: x in s + [y] <==> x in s || x == y;
  }

  /** Appending a fresh, non-negative index keeps a history well formed. */
  lemma AppendHistory(q: seq<int>, y: int)
    requires IsHistory(q)
    requires 0 <= y && y !in q
    ensures IsHistory(q + [y])
  {
    forall i, j | 0 <= i < j < |q + [y]|
      ensures (q + [y])[i] != (q + [y])[j]
    {
      if j == |q| {
        assert (q + [y])[i] == q[i];
      }
    }
  }

  /** A history has as many selected indexes as it has elements. */
  lemma {:induction false} DistinctCard(h: seq<int>)
    requires Distinct(h)
    ensures |Members(h)| == |h|
  {
    if h != [] {
      var p := h[..|h| - 1];
      var y := h[|h| - 1];
      assert h == p + [y];
      assert Members(h) == Members(p) + {y};
      assert y !in Members(p);
      DistinctCard(p);
    }
  }

  /** An ascending run of non-negative indexes is a well-formed history whose
      last element is its greatest. */
  lemma IndexSetIsHistory(s: seq<int>)
    requires IsIndexSet(s)
    ensures IsHistory(s)
    ensures forall k :: 0 <= k < |s| ==> s[k] <= LastOf(s)
  {
  }

  /** The last-selected value is -1 exactly for the empty history, and
      otherwise a selected index. */
  lemma LastOfHistory(h: seq<int>)
    requires IsHistory(h)
    ensures LastOf(h) == -1 <==> h == []
    ensures h != [] ==> LastOf(h) in Members(h)
  {
  }

  // ---------------------------------------------------------------------
  // Deselecting one overlay
  // ---------------------------------------------------------------------

  /** Removing x leaves exactly the other members, removes nothing else, and
      keeps a well-formed history well formed. */
  lemma {:induction false} WithoutMembers(h: seq<int>, x: int)
    ensures Members(Without(h, x)) == Members(h) - {x}
    ensures IsHistory(h) ==> IsHistory(Without(h, x))
  {
    if h != [] {
      var p := h[..|h| - 1];
      var y := h[|h| - 1];
      assert h == p + [y];
      WithoutMembers(p, x);
      MembersAppend(p, y);
      var w := Without(p, x);
      if y != x {
        MembersAppend(w, y);
      }
      if IsHistory(h) {
        assert IsHistory(p);
        assert y !in p;
        if y != x {
          assert y !in Members(w);
          AppendHistory(w, y);
        }
      }
    }
  }

  /** Deselecting an index that is not selected changes nothing. */
  lemma {:induction false} WithoutAbsent(h: seq<int>, x: int)
    requires x !in h
    ensures Without(h, x) == h
  {
    if h != [] {
      var p := h[..|h| - 1];
      assert h == p + [h[|h| - 1]];
      WithoutAbsent(p, x);
    }
  }

  /** Deselecting the member at position k cuts out that one position: the
      relative order of every other member is untouched. */
  lemma {:induction false} WithoutAt(h: seq<int>, k: nat)
    requires Distinct(h)
    requires k < |h|
    ensures Without(h, h[k]) == h[..k] + h[k + 1..]
  {
    var p := h[..|h| - 1];
    var y := h[|h| - 1];
    assert h == p + [y];
    if k == |h| - 1 {
      assert h[k] !in p;
      WithoutAbsent(p, h[k]);
      assert h[..k] + h[k + 1..] == p;
    } else {
      assert p[k] == h[k];
      WithoutAt(p, k);
      assert y != h[k];
      assert h[..k] + h[k + 1..] == p[..k] + p[k + 1..] + [y];
    }
  }

  /** After deselecting x, the last-selected overlay is unchanged unless x was
      it; then the overlay selected before x becomes last, or -1 when none
      remains. */
  lemma DeselectLastSelected(h: seq<int>, x: int)
    requires IsHistory(h)
    ensures LastOf(Without(h, x)) ==
              if x != LastOf(h) then LastOf(h)
              else if |h| <= 1 then -1
              else h[|h| - 2]
  {
    if h != [] {
      if x == LastOf(h) {
        WithoutAt(h, |h| - 1);
        assert h[..|h| - 1] + h[|h|..] == h[..|h| - 1];
      }
    }
  }

  // ---------------------------------------------------------------------
  // Extending the selection
  // ---------------------------------------------------------------------

  /** Members of NotIn: exactly those of idx that h lacks. */
  lemma {:induction false} NotInMembers(idx: seq<int>, h: seq<int>)
    ensures Members(NotIn(idx, h)) == Members(idx) - Members(h)
  {
    if idx != [] {
      var p := idx[..|idx| - 1];
      var y := idx[|idx| - 1];
      assert idx == p + [y];
      MembersAppend(p, y);
      MembersAppend(NotIn(p, h), y);
      NotInMembers(p, h);
    }
  }

  /** Extending appends the indexes that were not yet selected, in order, after
      the existing history, whose own order is kept. */
  lemma {:induction false} ExtendedAppends(h: seq<int>, idx: seq<int>)
    requires Distinct(idx)
    ensures Extended(h, idx) == h + NotIn(idx, h)
  {
    if idx != [] {
      var p := idx[..|idx| - 1];
      var y := idx[|idx| - 1];
      assert idx == p + [y];
      ExtendedAppends(h, p);
      NotInMembers(p, h);
      assert y !in p;
      assert y !in Members(NotIn(p, h));
      assert (y in h + NotIn(p, h)) == (y in h);
    }
  }

  /** Extending yields the union of the old selection and the given indexes,
      and keeps a well-formed history well formed. */
  lemma {:induction false} ExtendedMembers(h: seq<int>, idx: seq<int>)
    requires IsHistory(h)
    requires IsIndexSet(idx)
    ensures Members(Extended(h, idx)) == Members(h) + Members(idx)
    ensures IsHistory(Extended(h, idx))
  {
    if idx != [] {
      var p := idx[..|idx| - 1];
      var y := idx[|idx| - 1];
      assert idx == p + [y];
      assert Members(idx) == Members(p) + {y};
      ExtendedMembers(h, p);
      var q := Extended(h, p);
      if y !in q {
        MembersAppend(q, y);
        AppendHistory(q, y);
      }
    }
  }

  /** Extending with indexes that are all selected already changes nothing. */
  lemma {:induction false} ExtendedWithSelected(h: seq<int>, idx: seq<int>)
    requires Members(idx) <= Members(h)
    ensures Extended(h, idx) == h
  {
    if idx != [] {
      var p := idx[..|idx| - 1];
      var y := idx[|idx| - 1];
      assert idx == p + [y];
      assert Members(idx) == Members(p) + {y};
      ExtendedWithSelected(h, p);
    }
  }

  /** If idx[k] was not selected and every later index of idx was, then idx[k]
      is the last-selected overlay after extending: the last one added. */
  lemma {:induction false} ExtendedLastSelected(h: seq<int>, idx: seq<int>, k: nat)
    requires Distinct(idx)
    requires k < |idx|
    requires idx[k] !in h
    requires forall j :: k < j < |idx| ==> idx[j] in h
    ensures LastOf(Extended(h, idx)) == idx[k]
  {
    var p := idx[..|idx| - 1];
    var y := idx[|idx| - 1];
    assert idx == p + [y];
    ExtendedAppends(h, p);
    NotInMembers(p, h);
    if k == |idx| - 1 {
      assert y !in p;
      assert y !in Members(NotIn(p, h));
      assert y !in h + NotIn(p, h);
    } else {
      assert p[k] == idx[k];
      assert Distinct(p);
      ExtendedLastSelected(h, p, k);
      assert y in h;
    }
  }

  // ---------------------------------------------------------------------
  // Selecting all overlays
  // ---------------------------------------------------------------------

  /** Range(n) enumerates exactly the valid indexes, in ascending order. */
  lemma {:induction false} RangeIsValidIndexes(n: nat)
    ensures |Range(n)| == n
    ensures forall i :: i in Members(Range(n)) <==> 0 <= i < n
    ensures IsIndexSet(Range(n))
    ensures forall k :: 0 <= k < n ==> Range(n)[k] == k
  {
    if n > 0 {
      RangeIsValidIndexes(n - 1);
      assert Members(Range(n)) == Members(Range(n - 1)) + {n - 1};
    }
  }
}
