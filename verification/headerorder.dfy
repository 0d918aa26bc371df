/**
 Emission order under a Header-Order list. Every name gets a rank: the index
 of the first list entry equal to it up to ASCII case, or the list's length
 when no entry matches. Names are emitted by ascending rank, and names of
 equal rank by ascending byte-wise order. With an empty list every rank is 0
 and the order is the plain byte-wise one.
 */
module HeaderOrder {
  import opened Strings
  import opened SortedKeys

  /** Position of the first entry of `order` that matches `n` case-insensitively;
      `|order|` when none does. */
  function Rank(order: seq<string>, n: string): nat
    decreases |order|
  {
    if |order| == 0 then 0
    else if EqualFold(order[0], n) then 0
    else 1 + Rank(order[1..], n)
  }

  /** The rank is the position of the first matching entry: that entry
      matches, no earlier one does, and a name no entry matches ranks last. */
  lemma {:induction false} RankIsFirstMatch(order: seq<string>, n: string)
    ensures Rank(order, n) <= |order|
    ensures Rank(order, n) < |order| ==> EqualFold(order[Rank(order, n)], n)
    ensures forall i :: 0 <= i < Rank(order, n) ==> !EqualFold(order[i], n)
    decreases |order|
  {
    if |order| > 0 && !EqualFold(order[0], n) {
      RankIsFirstMatch(order[1..], n);
    }
  }

  /** The rank of `n` is `k` when entry `k` is the first to match it. */
  lemma RankOf(order: seq<string>, n: string, k: nat)
    requires k < |order| && EqualFold(order[k], n)
    requires forall i :: 0 <= i < k ==> !EqualFold(order[i], n)
    ensures Rank(order, n) == k
  {
    RankIsFirstMatch(order, n);
  }

  /** `a` is emitted before `b`. */
  predicate Before(order: seq<string>, a: string, b: string)
  {
    Rank(order, a) < Rank(order, b) || (Rank(order, a) == Rank(order, b) && Less(a, b))
  }

  predicate SortedBy(order: seq<string>, xs: seq<string>)
  {
    forall i, j :: 0 <= i < j < |xs| ==> Before(order, xs[i], xs[j])
  }

  /** Without an order list, emission order is byte-wise order. */
  lemma DefaultOrderIsAscending(xs: seq<string>)
    ensures SortedBy([], xs) <==> Ascending(xs)
  {
  }

  lemma BeforeIrreflexive(order: seq<string>, a: string)
    ensures !Before(order, a, a)
  {
    LessIrreflexive(a);
  }

  lemma BeforeAsymmetric(order: seq<string>, a: string, b: string)
    ensures !(Before(order, a, b) && Before(order, b, a))
  {
    LessAsymmetric(a, b);
  }

  lemma BeforeTransitive(order: seq<string>, a: string, b: string, c: string)
    requires Before(order, a, b) && Before(order, b, c)
    ensures Before(order, a, c)
  {
    if Rank(order, a) == Rank(order, b) == Rank(order, c) {
      LessTransitive(a, b, c);
    }
  }

  /** Two different names are always placed one before the other. */
  lemma BeforeTotal(order: seq<string>, a: string, b: string)
    requires a != b
    ensures Before(order, a, b) || Before(order, b, a)
  {
    LessTotal(a, b);
  }

  /** A sorted sequence is determined by its elements: however the names were
      gathered, there is exactly one way to list them in emission order. */
  lemma {:induction false} SortedByUnique(order: seq<string>, a: seq<string>, b: seq<string>)
    requires SortedBy(order, a) && SortedBy(order, b)
    requires forall x :: x in a <==> x in b
    ensures a == b
  {
    if a != [] || b != [] {
      assert |a| > 0 && |b| > 0 by {
        if |a| > 0 { assert a[0] in b; }
        if |b| > 0 { assert b[0] in a; }
      }
      assert a[0] in b && b[0] in a;
      if a[0] != b[0] {
        var i :| 0 <= i < |b| && b[i] == a[0];
        var j :| 0 <= j < |a| && a[j] == b[0];
        BeforeAsymmetric(order, a[0], b[0]);
        assert false;
      }
      forall x
        ensures x in a[1..] <==> x in b[1..]
      {
        if x in a[1..] {
          var k :| 1 <= k < |a| && a[k] == x;
          assert Before(order, a[0], x);
          BeforeIrreflexive(order, x);
        }
        if x in b[1..] {
          var k :| 1 <= k < |b| && b[k] == x;
          assert Before(order, b[0], x);
          BeforeIrreflexive(order, x);
        }
        assert x in a <==> x in b;
        assert a == [a[0]] + a[1..] && b == [b[0]] + b[1..];
      }
      SortedByUnique(order, a[1..], b[1..]);
      assert a == [a[0]] + a[1..] && b == [b[0]] + b[1..];
    }
  }

  /** A sorted sequence lists no name twice. */
  lemma SortedByDistinct(order: seq<string>, xs: seq<string>)
    requires SortedBy(order, xs)
    ensures forall i, j :: 0 <= i < j < |xs| ==> xs[i] != xs[j]
  {
    forall i, j | 0 <= i < j < |xs|
      ensures xs[i] != xs[j]
    {
      BeforeIrreflexive(order, xs[i]);
    }
  }

  /** Adjacent pairs in order suffice for the whole sequence to be sorted. */
  lemma {:induction false} SortedByFromAdjacent(order: seq<string>, xs: seq<string>)
    requires forall i :: 0 <= i < |xs| - 1 ==> Before(order, xs[i], xs[i + 1])
    ensures SortedBy(order, xs)
  {
    if |xs| > 1 {
      SortedByFromAdjacent(order, xs[1..]);
      forall j | 1 <= j < |xs|
        ensures Before(order, xs[0], xs[j])
      {
        if j > 1 {
          assert Before(order, xs[1..][0], xs[1..][j - 1]);
          BeforeTransitive(order, xs[0], xs[1], xs[j]);
        }
      }
      forall i, j | 0 <= i < j < |xs|
        ensures Before(order, xs[i], xs[j])
      {
        if i > 0 {
          assert Before(order, xs[1..][i - 1], xs[1..][j - 1]);
        }
      }
    }
  }

  /** One step of list resolution keeps the result sorted: the names matched by
      the head entry have rank 0, everything after them ranks one higher than
      it does against the tail of the list. */
  lemma ResolveStepSorted(order: seq<string>, first: seq<string>, rest: seq<string>)
    requires |order| > 0
    requires Ascending(first)
    requires forall x :: x in first ==> EqualFold(order[0], x)
    requires forall y :: y in rest ==> !EqualFold(order[0], y)
    requires SortedBy(order[1..], rest)
    ensures SortedBy(order, first + rest)
  {
    var r := first + rest;
    forall i, j | 0 <= i < j < |r|
      ensures Before(order, r[i], r[j])
    {
      if j < |first| {
        assert Less(first[i], first[j]);
      } else if i < |first| {
        assert first[i] in first && rest[j - |first|] in rest;
      } else {
        assert Before(order[1..], rest[i - |first|], rest[j - |first|]);
        assert rest[i - |first|] in rest && rest[j - |first|] in rest;
      }
    }
  }

  /** The custom emission order: walk the list; each entry schedules the
      not yet scheduled names it matches case-insensitively (in byte-wise
      order when several do); an entry matching nothing is skipped. Names no
      entry matches follow at the end in byte-wise order. */
  function Resolve(order: seq<string>, pending: set<string>): (r: seq<string>)
    ensures forall x :: x in r <==> x in pending
    ensures SortedBy(order, r)
    decreases |order|
  {
    if |order| == 0 then
      var r := SortSet(pending);
      DefaultOrderIsAscending(r);
      r
    else
      var matched := set n | n in pending && EqualFold(order[0], n);
      var first := SortSet(matched);
      var rest := Resolve(order[1..], pending - matched);
      ResolveStepSorted(order, first, rest);
      first + rest
  }

  /** When the list has exactly one entry per pending name, matching it up to
      ASCII case, and the pending names differ from each other by more than
      case, the emission order is the list's order, each entry standing for
      the stored name it matches (with the stored casing). */
  lemma ResolveFollowsList(order: seq<string>, pending: set<string>, names: seq<string>)
    requires |names| == |order|
    requires forall i :: 0 <= i < |order| ==> EqualFold(order[i], names[i])
    requires forall i, j :: 0 <= i < j < |names| ==> !EqualFold(names[i], names[j])
    requires forall n :: n in names <==> n in pending
    ensures Resolve(order, pending) == names
  {
    forall i | 0 <= i < |names|
      ensures Rank(order, names[i]) == i
    {
      var k := Rank(order, names[i]);
      RankIsFirstMatch(order, names[i]);
      assert k <= i;
      if k < i {
        EqualFoldSymmetric(order[k], names[k]);
        EqualFoldTransitive(names[k], order[k], names[i]);
      }
    }
    assert SortedBy(order, names);
    SortedByUnique(order, Resolve(order, pending), names);
  }

  /** Inserts `x` into a sorted sequence (the insertion-sort step); a name
      already present is not inserted twice. */
  function Insert(order: seq<string>, x: string, xs: seq<string>): (r: seq<string>)
    requires SortedBy(order, xs)
    ensures SortedBy(order, r)
    ensures forall y :: y in r <==> y == x || y in xs
    decreases |xs|
  {
    if |xs| == 0 then [x]
    else if x == xs[0] then xs
    else if Before(order, x, xs[0]) then
      assert forall j :: 1 <= j < |xs| ==> Before(order, xs[0], xs[j]);
      InsertFrontSorted(order, x, xs);
      [x] + xs
    else
      BeforeTotal(order, x, xs[0]);
      var rest := Insert(order, x, xs[1..]);
      assert forall y :: y in rest ==> Before(order, xs[0], y);
      [xs[0]] + rest
  }

  lemma InsertFrontSorted(order: seq<string>, x: string, xs: seq<string>)
    requires |xs| > 0 && SortedBy(order, xs) && Before(order, x, xs[0])
    ensures SortedBy(order, [x] + xs)
  {
    forall j | 1 <= j < |xs|
      ensures Before(order, x, xs[j])
    {
      BeforeTransitive(order, x, xs[0], xs[j]);
    }
  }
}
