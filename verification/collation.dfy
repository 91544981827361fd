/** The collation step shared by every generation: each item names the
    sections it belongs to, and the result is one bucket per section that
    received an item, ordered by section index, each keeping input order.
    This is the TreeMap keyed by section index that `collate` fills with
    `computeIfAbsent(...).add(issue)`. */
module Collation {

  /** The items collected for the section at index `section`. */
  datatype Bucket<T> = Bucket(section: nat, items: seq<T>)

  /** The items of `xs` that claim section `j`, in input order. */
  function Claimants<T(==,!new)>(xs: seq<T>, claims: T -> seq<nat>, j: nat): (r: seq<T>)
    ensures forall x :: x in r <==> x in xs && j in claims(x)
    ensures |r| <= |xs|
  {
    if |xs| == 0 then []
    else
      var init := xs[..|xs| - 1];
      var last := xs[|xs| - 1];
      assert xs == init + [last];
      Claimants(init, claims, j) + (if j in claims(last) then [last] else [])
  }

  /** One more item is collected at the end exactly when it claims the section. */
  lemma ClaimantsSnoc<T(!new)>(xs: seq<T>, x: T, claims: T -> seq<nat>, j: nat)
    ensures Claimants(xs + [x], claims, j) == Claimants(xs, claims, j) + (if j in claims(x) then [x] else [])
  {
    assert (xs + [x])[..|xs|] == xs;
  }

  /** Collecting over a concatenation collects over each part in turn. */
  lemma {:induction false} ClaimantsAppend<T(!new)>(xs: seq<T>, ys: seq<T>, claims: T -> seq<nat>, j: nat)
    ensures Claimants(xs + ys, claims, j) == Claimants(xs, claims, j) + Claimants(ys, claims, j)
    decreases |ys|
  {
    if |ys| == 0 {
      assert xs + ys == xs;
    } else {
      var init, last := ys[..|ys| - 1], ys[|ys| - 1];
      SnocShape(xs, ys, init, last);
      ClaimantsAppend(xs, init, claims, j);
      ClaimantsSnoc(xs + init, last, claims, j);
      ClaimantsSnoc(init, last, claims, j);
    }
  }

  lemma SnocShape<T>(xs: seq<T>, ys: seq<T>, init: seq<T>, last: T)
    requires |ys| > 0 && init == ys[..|ys| - 1] && last == ys[|ys| - 1]
    ensures ys == init + [last] && xs + ys == (xs + init) + [last]
  {
  }

  /** Nothing is collected when no item claims the section. */
  lemma ClaimantsNone<T(!new)>(xs: seq<T>, claims: T -> seq<nat>, j: nat)
    requires forall x :: x in xs ==> j !in claims(x)
    ensures Claimants(xs, claims, j) == []
  {
    if Claimants(xs, claims, j) != [] {
      assert Claimants(xs, claims, j)[0] in Claimants(xs, claims, j);
    }
  }

  /** The facts about the last item and the rest that ClaimantsAll recurses on. */
  lemma ClaimantsAllStep<T(!new)>(xs: seq<T>, init: seq<T>, last: T, claims: T -> seq<nat>, j: nat)
    requires |xs| > 0 && init == xs[..|xs| - 1] && last == xs[|xs| - 1]
    requires forall i :: 0 <= i < |xs| ==> j in claims(xs[i])
    ensures forall i :: 0 <= i < |init| ==> j in claims(init[i])
    ensures j in claims(last)
    ensures xs == init + [last]
  {
  }

  /** Everything is collected when every item claims the section. */
  lemma {:induction false} ClaimantsAll<T(!new)>(xs: seq<T>, claims: T -> seq<nat>, j: nat)
    requires forall i :: 0 <= i < |xs| ==> j in claims(xs[i])
    ensures Claimants(xs, claims, j) == xs
    decreases |xs|
  {
    if |xs| > 0 {
      var init, last := xs[..|xs| - 1], xs[|xs| - 1];
      ClaimantsAllStep(xs, init, last, claims, j);
      ClaimantsAll(init, claims, j);
      ClaimantsSnoc(init, last, claims, j);
    }
  }

  ghost predicate Ordered<T>(r: seq<Bucket<T>>) {
    forall a, b :: 0 <= a < b < |r| ==> r[a].section < r[b].section
  }

  /** The collation of `xs` into sections 0..n-1: buckets strictly ordered by
      section index, only non-empty ones, each holding exactly the items that
      claim it in input order, and no non-empty section missing. */
  ghost predicate IsCollation<T(!new)>(r: seq<Bucket<T>>, n: nat, xs: seq<T>, claims: T -> seq<nat>) {
    && Ordered(r)
    && (forall k :: 0 <= k < |r| ==>
          r[k].section < n && r[k].items == Claimants(xs, claims, r[k].section) && r[k].items != [])
    && (forall j :: 0 <= j < n && Claimants(xs, claims, j) != [] ==>
          exists k :: 0 <= k < |r| && r[k].section == j)
  }

  /** The buckets of sections `j` up to `n`: one for each section that some
      item claims, in index order. */
  function BucketsFrom<T(==,!new)>(n: nat, xs: seq<T>, claims: T -> seq<nat>, j: nat): seq<Bucket<T>>
    decreases n - j
  {
    if j >= n then []
    else
      var here := Claimants(xs, claims, j);
      (if here != [] then [Bucket(j, here)] else []) + BucketsFrom(n, xs, claims, j + 1)
  }

  /** The reference buckets meet the specification of a collation. */
  lemma {:induction false} BucketsFromMeetsSpec<T(!new)>(n: nat, xs: seq<T>, claims: T -> seq<nat>, j: nat)
    ensures IsCollationFrom(BucketsFrom(n, xs, claims, j), n, xs, claims, j)
    decreases n - j
  {
    if j < n {
      var here := Claimants(xs, claims, j);
      var rest := BucketsFrom(n, xs, claims, j + 1);
      BucketsFromMeetsSpec(n, xs, claims, j + 1);
      if here == [] {
        assert BucketsFrom(n, xs, claims, j) == rest;
        WidenEmptySection(rest, n, xs, claims, j);
      } else {
        assert BucketsFrom(n, xs, claims, j) == [Bucket(j, here)] + rest;
        PrependSection(rest, n, xs, claims, j);
      }
    }
  }

  lemma WidenEmptySection<T(!new)>(r: seq<Bucket<T>>, n: nat, xs: seq<T>, claims: T -> seq<nat>, j: nat)
    requires IsCollationFrom(r, n, xs, claims, j + 1) && Claimants(xs, claims, j) == []
    ensures IsCollationFrom(r, n, xs, claims, j)
  {
  }

  lemma PrependSection<T(!new)>(r: seq<Bucket<T>>, n: nat, xs: seq<T>, claims: T -> seq<nat>, j: nat)
    requires IsCollationFrom(r, n, xs, claims, j + 1) && j < n && Claimants(xs, claims, j) != []
    ensures IsCollationFrom([Bucket(j, Claimants(xs, claims, j))] + r, n, xs, claims, j)
  {
    var r' := [Bucket(j, Claimants(xs, claims, j))] + r;
    PrependKeepsBuckets(r, r', n, xs, claims, j);
    PrependCovers(r, r', n, xs, claims, j);
  }

  lemma PrependKeepsBuckets<T(!new)>(r: seq<Bucket<T>>, r': seq<Bucket<T>>, n: nat, xs: seq<T>, claims: T -> seq<nat>, j: nat)
    requires IsCollationFrom(r, n, xs, claims, j + 1) && j < n && Claimants(xs, claims, j) != []
    requires r' == [Bucket(j, Claimants(xs, claims, j))] + r
    ensures Ordered(r')
    ensures forall k :: 0 <= k < |r'| ==>
              j <= r'[k].section < n && r'[k].items == Claimants(xs, claims, r'[k].section) && r'[k].items != []
  {
    assert forall k :: 0 < k < |r'| ==> r'[k] == r[k - 1];
  }

  lemma PrependCovers<T(!new)>(r: seq<Bucket<T>>, r': seq<Bucket<T>>, n: nat, xs: seq<T>, claims: T -> seq<nat>, j: nat)
    requires IsCollationFrom(r, n, xs, claims, j + 1)
    requires r' == [Bucket(j, Claimants(xs, claims, j))] + r
    ensures forall i :: j <= i < n && Claimants(xs, claims, i) != [] ==>
              exists k :: 0 <= k < |r'| && r'[k].section == i
  {
    forall i | j <= i < n && Claimants(xs, claims, i) != []
      ensures exists k :: 0 <= k < |r'| && r'[k].section == i
    {
      if i == j {
        assert r'[0].section == i;
      } else {
        var k :| 0 <= k < |r| && r[k].section == i;
        assert r'[k + 1].section == i;
      }
    }
  }

  /** The reference definition of a collation, section by section; it meets
      the specification, so with CollationIsUnique it is the only bucket list
      that does. */
  function CollationOf<T(==,!new)>(n: nat, xs: seq<T>, claims: T -> seq<nat>): (r: seq<Bucket<T>>)
    ensures IsCollation(r, n, xs, claims)
  {
    BucketsFromMeetsSpec(n, xs, claims, 0);
    BucketsFrom(n, xs, claims, 0)
  }

  /** IsCollation restricted to the sections from `j` on. */
  ghost predicate IsCollationFrom<T(!new)>(r: seq<Bucket<T>>, n: nat, xs: seq<T>, claims: T -> seq<nat>, j: nat) {
    && Ordered(r)
    && (forall k :: 0 <= k < |r| ==>
          j <= r[k].section < n && r[k].items == Claimants(xs, claims, r[k].section) && r[k].items != [])
    && (forall i :: j <= i < n && Claimants(xs, claims, i) != [] ==>
          exists k :: 0 <= k < |r| && r[k].section == i)
  }

  lemma {:induction false} CollationFromIsUnique<T(!new)>(r: seq<Bucket<T>>, n: nat, xs: seq<T>, claims: T -> seq<nat>, j: nat)
    requires IsCollationFrom(r, n, xs, claims, j)
    ensures r == BucketsFrom(n, xs, claims, j)
    decreases n - j
  {
    if j < n {
      var here := Claimants(xs, claims, j);
      if here == [] {
        SkipEmptySection(r, n, xs, claims, j);
        CollationFromIsUnique(r, n, xs, claims, j + 1);
        assert BucketsFrom(n, xs, claims, j) == [] + BucketsFrom(n, xs, claims, j + 1);
      } else {
        HeadIsSection(r, n, xs, claims, j);
        CollationFromIsUnique(r[1..], n, xs, claims, j + 1);
        assert BucketsFrom(n, xs, claims, j) == [Bucket(j, here)] + BucketsFrom(n, xs, claims, j + 1);
        assert r == [r[0]] + r[1..];
      }
    }
  }

  /** A section nobody claims has no bucket. */
  lemma SkipEmptySection<T(!new)>(r: seq<Bucket<T>>, n: nat, xs: seq<T>, claims: T -> seq<nat>, j: nat)
    requires IsCollationFrom(r, n, xs, claims, j) && j < n && Claimants(xs, claims, j) == []
    ensures IsCollationFrom(r, n, xs, claims, j + 1)
  {
    assert forall k :: 0 <= k < |r| ==> r[k].section != j;
  }

  /** A claimed section leads the buckets, and the rest start after it. */
  lemma HeadIsSection<T(!new)>(r: seq<Bucket<T>>, n: nat, xs: seq<T>, claims: T -> seq<nat>, j: nat)
    requires IsCollationFrom(r, n, xs, claims, j) && j < n && Claimants(xs, claims, j) != []
    ensures |r| > 0 && r[0] == Bucket(j, Claimants(xs, claims, j))
    ensures IsCollationFrom(r[1..], n, xs, claims, j + 1)
  {
    FirstBucketIsSection(r, n, xs, claims, j);
    RestFromNextSection(r, n, xs, claims, j);
  }

  lemma FirstBucketIsSection<T(!new)>(r: seq<Bucket<T>>, n: nat, xs: seq<T>, claims: T -> seq<nat>, j: nat)
    requires IsCollationFrom(r, n, xs, claims, j) && j < n && Claimants(xs, claims, j) != []
    ensures |r| > 0 && r[0] == Bucket(j, Claimants(xs, claims, j))
  {
    var k :| 0 <= k < |r| && r[k].section == j;
    assert j <= r[0].section;
    assert k == 0;
  }

  lemma RestFromNextSection<T(!new)>(r: seq<Bucket<T>>, n: nat, xs: seq<T>, claims: T -> seq<nat>, j: nat)
    requires IsCollationFrom(r, n, xs, claims, j) && |r| > 0 && r[0].section == j
    ensures IsCollationFrom(r[1..], n, xs, claims, j + 1)
  {
    RestKeepsBuckets(r, r[1..], n, xs, claims, j);
    RestCovers(r, r[1..], n, xs, claims, j);
  }

  lemma RestKeepsBuckets<T(!new)>(r: seq<Bucket<T>>, rest: seq<Bucket<T>>, n: nat, xs: seq<T>, claims: T -> seq<nat>, j: nat)
    requires IsCollationFrom(r, n, xs, claims, j) && |r| > 0 && r[0].section == j && rest == r[1..]
    ensures Ordered(rest)
    ensures forall k :: 0 <= k < |rest| ==>
              j + 1 <= rest[k].section < n && rest[k].items == Claimants(xs, claims, rest[k].section) && rest[k].items != []
  {
    assert forall a :: 0 <= a < |rest| ==> rest[a] == r[a + 1] && r[0].section < r[a + 1].section;
  }

  lemma RestCovers<T(!new)>(r: seq<Bucket<T>>, rest: seq<Bucket<T>>, n: nat, xs: seq<T>, claims: T -> seq<nat>, j: nat)
    requires IsCollationFrom(r, n, xs, claims, j) && |r| > 0 && r[0].section == j && rest == r[1..]
    ensures forall i :: j + 1 <= i < n && Claimants(xs, claims, i) != [] ==>
              exists a :: 0 <= a < |rest| && rest[a].section == i
  {
    forall i | j + 1 <= i < n && Claimants(xs, claims, i) != []
      ensures exists a :: 0 <= a < |rest| && rest[a].section == i
    {
      var b :| 0 <= b < |r| && r[b].section == i;
      assert rest[b - 1].section == i;
    }
  }

  /** A collation is unique: every bucket list meeting the specification is
      the section-by-section reference definition. */
  lemma CollationIsUnique<T(!new)>(r: seq<Bucket<T>>, n: nat, xs: seq<T>, claims: T -> seq<nat>)
    requires IsCollation(r, n, xs, claims)
    ensures r == CollationOf(n, xs, claims)
  {
    CollationFromIsUnique(r, n, xs, claims, 0);
  }

  /** The collation is empty exactly when no item claims any of the sections. */
  lemma CollationEmptyIffUnclaimed<T(!new)>(n: nat, xs: seq<T>, claims: T -> seq<nat>)
    ensures CollationOf(n, xs, claims) == [] <==> forall x, j :: x in xs && j in claims(x) ==> j >= n
  {
    var r := CollationOf(n, xs, claims);
    if r != [] {
      var y := r[0].items[0];
      assert y in Claimants(xs, claims, r[0].section);
    }
    if exists x, j :: x in xs && j in claims(x) && j < n {
      var x, j :| x in xs && j in claims(x) && j < n;
      assert x in Claimants(xs, claims, j);
    }
  }

  /** The map from section index to collected items mirrors the prefix. */
  ghost predicate Tracks<T(!new)>(m: map<nat, seq<T>>, prefix: seq<T>, claims: T -> seq<nat>) {
    forall j: nat :: (j in m <==> Claimants(prefix, claims, j) != [])
                  && (j in m ==> m[j] == Claimants(prefix, claims, j))
  }

  /** computeIfAbsent(section).add(item) for every section the item claims. */
  function AddToClaimed<T>(m: map<nat, seq<T>>, x: T, cs: seq<nat>): map<nat, seq<T>> {
    map j | j in m.Keys + (set c | c in cs) ::
      (if j in m then m[j] else []) + (if j in cs then [x] else [])
  }

  lemma AddToClaimedTracks<T(!new)>(m: map<nat, seq<T>>, prefix: seq<T>, x: T, claims: T -> seq<nat>)
    requires Tracks(m, prefix, claims)
    ensures Tracks(AddToClaimed(m, x, claims(x)), prefix + [x], claims)
  {
    var xs := prefix + [x];
    assert xs[..|xs| - 1] == prefix;
  }

  /** Walks the items in order, appending each to every section it claims,
      then emits the sections that received something in index order. */
  method Collate<T(==,!new)>(n: nat, xs: seq<T>, claims: T -> seq<nat>) returns (r: seq<Bucket<T>>)
    ensures IsCollation(r, n, xs, claims)
    ensures r == CollationOf(n, xs, claims)
  {
    var m: map<nat, seq<T>> := map[];
    var i := 0;
    while i < |xs|
      invariant 0 <= i <= |xs|
      invariant Tracks(m, xs[..i], claims)
    {
      AddToClaimedTracks(m, xs[..i], xs[i], claims);
      m := AddToClaimed(m, xs[i], claims(xs[i]));
      assert xs[..i + 1] == xs[..i] + [xs[i]];
      i := i + 1;
    }
    assert xs[..|xs|] == xs;
    r := InIndexOrder(n, m);
    CollationIsUnique(r, n, xs, claims);
  }

  /** The sections below `n` present in `m`, in increasing index order. */
  ghost predicate ListsInOrder<T>(r: seq<Bucket<T>>, n: nat, m: map<nat, seq<T>>) {
    && Ordered(r)
    && (forall k :: 0 <= k < |r| ==> r[k].section < n && r[k].section in m && r[k].items == m[r[k].section])
    && (forall j :: 0 <= j < n && j in m ==> exists k :: 0 <= k < |r| && r[k].section == j)
  }

  lemma ListsOneMore<T>(r: seq<Bucket<T>>, j: nat, m: map<nat, seq<T>>)
    requires ListsInOrder(r, j, m) && j in m
    ensures ListsInOrder(r + [Bucket(j, m[j])], j + 1, m)
  {
    var r' := r + [Bucket(j, m[j])];
    assert r'[|r|].section == j;
    assert forall k :: 0 <= k < |r| ==> r'[k] == r[k];
  }

  lemma ListsNoneMore<T>(r: seq<Bucket<T>>, j: nat, m: map<nat, seq<T>>)
    requires ListsInOrder(r, j, m) && j !in m
    ensures ListsInOrder(r, j + 1, m)
  {
  }

  /** Iterates the TreeMap: one bucket per key, keys ascending. */
  method InIndexOrder<T>(n: nat, m: map<nat, seq<T>>) returns (r: seq<Bucket<T>>)
    ensures ListsInOrder(r, n, m)
  {
    r := [];
    var j := 0;
    while j < n
      invariant 0 <= j <= n
      invariant ListsInOrder(r, j, m)
    {
      if j in m {
        ListsOneMore(r, j, m);
        r := r + [Bucket(j, m[j])];
      } else {
        ListsNoneMore(r, j, m);
      }
      j := j + 1;
    }
  }

  /** An item that claims no section is in no bucket. */
  lemma UnclaimedInNoBucket<T(!new)>(r: seq<Bucket<T>>, n: nat, xs: seq<T>, claims: T -> seq<nat>, x: T)
    requires IsCollation(r, n, xs, claims)
    requires claims(x) == []
    ensures forall k :: 0 <= k < |r| ==> x !in r[k].items
  {
  }
}
