/** Sorting a stream stably by a small key and grouping it: the shape of
    `filter(key != null).sorted(comparing(key)).collect(groupingBy(key,
    LinkedHashMap::new, toList()))`, with keys numbered in their order. */
module SortGroup {
  import opened Wrappers
  import Collation

  /** The collation claim of an item: its key, or nothing without one. */
  function KeyClaims<T>(key: T -> Option<nat>): T -> seq<nat> {
    x => if key(x).Some? then [key(x).value] else []
  }

  /** An item claims exactly its key. */
  lemma KeyClaimed<T>(key: T -> Option<nat>, x: T, j: nat)
    ensures j in KeyClaims(key)(x) <==> key(x) == Some(j)
  {
  }

  /** The key of an item known to have one. */
  function Rank<T>(key: T -> Option<nat>, x: T): nat {
    key(x).GetOr(0)
  }

  /** The filtered, stably sorted stream from key `from` up to `n`: the
      items of each key, key by key, each in input order. */
  function ByKey<T(==,!new)>(xs: seq<T>, key: T -> Option<nat>, n: nat, from: nat): seq<T>
    decreases n - from
  {
    if from >= n then []
    else Collation.Claimants(xs, KeyClaims(key), from) + ByKey(xs, key, n, from + 1)
  }

  /** Adjacent items are in key order. */
  ghost predicate SortedByKey<T>(xs: seq<T>, key: T -> Option<nat>) {
    forall i :: 0 < i < |xs| ==> Rank(key, xs[i - 1]) <= Rank(key, xs[i])
  }

  /** The items collected for key `j` have key `j`. */
  lemma ClaimantsHaveKey<T(!new)>(xs: seq<T>, key: T -> Option<nat>, j: nat)
    ensures forall x :: x in Collation.Claimants(xs, KeyClaims(key), j) ==> key(x) == Some(j)
  {
  }

  /** The stream from `from` holds no item of an earlier key. */
  lemma NoEarlierKey<T(!new)>(xs: seq<T>, key: T -> Option<nat>, n: nat, from: nat, j: nat)
    requires j < from
    ensures Collation.Claimants(ByKey(xs, key, n, from), KeyClaims(key), j) == []
  {
    ByKeyMembers(xs, key, n, from);
    Collation.ClaimantsNone(ByKey(xs, key, n, from), KeyClaims(key), j);
  }

  lemma ByKeyUnfold<T(!new)>(xs: seq<T>, key: T -> Option<nat>, n: nat, from: nat)
    requires from < n
    ensures ByKey(xs, key, n, from) == Collation.Claimants(xs, KeyClaims(key), from) + ByKey(xs, key, n, from + 1)
  {
  }

  /** ClaimantsAppend with both halves named. */
  lemma SplitClaimants<T(!new)>(a: seq<T>, b: seq<T>, claims: T -> seq<nat>, j: nat, ca: seq<T>, cb: seq<T>)
    requires Collation.Claimants(a, claims, j) == ca && Collation.Claimants(b, claims, j) == cb
    ensures Collation.Claimants(a + b, claims, j) == ca + cb
  {
    Collation.ClaimantsAppend(a, b, claims, j);
  }

  /** Everything in the stream comes from the input and has a key from `from` on. */
  lemma {:induction false} ByKeyMembers<T(!new)>(xs: seq<T>, key: T -> Option<nat>, n: nat, from: nat)
    ensures forall x :: x in ByKey(xs, key, n, from) ==> x in xs && key(x).Some? && from <= key(x).value < n
    decreases n - from
  {
    if from < n {
      ByKeyMembers(xs, key, n, from + 1);
      ClaimantsHaveKey(xs, key, from);
    }
  }

  /** The stream is in key order. */
  lemma {:induction false} ByKeySorted<T(!new)>(xs: seq<T>, key: T -> Option<nat>, n: nat, from: nat)
    ensures SortedByKey(ByKey(xs, key, n, from), key)
    decreases n - from
  {
    if from < n {
      var block := Collation.Claimants(xs, KeyClaims(key), from);
      var rest := ByKey(xs, key, n, from + 1);
      ByKeySorted(xs, key, n, from + 1);
      ByKeyMembers(xs, key, n, from + 1);
      ClaimantsHaveKey(xs, key, from);
      var all := block + rest;
      assert all == ByKey(xs, key, n, from);
      forall i | 0 < i < |all|
        ensures Rank(key, all[i - 1]) <= Rank(key, all[i])
      {
        if i < |block| {
          assert all[i - 1] in block && all[i] in block;
        } else if i == |block| {
          assert all[i - 1] in block && all[i] == rest[0] && rest[0] in rest;
        } else {
          assert all[i - 1] == rest[i - 1 - |block|] && all[i] == rest[i - |block|];
        }
      }
    }
  }

  /** Stability: for every key below `n` the stream holds the input's items
      of that key in input order. */
  lemma {:induction false} ByKeyStable<T(!new)>(xs: seq<T>, key: T -> Option<nat>, n: nat, from: nat, j: nat)
    requires from <= j < n
    ensures Collation.Claimants(ByKey(xs, key, n, from), KeyClaims(key), j) == Collation.Claimants(xs, KeyClaims(key), j)
    decreases n - from
  {
    if j == from {
      ByKeyStableFirst(xs, key, n, from);
    } else {
      ByKeyUnfold(xs, key, n, from);
      ByKeyStable(xs, key, n, from + 1, j);
      StableLater(xs, ByKey(xs, key, n, from + 1), key, from, j);
    }
  }

  /** Stability for the first key of the stream. */
  lemma ByKeyStableFirst<T(!new)>(xs: seq<T>, key: T -> Option<nat>, n: nat, from: nat)
    requires from < n
    ensures Collation.Claimants(ByKey(xs, key, n, from), KeyClaims(key), from) == Collation.Claimants(xs, KeyClaims(key), from)
  {
    ByKeyUnfold(xs, key, n, from);
    NoEarlierKey(xs, key, n, from + 1, from);
    StableHere(xs, ByKey(xs, key, n, from + 1), key, from);
  }

  /** The block of key `j` in front of a stream without key `j` is all of key `j`. */
  lemma StableHere<T(!new)>(xs: seq<T>, rest: seq<T>, key: T -> Option<nat>, j: nat)
    requires Collation.Claimants(rest, KeyClaims(key), j) == []
    ensures Collation.Claimants(Collation.Claimants(xs, KeyClaims(key), j) + rest, KeyClaims(key), j)
            == Collation.Claimants(xs, KeyClaims(key), j)
  {
    var block := Collation.Claimants(xs, KeyClaims(key), j);
    ClaimantsHaveKey(xs, key, j);
    Collation.ClaimantsAll(block, KeyClaims(key), j);
    SplitClaimants(block, rest, KeyClaims(key), j, block, []);
  }

  /** A block of another key in front of the stream adds nothing of key `j`. */
  lemma StableLater<T(!new)>(xs: seq<T>, rest: seq<T>, key: T -> Option<nat>, from: nat, j: nat)
    requires from != j
    ensures Collation.Claimants(Collation.Claimants(xs, KeyClaims(key), from) + rest, KeyClaims(key), j)
            == Collation.Claimants(rest, KeyClaims(key), j)
  {
    var block := Collation.Claimants(xs, KeyClaims(key), from);
    BlockHasNoOtherKey(block, xs, key, from, j);
    SplitClaimants(block, rest, KeyClaims(key), j, [], Collation.Claimants(rest, KeyClaims(key), j));
  }

  lemma BlockHasNoOtherKey<T(!new)>(block: seq<T>, xs: seq<T>, key: T -> Option<nat>, from: nat, j: nat)
    requires from != j && block == Collation.Claimants(xs, KeyClaims(key), from)
    ensures Collation.Claimants(block, KeyClaims(key), j) == []
  {
    ClaimantsHaveKey(xs, key, from);
    Collation.ClaimantsNone(block, KeyClaims(key), j);
  }

  /** groupingBy into a LinkedHashMap over a key-sorted stream: the runs of
      equal key, in stream order. */
  function GroupRuns<T>(xs: seq<T>, key: T -> Option<nat>): (r: seq<Collation.Bucket<T>>)
    ensures |r| == 0 <==> |xs| == 0
    ensures |r| > 0 ==> r[0].section == Rank(key, xs[0])
  {
    if |xs| == 0 then []
    else
      var k := Rank(key, xs[0]);
      var rest := GroupRuns(xs[1..], key);
      if |rest| > 0 && rest[0].section == k then
        [Collation.Bucket(k, [xs[0]] + rest[0].items)] + rest[1..]
      else
        [Collation.Bucket(k, [xs[0]])] + rest
  }

  /** A non-empty run of key `j` in front of a stream that starts with
      another key becomes one group in front of that stream's groups. */
  lemma {:induction false} GroupRunsPrependRun<T>(block: seq<T>, rest: seq<T>, key: T -> Option<nat>, j: nat)
    requires |block| > 0 && forall k :: 0 <= k < |block| ==> Rank(key, block[k]) == j
    requires |rest| > 0 ==> Rank(key, rest[0]) != j
    ensures GroupRuns(block + rest, key) == [Collation.Bucket(j, block)] + GroupRuns(rest, key)
    decreases |block|
  {
    var xs := block + rest;
    assert xs[0] == block[0];
    if |block| == 1 {
      assert xs[1..] == rest;
      assert [xs[0]] == block;
    } else {
      assert xs[1..] == block[1..] + rest;
      GroupRunsPrependRun(block[1..], rest, key, j);
      assert [block[0]] + block[1..] == block;
    }
  }

  /** The groups of the sorted stream are the collation of the input by key. */
  lemma {:induction false} GroupsAreCollation<T(!new)>(xs: seq<T>, key: T -> Option<nat>, n: nat, from: nat)
    ensures GroupRuns(ByKey(xs, key, n, from), key) == Collation.BucketsFrom(n, xs, KeyClaims(key), from)
    decreases n - from
  {
    if from < n {
      var block := Collation.Claimants(xs, KeyClaims(key), from);
      var rest := ByKey(xs, key, n, from + 1);
      GroupsAreCollation(xs, key, n, from + 1);
      assert ByKey(xs, key, n, from) == block + rest;
      if block == [] {
        assert block + rest == rest;
      } else {
        ClaimantsHaveKey(xs, key, from);
        assert forall k :: 0 <= k < |block| ==> block[k] in block;
        if |rest| > 0 {
          ByKeyMembers(xs, key, n, from + 1);
          assert rest[0] in rest;
        }
        GroupRunsPrependRun(block, rest, key, from);
      }
    }
  }

  /** The whole pipeline: filter out the items without a key, sort stably by
      key, group into runs. The result is the collation of the input by key,
      so every group holds exactly the input's items of its key, in input order. */
  function SortAndGroup<T(==,!new)>(xs: seq<T>, key: T -> Option<nat>, n: nat): (r: seq<Collation.Bucket<T>>)
    ensures Collation.IsCollation(r, n, xs, KeyClaims(key))
  {
    GroupsAreCollation(xs, key, n, 0);
    Collation.BucketsFromMeetsSpec(n, xs, KeyClaims(key), 0);
    GroupRuns(ByKey(xs, key, n, 0), key)
  }
}
