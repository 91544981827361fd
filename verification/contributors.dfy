/** The contributors of a release: the authors of its pull requests, each
    listed once. The generators collect them into a HashSet, whose equality
    decides what "once" means (the login alone, or login and URL) and whose
    iteration order is unspecified; here the first occurrence is kept. */
module Contributors {
  import opened Wrappers
  import opened Payload

  /** The items whose key is not in `seen`, each key kept at its first
      occurrence: a hash set under the equality `key` induces, in the
      insertion order a LinkedHashSet keeps. */
  function DistinctFrom<T, K(==)>(users: seq<T>, key: T -> K, seen: set<K>): (r: seq<T>)
    ensures forall u :: u in r ==> u in users && key(u) !in seen
    ensures forall i, j :: 0 <= i < j < |r| ==> key(r[i]) != key(r[j])
  {
    if |users| == 0 then []
    else if key(users[0]) in seen then DistinctFrom(users[1..], key, seen)
    else [users[0]] + DistinctFrom(users[1..], key, seen + {key(users[0])})
  }

  /** Collectors.toSet under the equality given by `key`. */
  function Distinct<T, K(==)>(users: seq<T>, key: T -> K): seq<T> {
    DistinctFrom(users, key, {})
  }

  /** Nothing is lost: every user's key not yet seen is represented. */
  lemma {:induction false} DistinctFromCovers<T, K>(users: seq<T>, key: T -> K, seen: set<K>, u: T)
    requires u in users && key(u) !in seen
    ensures exists v :: v in DistinctFrom(users, key, seen) && key(v) == key(u)
    decreases |users|
  {
    var r := DistinctFrom(users, key, seen);
    if users[0] == u {
      assert r[0] == u;
    } else if key(users[0]) in seen {
      DistinctFromCovers(users[1..], key, seen, u);
    } else if key(users[0]) == key(u) {
      assert r[0] == users[0];
    } else {
      DistinctFromCovers(users[1..], key, seen + {key(users[0])}, u);
      var v :| v in DistinctFrom(users[1..], key, seen + {key(users[0])}) && key(v) == key(u);
      assert v in r;
    }
  }

  /** The distinct users stand for exactly the keys of all users, each once. */
  lemma DistinctSpec<T, K>(users: seq<T>, key: T -> K)
    ensures forall u :: u in Distinct(users, key) ==> u in users
    ensures forall u :: u in users ==> exists v :: v in Distinct(users, key) && key(v) == key(u)
    ensures forall i, j :: 0 <= i < j < |Distinct(users, key)| ==>
              key(Distinct(users, key)[i]) != key(Distinct(users, key)[j])
  {
    forall u | u in users
      ensures exists v :: v in Distinct(users, key) && key(v) == key(u)
    {
      DistinctFromCovers(users, key, {}, u);
    }
  }

  /** A list whose keys are already distinct comes back unchanged. */
  lemma {:induction false} DistinctFromKeepsDistinct<T, K>(users: seq<T>, key: T -> K, seen: set<K>)
    requires forall i, j :: 0 <= i < j < |users| ==> key(users[i]) != key(users[j])
    requires forall i :: 0 <= i < |users| ==> key(users[i]) !in seen
    ensures DistinctFrom(users, key, seen) == users
    decreases |users|
  {
    if |users| > 0 {
      var rest := users[1..];
      assert forall i :: 0 <= i < |rest| ==> rest[i] == users[i + 1];
      DistinctFromKeepsDistinct(rest, key, seen + {key(users[0])});
    }
  }

  /** Collecting into a set twice is collecting once. */
  lemma DistinctIsIdempotent<T, K>(users: seq<T>, key: T -> K)
    ensures Distinct(Distinct(users, key), key) == Distinct(users, key)
  {
    DistinctFromKeepsDistinct(Distinct(users, key), key, {});
  }

  /** The authors of the pull requests among `issues`, in order, one per pull
      request. A pull request without a user fails with its number: the
      generators dereference the user when they format or filter it. */
  function PullRequestAuthors(issues: seq<Issue>): (r: Result<seq<User>, string>)
    ensures r.Failure? <==> exists i :: 0 <= i < |issues| && issues[i].pullRequest && issues[i].user.None?
    ensures r.Success? ==> forall u :: u in r.value <==>
              exists i :: 0 <= i < |issues| && issues[i].pullRequest && issues[i].user == Some(u)
    ensures (forall i :: 0 <= i < |issues| ==> !issues[i].pullRequest) ==> r == Success([])
  {
    if |issues| == 0 then Success([])
    else
      var x := issues[0];
      var rest := PullRequestAuthors(issues[1..]);
      assert forall i :: 1 <= i < |issues| ==> issues[i] == issues[1..][i - 1];
      if !x.pullRequest then rest
      else if x.user.None? then Failure(x.number)
      else match rest
        case Failure(e) => Failure(e)
        case Success(us) => Success([x.user.value] + us)
  }
}
