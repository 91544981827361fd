/** Ordering of issues by title under String.CASE_INSENSITIVE_ORDER, as done by
    List.sort, which is stable. The comparator folds both titles to lower case
    (ASCII letters only in this model) and compares them character by
    character, a proper prefix ordering first. */
module TitleSort {
  import opened Strings

  /** Lexicographic order on strings by character code, a prefix first. */
  predicate LexLeq(a: string, b: string)
    decreases |a|
  {
    |a| == 0 || (|b| > 0 && (a[0] < b[0] || (a[0] == b[0] && LexLeq(a[1..], b[1..]))))
  }

  lemma {:induction false} LexLeqReflexive(a: string)
    ensures LexLeq(a, a)
    decreases |a|
  {
    if |a| > 0 {
      LexLeqReflexive(a[1..]);
    }
  }

  lemma {:induction false} LexLeqTotal(a: string, b: string)
    ensures LexLeq(a, b) || LexLeq(b, a)
    decreases |a|
  {
    if |a| > 0 && |b| > 0 && a[0] == b[0] {
      LexLeqTotal(a[1..], b[1..]);
    }
  }

  lemma {:induction false} LexLeqAntisymmetric(a: string, b: string)
    requires LexLeq(a, b) && LexLeq(b, a)
    ensures a == b
    decreases |a|
  {
    if |a| > 0 {
      LexLeqAntisymmetric(a[1..], b[1..]);
      assert a == [a[0]] + a[1..] && b == [b[0]] + b[1..];
    }
  }

  lemma {:induction false} LexLeqTransitive(a: string, b: string, c: string)
    requires LexLeq(a, b) && LexLeq(b, c)
    ensures LexLeq(a, c)
    decreases |a|
  {
    if |a| > 0 && a[0] == b[0] && b[0] == c[0] {
      LexLeqTransitive(a[1..], b[1..], c[1..]);
    }
  }

  /** String.CASE_INSENSITIVE_ORDER, as a "not after" relation. */
  predicate TitleLeq(a: string, b: string) {
    LexLeq(Lower(a), Lower(b))
  }

  /** Two titles the comparator ranks as equal. */
  predicate SameTitle(a: string, b: string) {
    Lower(a) == Lower(b)
  }

  lemma TitleOrderIsTotal(a: string, b: string)
    ensures TitleLeq(a, b) || TitleLeq(b, a)
    ensures TitleLeq(a, b) && TitleLeq(b, a) <==> SameTitle(a, b)
  {
    LexLeqTotal(Lower(a), Lower(b));
    if SameTitle(a, b) {
      LexLeqReflexive(Lower(a));
    }
    if TitleLeq(a, b) && TitleLeq(b, a) {
      LexLeqAntisymmetric(Lower(a), Lower(b));
    }
  }

  /** Adjacent items are in title order. */
  ghost predicate Sorted<T>(xs: seq<T>, title: T -> string) {
    forall i :: 0 < i < |xs| ==> TitleLeq(title(xs[i - 1]), title(xs[i]))
  }

  /** The items whose title the comparator ranks equal to `t`, in order. */
  function WithTitle<T>(xs: seq<T>, title: T -> string, t: string): (r: seq<T>)
    ensures |r| <= |xs|
    ensures forall k :: 0 <= k < |r| ==> SameTitle(title(r[k]), t)
  {
    if |xs| == 0 then []
    else (if SameTitle(title(xs[0]), t) then [xs[0]] else []) + WithTitle(xs[1..], title, t)
  }

  /** Places `x` in front of the first item that is not strictly before it. */
  function Insert<T>(x: T, xs: seq<T>, title: T -> string): (r: seq<T>)
    ensures |r| == |xs| + 1
  {
    if |xs| == 0 || TitleLeq(title(x), title(xs[0])) then [x] + xs
    else [xs[0]] + Insert(x, xs[1..], title)
  }

  /** The stable sort by title: the first item is inserted in front of all
      later items with the same title. */
  function SortByTitle<T>(xs: seq<T>, title: T -> string): (r: seq<T>)
    ensures |r| == |xs|
  {
    if |xs| == 0 then [] else Insert(xs[0], SortByTitle(xs[1..], title), title)
  }

  lemma {:induction false} InsertSorted<T>(x: T, xs: seq<T>, title: T -> string)
    requires Sorted(xs, title)
    ensures Sorted(Insert(x, xs, title), title)
    ensures |xs| > 0 ==> Insert(x, xs, title)[0] == x || Insert(x, xs, title)[0] == xs[0]
    decreases |xs|
  {
    if |xs| == 0 || TitleLeq(title(x), title(xs[0])) {
    } else {
      TitleOrderIsTotal(title(x), title(xs[0]));
      InsertSorted(x, xs[1..], title);
      var r := Insert(x, xs, title);
      assert r == [xs[0]] + Insert(x, xs[1..], title);
    }
  }

  lemma {:induction false} InsertPermutes<T>(x: T, xs: seq<T>, title: T -> string)
    ensures multiset(Insert(x, xs, title)) == multiset([x] + xs)
    decreases |xs|
  {
    if |xs| > 0 && !TitleLeq(title(x), title(xs[0])) {
      InsertPermutes(x, xs[1..], title);
      assert xs == [xs[0]] + xs[1..];
    }
  }

  lemma {:induction false} WithTitleAppend<T>(a: seq<T>, b: seq<T>, title: T -> string, t: string)
    ensures WithTitle(a + b, title, t) == WithTitle(a, title, t) + WithTitle(b, title, t)
    decreases |a|
  {
    if |a| == 0 {
      assert a + b == b;
    } else {
      assert (a + b)[1..] == a[1..] + b;
      WithTitleAppend(a[1..], b, title, t);
    }
  }

  /** The first item is kept exactly when its title is `t`. */
  lemma WithTitleCons<T>(y: T, ys: seq<T>, title: T -> string, t: string)
    ensures WithTitle([y] + ys, title, t) == (if SameTitle(title(y), t) then [y] else []) + WithTitle(ys, title, t)
  {
    assert ([y] + ys)[0] == y && ([y] + ys)[1..] == ys;
  }

  /** Inserting keeps, for every title, the relative order of the items with
      that title: `x` only passes items that are strictly before it. */
  lemma {:induction false} InsertStable<T>(x: T, xs: seq<T>, title: T -> string, t: string)
    ensures WithTitle(Insert(x, xs, title), title, t) == WithTitle([x] + xs, title, t)
    decreases |xs|
  {
    if |xs| > 0 && !TitleLeq(title(x), title(xs[0])) {
      var y, ys := xs[0], xs[1..];
      assert xs == [y] + ys;
      assert Insert(x, xs, title) == [y] + Insert(x, ys, title);
      InsertStable(x, ys, title, t);
      WithTitleCons(y, Insert(x, ys, title), title, t);
      WithTitleCons(x, ys, title, t);
      WithTitleCons(x, xs, title, t);
      WithTitleCons(y, ys, title, t);
      TitleOrderIsTotal(title(x), title(y));
      assert !(SameTitle(title(x), t) && SameTitle(title(y), t));
    }
  }

  /** The sort yields a permutation of its input in title order in which
      items with equal titles keep their input order. */
  lemma {:induction false} SortByTitleSpec<T>(xs: seq<T>, title: T -> string)
    ensures Sorted(SortByTitle(xs, title), title)
    ensures multiset(SortByTitle(xs, title)) == multiset(xs)
    ensures forall t :: WithTitle(SortByTitle(xs, title), title, t) == WithTitle(xs, title, t)
    decreases |xs|
  {
    if |xs| > 0 {
      var rest := SortByTitle(xs[1..], title);
      SortByTitleSpec(xs[1..], title);
      InsertSorted(xs[0], rest, title);
      InsertPermutes(xs[0], rest, title);
      assert xs == [xs[0]] + xs[1..];
      forall t ensures WithTitle(SortByTitle(xs, title), title, t) == WithTitle(xs, title, t) {
        InsertStable(xs[0], rest, title, t);
        WithTitleAppend([xs[0]], rest, title, t);
        WithTitleAppend([xs[0]], xs[1..], title, t);
      }
    }
  }

  /** In a sorted sequence every item is in title order with every later one. */
  lemma {:induction false} SortedIsPairwise<T>(xs: seq<T>, title: T -> string, i: int, j: int)
    requires Sorted(xs, title) && 0 <= i <= j < |xs|
    ensures TitleLeq(title(xs[i]), title(xs[j]))
    decreases j - i
  {
    if i == j {
      LexLeqReflexive(Lower(title(xs[i])));
    } else {
      SortedIsPairwise(xs, title, i, j - 1);
      LexLeqTransitive(Lower(title(xs[i])), Lower(title(xs[j - 1])), Lower(title(xs[j])));
    }
  }
}
