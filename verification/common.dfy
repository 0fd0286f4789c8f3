/** Small value types and list helpers shared by the front-end modules. */
module Common {

  /** A possibly absent value: NULL in the front-end's C records. */
  datatype Option<+T> = None | Some(value: T)

  /** True when no element occurs twice. */
  ghost predicate Distinct<T>(xs: seq<T>) {
    forall i, j :: 0 <= i < j < |xs| ==> xs[i] != xs[j]
  }

  /** A list with its first occurrence of `x` taken out, as GLib's
      list-remove does; a list without `x` comes back unchanged. */
  function Remove<T(==)>(xs: seq<T>, x: T): (r: seq<T>)
    ensures x !in xs ==> r == xs
    ensures x in xs ==> |r| == |xs| - 1
    ensures forall y :: y in r ==> y in xs
  {
    if xs == [] then []
    else if xs[0] == x then xs[1..] else [xs[0]] + Remove(xs[1..], x)
  }

  /** Removing takes out one copy of `x` when there is one, and nothing
      else. */
  lemma {:induction false} RemoveMultiset<T>(xs: seq<T>, x: T)
    ensures multiset(Remove(xs, x)) == if x in xs then multiset(xs) - multiset{x} else multiset(xs)
  {
    if xs != [] {
      assert xs == [xs[0]] + xs[1..];
      if xs[0] != x {
        RemoveMultiset(xs[1..], x);
      }
    }
  }

  /** Removing `x` keeps every other element. */
  lemma {:induction false} RemoveKeeps<T>(xs: seq<T>, x: T, y: T)
    requires y in xs && y != x
    ensures y in Remove(xs, x)
  {
    if xs[0] != y && xs[0] != x {
      RemoveKeeps(xs[1..], x, y);
    }
  }

  /** The tail of a list without repetitions has none either, and does
      not contain the head. */
  lemma DistinctTail<T>(xs: seq<T>)
    requires xs != [] && Distinct(xs)
    ensures Distinct(xs[1..]) && xs[0] !in xs[1..]
  {
    forall i, j | 0 <= i < j < |xs[1..]| ensures xs[1..][i] != xs[1..][j] {
      assert xs[1..][i] == xs[i + 1] && xs[1..][j] == xs[j + 1];
    }
    forall k | 0 <= k < |xs[1..]| ensures xs[1..][k] != xs[0] {
      assert xs[1..][k] == xs[k + 1];
    }
  }

  /** Removing an element from a list without repetitions leaves a list
      without repetitions and without any copy of the element. */
  lemma {:induction false} RemoveDistinct<T>(xs: seq<T>, x: T)
    requires Distinct(xs)
    ensures Distinct(Remove(xs, x))
    ensures x !in Remove(xs, x)
  {
    if xs == [] {
    } else if xs[0] == x {
      DistinctTail(xs);
    } else {
      DistinctTail(xs);
      RemoveDistinct(xs[1..], x);
      var r := Remove(xs[1..], x);
      assert xs[0] !in r;
      PrependDistinct(xs[0], r);
    }
  }

  /** Putting a new element in front keeps a list free of repetitions. */
  lemma PrependDistinct<T>(y: T, r: seq<T>)
    requires Distinct(r) && y !in r
    ensures Distinct([y] + r)
  {
    forall i, j | 0 <= i < j < |[y] + r| ensures ([y] + r)[i] != ([y] + r)[j] {
      assert ([y] + r)[j] == r[j - 1];
      if i > 0 {
        assert ([y] + r)[i] == r[i - 1];
      }
    }
  }

  /** The list read from its last element to its first. */
  function Reversed<T>(xs: seq<T>): (r: seq<T>)
    ensures |r| == |xs|
  {
    if xs == [] then [] else [xs[|xs| - 1]] + Reversed(xs[..|xs| - 1])
  }

  /** Element `k` of the reversed list is element `|xs| - 1 - k` of the list. */
  lemma {:induction false} ReversedIndex<T>(xs: seq<T>, k: nat)
    requires k < |xs|
    ensures Reversed(xs)[k] == xs[|xs| - 1 - k]
  {
    if k > 0 {
      ReversedIndex(xs[..|xs| - 1], k - 1);
    }
  }

  /** Reversal keeps every element and its number of occurrences. */
  lemma {:induction false} ReversedMultiset<T>(xs: seq<T>)
    ensures multiset(Reversed(xs)) == multiset(xs)
  {
    if xs != [] {
      ReversedMultiset(xs[..|xs| - 1]);
      assert xs == xs[..|xs| - 1] + [xs[|xs| - 1]];
    }
  }

  /** Reversing a list with one more element in front puts that element last. */
  lemma {:induction false} ReversedCons<T>(y: T, xs: seq<T>)
    ensures Reversed([y] + xs) == Reversed(xs) + [y]
  {
    if xs != [] {
      var init := xs[..|xs| - 1];
      ReversedCons(y, init);
      assert ([y] + xs)[..|[y] + xs| - 1] == [y] + init;
    }
  }

  /** The list with every occurrence of `x` dropped, other elements in order. */
  function Without<T(==)>(xs: seq<T>, x: T): (r: seq<T>)
    ensures x !in r
  {
    if xs == [] then []
    else Without(xs[..|xs| - 1], x) + (if xs[|xs| - 1] == x then [] else [xs[|xs| - 1]])
  }

  /** Dropping an element from a one-element list. */
  lemma WithoutSingleton<T>(v: T, x: T)
    ensures Without([v], x) == if v == x then [] else [v]
  {
    assert [v][..0] == [];
  }

  /** Dropping an element from a concatenation drops it from both parts. */
  lemma {:induction false} WithoutAppend<T>(a: seq<T>, b: seq<T>, x: T)
    ensures Without(a + b, x) == Without(a, x) + Without(b, x)
    decreases |b|
  {
    if b == [] {
      assert a + b == a;
    } else {
      var init := b[..|b| - 1];
      WithoutAppend(a, init, x);
      assert (a + b)[..|a + b| - 1] == a + init;
    }
  }

  /** Dropping an element that does not occur changes nothing. */
  lemma {:induction false} WithoutAbsent<T>(xs: seq<T>, x: T)
    requires x !in xs
    ensures Without(xs, x) == xs
  {
    if xs != [] {
      WithoutAbsent(xs[..|xs| - 1], x);
      assert xs == xs[..|xs| - 1] + [xs[|xs| - 1]];
    }
  }

  /** In a list without repetitions, removing the first occurrence is the
      same as dropping every occurrence. */
  lemma {:induction false} RemoveIsWithout<T>(xs: seq<T>, x: T)
    requires Distinct(xs)
    ensures Remove(xs, x) == Without(xs, x)
  {
    if xs != [] {
      DistinctTail(xs);
      assert xs == [xs[0]] + xs[1..];
      WithoutAppend([xs[0]], xs[1..], x);
      WithoutSingleton(xs[0], x);
      if xs[0] == x {
        WithoutAbsent(xs[1..], x);
      } else {
        RemoveIsWithout(xs[1..], x);
      }
    }
  }

  /** Dropping an element commutes with reversal. */
  lemma {:induction false} ReversedWithout<T>(xs: seq<T>, x: T)
    ensures Reversed(Without(xs, x)) == Without(Reversed(xs), x)
  {
    if xs != [] {
      var init, last := xs[..|xs| - 1], xs[|xs| - 1];
      ReversedWithout(init, x);
      WithoutAppend([last], Reversed(init), x);
      WithoutSingleton(last, x);
      var w := Without(init, x);
      assert Reversed(xs) == [last] + Reversed(init);
      if last != x {
        assert Without(xs, x) == w + [last];
        assert (w + [last])[..|w + [last]| - 1] == w;
        assert Reversed(w + [last]) == [last] + Reversed(w);
      } else {
        assert Without(xs, x) == w;
      }
    }
  }
}
