/**
 * The one collection behaviour the link discovery depends on: repeatedly
 * adding an item to a collection and calling unique() on it. unique()
 * without a key keeps the first of any equal items and preserves order,
 * so the collection built this way lists each distinct item once, in the
 * order it was first added.
 */
module Collections {

  /** No value occurs twice. */
  predicate NoDuplicates<T(==)>(s: seq<T>)
  {
    forall i, j :: 0 <= i < j < |s| ==> s[i] != s[j]
  }

  /** The collection obtained by add($x)->unique() for each x of xs in turn,
      starting from an empty collection. */
  function Unique<T(==)>(xs: seq<T>): seq<T>
    decreases |xs|
  {
    if |xs| == 0 then []
    else
      var u := Unique(xs[..|xs| - 1]);
      var x := xs[|xs| - 1];
      if x in u then u else u + [x]
  }

  /** The index of the first occurrence of x in xs. */
  function FirstIndex<T(==)>(xs: seq<T>, x: T): (i: nat)
    requires x in xs
    ensures i < |xs| && xs[i] == x && x !in xs[..i]
    decreases |xs|
  {
    if xs[0] == x then 0
    else
      var i' := FirstIndex(xs[1..], x);
      assert xs[..i' + 1] == [xs[0]] + xs[1..][..i'];
      i' + 1
  }

  /** Appending at the back does not move a first occurrence. */
  lemma {:induction false} FirstIndexAppend<T>(xs: seq<T>, y: T, x: T)
    requires x in xs
    ensures FirstIndex(xs + [y], x) == FirstIndex(xs, x)
    decreases |xs|
  {
    if xs[0] != x {
      assert (xs + [y])[1..] == xs[1..] + [y];
      assert x in xs[1..] by {
        assert xs == [xs[0]] + xs[1..];
      }
      FirstIndexAppend(xs[1..], y, x);
    }
  }

  /** Adding then de-duplicating keeps each distinct item exactly once, keeps
      exactly the items that were added, and orders them by first addition. */
  lemma {:induction false} UniqueSpec<T>(xs: seq<T>)
    ensures NoDuplicates(Unique(xs))
    ensures forall x :: x in Unique(xs) <==> x in xs
    ensures forall i, j :: 0 <= i < j < |Unique(xs)| ==>
      FirstIndex(xs, Unique(xs)[i]) < FirstIndex(xs, Unique(xs)[j])
    decreases |xs|
  {
    if |xs| > 0 {
      var ys := xs[..|xs| - 1];
      var x := xs[|xs| - 1];
      assert xs == ys + [x];
      UniqueSpec(ys);
      var u := Unique(ys);
      forall y | y in ys ensures FirstIndex(xs, y) == FirstIndex(ys, y) {
        FirstIndexAppend(ys, x, y);
      }
      if x !in u {
        assert x !in ys;
        assert FirstIndex(xs, x) == |ys| by {
          assert xs[..|ys|] == ys;
        }
        forall i, j | 0 <= i < j < |u| + 1
          ensures FirstIndex(xs, (u + [x])[i]) < FirstIndex(xs, (u + [x])[j])
        {
          if j == |u| {
            assert (u + [x])[i] == u[i] && u[i] in u;
          } else {
            assert (u + [x])[i] == u[i] && (u + [x])[j] == u[j];
          }
        }
      }
    }
  }

  /** array_unique($s) as unique() applies it to the items of a collection:
      an item is kept exactly when no equal item comes before it. */
  function ArrayUnique<T(==)>(s: seq<T>): seq<T>
    decreases |s|
  {
    if |s| == 0 then []
    else
      var last := s[|s| - 1];
      ArrayUnique(s[..|s| - 1]) + (if last in s[..|s| - 1] then [] else [last])
  }

  /** A sequence without duplicates is left as it is. */
  lemma {:induction false} ArrayUniqueOfDistinct<T>(s: seq<T>)
    requires NoDuplicates(s)
    ensures ArrayUnique(s) == s
    decreases |s|
  {
    if |s| > 0 {
      var init := s[..|s| - 1];
      var last := s[|s| - 1];
      assert NoDuplicates(init) by {
        forall i, j | 0 <= i < j < |init| ensures init[i] != init[j] {
          assert init[i] == s[i] && init[j] == s[j];
        }
      }
      ArrayUniqueOfDistinct(init);
      forall i | 0 <= i < |init| ensures init[i] != last {
        assert init[i] == s[i];
      }
      assert last !in init;
      assert s == init + [last];
    }
  }

  /** Appending one item to a sequence that array_unique leaves alone. */
  lemma ArrayUniqueAppend<T>(s: seq<T>, x: T)
    requires NoDuplicates(s)
    ensures ArrayUnique(s + [x]) == if x in s then s else s + [x]
  {
    assert (s + [x])[..|s|] == s;
    ArrayUniqueOfDistinct(s);
  }

  /** One step of the accumulation, $pages->add($x)->unique(): array_unique
      applied to the collection so far with x appended. */
  lemma UniqueStep<T>(xs: seq<T>, x: T)
    ensures Unique(xs + [x]) == ArrayUnique(Unique(xs) + [x])
  {
    UniqueSpec(xs);
    ArrayUniqueAppend(Unique(xs), x);
    assert (xs + [x])[..|xs|] == xs;
  }

  /** Calling unique() after every add gives the same collection as calling
      it once at the end. */
  lemma {:induction false} UniqueIsArrayUnique<T>(xs: seq<T>)
    ensures Unique(xs) == ArrayUnique(xs)
    decreases |xs|
  {
    if |xs| > 0 {
      var init := xs[..|xs| - 1];
      UniqueIsArrayUnique(init);
      UniqueSpec(init);
    }
  }
}
