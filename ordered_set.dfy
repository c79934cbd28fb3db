/** The listener set of one action key. A JavaScript `Set` iterates in
    insertion order, so it is modelled as a sequence in which no element
    occurs twice; the sequence is the order `Array.from` produces. */
module OrderedSet {

  /** No element occurs twice. */
  ghost predicate NoDuplicates<T>(s: seq<T>)
  {
    forall i, j :: 0 <= i < j < |s| ==> s[i] != s[j]
  }

  /** A set without its last element is a set that does not hold it. */
  lemma NoDuplicatesInit<T>(s: seq<T>)
    requires NoDuplicates(s) && s != []
    ensures NoDuplicates(s[..|s| - 1]) && s[|s| - 1] !in s[..|s| - 1]
  {
    var init, last := s[..|s| - 1], s[|s| - 1];
    forall i | 0 <= i < |init| ensures init[i] != last {
      assert s[i] == init[i];
    }
  }

  /** `Set.prototype.add`. */
  function Insert<T(==)>(s: seq<T>, x: T): seq<T>
  {
    if x in s then s else s + [x]
  }

  /** The elements of s that are not in xs, in the order of s. */
  function Without<T(==)>(s: seq<T>, xs: set<T>): seq<T>
    decreases |s|
  {
    if s == [] then []
    else if s[|s| - 1] in xs then Without(s[..|s| - 1], xs)
    else Without(s[..|s| - 1], xs) + [s[|s| - 1]]
  }

  /** `Set.prototype.delete`. */
  function Delete<T(==)>(s: seq<T>, x: T): seq<T>
  {
    Without(s, {x})
  }

  /** Adding x to a set gives a set holding x and the old elements and
      nothing else; an element already present is not added again, so the
      size grows by one exactly when x is new; the old elements keep their
      places and a new element goes last. */
  lemma InsertSpec<T>(s: seq<T>, x: T)
    ensures x in Insert(s, x) && forall y :: y in s ==> y in Insert(s, x)
    ensures forall y :: y in Insert(s, x) ==> y in s || y == x
    ensures |Insert(s, x)| == if x in s then |s| else |s| + 1
    ensures Insert(s, x)[..|s|] == s
    ensures NoDuplicates(s) ==> NoDuplicates(Insert(s, x))
  {
    if x !in s {
      assert (s + [x])[..|s|] == s;
    }
  }

  /** Removal keeps exactly the elements that are not removed, never makes
      the sequence longer, and keeps a set a set. */
  lemma {:induction false} WithoutSpec<T>(s: seq<T>, xs: set<T>)
    ensures forall y :: y in Without(s, xs) ==> y in s && y !in xs
    ensures forall y :: y in s && y !in xs ==> y in Without(s, xs)
    ensures |Without(s, xs)| <= |s|
    ensures NoDuplicates(s) ==> NoDuplicates(Without(s, xs))
  {
    WithoutMembers(s, xs);
    if NoDuplicates(s) {
      WithoutKeepsSet(s, xs);
    }
  }

  lemma {:induction false} WithoutMembers<T>(s: seq<T>, xs: set<T>)
    ensures forall y :: y in Without(s, xs) ==> y in s && y !in xs
    ensures forall y :: y in s && y !in xs ==> y in Without(s, xs)
    ensures |Without(s, xs)| <= |s|
    decreases |s|
  {
    if s != [] {
      var init, last := s[..|s| - 1], s[|s| - 1];
      WithoutMembers(init, xs);
      assert s == init + [last];
      assert forall y :: y in s <==> y in init || y == last;
    }
  }

  lemma {:induction false} WithoutKeepsSet<T>(s: seq<T>, xs: set<T>)
    requires NoDuplicates(s)
    ensures NoDuplicates(Without(s, xs))
    decreases |s|
  {
    if s != [] {
      var init, last := s[..|s| - 1], s[|s| - 1];
      NoDuplicatesInit(s);
      WithoutKeepsSet(init, xs);
      if last !in xs {
        WithoutMembers(init, xs);
        var w := Without(init, xs);
        assert last !in w;
        assert Without(s, xs) == w + [last];
      }
    }
  }

  /** Deleting x from a set leaves a set holding the other elements, and
      nothing else. */
  lemma DeleteSpec<T>(s: seq<T>, x: T)
    ensures x !in Delete(s, x) && forall y :: y in Delete(s, x) ==> y in s
    ensures forall y :: y in s && y != x ==> y in Delete(s, x)
    ensures NoDuplicates(s) ==> NoDuplicates(Delete(s, x))
  {
    WithoutSpec(s, {x});
  }

  /** Deleting the element at position i of a set cuts exactly that
      position out: the other elements keep their relative order, so the
      insertion order that dispatch follows survives `Set.prototype.delete`. */
  lemma DeleteAt<T>(s: seq<T>, i: nat)
    requires NoDuplicates(s) && i < |s|
    ensures Delete(s, s[i]) == s[..i] + s[i + 1..]
  {
    var x, before, after := s[i], s[..i], s[i + 1..];
    assert s == before + [x] + after;
    assert forall y :: y in before ==> y !in {x} by {
      forall j | 0 <= j < |before| ensures before[j] != x {
        assert before[j] == s[j];
      }
    }
    assert forall y :: y in after ==> y !in {x} by {
      forall j | 0 <= j < |after| ensures after[j] != x {
        assert after[j] == s[i + 1 + j];
      }
    }
    WithoutAppend(before + [x], after, {x});
    WithoutAppend(before, [x], {x});
    assert [x][..0] == [];
    WithoutDisjoint(before, {x});
    WithoutDisjoint(after, {x});
  }

  /** Removing elements none of which occurs keeps the sequence as it is. */
  lemma {:induction false} WithoutDisjoint<T>(s: seq<T>, xs: set<T>)
    requires forall y :: y in s ==> y !in xs
    ensures Without(s, xs) == s
    decreases |s|
  {
    if s != [] {
      var init, last := s[..|s| - 1], s[|s| - 1];
      assert last in s && last !in xs;
      assert forall y :: y in init ==> y in s;
      WithoutDisjoint(init, xs);
      assert init + [last] == s;
    }
  }

  /** Removing a superset of the elements leaves nothing. */
  lemma {:induction false} WithoutAll<T>(s: seq<T>, xs: set<T>)
    requires forall y :: y in s ==> y in xs
    ensures Without(s, xs) == []
    decreases |s|
  {
    if s != [] {
      WithoutAll(s[..|s| - 1], xs);
    }
  }

  /** Removal distributes over concatenation. */
  lemma {:induction false} WithoutAppend<T>(s: seq<T>, t: seq<T>, xs: set<T>)
    ensures Without(s + t, xs) == Without(s, xs) + Without(t, xs)
    decreases |t|
  {
    if t == [] {
      assert s + t == s;
    } else {
      var n := |t| - 1;
      assert (s + t)[..|s + t| - 1] == s + t[..n];
      assert (s + t)[|s + t| - 1] == t[n];
      WithoutAppend(s, t[..n], xs);
    }
  }

  /** Two removals in a row are one removal of both sets. */
  lemma {:induction false} WithoutTwice<T>(s: seq<T>, xs: set<T>, ys: set<T>)
    ensures Without(Without(s, xs), ys) == Without(s, xs + ys)
    decreases |s|
  {
    if s != [] {
      var init, last := s[..|s| - 1], s[|s| - 1];
      WithoutTwice(init, xs, ys);
      if last !in xs {
        WithoutAppend(Without(init, xs), [last], ys);
        assert [last][..0] == [];
      }
    }
  }

  /** In a set, delete removes exactly one element when x is present; so
      the size goes down by one, as `Set.prototype.size` does. */
  lemma {:induction false} DeleteSize<T>(s: seq<T>, x: T)
    requires NoDuplicates(s)
    ensures |Delete(s, x)| == if x in s then |s| - 1 else |s|
    decreases |s|
  {
    if s == [] {
    } else {
      var init, last := s[..|s| - 1], s[|s| - 1];
      NoDuplicatesInit(s);
      DeleteSize(init, x);
      if last == x {
        WithoutDisjoint(init, {x});
      } else {
        assert x in s <==> x in init;
      }
    }
  }
}
