/**
 * A stable sort driven by a JS-style comparator (negative: first argument
 * goes first; zero: a tie; positive: second argument goes first), with its
 * laws under the "consistent comparator" conditions of ECMA-262
 * `Array.prototype.sort`: sign symmetry, reflexive ties and transitivity.
 */
module StableSort {
  import opened Seqs

  /** Puts `x` after every element of the sorted `s` it does not strictly precede. */
  function Insert<T>(x: T, s: seq<T>, cmp: (T, T) -> int): seq<T>
  {
    if s == [] then [x]
    else if cmp(x, s[0]) < 0 then [x] + s
    else [s[0]] + Insert(x, s[1..], cmp)
  }

  /** Inserts the elements one by one, in input order: a stable insertion sort. */
  function SortWith<T>(s: seq<T>, cmp: (T, T) -> int): seq<T>
  {
    if s == [] then []
    else Insert(s[|s| - 1], SortWith(s[..|s| - 1], cmp), cmp)
  }

  /** Inserting adds exactly `x`. */
  lemma {:induction false} InsertPermutation<T>(x: T, s: seq<T>, cmp: (T, T) -> int)
    ensures multiset(Insert(x, s, cmp)) == multiset(s) + multiset{x}
  {
    if s != [] && cmp(x, s[0]) >= 0 {
      InsertPermutation(x, s[1..], cmp);
      assert s == [s[0]] + s[1..];
    }
  }

  /** The sort is a permutation of its input. */
  lemma {:induction false} SortWithPermutation<T>(s: seq<T>, cmp: (T, T) -> int)
    ensures multiset(SortWith(s, cmp)) == multiset(s)
  {
    if s != [] {
      var init := s[..|s| - 1];
      SortWithPermutation(init, cmp);
      InsertPermutation(s[|s| - 1], SortWith(init, cmp), cmp);
      assert s == init + [s[|s| - 1]];
    }
  }

  /** Where `Insert` puts `x`. */
  function InsertIndex<T>(x: T, s: seq<T>, cmp: (T, T) -> int): (k: nat)
    ensures k <= |s|
  {
    if s == [] then 0 else if cmp(x, s[0]) < 0 then 0 else 1 + InsertIndex(x, s[1..], cmp)
  }

  ghost predicate Sorted<T>(s: seq<T>, cmp: (T, T) -> int)
  {
    forall i, j :: 0 <= i < j < |s| ==> cmp(s[i], s[j]) <= 0
  }

  ghost predicate AllIn<T>(s: seq<T>, xs: iset<T>)
  {
    forall i :: 0 <= i < |s| ==> s[i] in xs
  }

  /** The comparator is consistent on `xs`. */
  ghost predicate ConsistentOn<T>(cmp: (T, T) -> int, xs: iset<T>)
  {
    && (forall a :: a in xs ==> cmp(a, a) == 0)
    && (forall a, b :: a in xs && b in xs ==> (cmp(a, b) < 0 <==> cmp(b, a) > 0))
    && (forall a, b, c {:trigger cmp(a, b), cmp(b, c), cmp(a, c)} ::
          a in xs && b in xs && c in xs && cmp(a, b) <= 0 && cmp(b, c) <= 0 ==> cmp(a, c) <= 0)
  }

  /** The elements that tie with `e`. */
  function Ties<T>(cmp: (T, T) -> int, e: T): T -> bool
  {
    y => cmp(y, e) == 0
  }

  lemma ConsistentFacts<T>(cmp: (T, T) -> int, xs: iset<T>, a: T, b: T, c: T)
    requires ConsistentOn(cmp, xs) && a in xs && b in xs && c in xs
    ensures cmp(a, b) == 0 <==> cmp(b, a) == 0
    ensures cmp(a, b) <= 0 || cmp(b, a) <= 0
    ensures cmp(a, b) < 0 && cmp(b, c) <= 0 ==> cmp(a, c) < 0
    ensures cmp(a, b) <= 0 && cmp(b, c) < 0 ==> cmp(a, c) < 0
    ensures cmp(a, b) == 0 && cmp(b, c) == 0 ==> cmp(a, c) == 0
  {
    assert cmp(a, b) < 0 <==> cmp(b, a) > 0;
    assert cmp(b, a) < 0 <==> cmp(a, b) > 0;
    assert cmp(a, c) < 0 <==> cmp(c, a) > 0;
    assert cmp(b, c) < 0 <==> cmp(c, b) > 0;
    assert cmp(a, b) <= 0 && cmp(b, c) <= 0 ==> cmp(a, c) <= 0;
    assert cmp(c, a) <= 0 && cmp(a, b) <= 0 ==> cmp(c, b) <= 0;
    assert cmp(b, c) <= 0 && cmp(c, a) <= 0 ==> cmp(b, a) <= 0;
    assert cmp(c, b) <= 0 && cmp(b, a) <= 0 ==> cmp(c, a) <= 0;
  }

  /** An element strictly after something that ties with `e` does not tie with `e`. */
  lemma TieExcluded<T>(cmp: (T, T) -> int, xs: iset<T>, x: T, y: T, e: T)
    requires ConsistentOn(cmp, xs) && x in xs && y in xs && e in xs
    requires cmp(x, y) < 0 && cmp(x, e) == 0
    ensures cmp(y, e) != 0
  {
    ConsistentFacts(cmp, xs, y, e, x);
    ConsistentFacts(cmp, xs, x, e, y);
    ConsistentFacts(cmp, xs, x, y, e);
  }

  lemma {:induction false} InsertSplit<T>(x: T, s: seq<T>, cmp: (T, T) -> int)
    ensures Insert(x, s, cmp) == s[..InsertIndex(x, s, cmp)] + [x] + s[InsertIndex(x, s, cmp)..]
  {
    if s == [] {
    } else if cmp(x, s[0]) < 0 {
      assert s[..0] == [] && s[0..] == s;
    } else {
      var t := s[1..];
      InsertSplit(x, t, cmp);
      var k := InsertIndex(x, t, cmp);
      assert s[..k + 1] == [s[0]] + t[..k];
      assert s[k + 1..] == t[k..];
    }
  }

  lemma {:induction false} InsertIndexBounds<T>(x: T, s: seq<T>, cmp: (T, T) -> int)
    ensures forall i :: 0 <= i < InsertIndex(x, s, cmp) ==> cmp(x, s[i]) >= 0
    ensures InsertIndex(x, s, cmp) < |s| ==> cmp(x, s[InsertIndex(x, s, cmp)]) < 0
  {
    if s != [] && cmp(x, s[0]) >= 0 {
      InsertIndexBounds(x, s[1..], cmp);
      forall i | 1 <= i < InsertIndex(x, s, cmp)
        ensures cmp(x, s[i]) >= 0
      {
        assert s[i] == s[1..][i - 1];
      }
    }
  }

  lemma {:induction false} InsertSorted<T>(x: T, s: seq<T>, cmp: (T, T) -> int, xs: iset<T>)
    requires ConsistentOn(cmp, xs) && AllIn(s, xs) && x in xs && Sorted(s, cmp)
    ensures Sorted(Insert(x, s, cmp), cmp)
  {
    if s == [] {
    } else if cmp(x, s[0]) < 0 {
      forall j | 0 <= j < |s|
        ensures cmp(x, s[j]) <= 0
      {
        ConsistentFacts(cmp, xs, x, s[0], s[j]);
      }
      SortedCons(x, s, cmp);
    } else {
      var t := s[1..];
      SortedTail(s, cmp);
      AllInTail(s, xs);
      InsertSorted(x, t, cmp, xs);
      var r := Insert(x, t, cmp);
      InsertPermutation(x, t, cmp);
      forall j | 0 <= j < |r|
        ensures cmp(s[0], r[j]) <= 0
      {
        assert r[j] in multiset(r);
        if r[j] == x {
          ConsistentFacts(cmp, xs, x, s[0], x);
        } else {
          assert r[j] in multiset(t);
          var i :| 0 <= i < |t| && t[i] == r[j];
          assert t[i] == s[i + 1];
        }
      }
      SortedCons(s[0], r, cmp);
    }
  }

  lemma SortedCons<T>(h: T, s: seq<T>, cmp: (T, T) -> int)
    requires Sorted(s, cmp)
    requires forall j :: 0 <= j < |s| ==> cmp(h, s[j]) <= 0
    ensures Sorted([h] + s, cmp)
  {
    var r := [h] + s;
    forall i, j | 0 <= i < j < |r|
      ensures cmp(r[i], r[j]) <= 0
    {
      assert r[j] == s[j - 1];
      if i > 0 { assert r[i] == s[i - 1]; }
    }
  }

  lemma AllInInit<T>(s: seq<T>, xs: iset<T>)
    requires s != [] && AllIn(s, xs)
    ensures AllIn(s[..|s| - 1], xs) && s[|s| - 1] in xs
  {
    var init := s[..|s| - 1];
    forall i | 0 <= i < |init| ensures init[i] in xs { assert init[i] == s[i]; }
  }

  lemma AllInPermutation<T>(s: seq<T>, t: seq<T>, xs: iset<T>)
    requires AllIn(s, xs) && multiset(t) <= multiset(s)
    ensures AllIn(t, xs)
  {
    forall i | 0 <= i < |t|
      ensures t[i] in xs
    {
      assert t[i] in multiset(t);
      assert t[i] in multiset(s);
    }
  }

  lemma {:induction false} SortWithSorted<T>(s: seq<T>, cmp: (T, T) -> int, xs: iset<T>)
    requires ConsistentOn(cmp, xs) && AllIn(s, xs)
    ensures Sorted(SortWith(s, cmp), cmp)
  {
    if s != [] {
      var init := s[..|s| - 1];
      AllInInit(s, xs);
      SortWithSorted(init, cmp, xs);
      SortWithPermutation(init, cmp);
      AllInPermutation(init, SortWith(init, cmp), xs);
      InsertSorted(s[|s| - 1], SortWith(init, cmp), cmp, xs);
    }
  }

  lemma {:induction false} InsertStable<T>(x: T, s: seq<T>, cmp: (T, T) -> int, xs: iset<T>, e: T)
    requires ConsistentOn(cmp, xs) && AllIn(s, xs) && x in xs && e in xs && Sorted(s, cmp)
    ensures Filter(Insert(x, s, cmp), Ties(cmp, e)) == Filter(s, Ties(cmp, e)) + Filter([x], Ties(cmp, e))
  {
    var p := Ties(cmp, e);
    if s == [] {
    } else if cmp(x, s[0]) < 0 {
      InsertStableFront(x, s, cmp, xs, e);
    } else {
      SortedTail(s, cmp);
      AllInTail(s, xs);
      InsertStable(x, s[1..], cmp, xs, e);
      InsertFilterStep(x, s, cmp, p);
    }
  }

  /** The filter of an insertion past the head, from the filter of the insertion into the tail. */
  lemma InsertFilterStep<T>(x: T, s: seq<T>, cmp: (T, T) -> int, p: T -> bool)
    requires s != [] && cmp(x, s[0]) >= 0
    requires Filter(Insert(x, s[1..], cmp), p) == Filter(s[1..], p) + Filter([x], p)
    ensures Filter(Insert(x, s, cmp), p) == Filter(s, p) + Filter([x], p)
  {
    var t := s[1..];
    assert Insert(x, s, cmp) == [s[0]] + Insert(x, t, cmp);
    FilterAppend([s[0]], Insert(x, t, cmp), p);
    FilterSplitHead(s, p);
    AppendAssoc(Filter([s[0]], p), Filter(t, p), Filter([x], p));
  }

  /** Inserting in front of a sorted list whose head `x` strictly precedes keeps the ties of `e` in order. */
  lemma InsertStableFront<T>(x: T, s: seq<T>, cmp: (T, T) -> int, xs: iset<T>, e: T)
    requires ConsistentOn(cmp, xs) && AllIn(s, xs) && x in xs && e in xs && Sorted(s, cmp)
    requires s != [] && cmp(x, s[0]) < 0
    ensures Filter([x] + s, Ties(cmp, e)) == Filter(s, Ties(cmp, e)) + Filter([x], Ties(cmp, e))
  {
    var p := Ties(cmp, e);
    FilterAppend([x], s, p);
    if p(x) {
      // everything in s comes strictly after x, so none of it ties with e
      forall j | 0 <= j < |s|
        ensures !p(s[j])
      {
        ConsistentFacts(cmp, xs, x, s[0], s[j]);
        TieExcluded(cmp, xs, x, s[j], e);
      }
      FilterNoneKept(s, p);
    }
  }

  /** The sorted prefix is sorted and holds only elements of `xs`. */
  lemma SortWithFacts<T>(s: seq<T>, cmp: (T, T) -> int, xs: iset<T>)
    requires ConsistentOn(cmp, xs) && AllIn(s, xs)
    ensures Sorted(SortWith(s, cmp), cmp) && AllIn(SortWith(s, cmp), xs)
  {
    SortWithSorted(s, cmp, xs);
    SortWithPermutation(s, cmp);
    AllInPermutation(s, SortWith(s, cmp), xs);
  }

  /** Stability: the elements that tie with `e` keep their input order. */
  lemma {:induction false} SortWithStable<T>(s: seq<T>, cmp: (T, T) -> int, xs: iset<T>, e: T)
    requires ConsistentOn(cmp, xs) && AllIn(s, xs) && e in xs
    ensures Filter(SortWith(s, cmp), Ties(cmp, e)) == Filter(s, Ties(cmp, e))
  {
    if s != [] {
      var init, last := s[..|s| - 1], s[|s| - 1];
      AllInInit(s, xs);
      SortWithStable(init, cmp, xs, e);
      SortWithFacts(init, cmp, xs);
      InsertStable(last, SortWith(init, cmp), cmp, xs, e);
      SortWithFilterStep(s, cmp, Ties(cmp, e));
    }
  }

  /** The filter of the whole sort, from the filters of the sorted prefix and of the last insertion. */
  lemma SortWithFilterStep<T>(s: seq<T>, cmp: (T, T) -> int, p: T -> bool)
    requires s != []
    requires Filter(SortWith(s[..|s| - 1], cmp), p) == Filter(s[..|s| - 1], p)
    requires Filter(Insert(s[|s| - 1], SortWith(s[..|s| - 1], cmp), cmp), p)
          == Filter(SortWith(s[..|s| - 1], cmp), p) + Filter([s[|s| - 1]], p)
    ensures Filter(SortWith(s, cmp), p) == Filter(s, p)
  {
    FilterSplitLast(s, p);
  }

  lemma SortedTail<T>(s: seq<T>, cmp: (T, T) -> int)
    requires s != [] && Sorted(s, cmp)
    ensures Sorted(s[1..], cmp)
  {
    forall i, j | 0 <= i < j < |s[1..]|
      ensures cmp(s[1..][i], s[1..][j]) <= 0
    {
      assert s[1..][i] == s[i + 1] && s[1..][j] == s[j + 1];
    }
  }

  /** Keeping some elements of a sorted list leaves it sorted. */
  lemma {:induction false} FilterSorted<T>(s: seq<T>, p: T -> bool, cmp: (T, T) -> int)
    requires Sorted(s, cmp)
    ensures Sorted(Filter(s, p), cmp)
  {
    if s != [] {
      SortedTail(s, cmp);
      FilterSorted(s[1..], p, cmp);
      var rest := Filter(s[1..], p);
      if p(s[0]) {
        forall j | 0 <= j < |rest|
          ensures cmp(s[0], rest[j]) <= 0
        {
          assert rest[j] in rest;
          FilterMembership(s[1..], p, rest[j]);
          var i :| 0 <= i < |s[1..]| && s[1..][i] == rest[j];
          assert s[1..][i] == s[i + 1];
        }
        SortedCons(s[0], rest, cmp);
      }
    }
  }

  lemma AllInTail<T>(s: seq<T>, xs: iset<T>)
    requires s != [] && AllIn(s, xs)
    ensures AllIn(s[1..], xs)
  {
    forall i | 0 <= i < |s| - 1 ensures s[1..][i] in xs { assert s[1..][i] == s[i + 1]; }
  }

  /** Two sorted lists with the same elements in each class of ties, in the same order, are equal. */
  lemma {:induction false} SortedUnique<T>(t1: seq<T>, t2: seq<T>, cmp: (T, T) -> int, xs: iset<T>)
    requires ConsistentOn(cmp, xs) && AllIn(t1, xs) && AllIn(t2, xs)
    requires Sorted(t1, cmp) && Sorted(t2, cmp)
    requires forall e :: e in xs ==> Filter(t1, Ties(cmp, e)) == Filter(t2, Ties(cmp, e))
    ensures t1 == t2
    decreases |t1|
  {
    if t1 == [] || t2 == [] {
      var t := if t1 == [] then t2 else t1;
      if t != [] {
        FilterMembership(t, Ties(cmp, t[0]), t[0]);
        assert false;
      }
    } else {
      HeadsAgree(t1, t2, cmp, xs);
      var a := t1[0];
      TailsTie(t1, t2, cmp, xs);
      SortedTail(t1, cmp);
      SortedTail(t2, cmp);
      AllInTail(t1, xs);
      AllInTail(t2, xs);
      SortedUnique(t1[1..], t2[1..], cmp, xs);
      assert t1 == [a] + t1[1..] && t2 == [a] + t2[1..];
    }
  }

  /** The heads of two such lists occur in each other, so they tie and head the same class: they are equal. */
  lemma HeadsAgree<T>(t1: seq<T>, t2: seq<T>, cmp: (T, T) -> int, xs: iset<T>)
    requires ConsistentOn(cmp, xs) && AllIn(t1, xs) && AllIn(t2, xs)
    requires Sorted(t1, cmp) && Sorted(t2, cmp) && t1 != [] && t2 != []
    requires forall e :: e in xs ==> Filter(t1, Ties(cmp, e)) == Filter(t2, Ties(cmp, e))
    ensures t1[0] == t2[0]
  {
    var a, b := t1[0], t2[0];
    assert Filter(t1, Ties(cmp, a)) == Filter(t2, Ties(cmp, a));
    FilterMembership(t1, Ties(cmp, a), a);
    FilterMembership(t2, Ties(cmp, a), a);
    var ja :| 0 <= ja < |t2| && t2[ja] == a;
    assert Filter(t1, Ties(cmp, b)) == Filter(t2, Ties(cmp, b));
    FilterMembership(t2, Ties(cmp, b), b);
    FilterMembership(t1, Ties(cmp, b), b);
    var jb :| 0 <= jb < |t1| && t1[jb] == b;
    assert cmp(b, a) <= 0 by {
      if ja > 0 { assert cmp(t2[0], t2[ja]) <= 0; }
    }
    assert cmp(a, b) <= 0 by {
      if jb > 0 { assert cmp(t1[0], t1[jb]) <= 0; }
    }
    ConsistentFacts(cmp, xs, a, b, a);
    // so b heads the ties of a in t2, as a does in t1
    assert Filter(t1, Ties(cmp, a))[0] == a;
    assert Filter(t2, Ties(cmp, a))[0] == b;
  }

  /** Lists with the same head and the same classes of ties have tails with the same classes. */
  lemma TailsTie<T>(t1: seq<T>, t2: seq<T>, cmp: (T, T) -> int, xs: iset<T>)
    requires t1 != [] && t2 != [] && t1[0] == t2[0]
    requires forall e :: e in xs ==> Filter(t1, Ties(cmp, e)) == Filter(t2, Ties(cmp, e))
    ensures forall e :: e in xs ==> Filter(t1[1..], Ties(cmp, e)) == Filter(t2[1..], Ties(cmp, e))
  {
    var a := t1[0];
    forall e | e in xs
      ensures Filter(t1[1..], Ties(cmp, e)) == Filter(t2[1..], Ties(cmp, e))
    {
      var p := Ties(cmp, e);
      var head := Filter([a], p);
      assert t1 == [a] + t1[1..] && t2 == [a] + t2[1..];
      FilterAppend([a], t1[1..], p);
      FilterAppend([a], t2[1..], p);
      assert head + Filter(t1[1..], p) == head + Filter(t2[1..], p);
      assert Filter(t1[1..], p) == (head + Filter(t1[1..], p))[|head|..];
    }
  }

  /**
   * A sorted permutation of `s` that keeps every class of ties in input order
   * is `SortWith(s, cmp)`: all stable sorts give the same result.
   */
  lemma SortWithUnique<T>(s: seq<T>, t: seq<T>, cmp: (T, T) -> int, xs: iset<T>)
    requires ConsistentOn(cmp, xs) && AllIn(s, xs)
    requires multiset(t) == multiset(s) && Sorted(t, cmp)
    requires forall e :: e in xs ==> Filter(t, Ties(cmp, e)) == Filter(s, Ties(cmp, e))
    ensures t == SortWith(s, cmp)
  {
    AllInPermutation(s, t, xs);
    SortWithPermutation(s, cmp);
    AllInPermutation(s, SortWith(s, cmp), xs);
    SortWithSorted(s, cmp, xs);
    forall e | e in xs
      ensures Filter(t, Ties(cmp, e)) == Filter(SortWith(s, cmp), Ties(cmp, e))
    {
      SortWithStable(s, cmp, xs, e);
    }
    SortedUnique(t, SortWith(s, cmp), cmp, xs);
  }

  /** With a comparator that ties everything, the sort changes nothing. */
  lemma {:induction false} SortWithAllTies<T>(s: seq<T>, cmp: (T, T) -> int)
    requires forall i, j :: 0 <= i < |s| && 0 <= j < |s| ==> cmp(s[i], s[j]) == 0
    ensures SortWith(s, cmp) == s
  {
    if s != [] {
      var init := s[..|s| - 1];
      SortWithAllTies(init, cmp);
      InsertAfterTies(s[|s| - 1], init, cmp);
      assert s == init + [s[|s| - 1]];
    }
  }

  lemma {:induction false} InsertAfterTies<T>(x: T, s: seq<T>, cmp: (T, T) -> int)
    requires forall i :: 0 <= i < |s| ==> cmp(x, s[i]) == 0
    ensures Insert(x, s, cmp) == s + [x]
  {
    if s != [] {
      InsertAfterTies(x, s[1..], cmp);
      assert s == [s[0]] + s[1..];
    }
  }
}
