/**
 * The sort of the booking hook: the sort state and its toggle rule, the
 * comparator on one key, and `[...rows].sort(comparator)`. ECMA-262 requires
 * `Array.prototype.sort` to be stable; the model is the stable insertion sort of
 * `StableSort`, and `SortUnique` shows that when every row has the key, every stable sort returns
 * the same list, so the choice of algorithm is not visible.
 */
module BookingSort {
  import opened Wrappers
  import opened Seqs
  import opened JsText
  import opened Bookings
  import StableSort

  datatype Direction = Asc | Desc

  /** `sortConfig`: the key (`null` until a column is chosen) and the direction. */
  datatype SortConfig = SortConfig(key: Option<string>, direction: Direction)

  const InitialSortConfig: SortConfig := SortConfig(None, Asc)

  /**
   * `handleSort(key)`: the same key while ascending turns descending; anything
   * else (another key, or the same key while descending) gives ascending.
   */
  function ToggleSort(c: SortConfig, key: string): (r: SortConfig)
    ensures r.key == Some(key)
    ensures r.direction == Desc <==> c.key == Some(key) && c.direction == Asc
  {
    if c.key == Some(key) && c.direction == Asc then SortConfig(Some(key), Desc)
    else SortConfig(Some(key), Asc)
  }

  /** Choosing the same key twice flips the direction, and the key is never unset again. */
  lemma ToggleTwice(c: SortConfig, key: string)
    ensures ToggleSort(ToggleSort(c, key), key).key == Some(key)
    ensures ToggleSort(ToggleSort(c, key), key).direction != ToggleSort(c, key).direction
  {
  }

  /** The view is sorted only when the key is truthy (`!sortConfig.key` skips the sort). */
  predicate IsActive(c: SortConfig)
  {
    c.key.Some? && c.key.value != ""
  }

  /** The comparator: -1, 1 or 0 from `<` and `>` on the key, negated for descending. */
  function Compare(a: Booking, b: Booking, key: string, dir: Direction): int
  {
    var av, bv := a.Get(key), b.Get(key);
    if JsLess(av, bv) then (if dir == Asc then -1 else 1)
    else if JsLess(bv, av) then (if dir == Asc then 1 else -1)
    else 0
  }

  /** `a` may precede `b`: ascending, `b < a` is false; descending, `a < b` is false. */
  predicate InOrder(a: Booking, b: Booking, key: string, dir: Direction)
  {
    if dir == Asc then !JsLess(b.Get(key), a.Get(key)) else !JsLess(a.Get(key), b.Get(key))
  }

  lemma JsLessAsymmetric(a: Value, b: Value)
    ensures JsLess(a, b) ==> !JsLess(b, a)
  {
    if JsLess(a, b) {
      LexLessAsymmetric(Utf16(a.s), Utf16(b.s));
    }
  }

  /**
   * Descending is the exact reverse of ascending, and the comparator keeps
   * `b` after `a` (a result of at most 0) exactly when they are in order.
   */
  lemma CompareMeaning(a: Booking, b: Booking, key: string, dir: Direction)
    ensures Compare(a, b, key, Desc) == -Compare(a, b, key, Asc)
    ensures Compare(a, b, key, dir) <= 0 <==> InOrder(a, b, key, dir)
    ensures Compare(a, b, key, dir) >= 0 <==> InOrder(b, a, key, dir)
  {
    JsLessAsymmetric(a.Get(key), b.Get(key));
  }

  predicate KeysPresent(s: seq<Booking>, key: string)
  {
    forall i :: 0 <= i < |s| ==> s[i].Get(key).Text?
  }

  /** Every pair of rows is in order for the key and direction. */
  ghost predicate Sorted(s: seq<Booking>, key: string, dir: Direction)
  {
    forall i, j :: 0 <= i < j < |s| ==> InOrder(s[i], s[j], key, dir)
  }

  /** On rows that have the key, being in order is a total preorder. */
  lemma InOrderOnText(a: Booking, b: Booking, c: Booking, key: string, dir: Direction)
    requires a.Get(key).Text? && b.Get(key).Text? && c.Get(key).Text?
    ensures InOrder(a, a, key, dir)
    ensures InOrder(a, b, key, dir) || InOrder(b, a, key, dir)
    ensures InOrder(a, b, key, dir) && InOrder(b, a, key, dir) ==> a.Get(key) == b.Get(key)
    ensures InOrder(a, b, key, dir) && InOrder(b, c, key, dir) ==> InOrder(a, c, key, dir)
  {
    var x, y, z := a.Get(key).s, b.Get(key).s, c.Get(key).s;
    JsLessOnText(x, y, z);
    JsLessOnText(y, z, x);
    JsLessOnText(z, x, y);
    JsLessOnText(x, z, y);
    JsLessOnText(y, x, z);
    JsLessOnText(z, y, x);
  }

  /** The comparator as the function value handed to the sort. */
  function Comparator(key: string, dir: Direction): (Booking, Booking) -> int
  {
    (a: Booking, b: Booking) => Compare(a, b, key, dir)
  }

  /** `[...s].sort(comparator)`, as the stable sort ECMA-262 prescribes. */
  function SortBy(s: seq<Booking>, key: string, dir: Direction): (r: seq<Booking>)
    ensures multiset(r) == multiset(s)
  {
    StableSort.SortWithPermutation(s, Comparator(key, dir));
    StableSort.SortWith(s, Comparator(key, dir))
  }

  /** `sortedData`: the list itself when no key is chosen, else its sorted copy. */
  function SortView(view: seq<Booking>, c: SortConfig): (r: seq<Booking>)
    ensures !IsActive(c) ==> r == view
    ensures multiset(r) == multiset(view)
  {
    if !IsActive(c) then view else SortBy(view, c.key.value, c.direction)
  }

  /** The rows that have the key. */
  ghost function KeyedRows(key: string): iset<Booking>
  {
    iset b: Booking | b.Get(key).Text?
  }

  /** On rows that have the key, two rows tie exactly when their key values are equal. */
  lemma TieIffSameValue(a: Booking, b: Booking, key: string, dir: Direction)
    requires a.Get(key).Text? && b.Get(key).Text?
    ensures Compare(a, b, key, dir) == 0 <==> a.Get(key) == b.Get(key)
  {
    JsLessOnText(a.Get(key).s, b.Get(key).s, a.Get(key).s);
  }

  /** On rows that have the key, the comparator is consistent in the sense of ECMA-262. */
  lemma ComparatorConsistent(key: string, dir: Direction)
    ensures StableSort.ConsistentOn(Comparator(key, dir), KeyedRows(key))
  {
    var cmp := Comparator(key, dir);
    var xs := KeyedRows(key);
    forall a | a in xs
      ensures cmp(a, a) == 0
    {
      TieIffSameValue(a, a, key, dir);
    }
    forall a, b | a in xs && b in xs
      ensures cmp(a, b) < 0 <==> cmp(b, a) > 0
    {
      JsLessAsymmetric(a.Get(key), b.Get(key));
    }
    forall a, b, c | a in xs && b in xs && c in xs && cmp(a, b) <= 0 && cmp(b, c) <= 0
      ensures cmp(a, c) <= 0
    {
      CompareMeaning(a, b, key, dir);
      CompareMeaning(b, c, key, dir);
      CompareMeaning(a, c, key, dir);
      InOrderOnText(a, b, c, key, dir);
    }
  }

  lemma SortedMeaning(s: seq<Booking>, key: string, dir: Direction)
    ensures Sorted(s, key, dir) <==> StableSort.Sorted(s, Comparator(key, dir))
  {
    forall i, j | 0 <= i < j < |s|
      ensures InOrder(s[i], s[j], key, dir) <==> Comparator(key, dir)(s[i], s[j]) <= 0
    {
      CompareMeaning(s[i], s[j], key, dir);
    }
  }

  /** Ascending: no row's key is less than an earlier row's; descending: the reverse. */
  lemma SortBySorted(s: seq<Booking>, key: string, dir: Direction)
    requires KeysPresent(s, key)
    ensures Sorted(SortBy(s, key, dir), key, dir)
  {
    ComparatorConsistent(key, dir);
    StableSort.SortWithSorted(s, Comparator(key, dir), KeyedRows(key));
    SortedMeaning(SortBy(s, key, dir), key, dir);
  }

  /** The rows whose value for `key` is the string `v`. */
  function HasKeyValue(key: string, v: string): Booking -> bool
  {
    (b: Booking) => b.Get(key) == Text(v)
  }

  /** On rows that have the key, the rows that tie with `e` are those with `e`'s value. */
  lemma TiesAreKeyValue(s: seq<Booking>, e: Booking, key: string, dir: Direction)
    requires KeysPresent(s, key) && e.Get(key).Text?
    ensures Filter(s, StableSort.Ties(Comparator(key, dir), e)) == Filter(s, HasKeyValue(key, e.Get(key).s))
  {
    forall i | 0 <= i < |s|
      ensures StableSort.Ties(Comparator(key, dir), e)(s[i]) == HasKeyValue(key, e.Get(key).s)(s[i])
    {
      TieIffSameValue(s[i], e, key, dir);
    }
    FilterCongruent(s, StableSort.Ties(Comparator(key, dir), e), HasKeyValue(key, e.Get(key).s));
  }

  lemma KeysPresentSub(s: seq<Booking>, t: seq<Booking>, key: string)
    requires KeysPresent(s, key) && multiset(t) <= multiset(s)
    ensures KeysPresent(t, key)
  {
    forall i | 0 <= i < |t|
      ensures t[i].Get(key).Text?
    {
      assert t[i] in multiset(t);
      assert t[i] in multiset(s);
    }
  }

  /** Stability: the rows that share a key value keep their input order. */
  lemma SortByStable(s: seq<Booking>, key: string, dir: Direction, v: string)
    requires KeysPresent(s, key)
    ensures Filter(SortBy(s, key, dir), HasKeyValue(key, v)) == Filter(s, HasKeyValue(key, v))
  {
    var r := SortBy(s, key, dir);
    KeysPresentSub(s, r, key);
    if i :| 0 <= i < |s| && s[i].Get(key) == Text(v) {
      ComparatorConsistent(key, dir);
      StableSort.SortWithStable(s, Comparator(key, dir), KeyedRows(key), s[i]);
      TiesAreKeyValue(s, s[i], key, dir);
      TiesAreKeyValue(r, s[i], key, dir);
    } else {
      forall j | 0 <= j < |r|
        ensures !HasKeyValue(key, v)(r[j])
      {
        assert r[j] in multiset(s);
      }
      FilterNoneKept(s, HasKeyValue(key, v));
      FilterNoneKept(r, HasKeyValue(key, v));
    }
  }

  /**
   * Any sorted permutation of `s` that keeps the input order of rows with
   * equal keys is `SortBy(s, key, dir)`: every stable sort agrees with the model.
   */
  lemma SortUnique(s: seq<Booking>, t: seq<Booking>, key: string, dir: Direction)
    requires KeysPresent(s, key) && multiset(t) == multiset(s) && Sorted(t, key, dir)
    requires forall v :: Filter(t, HasKeyValue(key, v)) == Filter(s, HasKeyValue(key, v))
    ensures t == SortBy(s, key, dir)
  {
    var cmp := Comparator(key, dir);
    KeysPresentSub(s, t, key);
    ComparatorConsistent(key, dir);
    SortedMeaning(t, key, dir);
    forall e | e in KeyedRows(key)
      ensures Filter(t, StableSort.Ties(cmp, e)) == Filter(s, StableSort.Ties(cmp, e))
    {
      TiesAreKeyValue(s, e, key, dir);
      TiesAreKeyValue(t, e, key, dir);
      assert Filter(t, HasKeyValue(key, e.Get(key).s)) == Filter(s, HasKeyValue(key, e.Get(key).s));
    }
    StableSort.SortWithUnique(s, t, cmp, KeyedRows(key));
  }

  /** A key no row has compares every pair as equal, so the stable sort changes nothing. */
  lemma SortByAllMissing(s: seq<Booking>, key: string, dir: Direction)
    requires forall i :: 0 <= i < |s| ==> s[i].Get(key) == Undefined
    ensures SortBy(s, key, dir) == s
  {
    StableSort.SortWithAllTies(s, Comparator(key, dir));
  }

  /**
   * A row without the key ties with every row, while rows with the key do not
   * tie with each other: on a mix the comparator is not consistent, and
   * ECMA-262 then leaves the order of the sort implementation-defined.
   */
  lemma MissingKeyIsInconsistent(a: Booking, u: Booking, c: Booking, key: string)
    requires a.Get(key) == Text("b") && u.Get(key) == Undefined && c.Get(key) == Text("a")
    ensures Compare(a, u, key, Asc) == 0 && Compare(u, c, key, Asc) == 0
    ensures Compare(a, c, key, Asc) == 1
  {
    assert Utf16("b") == [98] && Utf16("a") == [97];
  }
}
