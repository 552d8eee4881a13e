/**
 * The view of the booking hook and the state it is computed from. The view
 * is a pure function of the raw rows, the sort configuration and the search
 * date: validation, projection, the sort, then the calendar-day filter. The
 * hook's state (`sortConfig`, `searchDate`) and its three handlers form the
 * class `BookingState`.
 */
module BookingView {
  import opened Wrappers
  import opened Seqs
  import opened JsText
  import opened JsDate
  import opened Bookings
  import opened BookingSort
  import StableSort

  /**
   * The row test of the date filter: the row has a truthy date, and the
   * `toDateString()` of its parsed date is that of the parsed search date.
   */
  predicate OnDay(b: Booking, target: string, parse: DateParser)
  {
    Truthy(b.date) && ToDateString(parse(b.date.s)) == ToDateString(parse(target))
  }

  function OnDayOf(target: string, parse: DateParser): Booking -> bool
  {
    (b: Booking) => OnDay(b, target, parse)
  }

  /** `searchFilteredData`: everything for an empty search date, else the rows on that day. */
  function DateFiltered(s: seq<Booking>, searchDate: string, parse: DateParser): (r: seq<Booking>)
    ensures searchDate == "" ==> r == s
    ensures |r| <= |s|
  {
    if searchDate == "" then s else Filter(s, OnDayOf(searchDate, parse))
  }

  /**
   * With a search date, the filter keeps, in order, exactly the rows on that
   * day, and never a row whose date is missing or empty.
   */
  lemma DateFilteredSpec(s: seq<Booking>, searchDate: string, parse: DateParser)
    requires searchDate != ""
    ensures IsSubsequence(DateFiltered(s, searchDate, parse), s)
    ensures forall b :: b in DateFiltered(s, searchDate, parse) <==> b in s && OnDay(b, searchDate, parse)
    ensures forall b :: b in DateFiltered(s, searchDate, parse) ==> b.date.Text? && b.date.s != ""
  {
    var p := OnDayOf(searchDate, parse);
    FilterIsSubsequence(s, p);
    forall b
      ensures b in Filter(s, p) <==> b in s && OnDay(b, searchDate, parse)
    {
      FilterMembership(s, p, b);
    }
  }

  /** For a search date that parses, a row is on that day when its date parses to the same local day. */
  lemma OnDayValidTarget(b: Booking, target: string, parse: DateParser)
    requires parse(target).Some?
    ensures OnDay(b, target, parse) <==>
      && b.date.Text? && b.date.s != "" && parse(b.date.s).Some?
      && parse(b.date.s).value.year == parse(target).value.year
      && parse(b.date.s).value.month == parse(target).value.month
      && parse(b.date.s).value.day == parse(target).value.day
  {
  }

  /**
   * For a search date that does not parse, both sides print "Invalid Date",
   * so the filter keeps exactly the rows whose non-empty date does not parse.
   */
  lemma OnDayInvalidTarget(b: Booking, target: string, parse: DateParser)
    requires parse(target).None?
    ensures OnDay(b, target, parse) <==> b.date.Text? && b.date.s != "" && parse(b.date.s).None?
  {
  }

  /** The list the hook returns as `data`. */
  function View(data: seq<RawRow>, c: SortConfig, searchDate: string, parse: DateParser): seq<Booking>
  {
    DateFiltered(SortView(Normalize(data), c), searchDate, parse)
  }

  /**
   * Each shown row is the projection of a valid input row; with no sort key
   * and no search date the view is the projected list itself.
   */
  lemma ViewSpec(data: seq<RawRow>, c: SortConfig, searchDate: string, parse: DateParser)
    ensures forall b :: b in View(data, c, searchDate, parse) ==>
      exists row :: row in data && IsValid(row) && b == Project(row)
    ensures |View(data, c, searchDate, parse)| <= |ValidRows(data)|
    ensures !IsActive(c) && searchDate == "" ==> View(data, c, searchDate, parse) == Normalize(data)
  {
    var sorted := SortView(Normalize(data), c);
    assert |sorted| == |multiset(sorted)| == |multiset(Normalize(data))|;
    forall b | b in View(data, c, searchDate, parse)
      ensures exists row :: row in data && IsValid(row) && b == Project(row)
    {
      if searchDate != "" {
        DateFilteredSpec(sorted, searchDate, parse);
      }
      assert b in multiset(sorted);
      NormalizeTrace(data, b);
    }
  }

  /** Once the search is cleared, the view is the sorted list. */
  lemma ClearedView(data: seq<RawRow>, c: SortConfig, parse: DateParser)
    ensures View(data, c, "", parse) == SortView(Normalize(data), c)
  {
  }

  /**
   * On rows that all have the key, sorting then filtering equals filtering
   * then sorting: the stable sort commutes with any filter.
   */
  lemma SortCommutesWithFilter(s: seq<Booking>, key: string, dir: Direction, p: Booking -> bool)
    requires KeysPresent(s, key)
    ensures Filter(SortBy(s, key, dir), p) == SortBy(Filter(s, p), key, dir)
  {
    var sorted := SortBy(s, key, dir);
    var t := Filter(sorted, p);
    var fs := Filter(s, p);
    FilterPermutation(sorted, s, p);
    assert KeysPresent(fs, key) by {
      forall i | 0 <= i < |fs|
        ensures fs[i].Get(key).Text?
      {
        assert fs[i] in fs;
        FilterMembership(s, p, fs[i]);
      }
    }
    SortBySorted(s, key, dir);
    SortedMeaning(sorted, key, dir);
    StableSort.FilterSorted(sorted, p, Comparator(key, dir));
    SortedMeaning(t, key, dir);
    forall v
      ensures Filter(t, HasKeyValue(key, v)) == Filter(fs, HasKeyValue(key, v))
    {
      FilterCommute(sorted, p, HasKeyValue(key, v));
      SortByStable(s, key, dir, v);
      FilterCommute(s, p, HasKeyValue(key, v));
    }
    SortUnique(fs, t, key, dir);
  }

  /** When every shown row has the sort key, the date filter may as well run before the sort. */
  lemma ViewFilterFirst(data: seq<RawRow>, c: SortConfig, searchDate: string, parse: DateParser)
    requires IsActive(c) && KeysPresent(Normalize(data), c.key.value)
    ensures View(data, c, searchDate, parse)
         == SortView(DateFiltered(Normalize(data), searchDate, parse), c)
  {
    if searchDate != "" {
      SortCommutesWithFilter(Normalize(data), c.key.value, c.direction, OnDayOf(searchDate, parse));
    }
  }

  /** Every shown row has the five required fields, so each of them is text in every row. */
  lemma RequiredKeysPresent(data: seq<RawRow>, key: string)
    requires key in RequiredKeys
    ensures KeysPresent(Normalize(data), key)
  {
    var s := Normalize(data);
    forall i | 0 <= i < |s|
      ensures s[i].Get(key).Text?
    {
      assert IsComplete(s[i]);
    }
  }

  /** The date filter keeps only rows of its input, so a key every input row has stays present. */
  lemma DateFilteredKeysPresent(s: seq<Booking>, key: string, searchDate: string, parse: DateParser)
    requires KeysPresent(s, key)
    ensures KeysPresent(DateFiltered(s, searchDate, parse), key)
  {
    var f := DateFiltered(s, searchDate, parse);
    if searchDate != "" {
      forall i | 0 <= i < |f|
        ensures f[i].Get(key).Text?
      {
        assert f[i] in f;
        FilterMembership(s, OnDayOf(searchDate, parse), f[i]);
      }
    }
  }

  /**
   * Sorting by one of the five required columns: the shown table is in order
   * for the clicked column and direction, it holds exactly the rows the date
   * filter keeps, and rows that tie on the column keep their input order.
   */
  lemma ViewSortedByRequiredKey(data: seq<RawRow>, c: SortConfig, searchDate: string, parse: DateParser)
    requires IsActive(c) && c.key.value in RequiredKeys
    ensures Sorted(View(data, c, searchDate, parse), c.key.value, c.direction)
    ensures multiset(View(data, c, searchDate, parse))
         == multiset(DateFiltered(Normalize(data), searchDate, parse))
    ensures forall v :: Filter(View(data, c, searchDate, parse), HasKeyValue(c.key.value, v))
                     == Filter(DateFiltered(Normalize(data), searchDate, parse), HasKeyValue(c.key.value, v))
  {
    var key, dir := c.key.value, c.direction;
    var f := DateFiltered(Normalize(data), searchDate, parse);
    RequiredKeysPresent(data, key);
    ViewFilterFirst(data, c, searchDate, parse);
    DateFilteredKeysPresent(Normalize(data), key, searchDate, parse);
    SortBySorted(f, key, dir);
    forall v
      ensures Filter(SortBy(f, key, dir), HasKeyValue(key, v)) == Filter(f, HasKeyValue(key, v))
    {
      SortByStable(f, key, dir, v);
    }
  }

  /** The hook's state; `data` is whatever the last successful fetch returned. */
  class BookingState {
    var data: seq<RawRow>
    var sortConfig: SortConfig
    var searchDate: string

    /** The hook's first render: no rows yet, no sort key, no search date. */
    constructor()
      ensures data == [] && sortConfig == InitialSortConfig && searchDate == ""
    {
      data := [];
      sortConfig := InitialSortConfig;
      searchDate := "";
    }

    /** `setData(result)` once the fetch has produced the rows. */
    method Receive(rows: seq<RawRow>)
      modifies this
      ensures data == rows
      ensures sortConfig == old(sortConfig) && searchDate == old(searchDate)
    {
      data := rows;
    }

    /** `handleSort(key)`. */
    method HandleSort(key: string)
      modifies this
      ensures sortConfig == ToggleSort(old(sortConfig), key)
      ensures data == old(data) && searchDate == old(searchDate)
    {
      var direction := Asc;
      if sortConfig.key == Some(key) && sortConfig.direction == Asc {
        direction := Desc;
      }
      sortConfig := SortConfig(Some(key), direction);
    }

    /** `handleDateSearch(date)`: only the search date changes. */
    method HandleDateSearch(date: string)
      modifies this
      ensures searchDate == date
      ensures data == old(data) && sortConfig == old(sortConfig)
    {
      searchDate := date;
    }

    /** `clearSearch()`: only the search date changes, back to empty. */
    method ClearSearch()
      modifies this
      ensures searchDate == ""
      ensures data == old(data) && sortConfig == old(sortConfig)
      ensures forall parse :: CurrentView(parse) == SortView(Normalize(data), sortConfig)
    {
      searchDate := "";
    }

    /** The `data` the hook returns in this state. */
    function CurrentView(parse: DateParser): seq<Booking>
      reads this
    {
      View(data, sortConfig, searchDate, parse)
    }
  }
}
