/**
 * The dashboard page: the global text search over the rows the booking hook
 * returns, the count of today's rows, and the caption above the table.
 */
module GlobalSearch {
  import opened Wrappers
  import opened Seqs
  import opened JsText
  import opened Decimal
  import opened Bookings

  /** `String(value).toLowerCase().includes(needle)`. */
  predicate FieldMatches(v: Value, needle: string)
  {
    Contains(ToLower(ToJsString(v)), needle)
  }

  /** `Object.values(item).some(...)` with the lower-cased term. */
  predicate Matches(item: Booking, term: string)
  {
    exists i :: 0 <= i < |item.Values()| && FieldMatches(item.Values()[i], ToLower(term))
  }

  function MatchesOf(term: string): Booking -> bool
  {
    (item: Booking) => Matches(item, term)
  }

  /** `filteredData`: the rows themselves for an empty term, else the matching rows. */
  function SearchFilter(data: seq<Booking>, term: string): (r: seq<Booking>)
    ensures term == "" ==> r == data
    ensures |r| <= |data|
  {
    if term == "" then data else Filter(data, MatchesOf(term))
  }

  /**
   * A non-empty term keeps, in their order, exactly the rows with a field
   * whose lower-cased text contains the lower-cased term.
   */
  lemma SearchFilterSpec(data: seq<Booking>, term: string)
    requires term != ""
    ensures IsSubsequence(SearchFilter(data, term), data)
    ensures forall item :: item in SearchFilter(data, term) <==>
      item in data && exists k :: k in Keys && Contains(ToLower(ToJsString(item.Get(k))), ToLower(term))
  {
    FilterIsSubsequence(data, MatchesOf(term));
    forall item
      ensures item in SearchFilter(data, term) <==>
        item in data && exists k :: k in Keys && Contains(ToLower(ToJsString(item.Get(k))), ToLower(term))
    {
      FilterMembership(data, MatchesOf(term), item);
      MatchesByKey(item, term);
    }
  }

  /** A row matches exactly when the text of one of its seven fields contains the term, case aside. */
  lemma MatchesByKey(item: Booking, term: string)
    ensures Matches(item, term) <==>
      exists k :: k in Keys && Contains(ToLower(ToJsString(item.Get(k))), ToLower(term))
  {
    if Matches(item, term) {
      var i :| 0 <= i < |item.Values()| && FieldMatches(item.Values()[i], ToLower(term));
      assert Keys[i] in Keys;
    }
    if exists k :: k in Keys && Contains(ToLower(ToJsString(item.Get(k))), ToLower(term)) {
      var k :| k in Keys && Contains(ToLower(ToJsString(item.Get(k))), ToLower(term));
      var i :| 0 <= i < |Keys| && Keys[i] == k;
      assert FieldMatches(item.Values()[i], ToLower(term));
    }
  }

  /**
   * A missing 指名 or メール reads "undefined", so a term found inside
   * "undefined" (such as "def") matches the row.
   */
  lemma MissingFieldMatches(item: Booking, term: string)
    requires item.appointment == Undefined || item.email == Undefined
    requires Contains("undefined", ToLower(term))
    ensures Matches(item, term)
  {
    assert ToLower("undefined") == "undefined";
    if item.appointment == Undefined {
      assert FieldMatches(item.Values()[3], ToLower(term));
    } else {
      assert FieldMatches(item.Values()[6], ToLower(term));
    }
  }

  /** The search ignores the case of ASCII letters in the term. */
  lemma SearchIgnoresCase(data: seq<Booking>, term: string)
    ensures SearchFilter(data, ToUpper(term)) == SearchFilter(data, term)
  {
    ToLowerOfUpper(term);
    if term != "" {
      FilterCongruent(data, MatchesOf(ToUpper(term)), MatchesOf(term));
    }
  }

  /** Searching the search result again with the same term changes nothing. */
  lemma SearchIdempotent(data: seq<Booking>, term: string)
    ensures SearchFilter(SearchFilter(data, term), term) == SearchFilter(data, term)
  {
    if term != "" {
      FilterIdempotent(data, MatchesOf(term));
    }
  }

  /** `item['日付']?.toString().split('T')[0]`: nothing for a missing date. */
  function DatePrefix(v: Value): (r: Option<string>)
    ensures v.Undefined? <==> r.None?
    ensures v.Text? ==> 'T' !in r.value && r.value <= v.s
  {
    match v
    case Undefined => None
    case Text(s) =>
      SplitHead(s, 'T');
      Some(Split(s, 'T')[0])
  }

  predicate IsToday(item: Booking, today: string)
  {
    DatePrefix(item.date) == Some(today)
  }

  function IsTodayOf(today: string): Booking -> bool
  {
    (item: Booking) => IsToday(item, today)
  }

  /** The "今日の予約" figure. */
  function TodayCount(data: seq<Booking>, today: string): (n: nat)
    ensures n <= |data|
  {
    |Filter(data, IsTodayOf(today))|
  }

  /**
   * A row is counted exactly when it has a date whose text up to the first
   * 'T' (or all of it, if it has none) is `today`; the count is additive and
   * reaches `|data|` exactly when every row is counted.
   */
  lemma TodayCountSpec(data: seq<Booking>, today: string, item: Booking)
    ensures IsToday(item, today) <==>
      item.date.Text? && item.date.s[..IndexOf(item.date.s, 'T')] == today
    ensures item in Filter(data, IsTodayOf(today)) <==> item in data && IsToday(item, today)
    ensures TodayCount(data, today) == |data| <==> forall i :: 0 <= i < |data| ==> IsToday(data[i], today)
  {
    if item.date.Text? {
      SplitHead(item.date.s, 'T');
    }
    FilterMembership(data, IsTodayOf(today), item);
    FilterKeepsAllIff(data, IsTodayOf(today));
  }

  lemma TodayCountAppend(a: seq<Booking>, b: seq<Booking>, today: string)
    ensures TodayCount(a + b, today) == TodayCount(a, today) + TodayCount(b, today)
  {
    FilterAppend(a, b, IsTodayOf(today));
  }

  /** Which caption is shown above the table. */
  datatype Caption = SearchResult | FilterResult | AllBookings

  function CaptionKind(term: string, searchDate: string): (k: Caption)
    ensures k == SearchResult <==> term != ""
    ensures k == FilterResult <==> term == "" && searchDate != ""
  {
    if term != "" then SearchResult else if searchDate != "" then FilterResult else AllBookings
  }

  function CaptionPrefix(k: Caption): string
  {
    match k
    case SearchResult => "検索結果: "
    case FilterResult => "フィルター結果: "
    case AllBookings => "全予約: "
  }

  function CaptionSuffix(k: Caption): string
  {
    if k == AllBookings then "件" else "件の予約"
  }

  /** The caption for `n` shown rows. */
  function ResultMessage(term: string, searchDate: string, n: nat): string
  {
    var k := CaptionKind(term, searchDate);
    CaptionPrefix(k) + NatToString(n) + CaptionSuffix(k)
  }

  /** The caption tells which filter is in effect and how many rows are shown. */
  lemma ResultMessageInjective(t1: string, d1: string, n1: nat, t2: string, d2: string, n2: nat)
    ensures ResultMessage(t1, d1, n1) == ResultMessage(t2, d2, n2) <==>
      CaptionKind(t1, d1) == CaptionKind(t2, d2) && n1 == n2
  {
    var k1, k2 := CaptionKind(t1, d1), CaptionKind(t2, d2);
    var m1, m2 := ResultMessage(t1, d1, n1), ResultMessage(t2, d2, n2);
    if m1 == m2 {
      assert CaptionPrefix(k1)[0] == m1[0] == m2[0] == CaptionPrefix(k2)[0];
      var p, q := |CaptionPrefix(k1)|, |CaptionSuffix(k1)|;
      assert m1[p..|m1| - q] == NatToString(n1);
      assert m2[p..|m2| - q] == NatToString(n2);
      NatToStringInjective(n1, n2);
    }
  }
}
