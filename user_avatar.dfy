/**
 * The helpers behind the user avatar: the initials shown inside it, the
 * colour picked from a 32-bit string hash of the name, and the class
 * mappings for its size, status dot and shape.
 */
module UserAvatar {
  import opened Wrappers
  import opened Seqs
  import opened JsText

  // ---------------------------------------------------------------------------
  // Initials

  /** `p[0]` read into a string concatenation: `"undefined"` when `p` is empty. */
  function FirstOrUndefined(p: string): (r: string)
    ensures p != "" ==> r == [p[0]]
    ensures p == "" ==> r == "undefined"
  {
    if p == "" then "undefined" else [p[0]]
  }

  /** `s.substring(0, 2)`. */
  function Prefix2(s: string): (r: string)
    ensures |r| == if |s| < 2 then |s| else 2
    ensures r == s[..|r|]
  {
    if |s| < 2 then s else s[..2]
  }

  /**
   * `getInitials` as it is written. A name whose first or last space-separated
   * part is empty reads `names[i][0]` as `undefined`; when both are empty the
   * sum is the number `NaN`, whose missing `toUpperCase` throws a TypeError,
   * rendered here as `None`.
   */
  function InitialsAsWritten(name: Value): (r: Option<string>)
    ensures !Truthy(name) ==> r == Some("?")
    ensures r.None? <==> Truthy(name) && |Split(name.s, ' ')| >= 2
                         && Split(name.s, ' ')[0] == "" && Split(name.s, ' ')[|Split(name.s, ' ')| - 1] == ""
  {
    if !Truthy(name) then Some("?") else WrittenFromParts(Split(name.s, ' '), name.s)
  }

  /** `getInitials` of the name `s` after `s.split(' ')` gave `names`. */
  function WrittenFromParts(names: seq<string>, s: string): (r: Option<string>)
    ensures r.None? <==> |names| >= 2 && names[0] == "" && names[|names| - 1] == ""
  {
    if |names| >= 2 then
      var first, last := names[0], names[|names| - 1];
      if first == "" && last == "" then None
      else Some(ToUpper(FirstOrUndefined(first) + FirstOrUndefined(last)))
    else Some(ToUpper(Prefix2(s)))
  }

  /** A trailing space turns the second initial into the text `UNDEFINED`. */
  lemma TrailingSpaceInitials()
    ensures InitialsAsWritten(Text("Taro ")) == Some("TUNDEFINED")
  {
    SplitTrailingSpace();
    assert FirstOrUndefined("Taro") + FirstOrUndefined("") == "Tundefined";
    assert ToUpper("Tundefined") == "TUNDEFINED";
  }

  lemma SplitTrailingSpace()
    ensures Split("Taro ", ' ') == ["Taro", ""]
  {
    assert IndexOf("Taro ", ' ') == 4 by {
      assert IndexOf(" ", ' ') == 0;
      assert "Taro "[1..] == "aro ";
      assert "aro "[1..] == "ro ";
      assert "ro "[1..] == "o ";
      assert "o "[1..] == " ";
    }
    assert Split("Taro ", ' ') == ["Taro", ""] by {
      assert "Taro "[..4] == "Taro";
      assert "Taro "[5..] == "";
      assert Split("", ' ') == [""];
    }
  }

  /** A name of one space makes `getInitials` throw. */
  lemma BlankNameThrows()
    ensures InitialsAsWritten(Text(" ")) == None
  {
    assert Split(" ", ' ') == ["", ""] by {
      assert IndexOf(" ", ' ') == 0;
      assert " "[1..] == "";
    }
  }

  predicate NonEmpty(p: string) { p != "" }

  /**
   * The initials the avatar is meant to show. The words of the name are its
   * parts between spaces with the empty parts skipped: two or more words give
   * the upper-cased first letters of the first and the last word, one word gives
   * its first (up to) two characters upper-cased, and a falsy name or one with
   * no word at all gives `?`. No space is ever shown.
   */
  function Initials(name: Value): (r: string)
    ensures !Truthy(name) ==> r == "?"
    ensures 1 <= |r| <= 2
    ensures ' ' !in r
    ensures forall i :: 0 <= i < |r| ==> !('a' <= r[i] <= 'z')
  {
    if !Truthy(name) then "?" else IntendedFromParts(Split(name.s, ' '))
  }

  /** The intended initials of a name whose parts between spaces are `names`. */
  function IntendedFromParts(names: seq<string>): (r: string)
    ensures 1 <= |r| <= 2
    ensures var words := Filter(names, NonEmpty);
      && (|words| == 0 ==> r == "?")
      && (|words| == 1 ==> r == ToUpper(Prefix2(words[0])))
      && (|words| >= 1 ==> r[0] == UpperChar(words[0][0]))
      && (|words| >= 2 ==> |r| == 2 && r[1] == UpperChar(words[|words| - 1][0]))
    ensures forall i :: 0 <= i < |r| ==> !('a' <= r[i] <= 'z')
    ensures (forall p :: p in names ==> ' ' !in p) ==> ' ' !in r
  {
    var words := Filter(names, NonEmpty);
    assert forall w :: w in words ==> w in names && w != "" by {
      forall w | w in words {
        FilterMembership(names, NonEmpty, w);
      }
    }
    if |words| >= 2 then
      assert words[0] in words && words[|words| - 1] in words;
      [UpperChar(words[0][0]), UpperChar(words[|words| - 1][0])]
    else if |words| == 1 then
      assert words[0] in words;
      ToUpper(Prefix2(words[0]))
    else "?"
  }

  /** Filtering keeps a non-empty head in front. */
  lemma FilterKeepsHead(parts: seq<string>)
    requires |parts| >= 1 && parts[0] != ""
    ensures |Filter(parts, NonEmpty)| >= 1 && Filter(parts, NonEmpty)[0] == parts[0]
  {
  }

  /** Filtering keeps a non-empty last element at the end. */
  lemma FilterKeepsLast(parts: seq<string>)
    requires |parts| >= 1 && parts[|parts| - 1] != ""
    ensures |Filter(parts, NonEmpty)| >= 1
    ensures Filter(parts, NonEmpty)[|Filter(parts, NonEmpty)| - 1] == parts[|parts| - 1]
  {
    var init := parts[..|parts| - 1];
    assert parts == init + [parts[|parts| - 1]];
    FilterAppend(init, [parts[|parts| - 1]], NonEmpty);
  }

  /**
   * Where the first and last parts are non-empty, as for every name without a
   * leading or trailing space, the intended initials are exactly what the
   * written code returns.
   */
  lemma InitialsAgree(name: Value)
    requires Truthy(name)
    requires Split(name.s, ' ')[0] != "" && Split(name.s, ' ')[|Split(name.s, ' ')| - 1] != ""
    ensures InitialsAsWritten(name) == Some(Initials(name))
  {
    PartsAgree(Split(name.s, ' '), name.s);
  }

  lemma PartsAgree(names: seq<string>, s: string)
    requires |names| >= 1 && names[0] != "" && names[|names| - 1] != ""
    requires |names| == 1 ==> names == [s]
    ensures WrittenFromParts(names, s) == Some(IntendedFromParts(names))
  {
    if |names| >= 2 {
      FilterKeepsEnds(names);
      var first, last := names[0], names[|names| - 1];
      assert FirstOrUndefined(first) + FirstOrUndefined(last) == [first[0], last[0]];
      assert ToUpper([first[0], last[0]]) == [UpperChar(first[0]), UpperChar(last[0])];
    } else {
      FilterAllKept(names, NonEmpty);
    }
  }

  /** Skipping empty parts keeps non-empty first and last parts at both ends. */
  lemma FilterKeepsEnds(parts: seq<string>)
    requires |parts| >= 2 && parts[0] != "" && parts[|parts| - 1] != ""
    ensures |Filter(parts, NonEmpty)| >= 2
    ensures Filter(parts, NonEmpty)[0] == parts[0]
    ensures Filter(parts, NonEmpty)[|Filter(parts, NonEmpty)| - 1] == parts[|parts| - 1]
  {
    FilterKeepsHead(parts);
    FilterKeepsLast(parts);
    FilterSplitHead(parts, NonEmpty);
    FilterKeepsLast(parts[1..]);
  }

  /** `s.split(' ').filter(Boolean).join(' ')`: the words of `s` with single spaces between them. */
  function SquashSpaces(s: string): string
  {
    Join(Filter(Split(s, ' '), NonEmpty), ' ')
  }

  /**
   * Extra spaces do not change the intended initials: a name with a non-space
   * character has the initials of its words joined by single spaces, and on
   * that squashed name the written code shows them too.
   */
  lemma InitialsIgnoreExtraSpaces(s: string)
    requires exists i :: 0 <= i < |s| && s[i] != ' '
    ensures SquashSpaces(s) != ""
    ensures Initials(Text(s)) == Initials(Text(SquashSpaces(s)))
    ensures InitialsAsWritten(Text(SquashSpaces(s))) == Some(Initials(Text(s)))
  {
    var parts := Split(s, ' ');
    var words := Filter(parts, NonEmpty);
    var t := SquashSpaces(s);
    SquashedWords(s);
    FilterIdempotent(parts, NonEmpty);
    SameWordsSameInitials(words, parts);
    PartsAgree(words, t);
  }

  /** The intended initials depend on the words alone. */
  lemma SameWordsSameInitials(a: seq<string>, b: seq<string>)
    requires Filter(a, NonEmpty) == Filter(b, NonEmpty)
    ensures IntendedFromParts(a) == IntendedFromParts(b)
  {
  }

  /** The squashed name of a name with a non-space character is non-empty and splits into its words. */
  lemma SquashedWords(s: string)
    requires exists i :: 0 <= i < |s| && s[i] != ' '
    ensures SquashSpaces(s) != ""
    ensures Split(SquashSpaces(s), ' ') == Filter(Split(s, ' '), NonEmpty)
  {
    var parts := Split(s, ' ');
    var words := Filter(parts, NonEmpty);
    WordsOfNonBlank(s);
    assert forall w :: w in words ==> ' ' !in w by {
      forall w | w in words {
        FilterMembership(parts, NonEmpty, w);
      }
    }
    JoinSplit(words, ' ');
    assert words[0] in words;
    JoinMembers(words, ' ', words[0][0]);
  }

  /** A name with a non-space character has at least one word. */
  lemma WordsOfNonBlank(s: string)
    requires exists i :: 0 <= i < |s| && s[i] != ' '
    ensures |Filter(Split(s, ' '), NonEmpty)| >= 1
  {
    var i :| 0 <= i < |s| && s[i] != ' ';
    var parts := Split(s, ' ');
    SplitJoin(s, ' ');
    JoinMembers(parts, ' ', s[i]);
    var p :| p in parts && s[i] in p;
    FilterMembership(parts, NonEmpty, p);
  }

  /** A name made only of spaces has no word, so its intended initials are `?`. */
  lemma BlankNameInitials(s: string)
    requires s != ""
    requires forall i :: 0 <= i < |s| ==> s[i] == ' '
    ensures Initials(Text(s)) == "?"
    ensures InitialsAsWritten(Text(s)) == None
  {
    var parts := Split(s, ' ');
    SplitJoin(s, ' ');
    forall j | 0 <= j < |parts|
      ensures parts[j] == ""
    {
      if parts[j] != "" {
        var c := parts[j][0];
        assert parts[j] in parts && c in parts[j];
        JoinMembers(parts, ' ', c);
        assert false;
      }
    }
    FilterNoneKept(parts, NonEmpty);
    assert s[0] == ' ';
    SplitUnfold(s, ' ');
  }

  /** With the trailing space skipped, `Taro ` shows `TA`. */
  lemma TrailingSpaceCorrected()
    ensures Initials(Text("Taro ")) == "TA"
  {
    SplitTrailingSpace();
    assert Filter(["Taro", ""], NonEmpty) == ["Taro"] by {
      assert ["Taro", ""][1..] == [""];
      assert Filter([""], NonEmpty) == [];
    }
    assert Prefix2("Taro") == "Ta";
    assert ToUpper("Ta") == "TA";
  }

  /** What the avatar shows: `name ? getInitials(name) : '?'`. */
  function Label(name: Value): (r: string)
    ensures !Truthy(name) ==> r == "?"
    ensures Truthy(name) ==> r == Initials(name)
  {
    if Truthy(name) then Initials(name) else "?"
  }

  // ---------------------------------------------------------------------------
  // The colour hash

  /** ECMAScript ToInt32: the 32-bit two's-complement value congruent to `x`. */
  function ToInt32(x: int): (r: int)
    ensures -0x8000_0000 <= r < 0x8000_0000
    ensures (r - x) % 0x1_0000_0000 == 0
  {
    var m := x % 0x1_0000_0000;
    if m >= 0x8000_0000 then m - 0x1_0000_0000 else m
  }

  /** Two integers congruent modulo 2^32 have the same ToInt32. */
  lemma ToInt32Congruent(x: int, y: int)
    requires (x - y) % 0x1_0000_0000 == 0
    ensures ToInt32(x) == ToInt32(y)
  {
    var k := (x - y) / 0x1_0000_0000;
    assert x == y + 0x1_0000_0000 * k;
    var q, m := y / 0x1_0000_0000, y % 0x1_0000_0000;
    assert x == 0x1_0000_0000 * (q + k) + m;
    assert x % 0x1_0000_0000 == m;
  }

  /** One step of the reducer: `a = ((a << 5) - a) + code; return a & a`. */
  function HashStep(a: int, code: int): int
  {
    var shifted := ToInt32(ToInt32(a) * 32);
    ToInt32(shifted - a + code)
  }

  /** Each step multiplies by 31, adds the code unit and wraps to 32 bits. */
  lemma HashStepSpec(a: int, code: int)
    ensures HashStep(a, code) == ToInt32(31 * a + code)
  {
    var t := ToInt32(a);
    var k := (t - a) / 0x1_0000_0000;
    assert t == a + 0x1_0000_0000 * k;
    var s := ToInt32(t * 32);
    var j := (s - t * 32) / 0x1_0000_0000;
    assert s == t * 32 + 0x1_0000_0000 * j;
    assert s - a + code == 31 * a + code + 0x1_0000_0000 * (32 * k + j);
    ToInt32Congruent(s - a + code, 31 * a + code);
  }

  /** The fold of `reduce` over the code units, starting from 0. */
  function Hash(units: seq<int>): (h: int)
    ensures -0x8000_0000 <= h < 0x8000_0000
  {
    if units == [] then 0
    else HashStep(Hash(units[..|units| - 1]), units[|units| - 1])
  }

  /** Horner's rule for the polynomial hash with base 31, without wrapping. */
  function Polynomial(units: seq<int>): int
  {
    if units == [] then 0
    else 31 * Polynomial(units[..|units| - 1]) + units[|units| - 1]
  }

  /** The 32-bit hash is the polynomial hash reduced to a signed 32-bit value. */
  lemma {:induction false} HashIsPolynomial(units: seq<int>)
    ensures Hash(units) == ToInt32(Polynomial(units))
  {
    if units != [] {
      var init, c := units[..|units| - 1], units[|units| - 1];
      HashIsPolynomial(init);
      var h, p := Hash(init), Polynomial(init);
      HashStepSpec(h, c);
      StepCongruent(h, p, c);
    }
  }

  /** Multiplying by 31 and adding a code unit keeps two values congruent modulo 2^32. */
  lemma StepCongruent(h: int, p: int, c: int)
    requires (h - p) % 0x1_0000_0000 == 0
    ensures ToInt32(31 * h + c) == ToInt32(31 * p + c)
  {
    var k := (h - p) / 0x1_0000_0000;
    assert h == p + 0x1_0000_0000 * k;
    assert 31 * h + c == 31 * p + c + 0x1_0000_0000 * (31 * k);
    ToInt32Congruent(31 * h + c, 31 * p + c);
  }

  const Colors: seq<string> := [
    "bg-blue-500", "bg-green-500", "bg-purple-500", "bg-pink-500", "bg-indigo-500",
    "bg-yellow-500", "bg-red-500", "bg-teal-500", "bg-orange-500", "bg-cyan-500"
  ]

  const FallbackColor: string := "bg-gray-400"

  /** `Math.abs(hash) % colors.length`. */
  function ColorIndex(hash: int): (i: nat)
    ensures i < |Colors|
    ensures hash >= 0 ==> i == hash % 10
    ensures hash < 0 ==> i == (-hash) % 10
  {
    (if hash < 0 then -hash else hash) % |Colors|
  }

  /** `getBackgroundColor(name)`. */
  function BackgroundColor(name: Value): (r: string)
    ensures !Truthy(name) ==> r == FallbackColor
    ensures Truthy(name) ==> r in Colors && r != FallbackColor
  {
    if !Truthy(name) then FallbackColor
    else Colors[ColorIndex(Hash(Utf16(name.s)))]
  }

  /** The colour of a name is the entry picked by its wrapped polynomial hash. */
  lemma BackgroundColorSpec(s: string)
    requires s != ""
    ensures BackgroundColor(Text(s)) == Colors[ColorIndex(ToInt32(Polynomial(Utf16(s))))]
  {
    HashIsPolynomial(Utf16(s));
  }

  // ---------------------------------------------------------------------------
  // Class mappings

  const SizeNames: set<string> := {"xs", "sm", "md", "lg", "xl"}

  /** The size a size key stands for: unknown keys stand for `md`. */
  function EffectiveSize(size: string): (r: string)
    ensures r in SizeNames
    ensures size in SizeNames ==> r == size
  {
    if size in SizeNames then size else "md"
  }

  /** `getSizeClasses(size)`. */
  function SizeClasses(size: string): string
  {
    match size
    case "xs" => "w-6 h-6 text-xs"
    case "sm" => "w-8 h-8 text-sm"
    case "md" => "w-10 h-10 text-base"
    case "lg" => "w-12 h-12 text-lg"
    case "xl" => "w-16 h-16 text-xl"
    case _ => "w-10 h-10 text-base"
  }

  /** Two sizes get the same classes exactly when they stand for the same size. */
  lemma SizeClassesIff(a: string, b: string)
    ensures SizeClasses(a) == SizeClasses(b) <==> EffectiveSize(a) == EffectiveSize(b)
    ensures SizeClasses(a) == SizeClasses(EffectiveSize(a))
  {
  }

  const StatusNames: set<string> := {"online", "offline", "busy", "away"}

  /** The status a status key stands for: unknown keys look like `offline`. */
  function EffectiveStatus(status: string): (r: string)
    ensures r in StatusNames
    ensures status in StatusNames ==> r == status
  {
    if status in StatusNames then status else "offline"
  }

  /** `getStatusColor(status)`. */
  function StatusColor(status: string): string
  {
    match status
    case "online" => "bg-green-400"
    case "offline" => "bg-gray-400"
    case "busy" => "bg-red-400"
    case "away" => "bg-yellow-400"
    case _ => "bg-gray-400"
  }

  /** Two statuses get the same dot colour exactly when they stand for the same status. */
  lemma StatusColorIff(a: string, b: string)
    ensures StatusColor(a) == StatusColor(b) <==> EffectiveStatus(a) == EffectiveStatus(b)
    ensures StatusColor(a) == StatusColor(EffectiveStatus(a))
  {
  }

  /** `getVariantClasses(variant)`: `circle` and unknown variants are round. */
  function VariantClasses(variant: string): (r: string)
    ensures r == "rounded-lg" <==> variant == "rounded"
    ensures r == "rounded-none" <==> variant == "square"
    ensures variant != "rounded" && variant != "square" ==> r == "rounded-full"
  {
    match variant
    case "rounded" => "rounded-lg"
    case "square" => "rounded-none"
    case _ => "rounded-full"
  }
}
