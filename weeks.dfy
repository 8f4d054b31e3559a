/**
 * The week filter of the mock-exam generator: `"04-08,11"` selects weeks
 * 04 to 08 and 11; an empty filter or `all` selects every week (the empty
 * set means "no restriction"); tokens that do not convert are skipped.
 */
module WeekRange {
  import opened Wrappers
  import opened Strings
  import opened PyInt

  /** The zero-padded week ids `f"{w:02d}"` for `a <= w <= b`, as
      `range(a, b + 1)` produces them. */
  function PaddedRange(a: int, b: int): set<string> {
    set w: int | a <= w <= b :: Pad2(w)
  }

  /** `not week_str or week_str.lower() == 'all'`. */
  predicate Unrestricted(s: string) {
    s == "" || (|s| == 3 && LowerChar(s[0]) == 'a' && LowerChar(s[1]) == 'l' && LowerChar(s[2]) == 'l')
  }

  /** The ids contributed by one stripped token. A token holding `-` is a range
      and must split into exactly two convertible ends; any other token must
      convert as a whole. A failed conversion (Python's `ValueError`, also
      raised when unpacking the wrong number of ends) contributes nothing. */
  function TokenWeeks(part: string): set<string> {
    if '-' in part then
      var ends := Split(part, '-');
      if |ends| == 2 then
        match (ParseInt(ends[0]), ParseInt(ends[1]))
        case (Some(a), Some(b)) => PaddedRange(a, b)
        case _ => {}
      else {}
    else
      match ParseInt(part)
      case Some(n) => {Pad2(n)}
      case None => {}
  }

  /** What one comma-separated token (before stripping) contributes. */
  function Contribution(part: string): set<string> {
    TokenWeeks(Strip(part))
  }

  /** The union of `f(p)` over the parts `p`, accumulated left to right. */
  function Union(parts: seq<string>, f: string -> set<string>): set<string>
    decreases |parts|
  {
    if |parts| == 0 then {}
    else Union(parts[..|parts| - 1], f) + f(parts[|parts| - 1])
  }

  /** The union of the contributions of `parts`. */
  function TokensWeeks(parts: seq<string>): set<string> {
    Union(parts, Contribution)
  }

  /** The set `parse_week_range` returns. */
  function Weeks(s: string): set<string> {
    if Unrestricted(s) then {} else TokensWeeks(Split(s, ','))
  }

  /** The loop body of `range(start, end + 1)`: adds the padded ids of `a..b`. */
  method AddRange(weeks: set<string>, a: int, b: int) returns (result: set<string>)
    ensures result == weeks + PaddedRange(a, b)
  {
    result := weeks;
    var w := a;
    while w <= b
      invariant a <= w
      invariant w <= b + 1 || w == a
      invariant result == weeks + PaddedRange(a, w - 1)
    {
      assert PaddedRange(a, w) == PaddedRange(a, w - 1) + {Pad2(w)};
      result := result + {Pad2(w)};
      w := w + 1;
    }
    assert PaddedRange(a, w - 1) == PaddedRange(a, b);
  }

  /** The body of the token loop: adds what one stripped token contributes. */
  method AddToken(weeks: set<string>, part: string) returns (result: set<string>)
    ensures result == weeks + TokenWeeks(part)
  {
    result := weeks;
    if '-' in part {
      var ends := Split(part, '-');
      if |ends| == 2 {
        var start := ParseInt(ends[0]);
        var end := ParseInt(ends[1]);
        if start.Some? && end.Some? {
          result := AddRange(weeks, start.value, end.value);
        }
      }
    } else {
      var n := ParseInt(part);
      if n.Some? {
        result := weeks + {Pad2(n.value)};
      }
    }
  }

  /** `parse_week_range`: splits on commas and accumulates each token's ids. */
  method ParseWeekRange(weekStr: string) returns (weeks: set<string>)
    ensures weeks == Weeks(weekStr)
  {
    if weekStr == "" || Unrestricted(weekStr) {
      return {};
    }
    weeks := {};
    var parts := Split(weekStr, ',');
    var i := 0;
    while i < |parts|
      invariant 0 <= i <= |parts|
      invariant weeks == TokensWeeks(parts[..i])
    {
      weeks := AddToken(weeks, Strip(parts[i]));
      TokensWeeksStep(parts, i);
      i := i + 1;
    }
    assert parts[..|parts|] == parts;
  }

  lemma TokensWeeksStep(parts: seq<string>, i: nat)
    requires i < |parts|
    ensures TokensWeeks(parts[..i + 1]) == TokensWeeks(parts[..i]) + Contribution(parts[i])
  {
    UnionStep(parts, Contribution, i);
  }

  /** Extending the parts by one grows the union by that part's set. */
  lemma UnionStep(parts: seq<string>, f: string -> set<string>, i: nat)
    requires i < |parts|
    ensures Union(parts[..i + 1], f) == Union(parts[..i], f) + f(parts[i])
  {
    assert parts[..i + 1][..i] == parts[..i];
  }

  /** Some token of `parts` contributes `w`. */
  predicate Contributes(parts: seq<string>, w: string) {
    exists i :: 0 <= i < |parts| && w in Contribution(parts[i])
  }

  /** An element is in a union exactly when one of the united sets holds it. */
  lemma {:induction false} UnionMembership(parts: seq<string>, f: string -> set<string>, w: string)
    ensures w in Union(parts, f) <==> exists i :: 0 <= i < |parts| && w in f(parts[i])
    decreases |parts|
  {
    if |parts| > 0 {
      var init := parts[..|parts| - 1];
      UnionMembership(init, f, w);
      if w in Union(init, f) {
        var i :| 0 <= i < |init| && w in f(init[i]);
        assert parts[i] == init[i];
      }
      if exists i :: 0 <= i < |parts| && w in f(parts[i]) {
        var i :| 0 <= i < |parts| && w in f(parts[i]);
        if i < |parts| - 1 { assert init[i] == parts[i]; }
      }
    }
  }

  /** An id is in the union exactly when some token contributes it. */
  lemma TokensWeeksMembership(parts: seq<string>, w: string)
    ensures w in TokensWeeks(parts) <==> Contributes(parts, w)
  {
    UnionMembership(parts, Contribution, w);
  }

  /** The default filter `all`, its other spellings and the empty filter
      restrict nothing. */
  lemma UnrestrictedFilters()
    ensures Unrestricted("") && Unrestricted("all") && Unrestricted("ALL") && Unrestricted("All")
    ensures Weeks("") == {} && Weeks("all") == {} && Weeks("ALL") == {} && Weeks("All") == {}
  {
    assert LowerChar('A') == 'a' && LowerChar('L') == 'l';
  }

  /** Any other filter selects exactly the weeks its comma-separated tokens contribute. */
  lemma WeeksMembership(s: string, w: string)
    requires !Unrestricted(s)
    ensures w in Weeks(s) <==> Contributes(Split(s, ','), w)
  {
    TokensWeeksMembership(Split(s, ','), w);
  }

  predicate AllDigits(t: string) {
    |t| > 0 && forall i :: 0 <= i < |t| ==> IsDigit(t[i])
  }

  /** A range token `a-b` of two digit strings contributes the padded ids of
      `a..b` inclusive, and nothing when the range is reversed. */
  lemma RangeToken(ta: string, tb: string)
    requires AllDigits(ta) && AllDigits(tb)
    ensures TokenWeeks(ta + "-" + tb) == PaddedRange(GroupsValue(ta), GroupsValue(tb))
    ensures GroupsValue(ta) > GroupsValue(tb) ==> TokenWeeks(ta + "-" + tb) == {}
  {
    SplitAtDash(ta, tb);
    ParseDigits(ta);
    ParseDigits(tb);
  }

  lemma SplitAtDash(ta: string, tb: string)
    requires AllDigits(ta) && AllDigits(tb)
    ensures '-' in ta + "-" + tb
    ensures Split(ta + "-" + tb, '-') == [ta, tb]
  {
    var t := ta + "-" + tb;
    assert t[|ta|] == '-';
    assert '-' !in ta && '-' !in tb;
    SplitAfterPiece(ta, '-', tb);
    SplitNoSep(tb, '-');
  }

  /** A single digit token contributes its own padded id. */
  lemma SingleToken(t: string)
    requires AllDigits(t)
    ensures TokenWeeks(t) == {Pad2(GroupsValue(t))}
  {
    ParseDigits(t);
  }

  /** A filter without commas is one token. */
  lemma OneToken(s: string)
    requires !Unrestricted(s) && ',' !in s
    ensures Weeks(s) == Contribution(s)
  {
    SplitNoSep(s, ',');
    assert Weeks(s) == TokensWeeks([s]);
    assert [s][..0] == [];
    assert TokensWeeks([s]) == TokensWeeks([]) + Contribution(s);
  }

  /** A filter that is one token without surrounding whitespace is that token. */
  lemma CleanToken(s: string)
    requires !Unrestricted(s) && ',' !in s
    requires !IsSpace(s[0]) && !IsSpace(s[|s| - 1])
    ensures Weeks(s) == TokenWeeks(s)
  {
    OneToken(s);
    StripClean(s);
  }

  /** A token without a dash and without digits does not convert. */
  lemma WordSkipped(t: string)
    requires '-' !in t
    requires forall i :: 0 <= i < |t| ==> !IsDigit(t[i])
    ensures TokenWeeks(t) == {}
  {
  }

  /** A token whose first character is a dash has an empty start, and `int("")` fails. */
  lemma MissingStart(t: string)
    requires |t| > 0 && t[0] == '-'
    ensures TokenWeeks(t) == {}
  {
    assert t[0] in t;
    assert Split(t, '-')[0] == "";
    assert ParseInt("") == None;
  }

  /** A token with more than one dash has too many ends to unpack. */
  lemma TooManyEnds(ta: string, tb: string, tc: string)
    requires '-' !in ta && '-' !in tb && '-' !in tc
    ensures TokenWeeks(ta + "-" + tb + "-" + tc) == {}
  {
    var t := ta + "-" + tb + "-" + tc;
    assert t == ta + ['-'] + (tb + ['-'] + tc);
    assert t[|ta|] == '-';
    SplitAfterPiece(ta, '-', tb + ['-'] + tc);
    SplitAfterPiece(tb, '-', tc);
    SplitNoSep(tc, '-');
    assert |Split(t, '-')| == 3;
  }

  /** The facts about the characters of `xx` that the lemmas above need. */
  lemma WordFacts()
    ensures !Unrestricted("xx") && ',' !in "xx" && '-' !in "xx"
    ensures !IsSpace("xx"[0]) && !IsSpace("xx"[|"xx"| - 1])
    ensures forall i :: 0 <= i < |"xx"| ==> !IsDigit("xx"[i])
  {
  }

  /** `xx` is not a number and is skipped. */
  lemma WordTokenSkipped()
    ensures Weeks("xx") == {}
  {
    WordFacts();
    CleanToken("xx");
    WordSkipped("xx");
  }

  lemma ThreeEndsFacts()
    ensures !Unrestricted("1-2-3") && ',' !in "1-2-3"
    ensures !IsSpace("1-2-3"[0]) && !IsSpace("1-2-3"[|"1-2-3"| - 1])
    ensures '-' !in "1" && '-' !in "2" && '-' !in "3"
    ensures "1" + "-" + "2" + "-" + "3" == "1-2-3"
  {
  }

  /** `1-2-3` has three ends and is skipped. */
  lemma ThreeEndsSkipped()
    ensures Weeks("1-2-3") == {}
  {
    ThreeEndsFacts();
    CleanToken("1-2-3");
    TooManyEnds("1", "2", "3");
  }

  lemma MissingStartFacts()
    ensures !Unrestricted("-3") && ',' !in "-3"
    ensures !IsSpace("-3"[0]) && !IsSpace("-3"[|"-3"| - 1])
    ensures |"-3"| > 0 && "-3"[0] == '-'
  {
  }

  /** `-3` has no start and is skipped. */
  lemma MissingStartSkipped()
    ensures Weeks("-3") == {}
  {
    MissingStartFacts();
    CleanToken("-3");
    MissingStart("-3");
  }

  lemma SeparatorEndFacts()
    ensures !Unrestricted("4\U{1c}-8") && ',' !in "4\U{1c}-8"
    ensures !IsSpace("4\U{1c}-8"[0]) && !IsSpace("4\U{1c}-8"[|"4\U{1c}-8"| - 1])
    ensures "4\U{1c}-8" == "4\U{1c}" + ['-'] + "8"
    ensures '-' !in "4\U{1c}" && '-' !in "8"
  {
  }

  /** In `4\x1c-8` the start keeps its trailing separator, because only the
      whole token is stripped; `int()` rejects it and the token is skipped. */
  lemma SeparatorEndSkipped()
    ensures Weeks("4\U{1c}-8") == {}
  {
    SeparatorEndFacts();
    CleanToken("4\U{1c}-8");
    SeparatorEndToken();
  }

  lemma SeparatorEndToken()
    ensures TokenWeeks("4\U{1c}-8") == {}
  {
    var t := "4\U{1c}-8";
    assert t == "4\U{1c}" + ['-'] + "8";
    assert t[2] == '-';
    SplitAfterPiece("4\U{1c}", '-', "8");
    SplitNoSep("8", '-');
    assert Split(t, '-') == ["4\U{1c}", "8"];
    IntKeepsSeparators();
  }

  /** A filter of two tokens selects what either token contributes. */
  lemma TwoTokens(a: string, b: string)
    requires ',' !in a && ',' !in b && !Unrestricted(a + "," + b)
    ensures Weeks(a + "," + b) == Contribution(a) + Contribution(b)
  {
    SplitJoin([a, b], ',');
    assert Join([a, b], ',') == a + "," + b;
    var parts := [a, b];
    assert parts[..1] == [a];
    assert TokensWeeks([a]) == TokensWeeks([]) + Contribution(a);
  }

  lemma ExampleFacts()
    ensures "04-08" + "," + "11" == "04-08,11"
    ensures ',' !in "04-08" && ',' !in "11" && !Unrestricted("04-08,11")
    ensures !IsSpace("04-08"[0]) && !IsSpace("04-08"[|"04-08"| - 1])
    ensures !IsSpace("11"[0]) && !IsSpace("11"[|"11"| - 1])
    ensures "04" + "-" + "08" == "04-08"
    ensures AllDigits("04") && AllDigits("08") && AllDigits("11")
  {
  }

  lemma ExampleValues()
    ensures GroupsValue("04") == 4 && GroupsValue("08") == 8 && GroupsValue("11") == 11
    ensures Pad2(11) == "11"
  {
  }

  /** The filter `04-08,11` selects weeks 04, 05, 06, 07, 08 and 11. */
  lemma ExampleFilter()
    ensures Weeks("04-08,11") == {"04", "05", "06", "07", "08", "11"}
  {
    ExampleFacts();
    ExampleValues();
    TwoTokens("04-08", "11");
    StripClean("04-08");
    StripClean("11");
    RangeToken("04", "08");
    SingleToken("11");
    WeeksFourToEight();
  }

  lemma WeeksFourToEight()
    ensures PaddedRange(4, 8) == {"04", "05", "06", "07", "08"}
  {
    assert Pad2(4) == "04" && Pad2(5) == "05" && Pad2(6) == "06" && Pad2(7) == "07" && Pad2(8) == "08";
    assert PaddedRange(4, 8) == {Pad2(4), Pad2(5), Pad2(6), Pad2(7), Pad2(8)};
  }
}
