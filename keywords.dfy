/** The keyword matcher: `matchEventToWasteType` maps a calendar event title to a
    waste type id through the ordered `calendarKeywords` table. */
module Keywords {
  import opened Wrappers
  import opened Text

  /** The `calendarKeywords` object in its enumeration order: pairs (keyword, waste type id). */
  type KeywordTable = seq<(string, string)>

  /** The waste type of the first keyword of `table` that occurs in `lowered`. */
  function FirstKeywordMatch(table: KeywordTable, lowered: string): (r: Option<string>)
    ensures r.Some? ==> exists i :: 0 <= i < |table| && Contains(lowered, table[i].0) && table[i].1 == r.value
  {
    if table == [] then None
    else if Contains(lowered, table[0].0) then Some(table[0].1)
    else FirstKeywordMatch(table[1..], lowered)
  }

  /** Entry `i` is the earliest entry whose keyword occurs in `lowered`. */
  ghost predicate IsFirstMatch(table: KeywordTable, lowered: string, i: nat) {
    && i < |table|
    && Contains(lowered, table[i].0)
    && forall j :: 0 <= j < i ==> !Contains(lowered, table[j].0)
  }

  /** `FirstKeywordMatch` is the earliest-keyword rule: it yields the waste type of
      the earliest entry whose keyword occurs, and nothing exactly when no keyword occurs. */
  lemma {:induction false} FirstKeywordMatchIsEarliest(table: KeywordTable, lowered: string)
    ensures FirstKeywordMatch(table, lowered).None?
        <==> forall i :: 0 <= i < |table| ==> !Contains(lowered, table[i].0)
    ensures forall i: nat :: (IsFirstMatch(table, lowered, i)
                              ==> FirstKeywordMatch(table, lowered) == Some(table[i].1))
    ensures FirstKeywordMatch(table, lowered).Some?
        ==> exists i: nat :: IsFirstMatch(table, lowered, i)
  {
    if table != [] {
      var rest := table[1..];
      FirstKeywordMatchIsEarliest(rest, lowered);
      if Contains(lowered, table[0].0) {
        assert IsFirstMatch(table, lowered, 0);
        forall i: nat | IsFirstMatch(table, lowered, i)
          ensures i == 0
        {
        }
      } else {
        forall i: nat | IsFirstMatch(table, lowered, i)
          ensures FirstKeywordMatch(table, lowered) == Some(table[i].1)
        {
          assert IsFirstMatch(rest, lowered, i - 1);
        }
        if FirstKeywordMatch(rest, lowered).Some? {
          var i: nat :| IsFirstMatch(rest, lowered, i);
          assert IsFirstMatch(table, lowered, i + 1);
        }
        if forall i :: 0 <= i < |rest| ==> !Contains(lowered, rest[i].0) {
          forall i | 0 <= i < |table|
            ensures !Contains(lowered, table[i].0)
          {
            if i > 0 { assert table[i] == rest[i - 1]; }
          }
        }
      }
    }
  }

  /** What `matchEventToWasteType(title)` returns: null for an absent or empty
      title, otherwise the earliest-keyword match in the lower-cased title. */
  function MatchWasteType(table: KeywordTable, title: Option<string>): (r: Option<string>)
    ensures title.None? || title.value == [] ==> r.None?
    ensures r.Some? ==> title.Some? && exists i :: (0 <= i < |table| && table[i].1 == r.value
                                                    && Contains(ToLower(title.value), table[i].0))
  {
    if title.None? || title.value == [] then None
    else
      var lowered := ToLower(title.value);
      FirstKeywordMatchIsEarliest(table, lowered);
      FirstKeywordMatch(table, lowered)
  }

  /** Matching ignores the case of the title. */
  lemma MatchIgnoresCase(table: KeywordTable, title: string)
    ensures MatchWasteType(table, Some(ToLower(title))) == MatchWasteType(table, Some(title))
  {
    assert ToLower(ToLower(title)) == ToLower(title);
  }

  /** `matchEventToWasteType`: the `for ... in` walk over the keyword table with its
      early return. */
  method MatchEventToWasteType(keywords: KeywordTable, title: Option<string>)
      returns (wasteType: Option<string>)
    ensures wasteType == MatchWasteType(keywords, title)
  {
    if title.None? || title.value == [] {
      return None;
    }
    var titleLower := ToLower(title.value);
    var i := 0;
    while i < |keywords|
      invariant 0 <= i <= |keywords|
      invariant FirstKeywordMatch(keywords[i..], titleLower) == FirstKeywordMatch(keywords, titleLower)
    {
      var (keyword, mapped) := keywords[i];
      if Contains(titleLower, keyword) {
        return Some(mapped);
      }
      assert keywords[i..][1..] == keywords[i + 1..];
      i := i + 1;
    }
    return None;
  }
}
