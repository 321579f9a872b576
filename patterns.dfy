/** The regular expressions of the scrapers, each written out as the match
    Python's `re` engine finds: a matcher that says what matches at one index,
    and a left-to-right search for the leftmost index that matches. */
module Patterns {
  import opened Wrappers
  import opened Strings

  /** Tries the matcher at `i`, `i + 1`, ... and returns the first match
      (`re.search` from index `i`). */
  function SearchFrom(s: string, i: nat, m: (string, nat) -> Option<string>): Option<string>
    requires i <= |s|
    decreases |s| - i
  {
    if m(s, i).Some? then m(s, i)
    else if i == |s| then None
    else SearchFrom(s, i + 1, m)
  }

  function Search(s: string, m: (string, nat) -> Option<string>): Option<string> {
    SearchFrom(s, 0, m)
  }

  /** A search finds the leftmost index where the matcher succeeds, and
      finds nothing exactly when no index matches. */
  lemma {:induction false} SearchFromIsLeftmost(s: string, i: nat, m: (string, nat) -> Option<string>)
    requires i <= |s|
    ensures SearchFrom(s, i, m).Some? ==>
              exists j :: i <= j <= |s| && m(s, j) == SearchFrom(s, i, m)
                          && forall k :: i <= k < j ==> m(s, k).None?
    ensures SearchFrom(s, i, m).None? <==> forall j :: i <= j <= |s| ==> m(s, j).None?
    decreases |s| - i
  {
    if m(s, i).Some? {
    } else if i == |s| {
    } else {
      SearchFromIsLeftmost(s, i + 1, m);
      if SearchFrom(s, i + 1, m).Some? {
        var j :| i + 1 <= j <= |s| && m(s, j) == SearchFrom(s, i + 1, m)
                 && forall k :: i + 1 <= k < j ==> m(s, k).None?;
        assert forall k :: i <= k < j ==> m(s, k).None?;
      }
    }
  }

  lemma SearchIsLeftmost(s: string, m: (string, nat) -> Option<string>)
    ensures Search(s, m).Some? ==>
              exists j :: 0 <= j <= |s| && m(s, j) == Search(s, m)
                          && forall k :: 0 <= k < j ==> m(s, k).None?
    ensures Search(s, m).None? <==> forall j :: 0 <= j <= |s| ==> m(s, j).None?
  {
    SearchFromIsLeftmost(s, 0, m);
  }

  predicate Digits(s: string) {
    forall i :: 0 <= i < |s| ==> IsDigit(s[i])
  }

  // ---------------------------------------------------------------------
  // (\d{1,2}\.\d{1,2}\.\d{4}) -- a due date such as 15.3.2025

  /** `t` starts with a date whose day and month have `a` and `b` digits. */
  predicate DateShape(t: string, a: nat, b: nat) {
    1 <= a <= 2 && 1 <= b <= 2 && |t| >= a + b + 6
    && Digits(t[..a]) && t[a] == '.' && Digits(t[a + 1..a + 1 + b])
    && t[a + 1 + b] == '.' && Digits(t[a + b + 2..a + b + 6])
  }

  /** `d` is a whole D.M.YYYY / DD.MM.YYYY date. */
  ghost predicate IsDate(d: string) {
    exists a: nat, b: nat :: DateShape(d, a, b) && |d| == a + b + 6
  }

  /** Cutting a text right after a date it starts with keeps the date. */
  lemma DateShapePrefix(t: string, a: nat, b: nat)
    requires DateShape(t, a, b)
    ensures IsDate(t[..a + b + 6])
  {
    var d := t[..a + b + 6];
    assert d[..a] == t[..a];
    assert d[a + 1..a + 1 + b] == t[a + 1..a + 1 + b];
    assert d[a + b + 2..a + b + 6] == t[a + b + 2..a + b + 6];
    assert DateShape(d, a, b);
  }

  /** The date the regex matches at index `i`; the greedy `\d{1,2}` tries
      two digits before one, for the day and then for the month. */
  function DateAt(s: string, i: nat): (r: Option<string>)
    ensures r.Some? ==> i <= |s| && OccursAt(s, r.value, i) && IsDate(r.value)
    ensures r.None? <==> i > |s| || forall a: nat, b: nat :: !DateShape(s[i..], a, b)
  {
    if i > |s| then None
    else
      var t := s[i..];
      if DateShape(t, 2, 2) then DateShapePrefix(t, 2, 2); Some(t[..10])
      else if DateShape(t, 2, 1) then DateShapePrefix(t, 2, 1); Some(t[..9])
      else if DateShape(t, 1, 2) then DateShapePrefix(t, 1, 2); Some(t[..9])
      else if DateShape(t, 1, 1) then DateShapePrefix(t, 1, 1); Some(t[..8])
      else None
  }

  /** `re.search(r'(\d{1,2}\.\d{1,2}\.\d{4})', s)`. */
  function FindDate(s: string): Option<string> {
    Search(s, DateAt)
  }

  /** The due date found is a whole date occurring in the text, none is
      found exactly when no date occurs, and no date starts before it. */
  lemma FindDateSpec(s: string)
    ensures FindDate(s).Some? ==> IsDate(FindDate(s).value) && Contains(s, FindDate(s).value)
    ensures FindDate(s).Some? ==> exists j :: OccursAt(s, FindDate(s).value, j)
                                              && forall k :: 0 <= k < j ==> DateAt(s, k).None?
    ensures FindDate(s).None? <==> forall j :: 0 <= j <= |s| ==> DateAt(s, j).None?
  {
    SearchIsLeftmost(s, DateAt);
    if FindDate(s).Some? {
      var j :| 0 <= j <= |s| && DateAt(s, j) == FindDate(s)
               && forall k :: 0 <= k < j ==> DateAt(s, k).None?;
      ContainsAt(s, FindDate(s).value, j);
    }
  }

  // ---------------------------------------------------------------------
  // re.sub(r',.*?tel:.*', '', text) and re.sub(r',\s*\d+.*', '', text)

  /** The index of the first line break in `s`, or `|s|`: where `.*` stops. */
  function LineEnd(s: string): (n: nat)
    ensures n <= |s| && (n < |s| ==> s[n] == '\n')
    ensures forall k :: 0 <= k < n ==> s[k] != '\n'
    decreases |s|
  {
    if s == [] || s[0] == '\n' then 0 else 1 + LineEnd(s[1..])
  }

  /** Length of the match of `,.*?tel:.*` at the start of `t`: a comma with
      "tel:" later on the same line; the match runs to the end of the line. */
  function TelMatch(t: string): (r: Option<nat>)
    ensures r.Some? ==> 1 <= r.value <= |t| && t[0] == ','
  {
    if t != [] && t[0] == ',' && Contains(t[1..LineEnd(t)], "tel:") then Some(LineEnd(t))
    else None
  }

  /** Length of the match of `,\s*\d+.*` at the start of `t`: a comma, any
      whitespace (line breaks included), a digit, then the rest of that line. */
  function NumberMatch(t: string): (r: Option<nat>)
    ensures r.Some? ==> 1 <= r.value <= |t| && t[0] == ','
  {
    if t != [] && t[0] == ',' then
      var u := TrimStart(t[1..]);
      var j := |t| - |u|;
      if u != [] && IsDigit(u[0]) then Some(j + LineEnd(u)) else None
    else None
  }

  /** `re.sub(r',.*?tel:.*', '', s)`. */
  function RemoveTelSuffix(s: string): string
    decreases |s|
  {
    if s == [] then []
    else match TelMatch(s)
      case Some(n) => RemoveTelSuffix(s[n..])
      case None => [s[0]] + RemoveTelSuffix(s[1..])
  }

  /** `re.sub(r',\s*\d+.*', '', s)`. */
  function RemoveNumberSuffix(s: string): string
    decreases |s|
  {
    if s == [] then []
    else match NumberMatch(s)
      case Some(n) => RemoveNumberSuffix(s[n..])
      case None => [s[0]] + RemoveNumberSuffix(s[1..])
  }

  /** Both substitutions leave text without a comma untouched. */
  lemma {:induction false} RemoveSuffixesWithoutComma(s: string)
    requires ',' !in s
    ensures RemoveTelSuffix(s) == s && RemoveNumberSuffix(s) == s
    decreases |s|
  {
    if s != [] {
      assert ',' !in s[1..];
      RemoveSuffixesWithoutComma(s[1..]);
      assert s == [s[0]] + s[1..];
    }
  }

  /** On a single line a match runs to the end of the text. */
  lemma SingleLineEnd(s: string)
    requires '\n' !in s
    ensures LineEnd(s) == |s|
  {
  }

  /** On a single line the tel: substitution cuts the text at a comma, so
      what remains is a prefix. */
  lemma {:induction false} RemoveTelSuffixSingleLine(s: string)
    requires '\n' !in s
    ensures RemoveTelSuffix(s) <= s
    decreases |s|
  {
    if s != [] {
      SingleLineEnd(s);
      if TelMatch(s).None? {
        assert '\n' !in s[1..];
        RemoveTelSuffixSingleLine(s[1..]);
      }
    }
  }

  /** The same for the house-number substitution. */
  lemma {:induction false} RemoveNumberSuffixSingleLine(s: string)
    requires '\n' !in s
    ensures RemoveNumberSuffix(s) <= s
    decreases |s|
  {
    if s != [] {
      if NumberMatch(s).Some? {
        var u := TrimStart(s[1..]);
        assert '\n' !in u;
        SingleLineEnd(u);
        assert RemoveNumberSuffix(s) == RemoveNumberSuffix(s[|s|..]);
      } else {
        assert '\n' !in s[1..];
        RemoveNumberSuffixSingleLine(s[1..]);
      }
    }
  }

  // ---------------------------------------------------------------------
  // \b(19|20)\d{2}\b -- a publication year

  /** The year matched at `i`: "19dd" or "20dd" with a word boundary on
      both sides (the characters around it are not `\w`). */
  function YearAt(s: string, i: nat): (r: Option<string>)
    ensures r.Some? ==> OccursAt(s, r.value, i) && |r.value| == 4
                        && (r.value[..2] == "19" || r.value[..2] == "20") && Digits(r.value[2..])
                        && (i == 0 || !IsWordChar(s[i - 1])) && (i + 4 == |s| || !IsWordChar(s[i + 4]))
  {
    if i + 4 <= |s| && (s[i..i + 2] == "19" || s[i..i + 2] == "20")
       && IsDigit(s[i + 2]) && IsDigit(s[i + 3])
       && (i == 0 || !IsWordChar(s[i - 1]))
       && (i + 4 == |s| || !IsWordChar(s[i + 4]))
    then
      var y := s[i..i + 4];
      assert y[..2][0] == s[i..i + 2][0] && y[..2][1] == s[i..i + 2][1];
      assert y[..2] == s[i..i + 2];
      assert y[2..] == [s[i + 2], s[i + 3]];
      assert OccursAt(s, y, i);
      Some(y)
    else None
  }

  /** `re.search(r'\b(19|20)\d{2}\b', s).group(0)`. */
  function FindYear(s: string): Option<string> {
    Search(s, YearAt)
  }

  // ---------------------------------------------------------------------
  // (\d+)\s*str -- a page count such as "352 str."

  /** The digits the pattern captures at `i`: the digit run from `i`, when
      it is followed by optional whitespace and "str". */
  function PagesAt(s: string, i: nat): (r: Option<string>)
    ensures r.Some? ==> OccursAt(s, r.value, i) && r.value != [] && Digits(r.value)
  {
    if i < |s| && IsDigit(s[i]) then
      var d := Run(s[i..], IsDigit);
      var rest := TrimStart(s[i + |d|..]);
      if "str" <= rest then Some(d) else None
    else None
  }

  /** `re.search(r'(\d+)\s*str', s).group(1)`. */
  function FindPages(s: string): Option<string> {
    Search(s, PagesAt)
  }

  // ---------------------------------------------------------------------
  // \[(.*?)\] -- a contributor role in brackets

  /** The role captured at `i`: from '[' to the first ']' after it, when no
      line break comes first. */
  function RoleAt(s: string, i: nat): (r: Option<string>)
    ensures r.Some? ==> OccursAt(s, "[" + r.value + "]", i) && ']' !in r.value && '\n' !in r.value
  {
    if i < |s| && s[i] == '[' then
      var c := Run(s[i + 1..], ch => ch != ']' && ch != '\n');
      if i + 1 + |c| < |s| && s[i + 1 + |c|] == ']' then
        assert All(c, ch => ch != ']' && ch != '\n');
        assert s[i..i + |c| + 2] == "[" + c + "]";
        Some(c)
      else None
    else None
  }

  /** `re.search(r'\[(.*?)\]', s).group(1)`. */
  function FindRole(s: string): Option<string> {
    Search(s, RoleAt)
  }

  // ---------------------------------------------------------------------
  // selectedId=(\d+) -- the catalogue id in a record link

  /** The digits after "selectedId=" at `i`, when there is at least one. */
  function SelectedIdAt(s: string, i: nat): (r: Option<string>)
    ensures r.Some? ==> OccursAt(s, "selectedId=" + r.value, i) && r.value != [] && Digits(r.value)
  {
    if i <= |s| && "selectedId=" <= s[i..] && i + 11 < |s| && IsDigit(s[i + 11]) then
      var d := Run(s[i + 11..], IsDigit);
      assert s[i..i + 11 + |d|] == "selectedId=" + d;
      Some(d)
    else None
  }

  /** `re.search(r'selectedId=(\d+)', s).group(1)`. */
  function FindSelectedId(s: string): Option<string> {
    Search(s, SelectedIdAt)
  }

  /** Whatever a search with one of these matchers returns occurs in the
      searched text. */
  lemma {:induction false} FoundOccurs(s: string, m: (string, nat) -> Option<string>, wrap: string -> string)
    requires forall j: nat :: m(s, j).Some? ==> OccursAt(s, wrap(m(s, j).value), j)
    ensures Search(s, m).Some? ==> Contains(s, wrap(Search(s, m).value))
  {
    SearchIsLeftmost(s, m);
    if Search(s, m).Some? {
      var j :| 0 <= j <= |s| && m(s, j) == Search(s, m) && forall k :: 0 <= k < j ==> m(s, k).None?;
      ContainsAt(s, wrap(Search(s, m).value), j);
    }
  }
}
