/** Python string operations the chatbot and the scrapers rely on, stated over
    `seq<char>`: `str.isspace`/`strip`, `lower`, substring search with `in`,
    `split()` on whitespace, `split(sep)`, `join`, `replace` and the `\w+`
    tokenisation of `re.findall`. */
module Strings {
  import opened Wrappers

  /** Python's `str.isspace` for one character: the ASCII controls \t..\r and
      \x1c..\x1f, the space, and the Unicode separators Python counts. */
  predicate IsSpace(c: char) {
    c == ' ' || ('\t' <= c <= '\r') || ('\U{1C}' <= c <= '\U{1F}')
    || c == '\U{85}' || c == '\U{A0}' || c == '\U{1680}'
    || ('\U{2000}' <= c <= '\U{200A}') || c == '\U{2028}' || c == '\U{2029}'
    || c == '\U{202F}' || c == '\U{205F}' || c == '\U{3000}'
  }

  predicate IsDigit(c: char) {
    '0' <= c <= '9'
  }

  /** Python's regex `\w` on the letters this catalogue uses: ASCII letters,
      digits and '_', the Latin-1 letters and Latin Extended-A (which holds
      the Croatian letters). */
  predicate IsWordChar(c: char) {
    ('a' <= c <= 'z') || ('A' <= c <= 'Z') || IsDigit(c) || c == '_'
    || c == '\U{AA}' || c == '\U{B5}' || c == '\U{BA}'
    || ('\U{C0}' <= c <= '\U{17F}' && c != '\U{D7}' && c != '\U{F7}')
  }

  /** Python's `str.lower` on one character (ASCII, Latin-1 and the
      Croatian capitals Č, Ć, Đ, Š, Ž). */
  function LowerChar(c: char): (r: char)
    ensures IsWordChar(c) <==> IsWordChar(r)
    ensures !('A' <= r <= 'Z')
  {
    if 'A' <= c <= 'Z' || ('\U{C0}' <= c <= '\U{DE}' && c != '\U{D7}') then
      (c as int + 32) as char
    else if c == 'Č' || c == 'Ć' || c == 'Đ' || c == 'Š' || c == 'Ž' then
      (c as int + 1) as char
    else c
  }

  function Lower(s: string): (r: string)
    ensures |r| == |s|
    ensures forall i :: 0 <= i < |s| ==> r[i] == LowerChar(s[i])
  {
    seq(|s|, i requires 0 <= i < |s| => LowerChar(s[i]))
  }

  /** Lowercasing twice is lowercasing once. */
  lemma LowerIdempotent(s: string)
    ensures Lower(Lower(s)) == Lower(s)
  {
    forall i | 0 <= i < |s| ensures Lower(Lower(s))[i] == Lower(s)[i] {
      var c := s[i];
      assert LowerChar(LowerChar(c)) == LowerChar(c);
    }
  }

  /** `sub` occurs in `s` starting at index `i`. */
  predicate OccursAt(s: string, sub: string, i: int) {
    0 <= i && i + |sub| <= |s| && s[i..i + |sub|] == sub
  }

  /** Python's `sub in s`. */
  predicate Contains(s: string, sub: string) {
    exists i | 0 <= i <= |s| - |sub| :: OccursAt(s, sub, i)
  }

  /** `Contains` is the existence of an occurrence. */
  lemma ContainsIff(s: string, sub: string)
    ensures Contains(s, sub) <==> exists i :: OccursAt(s, sub, i)
  {
  }

  /** `sub in s` holds when `s` starts with `sub` or its tail contains it. */
  lemma ContainsStep(s: string, sub: string)
    ensures Contains(s, sub) <==> sub <= s || (s != [] && Contains(s[1..], sub))
  {
    if sub <= s {
      assert OccursAt(s, sub, 0);
    } else if s != [] {
      if Contains(s[1..], sub) {
        var i :| 0 <= i <= |s[1..]| - |sub| && OccursAt(s[1..], sub, i);
        assert OccursAt(s, sub, i + 1);
      }
      if Contains(s, sub) {
        var i :| 0 <= i <= |s| - |sub| && OccursAt(s, sub, i);
        assert !OccursAt(s, sub, 0);
        assert OccursAt(s[1..], sub, i - 1);
      }
    }
  }

  /** An occurrence at a known index makes `Contains` true. */
  lemma ContainsAt(s: string, sub: string, i: nat)
    requires OccursAt(s, sub, i)
    ensures Contains(s, sub)
  {
    ContainsIff(s, sub);
  }

  /** A string contains its own prefixes, suffixes and infixes. */
  lemma ContainsSlice(s: string, i: nat, j: nat)
    requires i <= j <= |s|
    ensures Contains(s, s[i..j])
  {
    assert OccursAt(s, s[i..j], i);
    ContainsAt(s, s[i..j], i);
  }

  /** A string contains each of its middle parts. */
  lemma ContainsInfix(a: string, x: string, b: string)
    ensures Contains(a + x + b, x)
  {
    assert (a + x + b)[|a|..|a| + |x|] == x;
    ContainsAt(a + x + b, x, |a|);
  }

  /** Concatenation is associative; stated for the solver's benefit on
      long sequences of records. */
  lemma AppendAssoc<T>(a: seq<T>, b: seq<T>, c: seq<T>)
    ensures (a + b) + c == a + (b + c)
  {
  }

  /** A prefix is the slice of its own length. */
  lemma PrefixIsSlice<T>(p: seq<T>, s: seq<T>)
    requires p <= s
    ensures p == s[..|p|]
  {
  }

  /** Text around a string keeps what it contains. */
  lemma ContainsExtend(s: string, sub: string, a: string, b: string)
    requires Contains(s, sub)
    ensures Contains(a + s + b, sub)
  {
    var i :| 0 <= i <= |s| - |sub| && OccursAt(s, sub, i);
    assert (a + s + b)[|a| + i..|a| + i + |sub|] == s[i..i + |sub|];
    assert OccursAt(a + s + b, sub, |a| + i);
  }

  /** What a part of a string contains, the string contains. */
  lemma ContainsTransitive(s: string, t: string, u: string)
    requires Contains(s, t) && Contains(t, u)
    ensures Contains(s, u)
  {
    var i :| 0 <= i <= |s| - |t| && OccursAt(s, t, i);
    var j :| 0 <= j <= |t| - |u| && OccursAt(t, u, j);
    forall k | 0 <= k < |u| ensures s[i + j + k] == u[k] {
      assert s[i..i + |t|][j + k] == t[j + k];
      assert t[j..j + |u|][k] == u[k];
    }
    assert s[i + j..i + j + |u|] == u;
    assert OccursAt(s, u, i + j);
  }

  /** A string that contains `a + b` contains `a`. */
  lemma ContainsConcatLeft(s: string, a: string, b: string)
    requires Contains(s, a + b)
    ensures Contains(s, a)
  {
    ContainsIff(s, a + b);
    var i :| OccursAt(s, a + b, i);
    assert s[i..i + |a|] == (a + b)[..|a|];
    ContainsAt(s, a, i);
  }

  /** A text that lacks one of the characters of `sub` does not contain
      `sub`. */
  lemma NotContainsMissingChar(s: string, sub: string, c: char)
    requires c in sub && c !in s
    ensures !Contains(s, sub)
  {
    var k :| 0 <= k < |sub| && sub[k] == c;
    forall i | 0 <= i <= |s| - |sub| ensures !OccursAt(s, sub, i) {
      assert s[i..i + |sub|][k] == s[i + k];
    }
  }

  /** Containing a one-character string is membership of that character. */
  lemma ContainsChar(s: string, c: char)
    ensures Contains(s, [c]) <==> c in s
  {
    ContainsIff(s, [c]);
    if c in s {
      var i :| 0 <= i < |s| && s[i] == c;
      assert OccursAt(s, [c], i);
    }
    if Contains(s, [c]) {
      var i :| OccursAt(s, [c], i);
      assert s[i] == s[i..i + 1][0];
    }
  }

  /** The part of `s` left after Python's `lstrip()`. */
  function TrimStart(s: string): (r: string)
    ensures |r| <= |s| && r == s[|s| - |r|..]
    ensures forall i :: 0 <= i < |s| - |r| ==> IsSpace(s[i])
    ensures r != [] ==> !IsSpace(r[0])
    decreases |s|
  {
    if s != [] && IsSpace(s[0]) then TrimStart(s[1..]) else s
  }

  /** The part of `s` left after Python's `rstrip()`. */
  function TrimEnd(s: string): (r: string)
    ensures |r| <= |s| && r == s[..|r|]
    ensures forall i :: |r| <= i < |s| ==> IsSpace(s[i])
    ensures r != [] ==> !IsSpace(r[|r| - 1])
    decreases |s|
  {
    if s != [] && IsSpace(s[|s| - 1]) then TrimEnd(s[..|s| - 1]) else s
  }

  /** `r` is the slice of `s` at `i` with only whitespace around it. */
  predicate SpaceBounded(s: string, r: string, i: int) {
    0 <= i && i + |r| <= |s| && r == s[i..i + |r|]
    && (forall k :: 0 <= k < i ==> IsSpace(s[k]))
    && (forall k :: i + |r| <= k < |s| ==> IsSpace(s[k]))
  }

  /** Python's `strip()`: the slice of `s` between its leading and trailing
      whitespace. */
  function Strip(s: string): (r: string)
    ensures exists i :: SpaceBounded(s, r, i)
    ensures r != [] ==> !IsSpace(r[0]) && !IsSpace(r[|r| - 1])
  {
    var t := TrimStart(s);
    var r := TrimEnd(t);
    assert SpaceBounded(s, r, |s| - |t|);
    r
  }

  /** A string without whitespace at either end is its own `strip()`. */
  lemma {:induction false} StripOfStripped(s: string)
    requires s != [] ==> !IsSpace(s[0]) && !IsSpace(s[|s| - 1])
    ensures Strip(s) == s
  {
    assert TrimStart(s) == s;
    assert TrimEnd(s) == s;
  }

  lemma StripIdempotent(s: string)
    ensures Strip(Strip(s)) == Strip(s)
  {
    StripOfStripped(Strip(s));
  }

  /** Python's `sep.join(xs)`. */
  function Join(sep: string, xs: seq<string>): string
    decreases |xs|
  {
    if xs == [] then "" else if |xs| == 1 then xs[0] else xs[0] + sep + Join(sep, xs[1..])
  }

  /** Concatenation of a list of strings (`"".join(xs)`). */
  function Concat(xs: seq<string>): string
    decreases |xs|
  {
    if xs == [] then "" else xs[0] + Concat(xs[1..])
  }

  lemma {:induction false} ConcatAppend(xs: seq<string>, ys: seq<string>)
    ensures Concat(xs + ys) == Concat(xs) + Concat(ys)
    decreases |xs|
  {
    if xs == [] {
      assert xs + ys == ys;
    } else {
      assert (xs + ys)[1..] == xs[1..] + ys;
      ConcatAppend(xs[1..], ys);
    }
  }

  /** Python's `s.split(sep)` for a non-empty separator: the pieces between
      the leftmost non-overlapping occurrences of `sep`. */
  function SplitOn(s: string, sep: string): (r: seq<string>)
    requires sep != []
    ensures |r| >= 1
    decreases |s|
  {
    if |s| < |sep| then [s]
    else if sep <= s then [[]] + SplitOn(s[|sep|..], sep)
    else
      var rest := SplitOn(s[1..], sep);
      [[s[0]] + rest[0]] + rest[1..]
  }

  /** Joining the pieces with the separator gives back the string. */
  lemma {:induction false} JoinSplitOn(s: string, sep: string)
    requires sep != []
    ensures Join(sep, SplitOn(s, sep)) == s
    decreases |s|
  {
    if |s| < |sep| {
    } else if sep <= s {
      JoinSplitOn(s[|sep|..], sep);
      JoinEmptyHead(sep, SplitOn(s[|sep|..], sep));
      assert sep + s[|sep|..] == s;
    } else {
      JoinSplitOn(s[1..], sep);
      JoinExtendHead(sep, s[0], SplitOn(s[1..], sep));
      assert [s[0]] + s[1..] == s;
    }
  }

  /** An empty first piece puts the separator first. */
  lemma JoinEmptyHead(sep: string, rest: seq<string>)
    requires rest != []
    ensures Join(sep, [[]] + rest) == sep + Join(sep, rest)
  {
    assert ([[]] + rest)[1..] == rest;
  }

  /** A character before the first piece comes first in the join. */
  lemma JoinExtendHead(sep: string, c: char, rest: seq<string>)
    requires rest != []
    ensures Join(sep, [[c] + rest[0]] + rest[1..]) == [c] + Join(sep, rest)
  {
    var r := [[c] + rest[0]] + rest[1..];
    if |rest| > 1 {
      assert r[1..] == rest[1..];
      AppendAssoc([c], rest[0] + sep, Join(sep, rest[1..]));
    }
  }

  /** The first piece of a split is a prefix of the string, and the string
      splits into one piece exactly when it does not contain the separator. */
  lemma {:induction false} SplitOnFirst(s: string, sep: string)
    requires sep != []
    ensures SplitOn(s, sep)[0] <= s
    ensures |SplitOn(s, sep)| == 1 <==> !Contains(s, sep)
    decreases |s|
  {
    if |s| < |sep| {
      NotContainsShort(s, sep);
    } else if sep <= s {
      ContainsStep(s, sep);
    } else {
      SplitOnFirst(s[1..], sep);
      ContainsStep(s, sep);
      assert s == [s[0]] + s[1..];
    }
  }

  lemma NotContainsShort(s: string, sub: string)
    requires |s| < |sub|
    ensures !Contains(s, sub)
  {
  }

  /** The first piece of a split ends at the first occurrence of the
      separator: none starts inside it, and one starts right after it when
      there is more than one piece. */
  lemma {:induction false} SplitOnFirstOccurrence(s: string, sep: string)
    requires sep != []
    ensures forall i :: 0 <= i < |SplitOn(s, sep)[0]| ==> !OccursAt(s, sep, i)
    ensures |SplitOn(s, sep)| > 1 ==> OccursAt(s, sep, |SplitOn(s, sep)[0]|)
    decreases |s|
  {
    if |s| < |sep| {
    } else if sep <= s {
      assert OccursAt(s, sep, 0);
    } else {
      SplitOnFirstOccurrence(s[1..], sep);
      FirstPieceShift(s, sep);
    }
  }

  /** A string that does not start with the separator: its first piece is
      its first character before the first piece of the rest. */
  lemma FirstPieceShift(s: string, sep: string)
    requires sep != [] && |s| >= |sep| && !(sep <= s)
    requires forall i :: 0 <= i < |SplitOn(s[1..], sep)[0]| ==> !OccursAt(s[1..], sep, i)
    requires |SplitOn(s[1..], sep)| > 1 ==> OccursAt(s[1..], sep, |SplitOn(s[1..], sep)[0]|)
    ensures forall i :: 0 <= i < |SplitOn(s, sep)[0]| ==> !OccursAt(s, sep, i)
    ensures |SplitOn(s, sep)| > 1 ==> OccursAt(s, sep, |SplitOn(s, sep)[0]|)
  {
    var t := s[1..];
    var rest := SplitOn(t, sep);
    assert SplitOn(s, sep) == [[s[0]] + rest[0]] + rest[1..];
    assert s == [s[0]] + t;
    assert !OccursAt(s, sep, 0);
    forall i | 0 < i <= |rest[0]| ensures !OccursAt(s, sep, i) {
      OccursShift([s[0]], t, sep, i - 1);
    }
    if |rest| > 1 {
      OccursShift([s[0]], t, sep, |rest[0]|);
    }
  }

  /** Python's `s.replace(pat, repl)`: every leftmost non-overlapping
      occurrence of `pat` replaced; an empty `pat` puts `repl` between all
      characters and at both ends. */
  function Replace(s: string, pat: string, repl: string): string
    decreases |s|
  {
    if pat == [] then
      (if s == [] then repl else repl + [s[0]] + Replace(s[1..], pat, repl))
    else if |s| < |pat| then s
    else if pat <= s then repl + Replace(s[|pat|..], pat, repl)
    else [s[0]] + Replace(s[1..], pat, repl)
  }

  /** `replace` is `repl.join(s.split(pat))` for a non-empty `pat`. */
  lemma {:induction false} ReplaceIsJoinSplit(s: string, pat: string, repl: string)
    requires pat != []
    ensures Replace(s, pat, repl) == Join(repl, SplitOn(s, pat))
    decreases |s|
  {
    if |s| < |pat| {
    } else if pat <= s {
      ReplaceIsJoinSplit(s[|pat|..], pat, repl);
    } else {
      ReplaceIsJoinSplit(s[1..], pat, repl);
      var rest := SplitOn(s[1..], pat);
      if |rest| > 1 {
        var r := [[s[0]] + rest[0]] + rest[1..];
        assert r[1..] == rest[1..];
      }
    }
  }

  /** Replacing a string that does not occur changes nothing. */
  lemma {:induction false} ReplaceAbsent(s: string, pat: string, repl: string)
    requires pat != [] && !Contains(s, pat)
    ensures Replace(s, pat, repl) == s
    decreases |s|
  {
    if |s| >= |pat| {
      ContainsStep(s, pat);
      ReplaceAbsent(s[1..], pat, repl);
      assert s == [s[0]] + s[1..];
    }
  }

  /** Every character of `w` satisfies `p`. */
  predicate All(w: string, p: char -> bool) {
    forall i :: 0 <= i < |w| ==> p(w[i])
  }

  /** The longest prefix of `s` made of characters satisfying `p`. */
  function Run(s: string, p: char -> bool): (r: string)
    ensures r <= s && All(r, p)
    ensures |r| < |s| ==> !p(s[|r|])
    decreases |s|
  {
    if s != [] && p(s[0]) then [s[0]] + Run(s[1..], p) else []
  }

  /** The prefix of `s` with the characters failing `p` dropped. */
  function SkipUntil(s: string, p: char -> bool): (r: string)
    ensures |r| <= |s| && r == s[|s| - |r|..]
    ensures forall i :: 0 <= i < |s| - |r| ==> !p(s[i])
    ensures r != [] ==> p(r[0])
    decreases |s|
  {
    if s != [] && !p(s[0]) then SkipUntil(s[1..], p) else s
  }

  /** The maximal runs of characters satisfying `p`, in order. */
  function Runs(s: string, p: char -> bool): (r: seq<string>)
    ensures forall k :: 0 <= k < |r| ==> r[k] != [] && All(r[k], p)
    decreases |s|
  {
    var t := SkipUntil(s, p);
    if t == [] then []
    else
      var w := Run(t, p);
      assert |w| > 0;
      var rest := Runs(t[|w|..], p);
      RunsCons(w, rest, p);
      [w] + rest
  }

  lemma RunsCons(w: string, rest: seq<string>, p: char -> bool)
    requires w != [] && All(w, p)
    requires forall k :: 0 <= k < |rest| ==> rest[k] != [] && All(rest[k], p)
    ensures forall k :: 0 <= k < |[w] + rest| ==> ([w] + rest)[k] != [] && All(([w] + rest)[k], p)
  {
    var r := [w] + rest;
    forall k | 0 <= k < |r| ensures r[k] != [] && All(r[k], p) {
      if k > 0 {
        assert r[k] == rest[k - 1];
      }
    }
  }

  /** Python's `s.split()`: the whitespace-separated words. */
  function Words(s: string): (r: seq<string>)
    ensures forall k :: 0 <= k < |r| ==> r[k] != [] && All(r[k], c => !IsSpace(c))
  {
    Runs(s, c => !IsSpace(c))
  }

  /** Python's `re.findall(r'\w+', s)`. */
  function WordTokens(s: string): (r: seq<string>)
    ensures forall k :: 0 <= k < |r| ==> r[k] != [] && All(r[k], IsWordChar)
  {
    Runs(s, IsWordChar)
  }

  /** The first `n` elements (Python's `xs[:n]` for `n >= 0`). */
  function Take<T>(xs: seq<T>, n: nat): (r: seq<T>)
    ensures |r| <= n && r <= xs
    ensures |xs| <= n ==> r == xs
  {
    if |xs| <= n then xs else xs[..n]
  }

  /** The indices are strictly increasing: they pick positions in order. */
  predicate Increasing(idx: seq<nat>) {
    forall i, i' :: 0 <= i < i' < |idx| ==> idx[i] < idx[i']
  }

  /** `xs` is an order-preserving subsequence of `ys`. */
  predicate IsSubsequence<T(==)>(xs: seq<T>, ys: seq<T>)
    decreases |ys|
  {
    xs == [] || (ys != [] && (if xs[0] == ys[0] then IsSubsequence(xs[1..], ys[1..]) else IsSubsequence(xs, ys[1..])))
  }

  lemma {:induction false} SubsequencePrefix<T>(xs: seq<T>, ys: seq<T>, n: nat)
    requires IsSubsequence(xs, ys) && n <= |xs|
    ensures IsSubsequence(xs[..n], ys)
    decreases |ys|
  {
    if n == 0 || xs == [] {
    } else if xs[0] == ys[0] {
      assert xs[..n][1..] == xs[1..][..n - 1];
      SubsequencePrefix(xs[1..], ys[1..], n - 1);
    } else {
      SubsequencePrefix(xs, ys[1..], n);
    }
  }

  /** Python's truthiness of an optional string (`if x:`): present and non-empty. */
  predicate Truthy(x: Option<string>) {
    x.Some? && x.value != ""
  }

  /** Python's `f"{x}"` of an optional string: `None` prints as "None". */
  function Show(x: Option<string>): string {
    if x.Some? then x.value else "None"
  }


  /** `str(n)` for a natural number: its decimal digits. */
  function NatToString(n: nat): (r: string)
    ensures r != [] && All(r, IsDigit)
  {
    if n < 10 then ["0123456789"[n]] else NatToString(n / 10) + ["0123456789"[n % 10]]
  }

  /** The number a string of decimal digits denotes (`int(s)`). */
  function DigitsValue(s: string): nat
    requires All(s, IsDigit)
  {
    if s == [] then 0 else DigitsValue(s[..|s| - 1]) * 10 + (s[|s| - 1] as int - '0' as int)
  }

  /** Reading back the digits of `n` gives `n`. */
  lemma {:induction false} NatToStringValue(n: nat)
    ensures DigitsValue(NatToString(n)) == n
  {
    if n >= 10 {
      NatToStringValue(n / 10);
      var r := NatToString(n);
      assert r[..|r| - 1] == NatToString(n / 10);
    }
  }

  lemma {:induction false} JoinSnoc(sep: string, xs: seq<string>, y: string)
    requires xs != []
    ensures Join(sep, xs + [y]) == Join(sep, xs) + sep + y
    decreases |xs|
  {
    if |xs| == 1 {
      assert (xs + [y])[1..] == [y];
    } else {
      assert (xs + [y])[1..] == xs[1..] + [y];
      JoinSnoc(sep, xs[1..], y);
    }
  }

  /** The last piece of a split never contains the separator. */
  lemma {:induction false} SplitOnLast(s: string, sep: string)
    requires sep != []
    ensures !Contains(SplitOn(s, sep)[|SplitOn(s, sep)| - 1], sep)
    decreases |s|
  {
    if |s| < |sep| {
      NotContainsShort(s, sep);
    } else if sep <= s {
      SplitOnLast(s[|sep|..], sep);
    } else {
      var rest := SplitOn(s[1..], sep);
      SplitOnLast(s[1..], sep);
      if |rest| == 1 {
        JoinSplitOn(s[1..], sep);
        assert rest[0] == s[1..];
        ContainsStep(s, sep);
        assert [s[0]] + rest[0] == s;
      }
    }
  }

  /** `s.endswith(suffix)`. */
  predicate EndsWith(s: string, suffix: string) {
    |suffix| <= |s| && s[|s| - |suffix|..] == suffix
  }

  /** An occurrence in the right-hand part of a concatenation. */
  lemma OccursShift(a: string, b: string, sub: string, i: nat)
    ensures OccursAt(a + b, sub, |a| + i) <==> OccursAt(b, sub, i)
  {
    if i + |sub| <= |b| {
      assert (a + b)[|a| + i..|a| + i + |sub|] == b[i..i + |sub|];
    }
  }
}
