/** The Python `VelesQL` compatibility wrapper: legacy-syntax normalisation,
    the parse-with-one-retry policy, the LIKE pattern compiler and the
    LIKE/ILIKE payload filter. Each regular expression of the source is
    written out as a match test at a position; `re.sub` is a left-to-right
    scan that replaces each non-overlapping match. */
module LegacyQuery {
  import opened Wrappers
  import opened Text

  // ---------------------------------------------------------------------
  // re.sub
  // ---------------------------------------------------------------------

  /** A match found at some position: where it ends and what replaces it. */
  datatype RegexMatch = RegexMatch(end: nat, replacement: string)

  /** `re.sub` from position `i` with match test `rule`. */
  function SubFrom(s: string, i: nat, rule: (string, nat) -> Option<RegexMatch>): string
    requires i <= |s|
    decreases |s| - i
  {
    if i == |s| then []
    else match rule(s, i)
      case Some(m) =>
        if i < m.end <= |s| then m.replacement + SubFrom(s, m.end, rule)
        else [s[i]] + SubFrom(s, i + 1, rule)
      case None => [s[i]] + SubFrom(s, i + 1, rule)
  }

  /** Without a match at or after `i`, the scan copies the rest unchanged. */
  lemma {:induction false} SubFromNoMatch(s: string, i: nat, rule: (string, nat) -> Option<RegexMatch>)
    requires i <= |s|
    requires forall j :: i <= j < |s| ==> rule(s, j).None?
    ensures SubFrom(s, i, rule) == s[i..]
    decreases |s| - i
  {
    if i < |s| {
      SubFromNoMatch(s, i + 1, rule);
      assert s[i..] == [s[i]] + s[i + 1..];
    }
  }

  /** A match at the scan position is replaced and scanning resumes at its end. */
  lemma SubFromReplacesMatch(s: string, i: nat, rule: (string, nat) -> Option<RegexMatch>)
    requires i < |s| && rule(s, i).Some? && i < rule(s, i).value.end <= |s|
    ensures SubFrom(s, i, rule) == rule(s, i).value.replacement + SubFrom(s, rule(s, i).value.end, rule)
  {
  }

  // ---------------------------------------------------------------------
  // The three legacy rewrites
  // ---------------------------------------------------------------------

  predicate IsIdentStart(c: char) { IsAsciiLetter(c) || c == '_' }
  predicate IsIdentChar(c: char) { IsAsciiLetter(c) || IsAsciiDigit(c) || c == '_' }

  /** End of the identifier `[A-Za-z_][A-Za-z0-9_]*` starting at `i`
      (greedy), or None when none starts there. */
  function IdentEnd(s: string, i: nat): (r: Option<nat>)
    ensures r.Some? ==> i < r.value <= |s| && IsIdentStart(s[i])
    ensures r.Some? ==> forall k :: i <= k < r.value ==> IsIdentChar(s[k])
    ensures r.Some? ==> r.value == |s| || !IsIdentChar(s[r.value])
    ensures r.None? <==> i >= |s| || !IsIdentStart(s[i])
  {
    if i < |s| && IsIdentStart(s[i]) then Some(IdentCharsEnd(s, i + 1)) else None
  }

  function IdentCharsEnd(s: string, i: nat): (j: nat)
    requires i <= |s|
    ensures i <= j <= |s|
    ensures forall k :: i <= k < j ==> IsIdentChar(s[k])
    ensures j == |s| || !IsIdentChar(s[j])
    decreases |s| - i
  {
    if i == |s| || !IsIdentChar(s[i]) then i else IdentCharsEnd(s, i + 1)
  }

  /** `\s+` at `i`: the end of a non-empty run of white space. */
  function SpacesEnd(s: string, i: nat): (r: Option<nat>)
    ensures r.Some? ==> i < r.value <= |s| && (r.value == |s| || !IsSpace(s[r.value]))
    ensures r.Some? ==> forall k :: i <= k < r.value ==> IsSpace(s[k])
    ensures r.None? <==> i >= |s| || !IsSpace(s[i])
  {
    if i < |s| && IsSpace(s[i]) then Some(SkipSpaces(s, i)) else None
  }

  /** Rule 1, `USING\s+FUSION\s+(ident)\b` (case-insensitive), replaced by
      `USING FUSION (strategy='ident')`. On ASCII text the greedy identifier
      always ends on a word boundary, so `\b` is not tested. Python's `\w`
      and `\b` also count non-ASCII letters and digits, which this model
      does not: after `rrf` followed by `é` the source finds no boundary and
      no match, where this rule matches `rrf`. */
  function FusionRule(s: string, i: nat): (r: Option<RegexMatch>)
    ensures r.Some? ==> i < r.value.end <= |s|
  {
    if !AtPosIgnoreCase(s, i, "using") then None
    else match SpacesEnd(s, i + 5)
      case None => None
      case Some(j) =>
        if !AtPosIgnoreCase(s, j, "fusion") then None
        else match SpacesEnd(s, j + 6)
          case None => None
          case Some(k) =>
            match IdentEnd(s, k)
            case None => None
            case Some(e) => Some(RegexMatch(e, FusionRewrite(s[k..e])))
  }

  /** The replacement of rule 1 for a strategy name. */
  function FusionRewrite(strategy: string): (r: string)
    ensures |r| == 26 + |strategy|
  {
    "USING FUSION (strategy='" + strategy + "')"
  }

  /** Lookahead `(?=\s+KW1|\s+KW2|...|$)` at `j`; `$` also matches just
      before a final newline. */
  predicate FollowedByClause(s: string, j: nat, keywords: seq<string>) {
    j == |s| ||
    (j + 1 == |s| && s[j] == '\n') ||
    (j < |s| && IsSpace(s[j]) &&
      exists n :: 0 <= n < |keywords| && AtPosIgnoreCase(s, SkipSpaces(s, j), keywords[n]))
  }

  const FROM_LOOKAHEAD: seq<string> := ["join", "where", "group", "order", "limit", "offset"]
  const JOIN_LOOKAHEAD: seq<string> := ["on", "where", "group", "order", "limit", "offset"]

  /** Rules 2 and 3, `\bKW\s+(ident)\s+(ident)\b(?=lookahead)`
      (case-insensitive), replaced by `KW ident1 AS ident2` where `KW` is the
      upper-case `word`. */
  function AliasRule(s: string, i: nat, word: string, upperWord: string, lookahead: seq<string>): (r: Option<RegexMatch>)
    requires |word| > 0
    ensures r.Some? ==> i < r.value.end <= |s|
  {
    if !(i <= |s| && WordStartsAt(s, i) && AtPosIgnoreCase(s, i, word)) then None
    else match SpacesEnd(s, i + |word|)
      case None => None
      case Some(a) =>
        match IdentEnd(s, a)
        case None => None
        case Some(b) =>
          match SpacesEnd(s, b)
          case None => None
          case Some(c) =>
            match IdentEnd(s, c)
            case None => None
            case Some(d) =>
              if FollowedByClause(s, d, lookahead) then
                Some(RegexMatch(d, upperWord + " " + s[a..b] + " AS " + s[c..d]))
              else None
  }

  function FromAliasRule(s: string, i: nat): Option<RegexMatch> {
    AliasRule(s, i, "from", "FROM", FROM_LOOKAHEAD)
  }

  function JoinAliasRule(s: string, i: nat): Option<RegexMatch> {
    AliasRule(s, i, "join", "JOIN", JOIN_LOOKAHEAD)
  }

  /** The first substitution of `_normalize_legacy_query`. */
  function FusionPass(query: string): string {
    SubFrom(query, 0, FusionRule)
  }

  /** `_normalize_legacy_query`: the three substitutions in order. */
  function NormalizeLegacyQuery(query: string): string {
    var afterFusion := FusionPass(query);
    var afterFrom := SubFrom(afterFusion, 0, FromAliasRule);
    SubFrom(afterFrom, 0, JoinAliasRule)
  }

  /** A query none of the three rules matches anywhere is left unchanged. */
  lemma NormalizeWithoutLegacySyntax(query: string)
    requires forall j :: 0 <= j < |query| ==> FusionRule(query, j).None?
    requires forall j :: 0 <= j < |query| ==> FromAliasRule(query, j).None?
    requires forall j :: 0 <= j < |query| ==> JoinAliasRule(query, j).None?
    ensures NormalizeLegacyQuery(query) == query
  {
    SubFromNoMatch(query, 0, FusionRule);
    assert FusionPass(query) == query;
    SubFromNoMatch(query, 0, FromAliasRule);
    SubFromNoMatch(query, 0, JoinAliasRule);
  }

  /** The fusion rewrite produces text the fusion rule no longer matches:
      after `USING FUSION ` comes `(`, which cannot start an identifier. */
  lemma {:induction false} FusionRewriteIsFinal(strategy: string, rest: string)
    ensures FusionRule("USING FUSION (strategy='" + strategy + "')" + rest, 0).None?
  {
    var t := "USING FUSION (strategy='" + strategy + "')" + rest;
    assert t[..13] == "USING FUSION ";
    assert t[13] == '(';
    assert AtPosIgnoreCase(t, 0, "using");
    assert SpacesEnd(t, 5) == Some(6) by {
      assert IsSpace(t[5]) && !IsSpace(t[6]);
    }
    assert AtPosIgnoreCase(t, 6, "fusion");
    assert SpacesEnd(t, 12) == Some(13) by {
      assert IsSpace(t[12]) && !IsSpace(t[13]);
    }
    assert IdentEnd(t, 13).None?;
  }

  /** Rule 1's match at `j`, position by position: `using` at `j`, white
      space up to `fusion` at `a`, white space up to an identifier start at
      `k`. */
  predicate FusionHeadAt(s: string, j: nat, a: nat, k: nat) {
    j + 5 < a && a + 6 < k < |s|
    && AtPosIgnoreCase(s, j, "using")
    && (forall p | j + 5 <= p < a :: IsSpace(s[p]))
    && AtPosIgnoreCase(s, a, "fusion")
    && (forall p | a + 6 <= p < k :: IsSpace(s[p]))
    && IsIdentStart(s[k])
  }

  /** White space from `i` up to a non-space at `b` is skipped to `b`. */
  lemma {:induction false} SkipSpacesTo(s: string, i: nat, b: nat)
    requires i <= b < |s| && !IsSpace(s[b])
    requires forall p | i <= p < b :: IsSpace(s[p])
    ensures SkipSpaces(s, i) == b
    decreases b - i
  {
    if i < b {
      SkipSpacesTo(s, i + 1, b);
    }
  }

  /** A match of rule 1 has its three parts at some positions. */
  lemma RuleHead(s: string, j: nat) returns (a: nat, k: nat)
    requires FusionRule(s, j).Some?
    ensures FusionHeadAt(s, j, a, k)
  {
    a := SkipSpaces(s, j + 5);
    k := SkipSpaces(s, a + 6);
  }

  /** Three parts at their positions make a match of rule 1. */
  lemma HeadRule(s: string, j: nat, a: nat, k: nat)
    requires FusionHeadAt(s, j, a, k)
    ensures FusionRule(s, j).Some?
  {
    assert ToLowerAscii(s[a + 0]) == "fusion"[0];
    SkipSpacesTo(s, j + 5, a);
    SkipSpacesTo(s, a + 6, k);
  }

  /** The rule reads only forward: text before the position is irrelevant. */
  lemma HeadShift(u: string, v: string, j: nat, a: nat, k: nat)
    ensures FusionHeadAt(u + v, |u| + j, |u| + a, |u| + k) <==> FusionHeadAt(v, j, a, k)
  {
    var t := u + v;
    assert forall p | 0 <= p < |v| :: t[|u| + p] == v[p];
    if FusionHeadAt(v, j, a, k) {
    }
    if FusionHeadAt(t, |u| + j, |u| + a, |u| + k) {
    }
  }

  /** Rule 1 matches at `j`, stated by the positions of its parts. */
  ghost predicate FusionMatchAt(s: string, j: nat) {
    exists a: nat, k: nat :: FusionHeadAt(s, j, a, k)
  }

  /** The positional statement is the rule. */
  lemma RuleIsMatch(s: string, j: nat)
    ensures FusionRule(s, j).Some? <==> FusionMatchAt(s, j)
  {
    if FusionRule(s, j).Some? {
      var a, k := RuleHead(s, j);
    }
    if FusionMatchAt(s, j) {
      var a: nat, k: nat :| FusionHeadAt(s, j, a, k);
      HeadRule(s, j, a, k);
    }
  }

  /** Rule 1 matches at `j` of `v` exactly when it matches at the same
      place in `u + v`. */
  lemma MatchShift(u: string, v: string, j: nat)
    ensures FusionMatchAt(u + v, |u| + j) <==> FusionMatchAt(v, j)
  {
    if FusionMatchAt(u + v, |u| + j) {
      var a: nat, k: nat :| FusionHeadAt(u + v, |u| + j, a, k);
      HeadShift(u, v, j, a - |u|, k - |u|);
    }
    if FusionMatchAt(v, j) {
      var a: nat, k: nat :| FusionHeadAt(v, j, a, k);
      HeadShift(u, v, j, a, k);
    }
  }

  /** A match of rule 1 replaces an identifier. */
  lemma RuleRewrite(s: string, i: nat) returns (k: nat)
    requires FusionRule(s, i).Some?
    ensures i < k < FusionRule(s, i).value.end <= |s|
    ensures FusionRule(s, i).value.replacement == FusionRewrite(s[k..FusionRule(s, i).value.end])
    ensures forall p | k <= p < FusionRule(s, i).value.end :: IsIdentChar(s[p])
  {
    var a := SkipSpaces(s, i + 5);
    k := SkipSpaces(s, a + 6);
  }

  /** A match of rule 1 cannot cover the start of a rewrite, unless it
      begins there, and then `(` stops it. */
  lemma RewriteStartBlocks(t: string, j: nat, a: nat, k: nat, n: nat)
    requires j <= n < k && n + 14 <= |t| && t[n..n + 14] == "USING FUSION ("
    ensures !FusionHeadAt(t, j, a, k)
  {
    assert forall c | 0 <= c < 14 :: t[n + c] == "USING FUSION ("[c];
    assert ToLowerAscii(t[n]) == 'u' && !IsSpace(t[n]);
    if n == j {
      assert !IsSpace(t[n + 6]) && !IsSpace(t[n + 13]) && !IsIdentStart(t[n + 13]);
    } else if n < j + 5 {
      assert "using"[n - j] != 'u';
    } else if a <= n < a + 6 {
      if n == a + 1 {
        assert ToLowerAscii(t[a + 4]) == 'n' && "fusion"[4] == 'o';
      } else {
        assert "fusion"[n - a] != 'u';
      }
    }
  }

  /** No match of rule 1 begins inside a rewrite: the only `U`s of its
      fixed text are not followed by `sing` and white space, and the
      strategy name is followed by a quote. */
  lemma RewriteInteriorBlocks(t: string, j: nat, a: nat, k: nat, strategy: string)
    requires var r := FusionRewrite(strategy); |r| <= |t| && t[..|r|] == r
    requires forall p | 0 <= p < |strategy| :: IsIdentChar(strategy[p])
    requires 0 < j < |FusionRewrite(strategy)|
    ensures !FusionHeadAt(t, j, a, k)
  {
    var r := FusionRewrite(strategy);
    var front := "USING FUSION (strategy='";
    var l := |front| + |strategy|;
    assert forall p | 0 <= p < |r| :: t[p] == r[p];
    assert forall p | 0 <= p < |front| :: r[p] == front[p];
    assert forall p | |front| <= p < l :: r[p] == strategy[p - |front|];
    assert r[l] == '\'' && r[l + 1] == ')';
    if j < |front| {
      if j == 7 {
        assert ToLowerAscii(t[j + 3]) == 'o' && "using"[3] == 'n';
      } else {
        assert ToLowerAscii(t[j]) != 'u' && "using"[0] == 'u';
      }
    } else if j < l {
      if j + 5 < l {
        assert IsIdentChar(strategy[j + 5 - |front|]);
        assert !IsSpace(t[j + 5]);
      } else if l < j + 5 {
        assert ToLowerAscii(t[l]) == '\'';
        assert "using"[l - j] != '\'';
      } else {
        assert !IsSpace(t[l]);
      }
    } else {
      assert ToLowerAscii(t[j]) != 'u' && "using"[0] == 'u';
    }
  }

  /** A match starting in `x` that reaches a rewrite `t[n..]` would, in
      the input, have ended on the identifier start `u[n]` at the latest. */
  lemma HeadThroughRewrite(t: string, u: string, n: nat)
    requires n < |u| && n + 14 <= |t| && t[n..n + 14] == "USING FUSION ("
    requires t[..n] == u[..n] && IsIdentStart(u[n])
    requires FusionMatchAt(t, 0)
    ensures FusionMatchAt(u, 0)
  {
    var a: nat, k: nat :| FusionHeadAt(t, 0, a, k);
    if n < k {
      RewriteStartBlocks(t, 0, a, k, n);
      assert false;
    } else {
      assert forall p | 0 <= p < n :: u[p] == t[p] by {
        forall p | 0 <= p < n ensures u[p] == t[p] {
          assert u[..n][p] == t[..n][p];
        }
      }
      assert FusionHeadAt(u, 0, a, k);
    }
  }

  /** The first character of a rule 1 match is a letter. */
  lemma RuleStartsWithLetter(s: string, i: nat)
    requires FusionRule(s, i).Some?
    ensures i < |s| && IsIdentStart(s[i])
  {
    var _, _ := RuleHead(s, i);
    assert ToLowerAscii(s[i + 0]) == "using"[0];
  }

  /** Where the scan finds no match it copies one character. */
  lemma SubFromCopies(s: string, i: nat, rule: (string, nat) -> Option<RegexMatch>)
    requires i < |s| && rule(s, i).None?
    ensures SubFrom(s, i, rule) == [s[i]] + SubFrom(s, i + 1, rule)
  {
  }

  /** What the scan outputs where rule 1 matches: the rewrite, then the
      scan of the rest; the input there starts with a letter. */
  lemma PassAtMatch(s: string, i: nat) returns (id: nat, e: nat)
    requires i < |s| && FusionRule(s, i).Some?
    ensures i < id < e <= |s| && IsIdentStart(s[i])
    ensures forall p | 0 <= p < |s[id..e]| :: IsIdentChar(s[id..e][p])
    ensures SubFrom(s, i, FusionRule) == FusionRewrite(s[id..e]) + SubFrom(s, e, FusionRule)
  {
    id := RuleRewrite(s, i);
    e := FusionRule(s, i).value.end;
    RuleStartsWithLetter(s, i);
    assert forall p | 0 <= p < |s[id..e]| :: s[id..e][p] == s[id + p];
  }

  /** Where rule 1 matches, a match in the output starting in `x` was
      already a match of the input. */
  lemma HeadThroughMatch(s: string, i: nat, x: string)
    requires i < |s| && FusionRule(s, i).Some?
    ensures FusionMatchAt(x + SubFrom(s, i, FusionRule), 0) ==> FusionMatchAt(x + s[i..], 0)
  {
    var u := x + s[i..];
    var id, e := PassAtMatch(s, i);
    var r := FusionRewrite(s[id..e]);
    var t := x + (r + SubFrom(s, e, FusionRule));
    assert t == x + SubFrom(s, i, FusionRule);
    if FusionMatchAt(t, 0) {
      RewriteOpens(s[id..e]);
      PieceAfter(x, r, SubFrom(s, e, FusionRule), 14);
      PieceAfter(x, s[i..], [], 0);
      assert u[|x|] == s[i];
      HeadThroughRewrite(t, u, |x|);
    }
  }

  /** Every rewrite of rule 1 opens with `USING FUSION (`. */
  lemma RewriteOpens(strategy: string)
    ensures FusionRewrite(strategy)[..14] == "USING FUSION ("
  {
  }

  /** In `x + (r + w)`, the text before `r` is `x`, and the `n` characters
      after it are the first `n` of `r`. */
  lemma PieceAfter(x: string, r: string, w: string, n: nat)
    requires n <= |r|
    ensures (x + (r + w))[..|x|] == x
    ensures (x + (r + w))[|x|..|x| + n] == r[..n]
  {
  }

  /** Where the scan copies a character, a match in the output starting
      before it (in any text `x` put in front) was already a match of the
      input, and a rewrite's start cannot be crossed. */
  lemma {:induction false} HeadThroughPass(s: string, i: nat, x: string)
    requires i <= |s|
    ensures FusionMatchAt(x + SubFrom(s, i, FusionRule), 0) ==> FusionMatchAt(x + s[i..], 0)
    decreases |s| - i
  {
    if i < |s| {
      var u := x + s[i..];
      if FusionRule(s, i).None? {
        SubFromCopies(s, i, FusionRule);
        HeadThroughPass(s, i + 1, x + [s[i]]);
        assert x + SubFrom(s, i, FusionRule) == (x + [s[i]]) + SubFrom(s, i + 1, FusionRule);
        assert u == (x + [s[i]]) + s[i + 1..];
      } else {
        HeadThroughMatch(s, i, x);
      }
    } else {
      assert x + SubFrom(s, i, FusionRule) == x + s[i..];
    }
  }

  /** Putting a rewrite before text without a match leaves no match. */
  lemma NoMatchAfterRewrite(strategy: string, rest: string)
    requires forall p | 0 <= p < |strategy| :: IsIdentChar(strategy[p])
    requires forall j | 0 <= j < |rest| :: !FusionMatchAt(rest, j)
    ensures forall j | 0 <= j < |FusionRewrite(strategy) + rest| :: !FusionMatchAt(FusionRewrite(strategy) + rest, j)
  {
    var r := FusionRewrite(strategy);
    var out := r + rest;
    forall j | 0 <= j < |out|
      ensures !FusionMatchAt(out, j)
    {
      if |r| <= j {
        MatchShift(r, rest, j - |r|);
      } else if FusionMatchAt(out, j) {
        var a: nat, k: nat :| FusionHeadAt(out, j, a, k);
        if j == 0 {
          assert out[0..14] == "USING FUSION (";
          RewriteStartBlocks(out, 0, a, k, 0);
          assert false;
        } else {
          assert out[..|r|] == r;
          RewriteInteriorBlocks(out, j, a, k, strategy);
          assert false;
        }
      }
    }
  }

  /** Putting a copied character before text without a match leaves no
      match, as long as a match at the front would have matched the input. */
  lemma NoMatchAfterCopy(c: char, rest: string, orig: string)
    requires forall j | 0 <= j < |rest| :: !FusionMatchAt(rest, j)
    requires !FusionMatchAt([c] + orig, 0)
    requires FusionMatchAt([c] + rest, 0) ==> FusionMatchAt([c] + orig, 0)
    ensures forall j | 0 <= j < |[c] + rest| :: !FusionMatchAt([c] + rest, j)
  {
    forall j | 1 <= j < |[c] + rest|
      ensures !FusionMatchAt([c] + rest, j)
    {
      MatchShift([c], rest, j - 1);
    }
  }

  /** No match of rule 1 anywhere in `t`. */
  ghost predicate NoFusionMatch(t: string) {
    forall j | 0 <= j < |t| :: !FusionMatchAt(t, j)
  }

  /** Where rule 1 does not match, the copied character does not create
      a match in front of a scanned rest that has none. */
  lemma CopyLeavesNoMatch(s: string, i: nat)
    requires i < |s| && FusionRule(s, i).None?
    requires NoFusionMatch(SubFrom(s, i + 1, FusionRule))
    ensures NoFusionMatch(SubFrom(s, i, FusionRule))
  {
    var c, tail, rest := s[i], s[i + 1..], SubFrom(s, i + 1, FusionRule);
    SubFromCopies(s, i, FusionRule);
    assert SubFrom(s, i, FusionRule) == [c] + rest;
    HeadThroughPass(s, i + 1, [c]);
    assert FusionMatchAt([c] + rest, 0) ==> FusionMatchAt([c] + tail, 0);
    NoMatchAtCopy(s, i);
    NoMatchAfterCopy(c, rest, tail);
  }

  /** Where rule 1 does not match, no match starts at the front of the
      rest of the input. */
  lemma NoMatchAtCopy(s: string, i: nat)
    requires i < |s| && FusionRule(s, i).None?
    ensures !FusionMatchAt([s[i]] + s[i + 1..], 0)
  {
    assert [s[i]] + s[i + 1..] == s[i..];
    assert s[..i] + s[i..] == s;
    MatchShift(s[..i], s[i..], 0);
    RuleIsMatch(s, i);
  }

  /** The scan's output has no match of rule 1 left anywhere. */
  lemma {:induction false} PassLeavesNoMatch(s: string, i: nat)
    requires i <= |s|
    ensures forall j | 0 <= j < |SubFrom(s, i, FusionRule)| :: !FusionMatchAt(SubFrom(s, i, FusionRule), j)
    decreases |s| - i
  {
    if i < |s| {
      if FusionRule(s, i).None? {
        PassLeavesNoMatch(s, i + 1);
        CopyLeavesNoMatch(s, i);
      } else {
        var id, e := PassAtMatch(s, i);
        PassLeavesNoMatch(s, e);
        NoMatchAfterRewrite(s[id..e], SubFrom(s, e, FusionRule));
      }
    }
  }

  /** After the fusion substitution no fusion rewrite is left to do: a
      second pass changes nothing. */
  lemma FusionPassIsFinal(query: string)
    ensures forall j | 0 <= j < |FusionPass(query)| :: FusionRule(FusionPass(query), j).None?
    ensures FusionPass(FusionPass(query)) == FusionPass(query)
  {
    var out := FusionPass(query);
    PassLeavesNoMatch(query, 0);
    forall j | 0 <= j < |out|
      ensures FusionRule(out, j).None?
    {
      RuleIsMatch(out, j);
    }
    SubFromNoMatch(out, 0, FusionRule);
  }

  /** A FROM alias is added only before a clause keyword or at the end, and
      the rewrite is `FROM table AS alias`. */
  lemma FromAliasShape(s: string, i: nat)
    requires FromAliasRule(s, i).Some?
    ensures FollowedByClause(s, FromAliasRule(s, i).value.end, FROM_LOOKAHEAD)
    ensures exists a, b, c :: (i < a < b < c < FromAliasRule(s, i).value.end &&
      FromAliasRule(s, i).value.replacement ==
        "FROM " + s[a..b] + " AS " + s[c..FromAliasRule(s, i).value.end])
  {
  }

  /** A JOIN alias is added only before ON, a clause keyword or the end. */
  lemma JoinAliasShape(s: string, i: nat)
    requires JoinAliasRule(s, i).Some?
    ensures FollowedByClause(s, JoinAliasRule(s, i).value.end, JOIN_LOOKAHEAD)
    ensures exists a, b, c :: (i < a < b < c < JoinAliasRule(s, i).value.end &&
      JoinAliasRule(s, i).value.replacement ==
        "JOIN " + s[a..b] + " AS " + s[c..JoinAliasRule(s, i).value.end])
  {
  }

  // ---------------------------------------------------------------------
  // VelesQL.parse / VelesQL.is_valid
  // ---------------------------------------------------------------------

  /** The result of `VelesQL.parse` together with the texts handed to the
      raw parser, in call order. */
  datatype ParseRun<T, E> = ParseRun(result: Result<T, E>, rawCalls: seq<string>)

  /** `VelesQL.parse`: the raw text first; on failure the normalised text,
      unless normalisation changed nothing, in which case the first error
      is raised again. `raw` is the native parser. */
  function Parse<T, E>(query: string, raw: string -> Result<T, E>): (r: ParseRun<T, E>)
    ensures 1 <= |r.rawCalls| <= 2 && r.rawCalls[0] == query
    ensures raw(query).Success? ==> r.result == raw(query) && r.rawCalls == [query]
    ensures raw(query).Failure? && NormalizeLegacyQuery(query) == query ==>
      r.result == raw(query) && r.rawCalls == [query]
    ensures raw(query).Failure? && NormalizeLegacyQuery(query) != query ==>
      r.result == raw(NormalizeLegacyQuery(query)) &&
      r.rawCalls == [query, NormalizeLegacyQuery(query)]
  {
    match raw(query)
    case Success(stmt) => ParseRun(Success(stmt), [query])
    case Failure(e) =>
      var normalized := NormalizeLegacyQuery(query);
      if normalized == query then ParseRun(Failure(e), [query])
      else ParseRun(raw(normalized), [query, normalized])
  }

  /** `VelesQL.is_valid`: the native validity check of the normalised text. */
  function IsValid(query: string, rawIsValid: string -> bool): bool {
    rawIsValid(NormalizeLegacyQuery(query))
  }

  /** When the native validity check agrees with the native parser, a query
      `IsValid` accepts is one `Parse` accepts. */
  lemma ValidQueriesParse<T, E>(query: string, raw: string -> Result<T, E>, rawIsValid: string -> bool)
    requires forall q :: rawIsValid(q) <==> raw(q).Success?
    ensures IsValid(query, rawIsValid) ==> Parse(query, raw).result.Success?
  {
  }

  // ---------------------------------------------------------------------
  // LIKE
  // ---------------------------------------------------------------------

  /** One element of a compiled LIKE pattern. */
  datatype LikeToken = AnyRun | AnyChar | Literal(c: char)

  /** `_compile_like_pattern`: `%` is `.*`, `_` is `.`, every other
      character is escaped, i.e. literal. */
  function CompileLike(pattern: string): (r: seq<LikeToken>)
    ensures |r| == |pattern|
    ensures forall k :: 0 <= k < |pattern| ==>
      (pattern[k] == '%' ==> r[k] == AnyRun) &&
      (pattern[k] == '_' ==> r[k] == AnyChar) &&
      (pattern[k] != '%' && pattern[k] != '_' ==> r[k] == Literal(pattern[k]))
  {
    if |pattern| == 0 then []
    else
      var t := if pattern[0] == '%' then AnyRun else if pattern[0] == '_' then AnyChar else Literal(pattern[0]);
      [t] + CompileLike(pattern[1..])
  }

  predicate CharMatches(lit: char, c: char, caseInsensitive: bool) {
    if caseInsensitive then ToLowerAscii(lit) == ToLowerAscii(c) else lit == c
  }

  /** The whole of `v` matches the token sequence `p`. `dotAll` says
      whether `.` may match a newline. */
  predicate TokensMatch(p: seq<LikeToken>, v: string, caseInsensitive: bool, dotAll: bool)
    decreases |p| + |v|
  {
    if |p| == 0 then |v| == 0
    else match p[0]
      case AnyRun =>
        TokensMatch(p[1..], v, caseInsensitive, dotAll) ||
        (|v| > 0 && (dotAll || v[0] != '\n') && TokensMatch(p, v[1..], caseInsensitive, dotAll))
      case AnyChar =>
        |v| > 0 && (dotAll || v[0] != '\n') && TokensMatch(p[1..], v[1..], caseInsensitive, dotAll)
      case Literal(c) =>
        |v| > 0 && CharMatches(c, v[0], caseInsensitive) && TokensMatch(p[1..], v[1..], caseInsensitive, dotAll)
  }

  /** `bool(re.compile("^" + ... + "$", flags).match(value))` as the source
      builds it: `.` does not match a newline and `$` also matches just
      before a final newline. */
  predicate LikeMatchAsWritten(pattern: string, value: string, caseInsensitive: bool) {
    var p := CompileLike(pattern);
    TokensMatch(p, value, caseInsensitive, false) ||
    (|value| > 0 && value[|value| - 1] == '\n' && TokensMatch(p, value[..|value| - 1], caseInsensitive, false))
  }

  /** SQL LIKE semantics: `%` is any run of characters (newlines included),
      `_` any one character, and the whole value must match. */
  predicate LikeMatch(pattern: string, value: string, caseInsensitive: bool) {
    TokensMatch(CompileLike(pattern), value, caseInsensitive, true)
  }

  /** A pattern of literals only matches exactly that text. */
  lemma {:induction false} LiteralPatternMatchesItself(p: seq<LikeToken>, v: string, dotAll: bool)
    requires forall k :: 0 <= k < |p| ==> p[k].Literal?
    ensures TokensMatch(p, v, false, dotAll) <==> |p| == |v| && forall k :: 0 <= k < |p| ==> p[k].c == v[k]
    decreases |p|
  {
    if |p| > 0 && |v| > 0 {
      LiteralPatternMatchesItself(p[1..], v[1..], dotAll);
      if TokensMatch(p, v, false, dotAll) {
        assert forall k :: 1 <= k < |p| ==> p[k].c == v[k] by {
          forall k | 1 <= k < |p| ensures p[k].c == v[k] {
            assert p[1..][k - 1] == p[k];
          }
        }
      }
      if |p| == |v| && forall k :: 0 <= k < |p| ==> p[k].c == v[k] {
        assert forall k :: 0 <= k < |p[1..]| ==> p[1..][k].c == v[1..][k];
      }
    }
  }

  /** `AnyRun` followed by nothing matches every text (with `dotAll`). */
  lemma {:induction false} AnyRunMatchesAll(v: string, ci: bool)
    ensures TokensMatch([AnyRun], v, ci, true)
    decreases |v|
  {
    if |v| > 0 {
      AnyRunMatchesAll(v[1..], ci);
    }
  }

  /** A `%` between two texts matches only across the newline-free gap in
      the as-written translation: `a%` does not match `a` newline `b`. */
  lemma LikeNewlineDiscrepancy()
    ensures !LikeMatchAsWritten("a%", "a\nb", false)
    ensures LikeMatch("a%", "a\nb", false)
    ensures LikeMatchAsWritten("abc", "abc\n", false)
    ensures !LikeMatch("abc", "abc\n", false)
  {
    var p := CompileLike("a%");
    assert p == [Literal('a'), AnyRun];
    assert "a\nb"[1..] == "\nb";
    assert !TokensMatch([AnyRun], "\nb", false, false);
    assert !TokensMatch([], "\nb", false, false);
    assert !TokensMatch(p, "a\nb", false, false);
    assert "a\nb"[..2] == "a\n";
    assert "a\n"[1..] == "\n";
    assert !TokensMatch([AnyRun], "\n", false, false);
    assert !TokensMatch(p, "a\n", false, false);
    AnyRunMatchesAll("\nb", false);
    assert TokensMatch(p, "a\nb", false, true);
    var q := CompileLike("abc");
    assert q == [Literal('a'), Literal('b'), Literal('c')];
    LiteralPatternMatchesItself(q, "abc", false);
    assert "abc\n"[..3] == "abc";
    LiteralPatternMatchesItself(q, "abc\n", true);
  }

  // ---------------------------------------------------------------------
  // _matches_filter
  // ---------------------------------------------------------------------

  /** The Python objects a filter dictionary and a payload can hold.
      `POther` carries what `str()` gives for it. */
  datatype PyObj = PStr(s: string) | PDict(entries: map<string, PyObj>) | POther(text: string)

  /** `str(x)`: the string itself, or the object's text. A dictionary's
      text starts with `{`, so it is never a LIKE type name. */
  function StrOf(x: PyObj): string {
    match x
    case PStr(s) => s
    case PDict(_) => "{}"
    case POther(t) => t
  }

  /** `d.get(key)`. */
  function DictGet(d: map<string, PyObj>, key: string): Option<PyObj> {
    if key in d then Some(d[key]) else None
  }

  /** `_matches_filter(payload, filter_dict)`; `None` and `{}` are falsy
      filters, represented by `None` and an empty map. The matcher used is
      `like`, so the same LIKE semantics holds everywhere in the model. */
  function MatchesFilter(payload: PyObj, filter: Option<map<string, PyObj>>): (r: bool)
    ensures filter.None? || filter.value == map[] ==> r
    ensures (filter.Some? && DictGet(filter.value, "condition").Some? &&
             DictGet(filter.value, "condition").value.PDict? &&
             DictGet(DictGet(filter.value, "condition").value.entries, "field").Some? &&
             DictGet(DictGet(filter.value, "condition").value.entries, "field").value.PStr? &&
             DictGet(DictGet(filter.value, "condition").value.entries, "pattern").Some? &&
             DictGet(DictGet(filter.value, "condition").value.entries, "pattern").value.PStr? &&
             !payload.PDict?) ==> !r
  {
    FilterWith(payload, filter, LikeMatch)
  }

  /** The filter as the source writes it, with the as-written LIKE. */
  function MatchesFilterAsWritten(payload: PyObj, filter: Option<map<string, PyObj>>): bool {
    FilterWith(payload, filter, LikeMatchAsWritten)
  }

  function FilterWith(payload: PyObj, filter: Option<map<string, PyObj>>,
                      like: (string, string, bool) -> bool): (r: bool)
    ensures filter.None? || filter.value == map[] ==> r
  {
    if filter.None? || filter.value == map[] then true
    else match DictGet(filter.value, "condition")
      case Some(PDict(condition)) =>
        var condType := Lower(StrOf(DictGet(condition, "type").GetOr(PStr(""))));
        (match DictGet(condition, "field")
        case Some(PStr(field)) =>
          (match DictGet(condition, "pattern")
           case Some(PStr(pattern)) =>
             (match payload
              case PDict(p) =>
                (match DictGet(p, field)
                 case Some(PStr(value)) =>
                   if condType == "like" then like(pattern, value, false)
                   else if condType == "ilike" then like(pattern, value, true)
                   else true
                 case _ => false)
              case _ => false)
           case _ => true)
        case _ => true)
      case _ => true
  }

  /** The filter's decision, case by case: a malformed condition passes
      every payload, a non-dict payload or non-string value fails, LIKE and
      ILIKE decide by pattern and any other type passes. */
  lemma FilterDecision(payload: PyObj, filter: map<string, PyObj>, field: string, pattern: string, condType: PyObj)
    requires filter != map[]
    requires "condition" in filter && filter["condition"].PDict?
    requires filter["condition"].entries == map["type" := condType, "field" := PStr(field), "pattern" := PStr(pattern)]
    ensures !payload.PDict? ==> !MatchesFilter(payload, Some(filter))
    ensures payload.PDict? && (field !in payload.entries || !payload.entries[field].PStr?) ==>
      !MatchesFilter(payload, Some(filter))
    ensures payload.PDict? && field in payload.entries && payload.entries[field].PStr? ==>
      MatchesFilter(payload, Some(filter)) ==
        (if Lower(StrOf(condType)) == "like" then LikeMatch(pattern, payload.entries[field].s, false)
         else if Lower(StrOf(condType)) == "ilike" then LikeMatch(pattern, payload.entries[field].s, true)
         else true)
  {
  }

  /** The same decision for the filter as the source writes it: only the
      LIKE matcher differs. */
  lemma FilterDecisionAsWritten(payload: PyObj, filter: map<string, PyObj>, field: string, pattern: string, condType: PyObj)
    requires filter != map[]
    requires "condition" in filter && filter["condition"].PDict?
    requires filter["condition"].entries == map["type" := condType, "field" := PStr(field), "pattern" := PStr(pattern)]
    ensures !payload.PDict? ==> !MatchesFilterAsWritten(payload, Some(filter))
    ensures payload.PDict? && (field !in payload.entries || !payload.entries[field].PStr?) ==>
      !MatchesFilterAsWritten(payload, Some(filter))
    ensures payload.PDict? && field in payload.entries && payload.entries[field].PStr? ==>
      MatchesFilterAsWritten(payload, Some(filter)) ==
        (if Lower(StrOf(condType)) == "like" then LikeMatchAsWritten(pattern, payload.entries[field].s, false)
         else if Lower(StrOf(condType)) == "ilike" then LikeMatchAsWritten(pattern, payload.entries[field].s, true)
         else true)
  {
  }

  /** On text without a newline, `.` and `$` behave as in SQL LIKE. */
  lemma {:induction false} TokensMatchWithoutNewline(p: seq<LikeToken>, v: string, ci: bool)
    requires '\n' !in v
    ensures TokensMatch(p, v, ci, false) == TokensMatch(p, v, ci, true)
    decreases |p| + |v|
  {
    if |p| > 0 {
      if |v| > 0 {
        assert '\n' !in v[1..];
        TokensMatchWithoutNewline(p, v[1..], ci);
        TokensMatchWithoutNewline(p[1..], v[1..], ci);
      }
      TokensMatchWithoutNewline(p[1..], v, ci);
    }
  }

  /** On values without a newline the source's LIKE is SQL LIKE. */
  lemma LikeAgrees(pattern: string, value: string, ci: bool)
    requires '\n' !in value
    ensures LikeMatchAsWritten(pattern, value, ci) == LikeMatch(pattern, value, ci)
  {
    TokensMatchWithoutNewline(CompileLike(pattern), value, ci);
  }

  /** A payload whose string values hold no newline is filtered alike by
      the source and by the corrected filter. */
  lemma MatchesFilterAgrees(payload: PyObj, filter: Option<map<string, PyObj>>)
    requires payload.PDict? ==>
      forall k | k in payload.entries && payload.entries[k].PStr? :: '\n' !in payload.entries[k].s
    ensures MatchesFilterAsWritten(payload, filter) == MatchesFilter(payload, filter)
  {
    if filter.Some? && payload.PDict? {
      var c := DictGet(filter.value, "condition");
      if c.Some? && c.value.PDict? {
        var field := DictGet(c.value.entries, "field");
        var pattern := DictGet(c.value.entries, "pattern");
        if field.Some? && field.value.PStr? && pattern.Some? && pattern.value.PStr? && field.value.s in payload.entries {
          var value := payload.entries[field.value.s];
          if value.PStr? {
            LikeAgrees(pattern.value.s, value.s, false);
            LikeAgrees(pattern.value.s, value.s, true);
          }
        }
      }
    }
  }

  /** A condition whose field or pattern is not a string passes every payload. */
  lemma MalformedConditionPasses(payload: PyObj, filter: map<string, PyObj>)
    requires "condition" in filter && filter["condition"].PDict?
    requires var c := filter["condition"].entries;
      ("field" !in c || !c["field"].PStr?) || ("pattern" !in c || !c["pattern"].PStr?)
    ensures MatchesFilter(payload, Some(filter))
  {
  }
}
