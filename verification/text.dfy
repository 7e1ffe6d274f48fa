/** Character classes and position-wise text scanning shared by the Python
    validators, the legacy-query normaliser and the Rust string helpers.
    The regex character classes are the ASCII ones; the Unicode classes of
    the hosts' regex engines are not modelled. Rust's `trim` and
    `to_uppercase` follow Unicode: `IsWhiteSpace` is its White_Space
    property and `UpperName` its upper case, as far as it stays ASCII. */
module Text {
  import opened Wrappers

  predicate IsAsciiLetter(c: char) { 'a' <= c <= 'z' || 'A' <= c <= 'Z' }

  predicate IsAsciiDigit(c: char) { '0' <= c <= '9' }

  predicate IsHexDigit(c: char) { IsAsciiDigit(c) || 'a' <= c <= 'f' || 'A' <= c <= 'F' }

  /** Regex `\w` on ASCII text: letters, digits and underscore. The hosts'
      `\w` also holds non-ASCII letters and digits. */
  predicate IsWordChar(c: char) { IsAsciiLetter(c) || IsAsciiDigit(c) || c == '_' }

  /** Regex `\s` on ASCII text: space, tab, newline, carriage return,
      vertical tab, form feed. Python's `\s` also holds Unicode white space
      such as the no-break space U+00A0. */
  predicate IsSpace(c: char) {
    c == ' ' || c == '\t' || c == '\n' || c == '\r' || c == '\U{000B}' || c == '\U{000C}'
  }

  function ToLowerAscii(c: char): (r: char)
    ensures 'A' <= c <= 'Z' ==> r != c && 'a' <= r <= 'z'
    ensures !('A' <= c <= 'Z') ==> r == c
  {
    if 'A' <= c <= 'Z' then (c as int + 32) as char else c
  }

  function ToUpperAscii(c: char): (r: char)
    ensures 'a' <= c <= 'z' ==> 'A' <= r <= 'Z'
    ensures !('a' <= c <= 'z') ==> r == c
  {
    if 'a' <= c <= 'z' then (c as int - 32) as char else c
  }

  /** `str.lower()` / `str::to_lowercase` restricted to ASCII letters. */
  function Lower(s: string): (r: string)
    ensures |r| == |s|
    ensures forall k :: 0 <= k < |s| ==> r[k] == ToLowerAscii(s[k])
  {
    if |s| == 0 then [] else [ToLowerAscii(s[0])] + Lower(s[1..])
  }

  /** Lower-casing twice is lower-casing once. */
  lemma LowerIdempotent(s: string)
    ensures Lower(Lower(s)) == Lower(s)
  {
    assert forall k :: 0 <= k < |s| ==> ToLowerAscii(ToLowerAscii(s[k])) == ToLowerAscii(s[k]);
  }

  /** `str::to_ascii_uppercase`. */
  function Upper(s: string): (r: string)
    ensures |r| == |s|
    ensures forall k :: 0 <= k < |s| ==> r[k] == ToUpperAscii(s[k])
  {
    if |s| == 0 then [] else [ToUpperAscii(s[0])] + Upper(s[1..])
  }

  /** `char::to_uppercase` of `c` when every character of it is ASCII, and
      None when it holds a character outside ASCII. ASCII characters map
      as `to_ascii_uppercase` does. Outside ASCII, Unicode's case tables
      give an ASCII upper case only to the dotless i (U+0131), the long s
      (U+017F), the sharp s (U+00DF) and the Latin ligatures U+FB00 to
      U+FB06; every other character keeps or gains a non-ASCII one. */
  function UpperToAscii(c: char): (r: Option<string>)
    ensures c < '\U{0080}' ==> r == Some([ToUpperAscii(c)])
    ensures r.Some? ==> |r.value| >= 1
  {
    if c < '\U{0080}' then Some([ToUpperAscii(c)])
    else if c == '\U{0131}' then Some("I")
    else if c == '\U{017F}' then Some("S")
    else if c == '\U{00DF}' then Some("SS")
    else if c == '\U{FB00}' then Some("FF")
    else if c == '\U{FB01}' then Some("FI")
    else if c == '\U{FB02}' then Some("FL")
    else if c == '\U{FB03}' then Some("FFI")
    else if c == '\U{FB04}' then Some("FFL")
    else if c == '\U{FB05}' || c == '\U{FB06}' then Some("ST")
    else None
  }

  /** `str::to_uppercase` of `s` when it is all ASCII, and None when it
      holds a character outside ASCII; the upper case is the
      concatenation of the characters' upper cases. */
  function UpperName(s: string): (r: Option<string>)
    ensures r.Some? <==> forall k | 0 <= k < |s| :: UpperToAscii(s[k]).Some?
    ensures r.Some? ==> |r.value| >= |s|
  {
    UpperFrom(s, 0)
  }

  /** The upper case of the characters of `s` from position `i` on. */
  function UpperFrom(s: string, i: nat): (r: Option<string>)
    requires i <= |s|
    ensures r.Some? <==> forall k | i <= k < |s| :: UpperToAscii(s[k]).Some?
    ensures r.Some? ==> |r.value| >= |s| - i
    decreases |s| - i
  {
    if i == |s| then Some("")
    else
      match UpperToAscii(s[i])
      case None => None
      case Some(head) =>
        match UpperFrom(s, i + 1)
        case None => None
        case Some(tail) => Some(head + tail)
  }

  /** On ASCII text, `to_uppercase` is `to_ascii_uppercase`. */
  lemma UpperNameAscii(s: string)
    requires forall k | 0 <= k < |s| :: s[k] < '\U{0080}'
    ensures UpperName(s) == Some(Upper(s))
  {
    UpperFromAscii(s, 0);
    assert s[0..] == s;
  }

  /** From any position on, the upper case of ASCII text is its ASCII
      upper case. */
  lemma {:induction false} UpperFromAscii(s: string, i: nat)
    requires i <= |s|
    requires forall k | i <= k < |s| :: s[k] < '\U{0080}'
    ensures UpperFrom(s, i) == Some(Upper(s[i..]))
    decreases |s| - i
  {
    if i < |s| {
      UpperFromAscii(s, i + 1);
      assert s[i..][1..] == s[i + 1..];
    }
  }

  /** `w` occurs in `s` at position `i`. */
  predicate AtPos(s: string, i: nat, w: string) {
    i + |w| <= |s| && s[i..i + |w|] == w
  }

  /** `w` (lower-case) occurs in `s` at position `i`, ignoring ASCII case. */
  predicate AtPosIgnoreCase(s: string, i: nat, w: string) {
    i + |w| <= |s| && forall k :: 0 <= k < |w| ==> ToLowerAscii(s[i + k]) == w[k]
  }

  /** Regex `\b` at a position that follows a word character. */
  predicate WordEndsAt(s: string, j: nat) {
    j >= |s| || !IsWordChar(s[j])
  }

  /** Regex `\b` at a position that precedes a word character. */
  predicate WordStartsAt(s: string, j: nat)
    requires j <= |s|
  {
    j == 0 || !IsWordChar(s[j - 1])
  }

  /** The first position `j >= i` with `IsSpace(s[j])` false (or `|s|`). */
  function SkipSpaces(s: string, i: nat): (j: nat)
    requires i <= |s|
    ensures i <= j <= |s|
    ensures forall k :: i <= k < j ==> IsSpace(s[k])
    ensures j == |s| || !IsSpace(s[j])
    decreases |s| - i
  {
    if i == |s| || !IsSpace(s[i]) then i else SkipSpaces(s, i + 1)
  }

  /** Some position of `s` satisfies `p`: the meaning of an unanchored
      `re.search` whose match-at-a-position test is `p`. */
  ghost predicate Occurs(s: string, p: (string, nat) -> bool) {
    exists i :: 0 <= i <= |s| && p(s, i)
  }

  /** Left-to-right scan for a position satisfying `p`. */
  function ScanFrom(s: string, i: nat, p: (string, nat) -> bool): bool
    requires i <= |s|
    decreases |s| - i
  {
    if p(s, i) then true else if i == |s| then false else ScanFrom(s, i + 1, p)
  }

  /** The scan finds a position exactly when one exists at or after `i`. */
  lemma {:induction false} ScanFromFindsOccurrence(s: string, i: nat, p: (string, nat) -> bool)
    requires i <= |s|
    ensures ScanFrom(s, i, p) <==> exists j :: i <= j <= |s| && p(s, j)
    decreases |s| - i
  {
    if !p(s, i) && i < |s| {
      ScanFromFindsOccurrence(s, i + 1, p);
      if exists j :: i <= j <= |s| && p(s, j) {
        var j :| i <= j <= |s| && p(s, j);
        assert j != i;
      }
    }
  }

  /** `re.search` with match test `p`. */
  function Search(s: string, p: (string, nat) -> bool): (r: bool)
    ensures r <==> Occurs(s, p)
  {
    ScanFromFindsOccurrence(s, 0, p);
    ScanFrom(s, 0, p)
  }

  /** `c in s`. */
  predicate ContainsChar(s: string, c: char) {
    exists k :: 0 <= k < |s| && s[k] == c
  }

  /** The first position of `c` in `s` (`str::find`). */
  function FindChar(s: string, c: char): (r: Option<nat>)
    ensures r.Some? ==> r.value < |s| && s[r.value] == c && c !in s[..r.value]
    ensures r.None? <==> c !in s
  {
    if |s| == 0 then None
    else if s[0] == c then Some(0)
    else
      var rest := FindChar(s[1..], c);
      assert s[..1] + s[1..] == s;
      if rest.None? then None
      else
        assert s[1..][..rest.value] == s[1..rest.value + 1];
        assert s[..rest.value + 1] == [s[0]] + s[1..rest.value + 1];
        Some(rest.value + 1)
  }

  /** The last position of `c` in `s` (`str::rfind`). */
  function RFindChar(s: string, c: char): (r: Option<nat>)
    ensures r.Some? ==> r.value < |s| && s[r.value] == c && c !in s[r.value + 1..]
    ensures r.None? <==> c !in s
  {
    if |s| == 0 then None
    else if s[|s| - 1] == c then Some(|s| - 1)
    else
      var rest := RFindChar(s[..|s| - 1], c);
      assert s[..|s| - 1] + [s[|s| - 1]] == s;
      if rest.None? then None
      else
        assert s[rest.value + 1..] == s[..|s| - 1][rest.value + 1..] + [s[|s| - 1]];
        Some(rest.value)
  }

  /** `c` first occurs at `i` exactly when it occurs there and nowhere
      before. */
  lemma FindCharAt(s: string, c: char, i: nat)
    requires i < |s| && s[i] == c && c !in s[..i]
    ensures FindChar(s, c) == Some(i)
  {
    assert c in s;
    var j := FindChar(s, c).value;
    assert j >= i by {
      assert forall k | 0 <= k < i :: s[..i][k] == s[k];
    }
    assert j <= i by {
      assert forall k | 0 <= k < j :: s[..j][k] == s[k];
    }
  }

  /** `c` last occurs at `i` exactly when it occurs there and nowhere
      after. */
  lemma RFindCharAt(s: string, c: char, i: nat)
    requires i < |s| && s[i] == c && c !in s[i + 1..]
    ensures RFindChar(s, c) == Some(i)
  {
    assert c in s;
    var j := RFindChar(s, c).value;
    assert j >= i by {
      assert forall k | j < k < |s| :: s[j + 1..][k - j - 1] == s[k];
    }
    assert j <= i by {
      assert forall k | i < k < |s| :: s[i + 1..][k - i - 1] == s[k];
    }
  }

  /** Rust's `char::is_whitespace`: the Unicode White_Space property. On
      ASCII it is `IsSpace`; beyond it, the next line U+0085, the no-break
      spaces U+00A0, U+202F, the Ogham space U+1680, the spaces U+2000 to
      U+200A, U+205F and U+3000, and the line and paragraph separators
      U+2028 and U+2029. */
  predicate IsWhiteSpace(c: char) {
    IsSpace(c) || c == '\U{0085}' || c == '\U{00A0}' || c == '\U{1680}'
    || ('\U{2000}' <= c <= '\U{200A}') || c == '\U{2028}' || c == '\U{2029}'
    || c == '\U{202F}' || c == '\U{205F}' || c == '\U{3000}'
  }

  /** `str::trim_start`. That the result is a suffix of `s` is
      `TrimStartSuffix`. */
  function TrimStart(s: string): (r: string)
    ensures |r| <= |s|
    ensures |r| > 0 ==> !IsWhiteSpace(r[0])
    ensures forall k :: 0 <= k < |s| - |r| ==> IsWhiteSpace(s[k])
  {
    if |s| > 0 && IsWhiteSpace(s[0]) then TrimStart(s[1..]) else s
  }

  /** `trim_start` removes a prefix: what it keeps is the rest of `s`. */
  lemma {:induction false} TrimStartSuffix(s: string)
    ensures TrimStart(s) == s[|s| - |TrimStart(s)|..]
  {
    if |s| > 0 && IsWhiteSpace(s[0]) {
      TrimStartSuffix(s[1..]);
    }
  }

  /** White space before a text is trimmed away with the rest of the
      leading white space. */
  lemma TrimWhiteSpacePrefix(w: string, s: string)
    requires forall k | 0 <= k < |w| :: IsWhiteSpace(w[k])
    ensures Trim(w + s) == Trim(s)
  {
    TrimStartWhiteSpacePrefix(w, s);
  }

  /** `trim_start` of white space followed by `s` is `trim_start` of
      `s`. */
  lemma {:induction false} TrimStartWhiteSpacePrefix(w: string, s: string)
    requires forall k | 0 <= k < |w| :: IsWhiteSpace(w[k])
    ensures TrimStart(w + s) == TrimStart(s)
  {
    if |w| > 0 {
      assert (w + s)[0] == w[0];
      assert (w + s)[1..] == w[1..] + s;
      TrimStartWhiteSpacePrefix(w[1..], s);
    } else {
      assert w + s == s;
    }
  }

  /** `str::trim_end`. */
  function TrimEnd(s: string): (r: string)
    ensures |r| <= |s| && r == s[..|r|]
    ensures |r| > 0 ==> !IsWhiteSpace(r[|r| - 1])
    ensures forall k :: |r| <= k < |s| ==> IsWhiteSpace(s[k])
  {
    if |s| > 0 && IsWhiteSpace(s[|s| - 1]) then TrimEnd(s[..|s| - 1]) else s
  }

  /** `str::trim`. */
  function Trim(s: string): (r: string)
    ensures |r| <= |s|
    ensures |r| > 0 ==> !IsWhiteSpace(r[0]) && !IsWhiteSpace(r[|r| - 1])
  {
    TrimEnd(TrimStart(s))
  }

  /** A string with no white space at either end is its own trim. */
  lemma TrimTrimmed(s: string)
    requires |s| > 0 ==> !IsWhiteSpace(s[0]) && !IsWhiteSpace(s[|s| - 1])
    ensures Trim(s) == s
  {
  }

  /** `s.split(c)`: the pieces between occurrences of `c`, empty pieces
      included; there is always at least one piece. */
  function Split(s: string, c: char): (r: seq<string>)
    ensures |r| >= 1
    decreases |s|
  {
    if |s| == 0 then [""]
    else
      var rest := Split(s[1..], c);
      if s[0] == c then [""] + rest
      else [[s[0]] + rest[0]] + rest[1..]
  }

  /** `parts.join(c)`. */
  function JoinWith(parts: seq<string>, c: char): (r: string)
    requires |parts| >= 1
    decreases |parts|
  {
    if |parts| == 1 then parts[0] else parts[0] + [c] + JoinWith(parts[1..], c)
  }

  /** Joining the pieces with the separator gives the string back. */
  lemma {:induction false} SplitJoin(s: string, c: char)
    ensures JoinWith(Split(s, c), c) == s
    decreases |s|
  {
    if |s| > 0 {
      var rest := Split(s[1..], c);
      SplitJoin(s[1..], c);
      if s[0] != c {
        if |rest| > 1 {
          assert rest == [rest[0]] + rest[1..];
          assert JoinWith(rest, c) == rest[0] + [c] + JoinWith(rest[1..], c);
        }
      }
    }
  }

  /** No piece contains the separator. */
  lemma {:induction false} SplitPiecesFree(s: string, c: char)
    ensures forall k :: 0 <= k < |Split(s, c)| ==> c !in Split(s, c)[k]
    decreases |s|
  {
    if |s| > 0 {
      SplitPiecesFree(s[1..], c);
    }
  }

  /** Splitting `a c b` for a separator-free `a` yields `a` and then the
      pieces of `b`. */
  lemma {:induction false} SplitAfterPiece(a: string, b: string, c: char)
    requires c !in a
    ensures Split(a + [c] + b, c) == [a] + Split(b, c)
    decreases |a|
  {
    var s := a + [c] + b;
    if |a| == 0 {
      assert s[1..] == b;
    } else {
      assert s[1..] == a[1..] + [c] + b;
      SplitAfterPiece(a[1..], b, c);
      assert [a[0]] + a[1..] == a;
    }
  }

  /** A string without the separator splits into itself. */
  lemma {:induction false} SplitNoSeparator(s: string, c: char)
    requires c !in s
    ensures Split(s, c) == [s]
    decreases |s|
  {
    if |s| > 0 {
      SplitNoSeparator(s[1..], c);
      assert [s[0]] + s[1..] == s;
    }
  }

  /** `str::split_once(c)`: the text before and after the first `c`. */
  function SplitOnce(s: string, c: char): (r: Option<(string, string)>)
    ensures r.None? <==> c !in s
    ensures r.Some? ==> s == r.value.0 + [c] + r.value.1 && c !in r.value.0
  {
    var i := FindChar(s, c);
    if i.None? then None
    else
      assert s == s[..i.value] + [c] + s[i.value + 1..];
      Some((s[..i.value], s[i.value + 1..]))
  }

  /** Splitting once at a separator-free prefix gives the prefix back. */
  lemma SplitOnceInverse(a: string, b: string, c: char)
    requires c !in a
    ensures SplitOnce(a + [c] + b, c) == Some((a, b))
  {
    var s := a + [c] + b;
    var i := FindChar(s, c);
    assert s[|a|] == c;
    assert i.value == |a|;
    assert s[..|a|] == a && s[|a| + 1..] == b;
  }
}
