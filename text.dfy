/**
 * The pieces of the Kotlin standard library that the app's string handling
 * relies on: character case, `Char.isWhitespace` and `trim`, `contains` with
 * `ignoreCase`, `startsWith`, `replace`, and `split(" ")` / `joinToString(" ")`.
 * Case mapping is modelled for the ASCII letters only.
 */
module Text {

  datatype Option<+T> = None | Some(value: T)

  // ---------------------------------------------------------------------------
  // Character case

  /** `Char.uppercaseChar()` restricted to ASCII: 'a'..'z' become 'A'..'Z'. */
  function UpperChar(c: char): (u: char)
    ensures 'a' <= c <= 'z' ==> 'A' <= u <= 'Z' && u as int - 'A' as int == c as int - 'a' as int
    ensures !('a' <= c <= 'z') ==> u == c
  {
    if 'a' <= c <= 'z' then (c as int - 32) as char else c
  }

  /** `Char.lowercaseChar()` restricted to ASCII: 'A'..'Z' become 'a'..'z'. */
  function LowerChar(c: char): (l: char)
    ensures 'A' <= c <= 'Z' ==> 'a' <= l <= 'z' && l as int - 'a' as int == c as int - 'A' as int
    ensures !('A' <= c <= 'Z') ==> l == c
  {
    if 'A' <= c <= 'Z' then (c as int + 32) as char else c
  }

  /** `Char.equals(other, ignoreCase = true)`: equal after upper-casing, or after upper- then lower-casing. */
  predicate SameIgnoringCase(a: char, b: char)
  {
    UpperChar(a) == UpperChar(b) || LowerChar(UpperChar(a)) == LowerChar(UpperChar(b))
  }

  /** `replaceFirstChar { it.uppercase() }`: the first character upper-cased, the rest untouched. */
  function CapitalizeFirst(s: string): (r: string)
    ensures |r| == |s|
    ensures s != [] ==> r[0] == UpperChar(s[0]) && r[1..] == s[1..]
  {
    if s == [] then [] else [UpperChar(s[0])] + s[1..]
  }

  // ---------------------------------------------------------------------------
  // Whitespace and trim

  /**
   * Kotlin's `Char.isWhitespace()` on the JVM: Java's `Character.isWhitespace`
   * (tab, line feed, vertical tab, form feed, carriage return, the four
   * information separators U+001C..U+001F and the Unicode space, line and
   * paragraph separators other than the non-breaking ones)
   * together with `Character.isSpaceChar` (all space, line and paragraph
   * separators, including U+00A0, U+2007 and U+202F).
   */
  predicate IsWhitespace(c: char)
  {
    var n := c as int;
    (9 <= n <= 13) || (28 <= n <= 32) || n == 0xA0 || n == 0x1680
    || (0x2000 <= n <= 0x200A) || n == 0x2028 || n == 0x2029 || n == 0x202F
    || n == 0x205F || n == 0x3000
  }

  predicate AllWhitespace(s: string)
  {
    forall i :: 0 <= i < |s| ==> IsWhitespace(s[i])
  }

  /** The first offset from `i` on that does not hold whitespace (or `|s|`). */
  function SkipLeading(s: string, i: nat): (j: nat)
    requires i <= |s|
    ensures i <= j <= |s|
    ensures forall m :: i <= m < j ==> IsWhitespace(s[m])
    ensures j < |s| ==> !IsWhitespace(s[j])
    decreases |s| - i
  {
    if i < |s| && IsWhitespace(s[i]) then SkipLeading(s, i + 1) else i
  }

  /** Walking back from `j`, but not past `lo`: the end of the text once trailing whitespace is dropped. */
  function SkipTrailing(s: string, lo: nat, j: nat): (e: nat)
    requires lo <= j <= |s|
    ensures lo <= e <= j
    ensures forall m :: e <= m < j ==> IsWhitespace(s[m])
    ensures e > lo ==> !IsWhitespace(s[e - 1])
    decreases j
  {
    if j > lo && IsWhitespace(s[j - 1]) then SkipTrailing(s, lo, j - 1) else j
  }

  /**
   * `String.trim()`: `s` with its leading and trailing whitespace dropped and
   * nothing else; empty exactly when `s` is all whitespace.
   */
  function Trim(s: string): (r: string)
    ensures |r| <= |s|
    ensures exists a :: 0 <= a <= |s| - |r| && r == s[a..a + |r|]
                         && AllWhitespace(s[..a]) && AllWhitespace(s[a + |r|..])
    ensures r != [] ==> !IsWhitespace(r[0]) && !IsWhitespace(r[|r| - 1])
    ensures r == [] <==> AllWhitespace(s)
  {
    var a := SkipLeading(s, 0);
    var e := SkipTrailing(s, a, |s|);
    TrimBounds(s, a, e, s[a..e]);
    s[a..e]
  }

  /** Bounds that cut off only whitespace and stop at non-whitespace give a result with every property of `Trim`. */
  lemma TrimBounds(s: string, a: nat, e: nat, r: string)
    requires a <= e <= |s| && r == s[a..e]
    requires forall m :: 0 <= m < a ==> IsWhitespace(s[m])
    requires a < |s| ==> !IsWhitespace(s[a])
    requires forall m :: e <= m < |s| ==> IsWhitespace(s[m])
    requires e > a ==> !IsWhitespace(s[e - 1])
    ensures |r| <= |s|
    ensures exists k :: 0 <= k <= |s| - |r| && r == s[k..k + |r|]
                         && AllWhitespace(s[..k]) && AllWhitespace(s[k + |r|..])
    ensures r != [] ==> !IsWhitespace(r[0]) && !IsWhitespace(r[|r| - 1])
    ensures r == [] <==> AllWhitespace(s)
  {
    assert AllWhitespace(s[..a]) && AllWhitespace(s[a + |r|..]);
  }

  /**
   * Cutting only whitespace off both ends, so that what remains is empty or
   * starts and ends with non-whitespace, can only give `Trim(s)`.
   */
  lemma TrimIsUnique(s: string, a: nat, b: nat)
    requires a <= b <= |s|
    requires forall m :: 0 <= m < a ==> IsWhitespace(s[m])
    requires forall m :: b <= m < |s| ==> IsWhitespace(s[m])
    requires a < b ==> !IsWhitespace(s[a]) && !IsWhitespace(s[b - 1])
    requires a == b ==> AllWhitespace(s)
    ensures Trim(s) == s[a..b]
  {
    var a0 := SkipLeading(s, 0);
    var e0 := SkipTrailing(s, a0, |s|);
    TrimBounds(s, a0, e0, s[a0..e0]);
    // each scan stops at the first non-whitespace character from its end
    assert a < b ==> a == a0 && b == e0;
  }

  // ---------------------------------------------------------------------------
  // Searching

  predicate StartsWith(s: string, prefix: string)
  {
    |prefix| <= |s| && s[..|prefix|] == prefix
  }

  /** `regionMatches` with `ignoreCase`: `p[k..]` matches `s` from offset `i + k` on. */
  predicate RegionMatches(s: string, i: nat, p: string, k: nat)
    requires i + |p| <= |s|
    decreases |p| - k
  {
    k >= |p| || (SameIgnoringCase(s[i + k], p[k]) && RegionMatches(s, i, p, k + 1))
  }

  /** `indexOf(p, from, ignoreCase = true) >= 0`: the offsets from `i` on are tried in turn. */
  predicate ContainsFrom(s: string, p: string, i: nat)
    decreases |s| - i
  {
    i + |p| <= |s| && (RegionMatches(s, i, p, 0) || ContainsFrom(s, p, i + 1))
  }

  /** `s.contains(p, ignoreCase = true)`. */
  predicate ContainsIgnoringCase(s: string, p: string)
  {
    ContainsFrom(s, p, 0)
  }

  /** The match of `p` at offset `i` of `s`, stated position by position. */
  ghost predicate MatchesAt(s: string, p: string, i: int)
  {
    0 <= i && i + |p| <= |s| && forall k :: 0 <= k < |p| ==> SameIgnoringCase(s[i + k], p[k])
  }

  lemma {:induction false} RegionMatchesAll(s: string, i: nat, p: string, k: nat)
    requires i + |p| <= |s|
    ensures RegionMatches(s, i, p, k) <==> forall j :: k <= j < |p| ==> SameIgnoringCase(s[i + j], p[j])
    decreases |p| - k
  {
    if k < |p| {
      RegionMatchesAll(s, i, p, k + 1);
    }
  }

  /** The search from offset `i` succeeds exactly when `p` matches at some offset `j >= i`. */
  lemma {:induction false} ContainsFromIsSomeMatch(s: string, p: string, i: nat)
    ensures ContainsFrom(s, p, i) <==> exists j :: i <= j && MatchesAt(s, p, j)
    decreases |s| - i
  {
    if i + |p| <= |s| {
      RegionMatchesAll(s, i, p, 0);
      ContainsFromIsSomeMatch(s, p, i + 1);
      if RegionMatches(s, i, p, 0) {
        assert MatchesAt(s, p, i);
      }
      if j :| i <= j && MatchesAt(s, p, j) {
        if j > i { assert i + 1 <= j; }
      }
    }
  }

  /** `contains` with `ignoreCase` holds exactly when `p` matches, ignoring case, somewhere in `s`. */
  lemma ContainsIgnoringCaseIsSomeMatch(s: string, p: string)
    ensures ContainsIgnoringCase(s, p) <==> exists i :: MatchesAt(s, p, i)
  {
    ContainsFromIsSomeMatch(s, p, 0);
  }

  // ---------------------------------------------------------------------------
  // replace, split(" ") and joinToString(" ")

  /** `s.replace(from, to)` for single characters: every `from` becomes `to`. */
  function ReplaceChar(s: string, from: char, to: char): (r: string)
    ensures |r| == |s|
    ensures forall i :: 0 <= i < |s| ==> r[i] == (if s[i] == from then to else s[i])
  {
    if s == [] then [] else [if s[0] == from then to else s[0]] + ReplaceChar(s[1..], from, to)
  }

  /**
   * `s.split(" ")`: the pieces between single spaces, empty pieces kept
   * (Kotlin, unlike Java, keeps trailing empty pieces), so never an empty list.
   */
  function SplitSpaces(s: string): (ws: seq<string>)
    ensures |ws| >= 1
    ensures forall j :: 0 <= j < |ws| ==> ' ' !in ws[j]
  {
    if s == [] then [[]]
    else if s[0] == ' ' then [[]] + SplitSpaces(s[1..])
    else
      var rest := SplitSpaces(s[1..]);
      [[s[0]] + rest[0]] + rest[1..]
  }

  /** `ws.joinToString(" ")`. */
  function JoinSpaces(ws: seq<string>): string
    requires |ws| >= 1
  {
    if |ws| == 1 then ws[0] else ws[0] + " " + JoinSpaces(ws[1..])
  }

  /** Joining puts back exactly what splitting took apart. */
  lemma {:induction false} JoinSplit(s: string)
    ensures JoinSpaces(SplitSpaces(s)) == s
  {
    if s != [] {
      JoinSplit(s[1..]);
      var rest := SplitSpaces(s[1..]);
      if s[0] != ' ' {
        JoinConsChar(s[0], rest[0], rest[1..]);
        assert [rest[0]] + rest[1..] == rest;
      }
    }
  }

  lemma JoinConsChar(c: char, w: string, ws: seq<string>)
    ensures JoinSpaces([[c] + w] + ws) == [c] + JoinSpaces([w] + ws)
  {
    if ws != [] {
      assert ([[c] + w] + ws)[1..] == ws == ([w] + ws)[1..];
    }
  }

  function MapCapitalize(ws: seq<string>): (r: seq<string>)
    ensures |r| == |ws|
    ensures forall j :: 0 <= j < |ws| ==> r[j] == CapitalizeFirst(ws[j])
  {
    if ws == [] then [] else [CapitalizeFirst(ws[0])] + MapCapitalize(ws[1..])
  }

  /** `split(" ").joinToString(" ") { it.replaceFirstChar { c -> c.uppercase() } }`. */
  function CapitalizeWords(s: string): string
  {
    JoinSpaces(MapCapitalize(SplitSpaces(s)))
  }

  /**
   * A left-to-right scan: a character is upper-cased when it opens a word,
   * that is at the start (when `atStart`) or right after a space.
   */
  function CapitalizeAfterSpaces(s: string, atStart: bool): (r: string)
    ensures |r| == |s|
  {
    if s == [] then []
    else [if atStart then UpperChar(s[0]) else s[0]] + CapitalizeAfterSpaces(s[1..], s[0] == ' ')
  }

  /** The words of a split, with the first one capitalised only when `first` holds. */
  function CapitalizeTail(first: bool, ws: seq<string>): seq<string>
    requires |ws| >= 1
  {
    [if first then CapitalizeFirst(ws[0]) else ws[0]] + MapCapitalize(ws[1..])
  }

  /** A leading space ends an empty first word and makes the next character open one. */
  lemma ScanSpaceStep(s: string, atStart: bool)
    requires s != [] && s[0] == ' '
    requires JoinSpaces(CapitalizeTail(true, SplitSpaces(s[1..]))) == CapitalizeAfterSpaces(s[1..], true)
    ensures JoinSpaces(CapitalizeTail(atStart, SplitSpaces(s))) == CapitalizeAfterSpaces(s, atStart)
  {
    var rest := SplitSpaces(s[1..]);
    assert SplitSpaces(s) == [[]] + rest;
    assert MapCapitalize(rest) == CapitalizeTail(true, rest);
    assert CapitalizeTail(atStart, SplitSpaces(s)) == [[]] + CapitalizeTail(true, rest);
  }

  /** Any other leading character joins the first word, upper-cased only when it opens it. */
  lemma ScanCharStep(s: string, atStart: bool)
    requires s != [] && s[0] != ' '
    requires JoinSpaces(CapitalizeTail(false, SplitSpaces(s[1..]))) == CapitalizeAfterSpaces(s[1..], false)
    ensures JoinSpaces(CapitalizeTail(atStart, SplitSpaces(s))) == CapitalizeAfterSpaces(s, atStart)
  {
    var rest := SplitSpaces(s[1..]);
    var c0 := if atStart then UpperChar(s[0]) else s[0];
    assert SplitSpaces(s) == [[s[0]] + rest[0]] + rest[1..];
    assert CapitalizeTail(atStart, SplitSpaces(s)) == [[c0] + rest[0]] + MapCapitalize(rest[1..]);
    JoinConsChar(c0, rest[0], MapCapitalize(rest[1..]));
    assert CapitalizeTail(false, rest) == [rest[0]] + MapCapitalize(rest[1..]);
  }

  lemma {:induction false} CapitalizeWordsScan(s: string, atStart: bool)
    ensures JoinSpaces(CapitalizeTail(atStart, SplitSpaces(s))) == CapitalizeAfterSpaces(s, atStart)
  {
    if s == [] {
    } else if s[0] == ' ' {
      CapitalizeWordsScan(s[1..], true);
      ScanSpaceStep(s, atStart);
    } else {
      CapitalizeWordsScan(s[1..], false);
      ScanCharStep(s, atStart);
    }
  }

  lemma {:induction false} CapitalizeAfterSpacesAt(s: string, atStart: bool, i: int)
    requires 0 <= i < |s|
    ensures CapitalizeAfterSpaces(s, atStart)[i]
            == if (i == 0 && atStart) || (i > 0 && s[i - 1] == ' ') then UpperChar(s[i]) else s[i]
  {
    if i > 0 {
      CapitalizeAfterSpacesAt(s[1..], s[0] == ' ', i - 1);
    }
  }

  /**
   * Splitting on spaces, capitalising each piece and joining again upper-cases
   * exactly the characters that open a word and changes nothing else.
   */
  lemma CapitalizeWordsAt(s: string)
    ensures |CapitalizeWords(s)| == |s|
    ensures forall i :: 0 <= i < |s| ==>
      CapitalizeWords(s)[i] == if i == 0 || s[i - 1] == ' ' then UpperChar(s[i]) else s[i]
  {
    CapitalizeWordsScan(s, true);
    assert CapitalizeTail(true, SplitSpaces(s)) == MapCapitalize(SplitSpaces(s));
    forall i | 0 <= i < |s|
      ensures CapitalizeWords(s)[i] == if i == 0 || s[i - 1] == ' ' then UpperChar(s[i]) else s[i]
    {
      CapitalizeAfterSpacesAt(s, true, i);
    }
  }
}
