/** String primitives the core relies on: JavaScript's whitespace class (what
    `String.prototype.trim` strips and what `\s` / `\S` match), `trim()`, the
    global match `/\S+/g`, `split('.')` and `includes`. */
module Text {

  /** WhiteSpace and LineTerminator code points of ECMA-262. */
  predicate IsSpace(c: char) {
    || c == ' ' || c == '\t' || c == '\n' || c == '\r'
    || c == '\U{000B}' || c == '\U{000C}' || c == '\U{00A0}' || c == '\U{1680}'
    || ('\U{2000}' <= c <= '\U{200A}')
    || c == '\U{2028}' || c == '\U{2029}' || c == '\U{202F}' || c == '\U{205F}'
    || c == '\U{3000}' || c == '\U{FEFF}'
  }

  /** A character matched by `\S`. */
  predicate IsWordChar(c: char) {
    !IsSpace(c)
  }

  ghost predicate AllSpace(s: string) {
    forall i :: 0 <= i < |s| ==> IsSpace(s[i])
  }

  ghost predicate NoSpace(s: string) {
    forall i :: 0 <= i < |s| ==> !IsSpace(s[i])
  }

  /** Length of the longest prefix of `s` whose characters all satisfy `p`. */
  function Span(s: string, p: char -> bool): (n: nat)
    ensures n <= |s|
    ensures forall i :: 0 <= i < n ==> p(s[i])
    ensures n < |s| ==> !p(s[n])
  {
    if |s| == 0 || !p(s[0]) then 0 else 1 + Span(s[1..], p)
  }

  /** `Span` is pinned down by the first character that fails `p`. */
  lemma SpanIs(s: string, p: char -> bool, k: nat)
    requires k <= |s|
    requires forall i :: 0 <= i < k ==> p(s[i])
    requires k < |s| ==> !p(s[k])
    ensures Span(s, p) == k
  {
  }

  /** Length of the longest suffix of `s` whose characters all satisfy `p`. */
  function SpanEnd(s: string, p: char -> bool): (n: nat)
    ensures n <= |s|
    ensures forall i :: |s| - n <= i < |s| ==> p(s[i])
    ensures n < |s| ==> !p(s[|s| - n - 1])
  {
    if |s| == 0 || !p(s[|s| - 1]) then 0 else 1 + SpanEnd(s[..|s| - 1], p)
  }

  /** Number of whitespace characters `trim()` removes at the front. */
  function LeadingSpaces(s: string): nat {
    Span(s, IsSpace)
  }

  /** `s.trim()`: the text between the leading and the trailing whitespace runs. */
  function Trim(s: string): string {
    var a := LeadingSpaces(s);
    var rest := s[a..];
    rest[..|rest| - SpanEnd(rest, IsSpace)]
  }

  /** What trimming keeps: the text between the leading and the trailing
      whitespace runs, beginning and ending with a visible character; it is
      empty exactly when the string is all whitespace. */
  lemma TrimSpec(s: string)
    ensures |Trim(s)| <= |s|
    ensures LeadingSpaces(s) + |Trim(s)| <= |s|
    ensures Trim(s) == s[LeadingSpaces(s)..LeadingSpaces(s) + |Trim(s)|]
    ensures AllSpace(s[..LeadingSpaces(s)]) && AllSpace(s[LeadingSpaces(s) + |Trim(s)|..])
    ensures |Trim(s)| > 0 ==> !IsSpace(Trim(s)[0]) && !IsSpace(Trim(s)[|Trim(s)| - 1])
    ensures Trim(s) == [] <==> AllSpace(s)
  {
    var a := LeadingSpaces(s);
    var r := Trim(s);
    assert a < |s| ==> !IsSpace(s[a]);
    assert |r| > 0 ==> r[0] == s[a];
    assert AllSpace(s) ==> a == |s|;
  }

  /** Trimming twice is trimming once. */
  lemma TrimIdempotent(s: string)
    ensures Trim(Trim(s)) == Trim(s)
  {
    var r := Trim(s);
    if |r| > 0 {
      assert LeadingSpaces(r) == 0;
      var t := Trim(r);
      assert AllSpace(r[|t|..]);
    }
  }

  /** A string that neither begins nor ends with whitespace is its own trim. */
  lemma TrimNoOuterSpace(s: string)
    requires s != [] && !IsSpace(s[0]) && !IsSpace(s[|s| - 1])
    ensures Trim(s) == s
  {
    assert LeadingSpaces(s) == 0;
    assert SpanEnd(s, IsSpace) == 0;
  }

  /** A string that is its own trim is unchanged by one leading space more. */
  lemma TrimLeadingSpace(s: string)
    requires s != [] && Trim(s) == s
    ensures Trim(" " + s) == s
  {
    var t := " " + s;
    assert !IsSpace(s[0]) && !IsSpace(s[|s| - 1]);
    assert Span(t[1..], IsSpace) == 0;
    assert LeadingSpaces(t) == 1;
    var r := Trim(t);
    assert r == t[1..1 + |r|];
  }

  /** The words of `s`: every maximal run of non-whitespace characters, left to
      right, as `s.match(/\S+/g) || []` returns them. */
  function Words(s: string): (ws: seq<string>)
    decreases |s|
  {
    if |s| == 0 then []
    else if IsSpace(s[0]) then Words(s[1..])
    else
      var n := Span(s, IsWordChar);
      [s[..n]] + Words(s[n..])
  }

  /** Every word is non-empty and free of whitespace. */
  lemma {:induction false} WordsShape(s: string)
    ensures forall k :: 0 <= k < |Words(s)| ==> Words(s)[k] != [] && NoSpace(Words(s)[k])
    decreases |s|
  {
    if |s| == 0 {
    } else if IsSpace(s[0]) {
      WordsShape(s[1..]);
    } else {
      var n := Span(s, IsWordChar);
      WordsShape(s[n..]);
      assert forall i :: 0 <= i < n ==> s[..n][i] == s[i];
    }
  }

  /** `ws` joined with single spaces. */
  function JoinSpaced(ws: seq<string>): string
  {
    if |ws| == 0 then ""
    else if |ws| == 1 then ws[0]
    else ws[0] + " " + JoinSpaced(ws[1..])
  }

  /** The separators around the words of `s`, one more than there are words:
      `gaps[0]` before the first word, `gaps[|ws|]` after the last. */
  ghost predicate GapsFit(gaps: seq<string>, n: nat) {
    && |gaps| == n + 1
    && (forall k :: 0 <= k < |gaps| ==> AllSpace(gaps[k]))
    && (forall k :: 0 < k < n ==> gaps[k] != [])
  }

  /** `gaps[0] + ws[0] + gaps[1] + ... + ws[n-1] + gaps[n]`. */
  function Interleave(gaps: seq<string>, ws: seq<string>): string
    requires |gaps| == |ws| + 1
  {
    if |ws| == 0 then gaps[0]
    else gaps[0] + ws[0] + Interleave(gaps[1..], ws[1..])
  }

  /** `Words` reads off the unique word/whitespace layout: any string laid out
      as whitespace gaps (non-empty between words) around non-empty
      whitespace-free words has exactly those words. */
  lemma {:induction false} WordsUnique(s: string, gaps: seq<string>, ws: seq<string>)
    requires GapsFit(gaps, |ws|)
    requires forall k :: 0 <= k < |ws| ==> ws[k] != [] && NoSpace(ws[k])
    requires s == Interleave(gaps, ws)
    ensures Words(s) == ws
    decreases |s|, |gaps[0]|
  {
    if |gaps[0]| > 0 {
      var gaps' := NarrowFirstGap(s, gaps, ws);
      WordsUnique(s[1..], gaps', ws);
    } else if |ws| == 0 {
      assert s == [];
    } else {
      var rest := Interleave(gaps[1..], ws[1..]);
      assert s == ws[0] + rest;
      GapLeadsRest(gaps[1..], ws[1..]);
      WordsFront(s, ws[0], rest);
      WordsUnique(rest, gaps[1..], ws[1..]);
      assert ws == [ws[0]] + ws[1..];
    }
  }

  /** A layout whose first gap is non-empty starts with whitespace; without
      that character the layout keeps the same words. */
  lemma NarrowFirstGap(s: string, gaps: seq<string>, ws: seq<string>) returns (gaps': seq<string>)
    requires GapsFit(gaps, |ws|) && |gaps[0]| > 0
    requires s == Interleave(gaps, ws)
    ensures |s| > 0 && IsSpace(s[0])
    ensures GapsFit(gaps', |ws|) && |gaps'[0]| < |gaps[0]| && gaps'[1..] == gaps[1..]
    ensures s[1..] == Interleave(gaps', ws)
  {
    gaps' := [gaps[0][1..]] + gaps[1..];
    assert gaps'[1..] == gaps[1..];
    if |ws| > 0 {
      assert s == gaps[0] + (ws[0] + Interleave(gaps[1..], ws[1..]));
    }
    assert s[0] == gaps[0][0];
  }

  /** After a word, the rest of a layout is empty or starts with whitespace. */
  lemma GapLeadsRest(gaps: seq<string>, ws: seq<string>)
    requires |gaps| == |ws| + 1
    requires forall k :: 0 <= k < |gaps| ==> AllSpace(gaps[k])
    requires |ws| > 0 ==> gaps[0] != []
    ensures Interleave(gaps, ws) != [] ==> IsSpace(Interleave(gaps, ws)[0])
  {
    if |ws| > 0 {
      assert Interleave(gaps, ws) == gaps[0] + (ws[0] + Interleave(gaps[1..], ws[1..]));
      assert Interleave(gaps, ws)[0] == gaps[0][0];
    }
  }

  /** A whitespace-free word followed by whitespace or nothing is the first
      word. */
  lemma WordsFront(s: string, w: string, rest: string)
    requires s == w + rest && w != [] && NoSpace(w)
    requires rest != [] ==> IsSpace(rest[0])
    ensures Words(s) == [w] + Words(rest)
  {
    assert forall i :: 0 <= i < |w| ==> s[i] == w[i];
    assert |w| < |s| ==> s[|w|] == rest[0];
    SpanIs(s, IsWordChar, |w|);
    assert s[..|w|] == w;
    assert s[|w|..] == rest;
  }

  /** Every string is laid out as whitespace gaps around its words. */
  lemma {:induction false} WordsDecompose(s: string) returns (gaps: seq<string>)
    ensures GapsFit(gaps, |Words(s)|)
    ensures Interleave(gaps, Words(s)) == s
    decreases |s|
  {
    if |s| == 0 {
      gaps := [[]];
    } else if IsSpace(s[0]) {
      var g := WordsDecompose(s[1..]);
      gaps := GapsBehindSpace(s[0], g, Words(s[1..]));
      assert s == [s[0]] + s[1..];
    } else {
      var n := Span(s, IsWordChar);
      var g := WordsDecompose(s[n..]);
      var ws := Words(s[n..]);
      if |ws| > 0 {
        WordsShape(s[n..]);
        assert s[n..] == g[0] + (ws[0] + Interleave(g[1..], ws[1..]));
        FirstGapNonEmpty(s[n..], g[0], ws[0], Interleave(g[1..], ws[1..]));
      }
      gaps := GapsBehindWord(s[..n], g, ws);
      assert s == s[..n] + s[n..];
    }
  }

  /** One more whitespace character in front widens the first gap. */
  lemma GapsBehindSpace(c: char, g: seq<string>, ws: seq<string>) returns (gaps: seq<string>)
    requires IsSpace(c) && GapsFit(g, |ws|)
    ensures GapsFit(gaps, |ws|)
    ensures Interleave(gaps, ws) == [c] + Interleave(g, ws)
  {
    gaps := [[c] + g[0]] + g[1..];
    assert gaps[1..] == g[1..];
    if |ws| > 0 {
      assert Interleave(g, ws) == g[0] + ws[0] + Interleave(g[1..], ws[1..]);
    }
  }

  /** A word in front adds an empty first gap. */
  lemma GapsBehindWord(w: string, g: seq<string>, ws: seq<string>) returns (gaps: seq<string>)
    requires GapsFit(g, |ws|)
    requires |ws| > 0 ==> g[0] != []
    ensures GapsFit(gaps, |ws| + 1)
    ensures Interleave(gaps, [w] + ws) == w + Interleave(g, ws)
  {
    gaps := [[]] + g;
    assert gaps[1..] == g;
    assert ([w] + ws)[1..] == ws;
  }

  /** A string that begins with whitespace, or is empty, has a non-empty
      gap in front of its first word. */
  lemma FirstGapNonEmpty(t: string, g0: string, w: string, rest: string)
    requires t == g0 + (w + rest)
    requires w != [] && !IsSpace(w[0])
    requires t != [] ==> IsSpace(t[0])
    ensures g0 != []
  {
    assert t[|g0|] == w[0];
  }

  /** Single spaces between the words: `n + 1` gaps, the outer two empty. */
  function SingleSpaceGaps(n: nat): (gaps: seq<string>)
    ensures GapsFit(gaps, n)
  {
    if n == 0 then [[]]
    else if n == 1 then [[], []]
    else [[]] + [" "] + SingleSpaceGaps(n - 1)[1..]
  }

  lemma {:induction false} JoinSpacedInterleave(ws: seq<string>)
    ensures JoinSpaced(ws) == Interleave(SingleSpaceGaps(|ws|), ws)
  {
    if |ws| >= 2 {
      JoinSpacedInterleave(ws[1..]);
      var g := SingleSpaceGaps(|ws| - 1);
      var gaps := SingleSpaceGaps(|ws|);
      assert gaps[1..] == [" "] + g[1..];
      assert Interleave(gaps[1..], ws[1..]) == " " + Interleave(g, ws[1..]);
    }
  }

  /** Joining words with single spaces and splitting again gives them back. */
  lemma WordsOfJoinSpaced(ws: seq<string>)
    requires forall k :: 0 <= k < |ws| ==> ws[k] != [] && NoSpace(ws[k])
    ensures Words(JoinSpaced(ws)) == ws
  {
    JoinSpacedInterleave(ws);
    WordsUnique(JoinSpaced(ws), SingleSpaceGaps(|ws|), ws);
  }

  /** A non-empty trimmed string has at least one word, the first starting at
      its first character. */
  lemma TrimmedHasWord(s: string)
    requires s != [] && Trim(s) == s
    ensures |Words(s)| >= 1 && Words(s)[0][0] == s[0]
  {
  }

  /** Whether `sub` occurs in `s` at position `k`. */
  ghost predicate OccursAt(s: string, sub: string, k: nat) {
    k + |sub| <= |s| && s[k..k + |sub|] == sub
  }

  /** `s.includes(sub)`. */
  function Contains(s: string, sub: string): (r: bool)
    ensures r <==> exists k :: 0 <= k <= |s| && OccursAt(s, sub, k)
    decreases |s|
  {
    if |sub| <= |s| && s[..|sub|] == sub then
      assert OccursAt(s, sub, 0);
      true
    else if |s| == 0 then false
    else
      OccursLater(s, sub);
      Contains(s[1..], sub)
  }

  /** When `sub` is not a prefix of the non-empty `s`, it occurs in `s` exactly
      when it occurs in `s[1..]`. */
  lemma OccursLater(s: string, sub: string)
    requires |s| > 0 && !(|sub| <= |s| && s[..|sub|] == sub)
    ensures (exists k :: 0 <= k <= |s| && OccursAt(s, sub, k))
        <==> (exists k :: 0 <= k <= |s| - 1 && OccursAt(s[1..], sub, k))
  {
    if exists k :: 0 <= k <= |s| && OccursAt(s, sub, k) {
      var k :| 0 <= k <= |s| && OccursAt(s, sub, k);
      assert k != 0;
      assert s[1..][k - 1..k - 1 + |sub|] == s[k..k + |sub|];
      assert OccursAt(s[1..], sub, k - 1);
    }
    if exists k :: 0 <= k <= |s| - 1 && OccursAt(s[1..], sub, k) {
      var k :| 0 <= k <= |s| - 1 && OccursAt(s[1..], sub, k);
      assert s[1..][k..k + |sub|] == s[k + 1..k + 1 + |sub|];
      assert OccursAt(s, sub, k + 1);
    }
  }

  /** Position of the first `c` in `s`, or `|s|` when there is none. */
  function IndexOf(s: string, c: char): (i: nat)
    ensures i <= |s|
    ensures i < |s| ==> s[i] == c
    ensures forall j :: 0 <= j < i ==> s[j] != c
  {
    if |s| == 0 || s[0] == c then 0 else 1 + IndexOf(s[1..], c)
  }

  /** `s.split(sep)` for a one-character separator. */
  function Split(s: string, sep: char): (parts: seq<string>)
    ensures |parts| >= 1
    decreases |s|
  {
    var i := IndexOf(s, sep);
    if i == |s| then [s] else [s[..i]] + Split(s[i + 1..], sep)
  }

  /** No part holds the separator. */
  lemma {:induction false} SplitPartsFree(s: string, sep: char)
    ensures forall k :: 0 <= k < |Split(s, sep)| ==> sep !in Split(s, sep)[k]
    decreases |s|
  {
    var i := IndexOf(s, sep);
    if i < |s| {
      SplitPartsFree(s[i + 1..], sep);
      assert sep !in s[..i];
    } else {
      assert sep !in s;
    }
  }

  /** `parts.join(sep)`. */
  function Join(parts: seq<string>, sep: char): string
    requires |parts| >= 1
  {
    if |parts| == 1 then parts[0] else parts[0] + [sep] + Join(parts[1..], sep)
  }

  /** `split` loses nothing: joining the parts gives the string back. */
  lemma {:induction false} JoinSplit(s: string, sep: char)
    ensures Join(Split(s, sep), sep) == s
    decreases |s|
  {
    var i := IndexOf(s, sep);
    if i < |s| {
      var rest := Split(s[i + 1..], sep);
      JoinSplit(s[i + 1..], sep);
      assert Split(s, sep) == [s[..i]] + rest;
      JoinCons(s[..i], rest, sep);
      assert s == s[..i] + [sep] + s[i + 1..];
    }
  }

  lemma JoinCons(a: string, rest: seq<string>, sep: char)
    requires |rest| >= 1
    ensures Join([a] + rest, sep) == a + [sep] + Join(rest, sep)
  {
    assert ([a] + rest)[1..] == rest;
  }
}
