/** Sentence segmentation of `processText` and word splitting of
    `processCurrentSentence` (extension/content/content-script.js). */
module Segmenter {
  import opened Text

  /** The sentence terminators of the pattern `[.!?]`. */
  predicate IsTerminator(c: char) {
    c == '.' || c == '!' || c == '?'
  }

  /** A character of the class `[^.!?]`. */
  predicate IsSentenceChar(c: char) {
    !IsTerminator(c)
  }

  ghost predicate AllTerminators(s: string) {
    forall i :: 0 <= i < |s| ==> IsTerminator(s[i])
  }

  ghost predicate NoTerminator(s: string) {
    forall i :: 0 <= i < |s| ==> !IsTerminator(s[i])
  }

  /** The shape of one match of `[^.!?]+[.!?]+`: a non-empty run of
      non-terminators, then a non-empty run of terminators up to the end. */
  ghost predicate IsMatchShape(m: string) {
    var k := Span(m, IsSentenceChar);
    0 < k < |m| && AllTerminators(m[k..])
  }

  /** Where the match that starts at the front of `s` ends: after the
      non-terminator run and the terminator run behind it. */
  function MatchEnd(s: string): (m: nat)
    requires Span(s, IsSentenceChar) < |s|
    ensures Span(s, IsSentenceChar) < m <= |s|
    ensures AllTerminators(s[Span(s, IsSentenceChar)..m])
    ensures m < |s| ==> !IsTerminator(s[m])
  {
    var n := Span(s, IsSentenceChar);
    var m := n + Span(s[n..], IsTerminator);
    assert forall i :: n <= i < m ==> s[i] == s[n..][i - n];
    m
  }

  /** Every match of the global pattern `/[^.!?]+[.!?]+/g`, left to right.
      Terminators in front of the first match are skipped; a final run of
      non-terminators that no terminator follows is not matched. */
  function Matches(s: string): (ms: seq<string>)
    decreases |s|
  {
    if |s| == 0 then []
    else if IsTerminator(s[0]) then Matches(s[1..])
    else if Span(s, IsSentenceChar) == |s| then []
    else
      var m := MatchEnd(s);
      [s[..m]] + Matches(s[m..])
  }

  /** Every match has the shape of the pattern. */
  lemma {:induction false} MatchesShape(s: string)
    ensures forall k :: 0 <= k < |Matches(s)| ==> IsMatchShape(Matches(s)[k])
    decreases |s|
  {
    if |s| == 0 {
    } else if IsTerminator(s[0]) {
      MatchesShape(s[1..]);
    } else if Span(s, IsSentenceChar) < |s| {
      var n := Span(s, IsSentenceChar);
      var m := MatchEnd(s);
      var head := s[..m];
      assert forall i :: 0 <= i < n ==> head[i] == s[i];
      assert head[n] == s[n];
      assert Span(head, IsSentenceChar) == n;
      assert head[n..] == s[n..m];
      MatchesShape(s[m..]);
    }
  }

  /** Concatenation of a list of strings. */
  function Concat(ms: seq<string>): string {
    if |ms| == 0 then "" else ms[0] + Concat(ms[1..])
  }

  /** `s` is leading terminators, then the matches `ms`, then a tail free of
      terminators. */
  ghost predicate IsMatchLayout(s: string, lead: string, ms: seq<string>, tail: string) {
    && s == lead + Concat(ms) + tail
    && AllTerminators(lead)
    && (forall k :: 0 <= k < |ms| ==> IsMatchShape(ms[k]))
    && NoTerminator(tail)
  }

  /** The matches cover the text: only leading terminators and a tail without
      any terminator are left over. */
  lemma {:induction false} MatchesLayout(s: string) returns (lead: string, tail: string)
    ensures IsMatchLayout(s, lead, Matches(s), tail)
    decreases |s|
  {
    if |s| == 0 {
      lead, tail := "", "";
    } else if IsTerminator(s[0]) {
      var l, t := MatchesLayout(s[1..]);
      lead, tail := [s[0]] + l, t;
      LayoutBehindTerminator(s, l, t);
    } else if Span(s, IsSentenceChar) == |s| {
      lead, tail := "", s;
    } else {
      var l, t := MatchesLayout(s[MatchEnd(s)..]);
      lead, tail := "", t;
      LayoutBehindMatch(s, l, t);
    }
  }

  lemma AllTerminatorsCons(c: char, l: string)
    requires IsTerminator(c) && AllTerminators(l)
    ensures AllTerminators([c] + l)
  {
  }

  lemma ConsParts(s: string, a: string, b: string, c: string)
    requires |s| > 0 && s[1..] == a + b + c
    ensures s == [s[0]] + a + b + c
  {
    assert s == [s[0]] + s[1..];
  }

  lemma SplitParts(s: string, m: nat, b: string, c: string)
    requires m <= |s| && s[m..] == b + c
    ensures s == s[..m] + b + c
  {
    assert s == s[..m] + s[m..];
  }

  lemma ConcatCons(h: string, ms: seq<string>)
    ensures Concat([h] + ms) == h + Concat(ms)
  {
    assert ([h] + ms)[1..] == ms;
  }

  lemma LayoutBehindTerminator(s: string, l: string, t: string)
    requires |s| > 0 && IsTerminator(s[0])
    requires IsMatchLayout(s[1..], l, Matches(s[1..]), t)
    ensures IsMatchLayout(s, [s[0]] + l, Matches(s), t)
  {
    assert Matches(s) == Matches(s[1..]);
    AllTerminatorsCons(s[0], l);
    ConsParts(s, l, Concat(Matches(s[1..])), t);
  }

  lemma LayoutBehindMatch(s: string, l: string, t: string)
    requires 0 < |s| && !IsTerminator(s[0])
    requires Span(s, IsSentenceChar) < |s|
    requires IsMatchLayout(s[MatchEnd(s)..], l, Matches(s[MatchEnd(s)..]), t)
    ensures IsMatchLayout(s, "", Matches(s), t)
  {
    var m := MatchEnd(s);
    var rs := Matches(s[m..]);
    assert Matches(s) == [s[..m]] + rs;
    assert l == [] by {
      if m < |s| {
        assert s[m..][0] == s[m];
      }
    }
    MatchesShape(s);
    assert IsMatchShape(Matches(s)[0]);
    LayoutCons(s, s[..m], rs, t);
  }

  /** A match in front of a layout without leading terminators. */
  lemma LayoutCons(s: string, h: string, rs: seq<string>, t: string)
    requires |h| <= |s| && s[..|h|] == h
    requires IsMatchShape(h) && IsMatchLayout(s[|h|..], "", rs, t)
    ensures IsMatchLayout(s, "", [h] + rs, t)
  {
    ConcatCons(h, rs);
    assert s == s[..|h|] + s[|h|..];
  }

  /** The first character after a match is never a terminator. */
  lemma FollowerNotTerminator(ms: seq<string>, tail: string)
    requires forall k :: 0 <= k < |ms| ==> IsMatchShape(ms[k])
    requires NoTerminator(tail)
    ensures Concat(ms) + tail != [] ==> !IsTerminator((Concat(ms) + tail)[0])
  {
    if |ms| > 0 {
      assert Span(ms[0], IsSentenceChar) > 0;
      assert (Concat(ms) + tail)[0] == ms[0][0];
    }
  }

  /** The layout is unique: whatever splits `s` into leading terminators,
      match-shaped pieces and a terminator-free tail, the pieces are
      `Matches(s)`. */
  lemma {:induction false} MatchesUnique(s: string, lead: string, ms: seq<string>, tail: string)
    requires IsMatchLayout(s, lead, ms, tail)
    ensures Matches(s) == ms
    decreases |s|
  {
    if |lead| > 0 {
      DropLeadingTerminator(s, lead, ms, tail);
      MatchesUnique(s[1..], lead[1..], ms, tail);
    } else if |ms| == 0 {
      NoMatchInTail(s, tail);
    } else {
      var rest := DropFirstMatch(s, ms, tail);
      MatchesUnique(rest, "", ms[1..], tail);
      assert ms == [ms[0]] + ms[1..];
    }
  }

  lemma DropLeadingTerminator(s: string, lead: string, ms: seq<string>, tail: string)
    requires IsMatchLayout(s, lead, ms, tail) && |lead| > 0
    ensures |s| > 0 && Matches(s) == Matches(s[1..])
    ensures IsMatchLayout(s[1..], lead[1..], ms, tail)
  {
    LayoutDropLead(s, lead, ms, tail);
    assert IsTerminator(s[0]);
  }

  lemma LayoutDropLead(s: string, lead: string, ms: seq<string>, tail: string)
    requires IsMatchLayout(s, lead, ms, tail) && |lead| > 0
    ensures |s| > 0 && s[0] == lead[0] && IsTerminator(s[0])
    ensures IsMatchLayout(s[1..], lead[1..], ms, tail)
  {
    var c := Concat(ms);
    assert s == lead + c + tail;
    assert s[0] == lead[0];
    assert s[1..] == lead[1..] + c + tail;
    assert forall i :: 0 <= i < |lead| - 1 ==> lead[1..][i] == lead[i + 1];
  }

  lemma NoMatchInTail(s: string, tail: string)
    requires IsMatchLayout(s, "", [], tail)
    ensures Matches(s) == []
  {
    assert s == tail;
    if |s| > 0 {
      assert forall i :: 0 <= i < |s| ==> IsSentenceChar(s[i]);
      assert Span(s, IsSentenceChar) == |s|;
    }
  }

  lemma DropFirstMatch(s: string, ms: seq<string>, tail: string) returns (rest: string)
    requires IsMatchLayout(s, "", ms, tail) && |ms| > 0
    ensures |rest| < |s|
    ensures Matches(s) == [ms[0]] + Matches(rest)
    ensures IsMatchLayout(rest, "", ms[1..], tail)
  {
    rest := Concat(ms[1..]) + tail;
    assert s == ms[0] + rest;
    FollowerNotTerminator(ms[1..], tail);
    MatchesStep(s, ms[0], rest);
  }

  /** A match-shaped piece followed by anything that does not start with a
      terminator is the first match. */
  lemma MatchesStep(s: string, m0: string, rest: string)
    requires IsMatchShape(m0) && s == m0 + rest
    requires rest != [] ==> !IsTerminator(rest[0])
    ensures Matches(s) == [m0] + Matches(rest)
  {
    var k := Span(m0, IsSentenceChar);
    assert forall i :: 0 <= i < |m0| ==> s[i] == m0[i];
    assert forall i :: 0 <= i < k ==> IsSentenceChar(s[i]);
    assert !IsSentenceChar(s[k]);
    assert Span(s, IsSentenceChar) == k;
    assert s[k..|m0|] == m0[k..];
    assert |m0| < |s| ==> s[|m0|] == rest[0];
    MatchEndIs(s, |m0|);
    assert s[..|m0|] == m0 && s[|m0|..] == rest;
  }

  /** `MatchEnd` is pinned down by the first non-terminator after the
      terminator run. */
  lemma MatchEndIs(s: string, m: nat)
    requires Span(s, IsSentenceChar) < m <= |s|
    requires AllTerminators(s[Span(s, IsSentenceChar)..m])
    requires m < |s| ==> !IsTerminator(s[m])
    ensures MatchEnd(s) == m
  {
    var n := Span(s, IsSentenceChar);
    TerminatorIndices(s, n, MatchEnd(s));
    TerminatorIndices(s, n, m);
  }

  lemma TerminatorIndices(s: string, n: nat, m: nat)
    requires n <= m <= |s| && AllTerminators(s[n..m])
    ensures forall i :: n <= i < m ==> IsTerminator(s[i])
  {
    assert forall i :: n <= i < m ==> s[i] == s[n..m][i - n];
  }

  /** There is a match exactly when some non-terminator comes before some
      terminator. */
  lemma {:induction false} HasMatchIff(s: string)
    ensures |Matches(s)| > 0 <==> HasPair(s)
    decreases |s|
  {
    if |s| > 0 {
      if IsTerminator(s[0]) {
        HasMatchIff(s[1..]);
        PairBehindTerminator(s);
      } else if Span(s, IsSentenceChar) == |s| {
        assert !HasPair(s) by {
          assert forall j :: 0 <= j < |s| ==> !IsTerminator(s[j]);
        }
      } else {
        assert IsSentenceChar(s[0]) && IsTerminator(s[Span(s, IsSentenceChar)]);
      }
    }
  }

  /** Some non-terminator comes before some terminator. */
  ghost predicate HasPair(s: string) {
    exists i, j :: 0 <= i < j < |s| && IsSentenceChar(s[i]) && IsTerminator(s[j])
  }

  /** A leading terminator takes part in no such pair. */
  lemma PairBehindTerminator(s: string)
    requires |s| > 0 && IsTerminator(s[0])
    ensures HasPair(s) <==> HasPair(s[1..])
  {
    if HasPair(s) {
      var i, j :| 0 <= i < j < |s| && IsSentenceChar(s[i]) && IsTerminator(s[j]);
      assert IsSentenceChar(s[1..][i - 1]) && IsTerminator(s[1..][j - 1]);
    }
    if HasPair(s[1..]) {
      var i, j :| 0 <= i < j < |s| - 1 && IsSentenceChar(s[1..][i]) && IsTerminator(s[1..][j]);
      assert IsSentenceChar(s[i + 1]) && IsTerminator(s[j + 1]);
    }
  }

  /** Trim each candidate and keep the non-empty ones. */
  function TrimAll(xs: seq<string>): (ys: seq<string>)
    ensures forall k :: 0 <= k < |ys| ==> ys[k] != [] && Trim(ys[k]) == ys[k]
  {
    if |xs| == 0 then []
    else
      var t := Trim(xs[0]);
      TrimIdempotent(xs[0]);
      if t == [] then TrimAll(xs[1..]) else [t] + TrimAll(xs[1..])
  }

  /** `processText`: the sentences to speak, each non-empty and already trimmed. */
  function Sentences(text: string): (ss: seq<string>)
    ensures forall k :: 0 <= k < |ss| ==> ss[k] != [] && Trim(ss[k]) == ss[k]
  {
    var ms := Matches(text);
    TrimAll(if |ms| > 0 then ms else [text])
  }

  /** Trimming a match only strips whitespace before its first visible
      character; its terminators all stay, so it never trims to empty. */
  lemma TrimMatch(m: string)
    requires IsMatchShape(m)
    ensures Trim(m) != []
    ensures IsTerminator(Trim(m)[|Trim(m)| - 1])
    ensures AllTerminators(m[Span(m, IsSentenceChar)..])
  {
    var k := Span(m, IsSentenceChar);
    assert IsTerminator(m[|m| - 1]) && !IsSpace(m[|m| - 1]);
    var r := Trim(m);
    var a := LeadingSpaces(m);
    assert a < |m|;
    assert a + |r| == |m|;
  }

  /** When the text has matches, the sentences are the trimmed matches, one
      per match, none dropped. */
  lemma {:induction false} SentencesOfMatches(text: string)
    requires |Matches(text)| > 0
    ensures |Sentences(text)| == |Matches(text)|
    ensures forall k :: 0 <= k < |Sentences(text)| ==> Sentences(text)[k] == Trim(Matches(text)[k])
  {
    MatchesShape(text);
    TrimAllOfMatches(Matches(text));
  }

  lemma {:induction false} TrimAllOfMatches(ms: seq<string>)
    requires forall k :: 0 <= k < |ms| ==> IsMatchShape(ms[k])
    ensures |TrimAll(ms)| == |ms|
    ensures forall k :: 0 <= k < |ms| ==> TrimAll(ms)[k] == Trim(ms[k])
  {
    if |ms| > 0 {
      TrimMatch(ms[0]);
      TrimAllOfMatches(ms[1..]);
      var r := TrimAll(ms[1..]);
      assert TrimAll(ms) == [Trim(ms[0])] + r;
      forall k | 0 <= k < |ms|
        ensures TrimAll(ms)[k] == Trim(ms[k])
      {
        if k > 0 {
          assert ms[k] == ms[1..][k - 1];
        }
      }
    }
  }

  /** Without any match the whole text is the only candidate: it is spoken
      trimmed, or not at all when it is blank. */
  lemma SentencesWithoutMatch(text: string)
    requires |Matches(text)| == 0
    ensures Sentences(text) == (if AllSpace(text) then [] else [Trim(text)])
  {
    assert TrimAll([text]) == (if Trim(text) == [] then [] else [Trim(text)]) + TrimAll([]);
  }

  /** Every sentence has at least one word, so the controller never hands the
      engine a sentence without words. */
  lemma SentenceHasWord(text: string, k: nat)
    requires k < |Sentences(text)|
    ensures |Words(Sentences(text)[k])| >= 1
  {
    TrimmedHasWord(Sentences(text)[k]);
  }

  /** A trimmed match keeps the match shape when it does not begin with a
      terminator (it does begin with one when the matched run before the
      terminators was only whitespace). */
  lemma TrimmedMatchShape(m: string)
    requires IsMatchShape(m)
    requires !IsTerminator(Trim(m)[0])
    ensures IsMatchShape(Trim(m))
  {
    var k := Span(m, IsSentenceChar);
    var a := LeadingSpaces(m);
    var r := Trim(m);
    TrimmedMatchStart(m);
    assert forall i :: 0 <= i < k - a ==> r[i] == m[a + i];
    SpanIs(r, IsSentenceChar, k - a);
    assert r[k - a..] == m[k..];
  }

  /** Trimming a match removes only leading whitespace, and when the trimmed
      text does not start with a terminator, not all of the first run. */
  lemma TrimmedMatchStart(m: string)
    requires IsMatchShape(m)
    requires !IsTerminator(Trim(m)[0])
    ensures Trim(m) == m[LeadingSpaces(m)..]
    ensures LeadingSpaces(m) < Span(m, IsSentenceChar)
  {
    TrimMatch(m);
    TrimSpec(m);
    var k := Span(m, IsSentenceChar);
    var a := LeadingSpaces(m);
    assert a + |Trim(m)| == |m|;
    assert m[k..|m|] == m[k..];
    TerminatorIndices(m, k, |m|);
  }

  /** One more leading space keeps the match shape. */
  lemma SpacedMatchShape(m: string)
    requires IsMatchShape(m)
    ensures IsMatchShape(" " + m)
  {
    var t := " " + m;
    assert t[1..] == m;
    assert Span(t, IsSentenceChar) == 1 + Span(m, IsSentenceChar);
  }

  /** Behind one space, a trimmed match has the match shape again, whatever
      it begins with: when trimming left only terminators, the space itself
      is the run before them. */
  lemma SpacedTrimmedMatchShape(m: string)
    requires IsMatchShape(m)
    ensures IsMatchShape(" " + Trim(m))
  {
    var r := Trim(m);
    TrimMatch(m);
    if !IsTerminator(r[0]) {
      TrimmedMatchShape(m);
      SpacedMatchShape(r);
    } else {
      var a := LeadingSpaces(m);
      var k := Span(m, IsSentenceChar);
      TrimSpec(m);
      assert r[0] == m[a];
      assert a >= k;
      forall i | 0 <= i < |r|
        ensures IsTerminator(r[i])
      {
        assert r[i] == m[k..][a + i - k];
      }
      var t := " " + r;
      assert t[1..] == r;
      SpanIs(t, IsSentenceChar, 1);
    }
  }

  /** Sentences that a single-space join gives back: each non-empty and
      trimmed, the first match-shaped, and each later one match-shaped
      behind its separating space. */
  ghost predicate Rejoinable(ss: seq<string>) {
    && |ss| > 0
    && IsMatchShape(ss[0])
    && (forall k :: 0 <= k < |ss| ==> ss[k] != [] && Trim(ss[k]) == ss[k])
    && (forall k :: 0 < k < |ss| ==> IsMatchShape(" " + ss[k]))
  }

  /** Each string behind one space. */
  function Spaced(xs: seq<string>): (ys: seq<string>)
    ensures |ys| == |xs|
    ensures forall k :: 0 <= k < |xs| ==> ys[k] == " " + xs[k]
  {
    if |xs| == 0 then [] else [" " + xs[0]] + Spaced(xs[1..])
  }

  /** The pieces `JoinSpaced` glues together: the first sentence, then each
      further one behind its separating space. */
  function SpacedPieces(ss: seq<string>): (ps: seq<string>)
    requires |ss| > 0
  {
    [ss[0]] + Spaced(ss[1..])
  }

  lemma {:induction false} ConcatSpaced(xs: seq<string>)
    requires |xs| > 0
    ensures Concat(Spaced(xs)) == " " + JoinSpaced(xs)
  {
    if |xs| >= 2 {
      ConcatSpaced(xs[1..]);
      assert Spaced(xs)[1..] == Spaced(xs[1..]);
    }
  }

  lemma JoinSpacedPieces(ss: seq<string>)
    requires |ss| > 0
    ensures JoinSpaced(ss) == Concat(SpacedPieces(ss))
  {
    if |ss| >= 2 {
      ConcatSpaced(ss[1..]);
      assert SpacedPieces(ss)[1..] == Spaced(ss[1..]);
    }
  }

  /** Each piece has the match shape and trims back to its sentence. */
  lemma SpacedPiece(ss: seq<string>, k: nat)
    requires Rejoinable(ss) && k < |ss|
    ensures IsMatchShape(SpacedPieces(ss)[k]) && Trim(SpacedPieces(ss)[k]) == ss[k]
  {
    if k > 0 {
      assert SpacedPieces(ss)[k] == " " + ss[k];
      TrimLeadingSpace(ss[k]);
    }
  }

  /** Text laid out as match-shaped pieces has exactly those matches. */
  lemma MatchesOfPieces(ps: seq<string>, text: string)
    requires forall k :: 0 <= k < |ps| ==> IsMatchShape(ps[k])
    requires text == Concat(ps)
    ensures Matches(text) == ps
  {
    assert AllTerminators("") && NoTerminator("");
    assert text == "" + Concat(ps) + "";
    assert IsMatchLayout(text, "", ps, "");
    MatchesUnique(text, "", ps, "");
  }

  /** The matches of sentences joined with single spaces are the spaced
      pieces. */
  lemma MatchesOfJoined(ss: seq<string>, text: string)
    requires Rejoinable(ss)
    requires text == JoinSpaced(ss)
    ensures Matches(text) == SpacedPieces(ss)
  {
    var ps := SpacedPieces(ss);
    JoinSpacedPieces(ss);
    forall k | 0 <= k < |ps| ensures IsMatchShape(ps[k]) {
      SpacedPiece(ss, k);
    }
    MatchesOfPieces(ps, text);
  }

  lemma SentencesOfSpacedPieces(ss: seq<string>, text: string)
    requires Rejoinable(ss)
    requires Matches(text) == SpacedPieces(ss)
    ensures Sentences(text) == ss
  {
    SentencesOfMatches(text);
    var r := Sentences(text);
    assert |r| == |ss|;
    forall k | 0 <= k < |ss| ensures r[k] == ss[k] {
      SpacedPiece(ss, k);
    }
  }

  /** Re-segmenting sentences joined with single spaces gives them back, as
      long as they are rejoinable. */
  lemma ResegmentJoined(ss: seq<string>)
    requires Rejoinable(ss)
    ensures Sentences(JoinSpaced(ss)) == ss
  {
    var text := JoinSpaced(ss);
    MatchesOfJoined(ss, text);
    SentencesOfSpacedPieces(ss, text);
  }

  /** Segmentation is stable under rejoining its own output, provided that,
      when the text holds a match, the first sentence does not begin with a
      terminator. */
  lemma Resegment(text: string)
    requires |Matches(text)| > 0 ==> |Sentences(text)| > 0 && !IsTerminator(Sentences(text)[0][0])
    ensures Sentences(JoinSpaced(Sentences(text))) == Sentences(text)
  {
    if |Matches(text)| > 0 {
      var ss := Sentences(text);
      SentencesOfMatches(text);
      MatchesShape(text);
      TrimmedMatchShape(Matches(text)[0]);
      forall k | 0 < k < |ss| ensures IsMatchShape(" " + ss[k]) {
        SpacedTrimmedMatchShape(Matches(text)[k]);
      }
      ResegmentJoined(ss);
    } else {
      ResegmentUnmatched(text);
    }
  }

  /** Without a match the text is one sentence, or none, and that sentence
      has no match either. */
  lemma ResegmentUnmatched(text: string)
    requires |Matches(text)| == 0
    ensures Sentences(JoinSpaced(Sentences(text))) == Sentences(text)
  {
    SentencesWithoutMatch(text);
    SentencesWithoutMatch("");
    if !AllSpace(text) {
      var t := Trim(text);
      TrimSpec(text);
      HasMatchIff(text);
      HasMatchIff(t);
      SentencesWithoutMatch(t);
      TrimIdempotent(text);
      TrimSpec(t);
    }
  }
}
