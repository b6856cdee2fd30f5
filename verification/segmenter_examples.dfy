/** The worked segmentation example: a two-sentence greeting. */
module SegmenterExamples {
  import opened Text
  import opened Segmenter

  lemma FirstExampleSpan()
    ensures Span("Hello world.", IsSentenceChar) == 11
  {
    SpanIs("Hello world.", IsSentenceChar, 11);
  }

  lemma SecondExampleSpan()
    ensures Span("This is a test!", IsSentenceChar) == 14
  {
    SpanIs("This is a test!", IsSentenceChar, 14);
  }

  lemma FirstExampleShape()
    ensures IsMatchShape("Hello world.")
  {
    FirstExampleSpan();
  }

  lemma SecondExampleShape()
    ensures IsMatchShape("This is a test!")
  {
    SecondExampleSpan();
  }

  lemma FirstExampleTrims()
    ensures Trim("Hello world.") == "Hello world."
  {
    TrimNoOuterSpace("Hello world.");
  }

  lemma SecondExampleTrims()
    ensures Trim("This is a test!") == "This is a test!"
  {
    TrimNoOuterSpace("This is a test!");
  }

  /** Two trimmed, match-shaped sentences joined by a space segment back
      into the same two sentences. */
  lemma ResegmentPair(a: string, b: string)
    requires IsMatchShape(a) && Trim(a) == a
    requires IsMatchShape(b) && Trim(b) == b
    ensures Sentences(a + " " + b) == [a, b]
  {
    var ss := [a, b];
    assert JoinSpaced(ss) == a + " " + b;
    PairRejoinable(a, b);
    ResegmentJoined(ss);
  }

  lemma PairRejoinable(a: string, b: string)
    requires IsMatchShape(a) && Trim(a) == a
    requires IsMatchShape(b) && Trim(b) == b
    ensures Rejoinable([a, b])
  {
    SpacedMatchShape(b);
  }

  lemma ExampleFacts()
    ensures IsMatchShape("Hello world.") && Trim("Hello world.") == "Hello world."
    ensures IsMatchShape("This is a test!") && Trim("This is a test!") == "This is a test!"
  {
    FirstExampleShape();
    SecondExampleShape();
    FirstExampleTrims();
    SecondExampleTrims();
  }

  lemma ExampleJoined()
    ensures Sentences("Hello world." + " " + "This is a test!") == ["Hello world.", "This is a test!"]
  {
    ExampleFacts();
    ResegmentPair("Hello world.", "This is a test!");
  }

  lemma ExampleText()
    ensures "Hello world." + " " + "This is a test!" == "Hello world. This is a test!"
  {
  }

  /** The greeting splits into its two sentences. */
  lemma HelloWorldSentences()
    ensures Sentences("Hello world. This is a test!") == ["Hello world.", "This is a test!"]
  {
    ExampleText();
    ExampleJoined();
  }

  /** The first sentence of the greeting has the words "Hello" and "world.". */
  lemma HelloWorldWords()
    ensures Words("Hello world.") == ["Hello", "world."]
  {
    var ws := ["Hello", "world."];
    assert JoinSpaced(ws) == "Hello world.";
    WordsOfJoinSpaced(ws);
  }

  lemma DotShapes()
    ensures IsMatchShape(" .") && IsMatchShape("Hi.") && IsMatchShape(" Hi.")
  {
    SpanIs(" .", IsSentenceChar, 1);
    SpanIs("Hi.", IsSentenceChar, 2);
    SpanIs(" Hi.", IsSentenceChar, 3);
  }

  lemma SpacedDotTrims()
    ensures Trim(" .") == "."
  {
    TrimNoOuterSpace(".");
    TrimLeadingSpace(".");
  }

  lemma SpacedHiTrims()
    ensures Trim(" Hi.") == "Hi."
  {
    TrimNoOuterSpace("Hi.");
    TrimLeadingSpace("Hi.");
  }

  lemma DotTrims()
    ensures Trim(" .") == "." && Trim("Hi.") == "Hi." && Trim(" Hi.") == "Hi."
  {
    TrimNoOuterSpace("Hi.");
    SpacedDotTrims();
    SpacedHiTrims();
  }

  lemma TwoMatches(a: string, b: string)
    requires IsMatchShape(a) && IsMatchShape(b)
    ensures Sentences(a + b) == [Trim(a), Trim(b)]
  {
    assert Concat([a, b]) == a + Concat([b]);
    assert Concat([b]) == b + Concat([]);
    MatchesOfPieces([a, b], a + b);
    SentencesOfMatches(a + b);
  }

  lemma LeadThenMatch(l: string, m: string)
    requires AllTerminators(l) && IsMatchShape(m)
    ensures Sentences(l + m) == [Trim(m)]
  {
    assert l + m == l + Concat([m]) + "";
    assert IsMatchLayout(l + m, l, [m], "");
    MatchesUnique(l + m, l, [m], "");
    SentencesOfMatches(l + m);
  }

  lemma DotPieces()
    ensures Sentences(" ." + "Hi.") == [".", "Hi."]
    ensures Sentences("." + " Hi.") == ["Hi."]
  {
    DotShapes();
    DotTrims();
    TwoMatches(" .", "Hi.");
    LeadThenMatch(".", " Hi.");
  }

  lemma DotTexts()
    ensures " ." + "Hi." == " .Hi."
    ensures "." + " Hi." == ". Hi."
    ensures JoinSpaced([".", "Hi."]) == ". Hi."
  {
  }

  /** Rejoining and re-segmenting is not stable in general: " .Hi." matches
      as " ." and "Hi.", so its first sentence is a lone "."; rejoined, that
      "." leads the text and the pattern skips it. */
  lemma ResegmentCanDropSentence()
    ensures Sentences(" .Hi.") == [".", "Hi."]
    ensures Sentences(JoinSpaced(Sentences(" .Hi."))) == ["Hi."]
  {
    DotTexts();
    DotPieces();
  }
}
