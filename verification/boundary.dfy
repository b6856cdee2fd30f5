/** Mapping of a speech-engine "word" boundary, reported as a character index
    into the spoken sentence, to the index of the word to highlight
    (`handleBoundary`, extension/content/content-script.js). */
module Boundary {

  /** Characters the scan credits to the first `n` words: each word's length
      plus one for the space assumed after it. */
  function SpokenLength(words: seq<string>, n: nat): nat
    requires n <= |words|
  {
    if n == 0 then 0 else SpokenLength(words, n - 1) + |words[n - 1]| + 1
  }

  /** Crediting more words never credits fewer characters. */
  lemma {:induction false} SpokenLengthMonotone(words: seq<string>, i: nat, j: nat)
    requires i <= j <= |words|
    ensures SpokenLength(words, i) <= SpokenLength(words, j)
    decreases j - i
  {
    if i < j {
      SpokenLengthMonotone(words, i, j - 1);
    }
  }

  /** Word `i` covers `charIndex` when the characters credited before it are
      at most `charIndex` and those credited through it exceed it. */
  ghost predicate Covers(words: seq<string>, i: nat, charIndex: nat) {
    i < |words| && SpokenLength(words, i) <= charIndex < SpokenLength(words, i + 1)
  }

  /** The scan loop from word `i` on, `count` being the characters credited so
      far; it returns the first word whose running total passes `charIndex`,
      or 0 when none does. */
  function ScanFrom(words: seq<string>, charIndex: nat, i: nat, count: nat): (r: nat)
    requires i <= |words| && count == SpokenLength(words, i)
    requires count <= charIndex
    ensures (r == 0 && SpokenLength(words, |words|) <= charIndex) || (i <= r && Covers(words, r, charIndex))
    decreases |words| - i
  {
    if i == |words| then 0
    else
      var next := count + |words[i]| + 1;
      if next > charIndex then i else ScanFrom(words, charIndex, i + 1, next)
  }

  /** The word index `handleBoundary` computes for a "word" event. */
  function WordIndexAt(words: seq<string>, charIndex: nat): (r: nat)
    ensures |words| > 0 ==> r < |words|
    ensures charIndex < SpokenLength(words, |words|) ==> Covers(words, r, charIndex)
    ensures SpokenLength(words, |words|) <= charIndex ==> r == 0
  {
    var r := ScanFrom(words, charIndex, 0, 0);
    if r < |words| then
      SpokenLengthMonotone(words, r + 1, |words|);
      r
    else r
  }

  /** The word found is the least one whose running total passes the index:
      every earlier word's total is at most `charIndex`. */
  lemma WordIndexIsLeast(words: seq<string>, charIndex: nat, j: nat)
    requires charIndex < SpokenLength(words, |words|)
    requires j < WordIndexAt(words, charIndex)
    ensures SpokenLength(words, j + 1) <= charIndex
  {
    SpokenLengthMonotone(words, j + 1, WordIndexAt(words, charIndex));
  }

  /** Within the credited length, a later character never maps to an earlier
      word. */
  lemma WordIndexMonotone(words: seq<string>, c1: nat, c2: nat)
    requires c1 <= c2 < SpokenLength(words, |words|)
    ensures WordIndexAt(words, c1) <= WordIndexAt(words, c2)
  {
    var r1, r2 := WordIndexAt(words, c1), WordIndexAt(words, c2);
    if r1 > r2 {
      SpokenLengthMonotone(words, r2 + 1, r1);
    }
  }

  /** The worked example: in "Hello world." the boundary at character 6 is
      the second word. */
  lemma HelloWorldBoundary()
    ensures WordIndexAt(["Hello", "world."], 6) == 1
  {
    assert SpokenLength(["Hello", "world."], 1) == 6;
    assert SpokenLength(["Hello", "world."], 2) == 13;
  }

  /** As written, an index at or past the credited length maps back to word 0:
      in "a    b." the second word starts at character 5, the scan credits
      only 2 + 3 = 5 characters, and the highlight jumps back to "a" although
      character 2 had mapped to "b.". */
  lemma WordIndexResetsPastCredit()
    ensures WordIndexAt(["a", "b."], 2) == 1
    ensures WordIndexAt(["a", "b."], 5) == 0
  {
    assert SpokenLength(["a", "b."], 1) == 2;
    assert SpokenLength(["a", "b."], 2) == 5;
  }

  /** The evidently intended mapping: an index past the credited length
      stays on the last word instead of jumping back to the first. */
  function ClampedWordIndexAt(words: seq<string>, charIndex: nat): (r: nat)
    ensures |words| > 0 ==> r < |words|
    ensures charIndex < SpokenLength(words, |words|) ==> Covers(words, r, charIndex)
    ensures |words| > 0 && SpokenLength(words, |words|) <= charIndex ==> r == |words| - 1
  {
    if |words| > 0 && SpokenLength(words, |words|) <= charIndex then |words| - 1
    else WordIndexAt(words, charIndex)
  }

  /** The clamped mapping is monotone over every index. */
  lemma ClampedWordIndexMonotone(words: seq<string>, c1: nat, c2: nat)
    requires c1 <= c2
    ensures ClampedWordIndexAt(words, c1) <= ClampedWordIndexAt(words, c2)
  {
    var total := SpokenLength(words, |words|);
    if c2 < total {
      WordIndexMonotone(words, c1, c2);
    }
  }
}
