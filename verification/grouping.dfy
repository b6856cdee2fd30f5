/** Clustering of content paragraphs by layout (`_groupParagraphs`,
    `_areElementsClose` and the largest-group loop of `_grabArticle`,
    extension/content/readability.js). */
module Grouping {
  import opened Dom

  function Abs(x: real): real {
    if x < 0.0 then -x else x
  }

  function Max(a: real, b: real): real {
    if a < b then b else a
  }

  function Min(a: real, b: real): real {
    if a < b then a else b
  }

  /** Two rectangles are close when their horizontal extents overlap and the
      second starts less than 100 pixels above or below the first's bottom
      edge. For proper rectangles the overlap test means the two extents
      share a column of pixels. */
  function RectsClose(r1: Rect, r2: Rect): (close: bool)
    ensures close ==> -100.0 < r2.top - r1.bottom < 100.0
    ensures r1.left <= r1.right && r2.left <= r2.right ==>
              (close <==> Max(r1.left, r2.left) <= Min(r1.right, r2.right) && -100.0 < r2.top - r1.bottom < 100.0)
  {
    var horizontalOverlap := !(r1.right < r2.left || r1.left > r2.right);
    if horizontalOverlap then Abs(r2.top - r1.bottom) < 100.0 else false
  }

  /** Closeness of two elements of the document, by their rectangles. */
  predicate Close(doc: Document, a: nat, b: nat) {
    a < |doc.elements| && b < |doc.elements| && RectsClose(RectOf(doc, a), RectOf(doc, b))
  }

  function Flatten(gs: seq<seq<nat>>): seq<nat> {
    if |gs| == 0 then [] else Flatten(gs[..|gs| - 1]) + gs[|gs| - 1]
  }

  function Last(g: seq<nat>): nat
    requires |g| > 0
  {
    g[|g| - 1]
  }

  ghost predicate NonEmptyRuns(gs: seq<seq<nat>>) {
    forall k :: 0 <= k < |gs| ==> |gs[k]| > 0
  }

  ghost predicate CloseWithin(doc: Document, gs: seq<seq<nat>>) {
    forall k, i :: 0 <= k < |gs| && 0 < i < |gs[k]| ==> Close(doc, gs[k][i - 1], gs[k][i])
  }

  /** Run `k` ends with a paragraph that is not close to the first of run
      `k + 1`. */
  ghost predicate ApartAt(doc: Document, gs: seq<seq<nat>>, k: nat) {
    k + 1 < |gs| && |gs[k]| > 0 && |gs[k + 1]| > 0 && !Close(doc, Last(gs[k]), gs[k + 1][0])
  }

  ghost predicate ApartBetween(doc: Document, gs: seq<seq<nat>>) {
    forall k: nat :: k + 1 < |gs| ==> ApartAt(doc, gs, k)
  }

  /** `gs` cuts `ps` into non-empty runs, in order, such that neighbours
      within a run are close and the last paragraph of a run is not close to
      the first of the next. */
  ghost predicate IsCloseRunPartition(doc: Document, ps: seq<nat>, gs: seq<seq<nat>>) {
    Flatten(gs) == ps && NonEmptyRuns(gs) && CloseWithin(doc, gs) && ApartBetween(doc, gs)
  }

  /** A paragraph not close to the last one starts a run of its own. */
  lemma AppendRun(doc: Document, ps: seq<nat>, gs: seq<seq<nat>>, p: nat)
    requires IsCloseRunPartition(doc, ps, gs)
    requires |gs| > 0 ==> !Close(doc, Last(gs[|gs| - 1]), p)
    ensures IsCloseRunPartition(doc, ps + [p], gs + [[p]])
  {
    var r := gs + [[p]];
    assert r[..|r| - 1] == gs;
    assert NonEmptyRuns(r);
    assert CloseWithin(doc, r) by {
      forall k, i | 0 <= k < |r| && 0 < i < |r[k]|
        ensures Close(doc, r[k][i - 1], r[k][i])
      {
        assert k < |gs| && r[k] == gs[k];
      }
    }
    assert ApartBetween(doc, r) by {
      forall k: nat | k + 1 < |r|
        ensures ApartAt(doc, r, k)
      {
        if k + 1 < |gs| {
          assert ApartAt(doc, gs, k);
        }
        if k + 1 < |gs| {
          assert r[k] == gs[k] && r[k + 1] == gs[k + 1];
        }
      }
    }
  }

  /** A paragraph close to the last one joins the last run. */
  lemma ExtendRun(doc: Document, ps: seq<nat>, gs: seq<seq<nat>>, p: nat)
    requires IsCloseRunPartition(doc, ps, gs)
    requires |gs| > 0 && Close(doc, Last(gs[|gs| - 1]), p)
    ensures IsCloseRunPartition(doc, ps + [p], gs[..|gs| - 1] + [gs[|gs| - 1] + [p]])
  {
    var n := |gs|;
    var last := gs[n - 1];
    var r := gs[..n - 1] + [last + [p]];
    assert r[..|r| - 1] == gs[..n - 1];
    assert Flatten(gs) == Flatten(gs[..n - 1]) + last;
    assert NonEmptyRuns(r) by {
      forall k | 0 <= k < |r|
        ensures |r[k]| > 0
      {
        if k < n - 1 {
          assert r[k] == gs[k];
        }
      }
    }
    assert CloseWithin(doc, r) by {
      forall k, i | 0 <= k < |r| && 0 < i < |r[k]|
        ensures Close(doc, r[k][i - 1], r[k][i])
      {
        if k < n - 1 {
          assert r[k] == gs[k];
        } else if i < |last| {
          assert r[k][i - 1] == last[i - 1] && r[k][i] == last[i];
        }
      }
    }
    assert ApartBetween(doc, r) by {
      forall k: nat | k + 1 < |r|
        ensures ApartAt(doc, r, k)
      {
        if k + 1 < |gs| {
          assert ApartAt(doc, gs, k);
        }
        assert r[k] == gs[k];
        if k + 1 < n - 1 {
          assert r[k + 1] == gs[k + 1];
        } else {
          assert r[k + 1][0] == gs[k + 1][0];
        }
      }
    }
  }

  /** `_groupParagraphs`: each paragraph joins the current group when it is
      close to that group's last paragraph and starts a new group otherwise.
      Defined on prefixes: the groups after the loop has seen `ps`. */
  function GroupParagraphs(doc: Document, ps: seq<nat>): (gs: seq<seq<nat>>)
    ensures IsCloseRunPartition(doc, ps, gs)
    ensures |ps| > 0 <==> |gs| > 0
    decreases |ps|
  {
    if |ps| == 0 then []
    else
      var front := ps[..|ps| - 1];
      var p := ps[|ps| - 1];
      assert front + [p] == ps;
      var gs := GroupParagraphs(doc, front);
      if |gs| > 0 && Close(doc, Last(gs[|gs| - 1]), p) then
        ExtendRun(doc, front, gs, p);
        gs[..|gs| - 1] + [gs[|gs| - 1] + [p]]
      else
        AppendRun(doc, front, gs, p);
        gs + [[p]]
  }

  /** Removing a last run of one paragraph leaves a partition of the rest. */
  lemma DropRun(doc: Document, ps: seq<nat>, gs: seq<seq<nat>>)
    requires IsCloseRunPartition(doc, ps, gs)
    requires |gs| > 0 && |gs[|gs| - 1]| == 1
    ensures |ps| > 0 && IsCloseRunPartition(doc, ps[..|ps| - 1], gs[..|gs| - 1])
    ensures |gs| > 1 ==> !Close(doc, Last(gs[|gs| - 2]), ps[|ps| - 1])
    ensures gs == gs[..|gs| - 1] + [[ps[|ps| - 1]]]
  {
    var n := |gs|;
    var rest := gs[..n - 1];
    assert ps == Flatten(rest) + gs[n - 1];
    assert gs == rest + [gs[n - 1]];
    assert CloseWithin(doc, rest) by {
      forall k, i | 0 <= k < |rest| && 0 < i < |rest[k]|
        ensures Close(doc, rest[k][i - 1], rest[k][i])
      {
        assert rest[k] == gs[k];
      }
    }
    assert ApartBetween(doc, rest) by {
      forall k: nat | k + 1 < |rest|
        ensures ApartAt(doc, rest, k)
      {
        assert ApartAt(doc, gs, k);
        assert rest[k] == gs[k] && rest[k + 1] == gs[k + 1];
      }
    }
    assert gs[n - 1] == [gs[n - 1][0]];
    if n > 1 {
      assert ApartAt(doc, gs, n - 2);
    }
  }

  /** Replacing the last run by a non-empty prefix of it keeps neighbours
      within each run close. */
  lemma ShortenWithin(doc: Document, gs: seq<seq<nat>>, shorter: seq<nat>)
    requires CloseWithin(doc, gs)
    requires |gs| > 0 && |shorter| <= |gs[|gs| - 1]| && shorter == gs[|gs| - 1][..|shorter|]
    ensures CloseWithin(doc, gs[..|gs| - 1] + [shorter])
  {
    var n := |gs|;
    var rest := gs[..n - 1] + [shorter];
    forall k, i | 0 <= k < |rest| && 0 < i < |rest[k]|
      ensures Close(doc, rest[k][i - 1], rest[k][i])
    {
      if k < n - 1 {
        assert rest[k] == gs[k];
      } else {
        assert rest[k][i - 1] == gs[k][i - 1] && rest[k][i] == gs[k][i];
      }
    }
  }

  /** Replacing the last run by a non-empty prefix of it keeps every run
      non-empty and every boundary between runs apart. */
  lemma ShortenApart(doc: Document, gs: seq<seq<nat>>, shorter: seq<nat>)
    requires NonEmptyRuns(gs) && ApartBetween(doc, gs)
    requires |gs| > 0 && 0 < |shorter| <= |gs[|gs| - 1]| && shorter == gs[|gs| - 1][..|shorter|]
    ensures NonEmptyRuns(gs[..|gs| - 1] + [shorter])
    ensures ApartBetween(doc, gs[..|gs| - 1] + [shorter])
  {
    var n := |gs|;
    var rest := gs[..n - 1] + [shorter];
    forall k | 0 <= k < |rest|
      ensures |rest[k]| > 0
    {
      if k < n - 1 {
        assert rest[k] == gs[k];
      }
    }
    forall k: nat | k + 1 < |rest|
      ensures ApartAt(doc, rest, k)
    {
      assert ApartAt(doc, gs, k);
      assert rest[k] == gs[k];
      if k + 1 < n - 1 {
        assert rest[k + 1] == gs[k + 1];
      } else {
        assert rest[k + 1][0] == gs[k + 1][0];
      }
    }
  }

  /** Removing the last paragraph of a longer last run leaves a partition of
      the rest, and that paragraph is close to the one before it. */
  lemma ShortenRun(doc: Document, ps: seq<nat>, gs: seq<seq<nat>>)
    requires IsCloseRunPartition(doc, ps, gs)
    requires |gs| > 0 && |gs[|gs| - 1]| > 1
    ensures |ps| > 0
    ensures var last := gs[|gs| - 1];
            var rest := gs[..|gs| - 1] + [last[..|last| - 1]];
            && IsCloseRunPartition(doc, ps[..|ps| - 1], rest)
            && Close(doc, Last(rest[|rest| - 1]), ps[|ps| - 1])
            && gs == rest[..|rest| - 1] + [rest[|rest| - 1] + [ps[|ps| - 1]]]
  {
    var n := |gs|;
    var last := gs[n - 1];
    var shorter := last[..|last| - 1];
    var rest := gs[..n - 1] + [shorter];
    assert rest[..n - 1] == gs[..n - 1];
    assert last == shorter + [Last(last)];
    assert ps == Flatten(gs[..n - 1]) + last;
    assert Flatten(rest) == ps[..|ps| - 1];
    ShortenWithin(doc, gs, shorter);
    ShortenApart(doc, gs, shorter);
    assert Close(doc, last[|last| - 2], last[|last| - 1]);
  }

  /** The partition into close runs is unique: any cut of `ps` with the three
      properties is the one `GroupParagraphs` builds. */
  lemma {:induction false} GroupingUnique(doc: Document, ps: seq<nat>, gs: seq<seq<nat>>)
    requires IsCloseRunPartition(doc, ps, gs)
    ensures gs == GroupParagraphs(doc, ps)
    decreases |ps|
  {
    if |gs| == 0 {
      assert ps == [];
    } else if |gs[|gs| - 1]| == 1 {
      DropRun(doc, ps, gs);
      GroupingUnique(doc, ps[..|ps| - 1], gs[..|gs| - 1]);
    } else {
      ShortenRun(doc, ps, gs);
      var last := gs[|gs| - 1];
      GroupingUnique(doc, ps[..|ps| - 1], gs[..|gs| - 1] + [last[..|last| - 1]]);
    }
  }

  /** The largest-group loop: a group replaces the current best only when it
      is strictly longer. Defined on prefixes, like the loop. */
  function Largest(gs: seq<seq<nat>>): (best: seq<nat>)
    ensures forall k :: 0 <= k < |gs| ==> |gs[k]| <= |best|
    ensures best == [] || best in gs
  {
    if |gs| == 0 then []
    else
      var b := Largest(gs[..|gs| - 1]);
      assert forall k :: 0 <= k < |gs| - 1 ==> gs[k] == gs[..|gs| - 1][k];
      if |gs[|gs| - 1]| > |b| then gs[|gs| - 1] else b
  }

  /** Among non-empty groups the loop picks the earliest of maximal length. */
  lemma {:induction false} LargestIsEarliestMaximal(gs: seq<seq<nat>>) returns (k: nat)
    requires |gs| > 0
    requires forall j :: 0 <= j < |gs| ==> |gs[j]| > 0
    ensures k < |gs| && Largest(gs) == gs[k]
    ensures forall j :: 0 <= j < |gs| ==> |gs[j]| <= |gs[k]|
    ensures forall j :: 0 <= j < k ==> |gs[j]| < |gs[k]|
    decreases |gs|
  {
    var n := |gs|;
    var front := gs[..n - 1];
    if n == 1 {
      k := 0;
    } else {
      var k' := LargestIsEarliestMaximal(front);
      if |gs[n - 1]| > |front[k']| {
        k := n - 1;
      } else {
        k := k';
      }
    }
  }
}
