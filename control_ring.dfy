/** The control-point ring buffer of `Curves`, as values: the 80 slots and the two counters
    `controlVertexIndex` and `controlVertexCount`. The class in CurvesApp is proved to follow
    these functions frame by frame. */
module ControlRing {
  import opened Geometry

  /** CONTROL_VERTEX_QUANTITY: the capacity of the ring. */
  const ControlVertexQuantity: nat := 80

  /** The slots, the next write position `index` and the number of committed points `count`. */
  datatype Ring = Ring(slots: seq<Vertex>, index: nat, count: nat)

  function Min(a: int, b: int): int { if a <= b then a else b }

  /** The ring invariant: both counters in range, and while the ring is not yet full the
      write position equals the number of committed points. */
  predicate Valid(r: Ring)
  {
    |r.slots| == ControlVertexQuantity &&
    r.index < ControlVertexQuantity &&
    r.count <= ControlVertexQuantity &&
    (r.count < ControlVertexQuantity ==> r.index == r.count)
  }

  /** The state of a new `Curves` object: zeroed slots and both counters at 0. */
  function Initial(): (r: Ring)
    ensures Valid(r) && r.index == 0 && r.count == 0
    ensures forall j :: 0 <= j < |r.slots| ==> r.slots[j] == ClearedVertex
  {
    Ring(seq(ControlVertexQuantity, _ => ClearedVertex), 0, 0)
  }

  /** The control point that follows the cursor: the cursor position at depth 0, in blue. */
  function PreviewVertex(x: real, y: real): Vertex
  {
    Vertex(Float3(x, y, 0.0), Blue)
  }

  /** The preview write: the cursor point goes into slot `index`; nothing else changes. */
  function Preview(r: Ring, x: real, y: real): (r': Ring)
    requires r.index < |r.slots|
    ensures |r'.slots| == |r.slots| && r'.index == r.index && r'.count == r.count
    ensures r'.slots[r.index].pos == Float3(x, y, 0.0) && r'.slots[r.index].color == Blue
    ensures forall j :: 0 <= j < |r.slots| && j != r.index ==> r'.slots[j] == r.slots[j]
    ensures Valid(r) ==> Valid(r')
  {
    r.(slots := r.slots[r.index := PreviewVertex(x, y)])
  }

  /** The write position after `i`: one place on, wrapping at the capacity. */
  function NextIndex(i: nat): (j: nat)
    ensures j < ControlVertexQuantity
  {
    (i + 1) % ControlVertexQuantity
  }

  /** The write position before `i`: one place back, wrapping at the capacity. */
  function PrevIndex(i: nat): (j: nat)
    ensures j < ControlVertexQuantity
  {
    (i + ControlVertexQuantity - 1) % ControlVertexQuantity
  }

  /** A commit: the write position moves on modulo the capacity and the count grows by one
      until it saturates at the capacity. The slots are not touched. */
  function Advance(r: Ring): (r': Ring)
    ensures r'.slots == r.slots
    ensures r'.index == NextIndex(r.index)
    ensures r'.count == if r.count < ControlVertexQuantity then r.count + 1 else r.count
    ensures Valid(r) ==> Valid(r') && r'.count == Min(r.count + 1, ControlVertexQuantity)
  {
    var index := NextIndex(r.index);
    if r.count < ControlVertexQuantity then Ring(r.slots, index, r.count + 1) else r.(index := index)
  }

  /** The ring part of one frame: the preview write, then a commit if the button was clicked. */
  function Frame(r: Ring, x: real, y: real, click: bool): (r': Ring)
    requires r.index < |r.slots|
    ensures Valid(r) ==> Valid(r')
    ensures !click ==> r'.index == r.index && r'.count == r.count
    ensures click ==> r'.index == NextIndex(r.index)
    ensures click && Valid(r) ==> r'.count == Min(r.count + 1, ControlVertexQuantity)
    ensures r'.slots == r.slots[r.index := PreviewVertex(x, y)]
  {
    var p := Preview(r, x, y);
    if click then Advance(p) else p
  }

  /** A cursor position in normalised window coordinates. */
  datatype Cursor = Cursor(x: real, y: real)

  /** Frames that all end in a click, one per cursor position, in order. */
  function ClickFrames(r: Ring, cursors: seq<Cursor>): (r': Ring)
    requires Valid(r)
    ensures Valid(r')
    decreases |cursors|
  {
    if cursors == [] then r
    else
      var last := cursors[|cursors| - 1];
      Frame(ClickFrames(r, cursors[..|cursors| - 1]), last.x, last.y, true)
  }

  /** The last frame of a run writes its cursor point into the slot the run had reached. */
  lemma ClickFramesStep(r: Ring, cursors: seq<Cursor>)
    requires Valid(r) && cursors != []
    ensures var prev := ClickFrames(r, cursors[..|cursors| - 1]);
      var last := cursors[|cursors| - 1];
      var next := ClickFrames(r, cursors);
      next.slots == prev.slots[prev.index := PreviewVertex(last.x, last.y)] &&
      next.index == NextIndex(prev.index) &&
      next.count == Min(prev.count + 1, ControlVertexQuantity)
  {
    var prev := ClickFrames(r, cursors[..|cursors| - 1]);
    var last := cursors[|cursors| - 1];
    ClickFramesUnfold(r, cursors);
    var next := Frame(prev, last.x, last.y, true);
    assert next.slots == prev.slots[prev.index := PreviewVertex(last.x, last.y)];
    assert next.index == NextIndex(prev.index);
  }

  /** A run of clicking frames is the run without its last frame, followed by that frame. */
  lemma ClickFramesUnfold(r: Ring, cursors: seq<Cursor>)
    requires Valid(r) && cursors != []
    ensures ClickFrames(r, cursors)
         == Frame(ClickFrames(r, cursors[..|cursors| - 1]), cursors[|cursors| - 1].x, cursors[|cursors| - 1].y, true)
  {
  }

  /** After k committed points the write position has moved k places and the count has
      grown by k, saturating at the capacity. */
  lemma {:induction false} ClickFramesCounters(r: Ring, cursors: seq<Cursor>)
    requires Valid(r)
    ensures ClickFrames(r, cursors).index == (r.index + |cursors|) % ControlVertexQuantity
    ensures ClickFrames(r, cursors).count == Min(r.count + |cursors|, ControlVertexQuantity)
    decreases |cursors|
  {
    if cursors != [] {
      var n := |cursors|;
      var prev := ClickFrames(r, cursors[..n - 1]);
      ClickFramesCounters(r, cursors[..n - 1]);
      ClickFramesStep(r, cursors);
      assert prev.index == (r.index + n - 1) % ControlVertexQuantity;
      WrapStep(r.index + n - 1);
    }
  }

  /** Moving one place on from a wrapped position is wrapping the moved position. */
  lemma WrapStep(a: nat)
    ensures (a % ControlVertexQuantity + 1) % ControlVertexQuantity == (a + 1) % ControlVertexQuantity
  {
  }

  /** From a new object, any run of frames with k clicks among them leaves the index at
      k mod 80 and the count at min(k, 80). */
  lemma ClicksFromStart(steps: seq<Step>)
    ensures Frames(Initial(), steps).index == |Committed(steps)| % ControlVertexQuantity
    ensures Frames(Initial(), steps).count == Min(|Committed(steps)|, ControlVertexQuantity)
    ensures |Committed(steps)| >= ControlVertexQuantity ==> Frames(Initial(), steps).count == ControlVertexQuantity
  {
    FramesCounters(Initial(), steps);
  }

  /** Once the ring is full, any further run of frames leaves the count at the capacity while
      the index keeps wrapping around, one place per click. */
  lemma FullRingStaysFull(r: Ring, steps: seq<Step>)
    requires Valid(r) && r.count == ControlVertexQuantity
    ensures Frames(r, steps).count == ControlVertexQuantity
    ensures Frames(r, steps).index == (r.index + |Committed(steps)|) % ControlVertexQuantity
  {
    FramesCounters(r, steps);
  }

  /** Ring semantics: the k-th of a run of committed points sits in slot (index + k) mod 80 as
      long as fewer than 80 points were committed after it. */
  lemma {:induction false} ClickFramesRecent(r: Ring, cursors: seq<Cursor>)
    requires Valid(r)
    ensures forall k :: 0 <= k < |cursors| && |cursors| - k <= ControlVertexQuantity ==>
      ClickFrames(r, cursors).slots[(r.index + k) % ControlVertexQuantity] == PreviewVertex(cursors[k].x, cursors[k].y)
    decreases |cursors|
  {
    if cursors != [] {
      var n := |cursors|;
      var init := cursors[..n - 1];
      var prev := ClickFrames(r, init);
      var next := ClickFrames(r, cursors);
      ClickFramesRecent(r, init);
      ClickFramesCounters(r, init);
      ClickFramesStep(r, cursors);
      forall k | 0 <= k < n && n - k <= ControlVertexQuantity
        ensures next.slots[(r.index + k) % ControlVertexQuantity] == PreviewVertex(cursors[k].x, cursors[k].y)
      {
        if k < n - 1 {
          DistinctSlots(r.index, k, n - 1);
          assert init[k] == cursors[k];
          assert prev.slots[(r.index + k) % ControlVertexQuantity] == PreviewVertex(init[k].x, init[k].y);
        }
      }
    }
  }

  /** The slots a run of committed points has not reached keep their old contents. */
  lemma {:induction false} ClickFramesUntouched(r: Ring, cursors: seq<Cursor>)
    requires Valid(r)
    ensures forall j :: 0 <= j < ControlVertexQuantity && Distance(r.index, j) >= |cursors| ==>
      ClickFrames(r, cursors).slots[j] == r.slots[j]
    decreases |cursors|
  {
    if cursors != [] {
      var n := |cursors|;
      var init := cursors[..n - 1];
      var prev := ClickFrames(r, init);
      var next := ClickFrames(r, cursors);
      ClickFramesUntouched(r, init);
      ClickFramesCounters(r, init);
      ClickFramesStep(r, cursors);
      forall j | 0 <= j < ControlVertexQuantity && Distance(r.index, j) >= n
        ensures next.slots[j] == r.slots[j]
      {
        DistanceWrap(r.index, j);
        DistinctSlots(r.index, n - 1, Distance(r.index, j));
        assert prev.slots[j] == r.slots[j];
      }
    }
  }

  /** How many places slot j lies after slot `from`, going round the ring. */
  function Distance(from: nat, j: nat): (d: nat)
    ensures d < ControlVertexQuantity
  {
    (j + ControlVertexQuantity - from % ControlVertexQuantity) % ControlVertexQuantity
  }

  lemma DistanceWrap(from: nat, j: nat)
    requires from < ControlVertexQuantity && j < ControlVertexQuantity
    ensures (from + Distance(from, j)) % ControlVertexQuantity == j
  {
    if from <= j {
      assert Distance(from, j) == j - from;
    } else {
      assert Distance(from, j) == j + ControlVertexQuantity - from;
    }
  }

  /** Two positions fewer than 80 apart land in different slots. */
  lemma DistinctSlots(base: nat, j: nat, k: nat)
    requires j < k < j + ControlVertexQuantity
    ensures (base + j) % ControlVertexQuantity != (base + k) % ControlVertexQuantity
  {
  }

  /** One frame of the input: where the cursor is and whether the left button was clicked. */
  datatype Step = Step(cursor: Cursor, click: bool)

  /** Any run of frames, clicking or not, in order. */
  function Frames(r: Ring, steps: seq<Step>): (r': Ring)
    requires Valid(r)
    ensures Valid(r')
    decreases |steps|
  {
    if steps == [] then r
    else
      var last := steps[|steps| - 1];
      Frame(Frames(r, steps[..|steps| - 1]), last.cursor.x, last.cursor.y, last.click)
  }

  /** The cursor points the clicking frames of a run commit, in order. */
  function Committed(steps: seq<Step>): (cs: seq<Cursor>)
    ensures |cs| <= |steps|
    decreases |steps|
  {
    if steps == [] then []
    else
      var last := steps[|steps| - 1];
      var init := Committed(steps[..|steps| - 1]);
      if last.click then init + [last.cursor] else init
  }

  /** Normal form of a run: the frames without a click before a click leave no trace, so a
      run is its committed points as clicking frames, followed by the last frame if it did
      not click. */
  lemma {:induction false} FramesNormalForm(r: Ring, steps: seq<Step>)
    requires Valid(r)
    ensures steps == [] || steps[|steps| - 1].click ==>
      Frames(r, steps) == ClickFrames(r, Committed(steps))
    ensures steps != [] && !steps[|steps| - 1].click ==>
      Frames(r, steps) == Frame(ClickFrames(r, Committed(steps)),
                                steps[|steps| - 1].cursor.x, steps[|steps| - 1].cursor.y, false)
    decreases |steps|
  {
    if steps != [] {
      var n := |steps|;
      var init := steps[..n - 1];
      var last := steps[n - 1];
      var ci := Committed(init);
      var base := ClickFrames(r, ci);
      var prev := Frames(r, init);
      FramesNormalForm(r, init);
      assert Frames(r, steps) == Frame(prev, last.cursor.x, last.cursor.y, last.click);
      if last.click {
        var cs := ci + [last.cursor];
        assert Committed(steps) == cs;
        assert cs[..|cs| - 1] == ci;
        assert ClickFrames(r, cs) == Frame(base, last.cursor.x, last.cursor.y, true);
        if init != [] && !init[n - 2].click {
          PreviewThenClick(base, init[n - 2].cursor, last.cursor);
        }
      } else {
        assert Committed(steps) == ci;
        if init != [] && !init[n - 2].click {
          PreviewThenPreview(base, init[n - 2].cursor, last.cursor);
        }
      }
    }
  }

  /** A frame without a click is forgotten by the next frame without a click: its preview
      is overwritten in the same slot. */
  lemma PreviewThenPreview(r: Ring, a: Cursor, b: Cursor)
    requires Valid(r)
    ensures Frame(Frame(r, a.x, a.y, false), b.x, b.y, false) == Frame(r, b.x, b.y, false)
  {
  }

  /** Over any run of frames, only the clicks move the counters: k clicks move the index k
      places and raise the count by k, saturating at the capacity. */
  lemma FramesCounters(r: Ring, steps: seq<Step>)
    requires Valid(r)
    ensures Frames(r, steps).index == (r.index + |Committed(steps)|) % ControlVertexQuantity
    ensures Frames(r, steps).count == Min(r.count + |Committed(steps)|, ControlVertexQuantity)
  {
    FramesNormalForm(r, steps);
    ClickFramesCounters(r, Committed(steps));
  }

  /** The contents of the ring after any run of frames. Each committed point survives while
      fewer than 80 points, itself included, were committed after it; after a frame without a
      click, the write position holds that frame's cursor point. Between clicks a full ring
      therefore holds 79 committed points and the preview. */
  lemma RunContents(r: Ring, steps: seq<Step>)
    requires Valid(r)
    ensures forall k :: 0 <= k < |Committed(steps)| && |Committed(steps)| - k < ControlVertexQuantity ==>
      Frames(r, steps).slots[(r.index + k) % ControlVertexQuantity]
        == PreviewVertex(Committed(steps)[k].x, Committed(steps)[k].y)
    ensures steps != [] && !steps[|steps| - 1].click ==>
      Frames(r, steps).slots[Frames(r, steps).index]
        == PreviewVertex(steps[|steps| - 1].cursor.x, steps[|steps| - 1].cursor.y)
  {
    FramesNormalForm(r, steps);
    var cs := Committed(steps);
    if steps == [] || steps[|steps| - 1].click {
      ClickFramesRecent(r, cs);
    } else {
      var c := steps[|steps| - 1].cursor;
      CommitsBetweenClicks(r, cs, c);
      PreviewBetweenClicks(r, cs, c);
    }
  }

  /** The slot just before the write position is never the write position itself. */
  lemma PreviousSlotDiffers(i: nat)
    requires i < ControlVertexQuantity
    ensures PrevIndex(i) != i
  {
    if i == 0 {
      assert PrevIndex(i) == ControlVertexQuantity - 1;
    } else {
      assert PrevIndex(i) == i - 1;
    }
  }

  /** A frame without a click rewrites the write position only. */
  lemma FrameWithoutClickKeeps(r: Ring, x: real, y: real, j: nat)
    requires Valid(r) && j < ControlVertexQuantity && j != r.index
    ensures Frame(r, x, y, false).index == r.index
    ensures Frame(r, x, y, false).slots[j] == r.slots[j]
  {
  }

  /** The most recently committed point is always in the slot just before the write position:
      after a run of frames whose last click was at step i, the frames without a click that
      follow it only rewrite the write position. */
  lemma {:induction false} LatestCommitBeforeIndex(r: Ring, steps: seq<Step>, i: nat)
    requires Valid(r) && i < |steps| && steps[i].click
    requires forall j :: i < j < |steps| ==> !steps[j].click
    ensures var r' := Frames(r, steps);
      r'.slots[PrevIndex(r'.index)]
        == PreviewVertex(steps[i].cursor.x, steps[i].cursor.y)
    decreases |steps|
  {
    var n := |steps|;
    var init := steps[..n - 1];
    var prev := Frames(r, init);
    var last := steps[n - 1];
    FramesUnfold(r, steps);
    if i == n - 1 {
      assert Frames(r, steps) == Frame(prev, last.cursor.x, last.cursor.y, true);
      ClickLandsBeforeIndex(prev, last.cursor.x, last.cursor.y);
    } else {
      assert !last.click;
      assert Frames(r, steps) == Frame(prev, last.cursor.x, last.cursor.y, false);
      assert init[i] == steps[i];
      assert forall j :: i < j < |init| ==> !init[j].click by {
        forall j | i < j < |init| ensures !init[j].click {
          assert init[j] == steps[j];
        }
      }
      LatestCommitBeforeIndex(r, init, i);
      LatestCommitSurvivesPreview(prev, last.cursor.x, last.cursor.y);
    }
  }

  /** A run of frames is the run without its last frame, followed by that frame. */
  lemma FramesUnfold(r: Ring, steps: seq<Step>)
    requires Valid(r) && steps != []
    ensures Frames(r, steps) == Frame(Frames(r, steps[..|steps| - 1]),
      steps[|steps| - 1].cursor.x, steps[|steps| - 1].cursor.y, steps[|steps| - 1].click)
  {
  }

  /** A clicking frame leaves its point in the slot just before the new write position. */
  lemma ClickLandsBeforeIndex(prev: Ring, x: real, y: real)
    requires Valid(prev)
    ensures var r' := Frame(prev, x, y, true);
      r'.slots[PrevIndex(r'.index)] == PreviewVertex(x, y)
  {
    PreviousIndex(prev.index);
  }

  /** A frame without a click keeps the slot just before the write position. */
  lemma LatestCommitSurvivesPreview(prev: Ring, x: real, y: real)
    requires Valid(prev)
    ensures var r' := Frame(prev, x, y, false);
      r'.slots[PrevIndex(r'.index)]
        == prev.slots[PrevIndex(prev.index)]
  {
    PreviousSlotDiffers(prev.index);
    FrameWithoutClickKeeps(prev, x, y, PrevIndex(prev.index));
  }

  /** A frame without a click is forgotten by a clicking frame that follows it: the clicking
      frame's preview overwrites the same slot. */
  lemma PreviewThenClick(r: Ring, a: Cursor, b: Cursor)
    requires Valid(r)
    ensures Frame(Frame(r, a.x, a.y, false), b.x, b.y, true) == Frame(r, b.x, b.y, true)
  {
  }

  /** Between clicks the write position holds the live cursor point, not a committed one:
      after a run of committed points and a frame without a click, slot `index` holds that
      frame's cursor point. */
  lemma PreviewBetweenClicks(r: Ring, cursors: seq<Cursor>, c: Cursor)
    requires Valid(r)
    ensures var r' := Frame(ClickFrames(r, cursors), c.x, c.y, false);
      r'.index == (r.index + |cursors|) % ControlVertexQuantity &&
      r'.slots[r'.index] == PreviewVertex(c.x, c.y)
  {
    ClickFramesCounters(r, cursors);
  }

  /** Between clicks a committed point survives if fewer than 80 points were committed after
      it, counting itself; the point with exactly 80 is replaced by the preview. A full ring
      between clicks holds 79 committed points and the preview. */
  lemma {:induction false} CommitsBetweenClicks(r: Ring, cursors: seq<Cursor>, c: Cursor)
    requires Valid(r)
    ensures forall k :: 0 <= k < |cursors| && |cursors| - k < ControlVertexQuantity ==>
      Frame(ClickFrames(r, cursors), c.x, c.y, false).slots[(r.index + k) % ControlVertexQuantity]
        == PreviewVertex(cursors[k].x, cursors[k].y)
    ensures |cursors| >= ControlVertexQuantity ==>
      Frame(ClickFrames(r, cursors), c.x, c.y, false).slots[(r.index + |cursors| - ControlVertexQuantity) % ControlVertexQuantity]
        == PreviewVertex(c.x, c.y)
  {
    var n := |cursors|;
    var prev := ClickFrames(r, cursors);
    ClickFramesCounters(r, cursors);
    if n >= ControlVertexQuantity {
      assert (r.index + n - ControlVertexQuantity) % ControlVertexQuantity == (r.index + n) % ControlVertexQuantity;
    }
    forall k | 0 <= k < n && n - k < ControlVertexQuantity
      ensures Frame(prev, c.x, c.y, false).slots[(r.index + k) % ControlVertexQuantity]
           == PreviewVertex(cursors[k].x, cursors[k].y)
    {
      ClickFramesRecent(r, cursors);
      SlotBehindSurvivesPreview(prev, r.index, k, n, c.x, c.y);
    }
  }

  /** A slot fewer than 80 places behind the write position survives a frame without a click. */
  lemma SlotBehindSurvivesPreview(prev: Ring, base: nat, k: nat, n: nat, x: real, y: real)
    requires Valid(prev) && k < n < k + ControlVertexQuantity
    requires prev.index == (base + n) % ControlVertexQuantity
    ensures Frame(prev, x, y, false).slots[(base + k) % ControlVertexQuantity]
         == prev.slots[(base + k) % ControlVertexQuantity]
  {
    DistinctSlots(base, k, n);
    FrameWithoutClickKeeps(prev, x, y, (base + k) % ControlVertexQuantity);
  }

  /** Eighty clicks from a new object fill the ring; the next frame without a click replaces
      the first committed point in slot 0 with the live cursor point. */
  lemma PreviewOverwritesOldestWhenFull(cursors: seq<Cursor>, c: Cursor)
    requires |cursors| == ControlVertexQuantity
    ensures var r' := Frame(ClickFrames(Initial(), cursors), c.x, c.y, false);
      r'.count == ControlVertexQuantity && r'.slots[0] == PreviewVertex(c.x, c.y)
  {
    ClickFramesCounters(Initial(), cursors);
    assert (0 + 80) % ControlVertexQuantity == 0;
  }

  /** One place back from the next write position is the position itself. */
  lemma PreviousIndex(i: nat)
    requires i < ControlVertexQuantity
    ensures PrevIndex(NextIndex(i)) == i
  {
    if i + 1 < ControlVertexQuantity {
      assert NextIndex(i) == i + 1;
    } else {
      assert NextIndex(i) == 0;
    }
  }

  /** Overwrite scenario: 81 commits from a new object wrap around, so slot 0 holds the 81st
      point rather than the first, and the count stays at 80. */
  lemma OverwriteAfterWrap(cursors: seq<Cursor>)
    requires |cursors| == ControlVertexQuantity + 1
    ensures ClickFrames(Initial(), cursors).slots[0] == PreviewVertex(cursors[80].x, cursors[80].y)
    ensures ClickFrames(Initial(), cursors).count == ControlVertexQuantity
  {
    ClickFramesRecent(Initial(), cursors);
    ClickFramesCounters(Initial(), cursors);
    assert (0 + 80) % ControlVertexQuantity == 0;
  }

  /** A frame without a click at the same cursor position is idempotent. */
  lemma FrameWithoutClickIdempotent(r: Ring, x: real, y: real)
    requires Valid(r)
    ensures Frame(Frame(r, x, y, false), x, y, false) == Frame(r, x, y, false)
  {
  }
}
