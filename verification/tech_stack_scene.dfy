/** The isometric tech-stack scene: where each technology's block sits on
    the grid, which block is hovered in each animation frame and when the
    hover callback fires, and the orthographic camera's frustum.

    The raycast is outside the model: each frame receives the index of the
    first block under the mouse, or nothing. */
module TechStackScene {
  import opened Wrappers
  import opened Technologies

  /** Blocks per grid row. */
  const Columns: nat := 4

  /** Distance between neighbouring block centres. */
  const Spacing: real := 2.4

  /** The grid cell of block `i`: column and row, filled row by row. */
  function Cell(i: nat): (cell: (nat, nat))
    ensures cell.0 < Columns
    ensures cell.1 * Columns + cell.0 == i
  {
    (i % Columns, i / Columns)
  }

  /** The (x, z) position of block `i`, centred on the grid's middle. */
  function Position(i: nat): (real, real) {
    var (col, row) := Cell(i);
    ((col as real - 1.5) * Spacing, (row as real - 0.5) * Spacing)
  }

  /** No two blocks share a position. */
  lemma PositionsDistinct(i: nat, j: nat)
    requires i != j
    ensures Position(i) != Position(j)
  {
    var (ci, ri) := Cell(i);
    var (cj, rj) := Cell(j);
    assert ci != cj || ri != rj;
  }

  // ---------------------------------------------------------------------
  // Hover

  datatype Cursor = Pointer | Default

  /** What one animation frame decides: the hover remembered afterwards,
      the value passed to `onHover` if it is called, the cursor style set
      with it, and the block that receives the raise step. */
  datatype Frame = Frame(hovered: Option<string>, report: Option<Option<string>>,
                         cursor: Option<Cursor>, raised: Option<nat>)

  /** The technology under the mouse: the name of the first block hit. */
  function CurrentHover(blocks: seq<Technology>, hit: Option<nat>): (h: Option<string>)
    requires hit.Some? ==> hit.value < |blocks|
    ensures h.Some? <==> hit.Some?
    ensures h.Some? ==> h.value == blocks[hit.value].name
  {
    match hit
    case None => None
    case Some(i) => Some(blocks[i].name)
  }

  /** The cursor for a reported hover. The source tests the name for
      truthiness, so an empty name gives the default cursor. */
  function CursorFor(h: Option<string>): Cursor {
    if h.Some? && h.value != "" then Pointer else Default
  }

  /** One frame of the animation loop, given the hover reported last and the
      raycast's first hit. The callback fires exactly when the current hover
      differs from the last one, and then the cursor is set with it; the
      remembered hover becomes the current one; only the hit block, if any,
      is raised. */
  function HoverFrame(blocks: seq<Technology>, last: Option<string>, hit: Option<nat>): (f: Frame)
    requires hit.Some? ==> hit.value < |blocks|
    ensures f.hovered == CurrentHover(blocks, hit)
    ensures f.report.Some? <==> CurrentHover(blocks, hit) != last
    ensures f.report.Some? ==> f.report.value == f.hovered
    ensures f.cursor.Some? <==> f.report.Some?
    ensures f.cursor.Some? ==> (f.cursor.value == Pointer <==> f.hovered.Some? && f.hovered.value != "")
    ensures f.raised == hit
  {
    var current := CurrentHover(blocks, hit);
    if current != last then Frame(current, Some(current), Some(CursorFor(current)), hit)
    else Frame(current, None, None, hit)
  }

  /** Every raycast result names one of the blocks. */
  predicate HitsInRange(blocks: seq<Technology>, hits: seq<Option<nat>>) {
    forall k :: 0 <= k < |hits| ==> InRange(blocks, hits[k])
  }

  predicate InRange(blocks: seq<Technology>, hit: Option<nat>) {
    hit.Some? ==> hit.value < |blocks|
  }

  lemma TailInRange(blocks: seq<Technology>, hits: seq<Option<nat>>)
    requires HitsInRange(blocks, hits) && |hits| > 0
    ensures InRange(blocks, hits[0]) && HitsInRange(blocks, hits[1..])
  {
    forall k | 0 <= k < |hits[1..]| ensures InRange(blocks, hits[1..][k]) {
      assert hits[1..][k] == hits[k + 1];
    }
  }

  /** The values passed to `onHover`, in order, when the loop runs over a
      sequence of frames from the remembered hover `last`. */
  function Reports(blocks: seq<Technology>, last: Option<string>, hits: seq<Option<nat>>)
    : seq<Option<string>>
    requires HitsInRange(blocks, hits)
    decreases |hits|
  {
    if |hits| == 0 then []
    else
      TailInRange(blocks, hits);
      var f := HoverFrame(blocks, last, hits[0]);
      (if f.report.Some? then [f.report.value] else []) + Reports(blocks, f.hovered, hits[1..])
  }

  /** The hover remembered after the loop runs over a sequence of frames. */
  function Remembered(blocks: seq<Technology>, last: Option<string>, hits: seq<Option<nat>>)
    : Option<string>
    requires HitsInRange(blocks, hits)
    decreases |hits|
  {
    if |hits| == 0 then last
    else
      TailInRange(blocks, hits);
      Remembered(blocks, HoverFrame(blocks, last, hits[0]).hovered, hits[1..])
  }

  /** Reports never repeat: the first differs from the hover remembered at
      the start, each differs from the one before, and the last equals the
      hover remembered at the end; with no report nothing changed. */
  lemma {:induction false} ReportsAreTransitions(blocks: seq<Technology>, last: Option<string>,
                                                 hits: seq<Option<nat>>)
    requires HitsInRange(blocks, hits)
    ensures var reports := Reports(blocks, last, hits);
            && (|reports| > 0 ==> reports[0] != last && reports[|reports| - 1] == Remembered(blocks, last, hits))
            && (|reports| == 0 ==> Remembered(blocks, last, hits) == last)
            && (forall k :: 0 < k < |reports| ==> reports[k] != reports[k - 1])
            && |reports| <= |hits|
    decreases |hits|
  {
    if |hits| > 0 {
      TailInRange(blocks, hits);
      var f := HoverFrame(blocks, last, hits[0]);
      ReportsAreTransitions(blocks, f.hovered, hits[1..]);
      var rest := Reports(blocks, f.hovered, hits[1..]);
      assert Remembered(blocks, last, hits) == Remembered(blocks, f.hovered, hits[1..]);
      if f.report.Some? {
        var reports := [f.hovered] + rest;
        assert Reports(blocks, last, hits) == reports;
        assert reports[|reports| - 1] == Remembered(blocks, last, hits) by {
          if |rest| > 0 { assert reports[|reports| - 1] == rest[|rest| - 1]; }
        }
        forall k | 0 < k < |reports| ensures reports[k] != reports[k - 1] {
          if k >= 2 { assert reports[k] == rest[k - 1] && reports[k - 1] == rest[k - 2]; }
        }
      } else {
        assert Reports(blocks, last, hits) == [] + rest == rest;
      }
    }
  }

  /** After a nonempty run the remembered hover is the last frame's current
      hover. */
  lemma {:induction false} RunRemembersLastFrame(blocks: seq<Technology>, last: Option<string>,
                                                 hits: seq<Option<nat>>)
    requires HitsInRange(blocks, hits) && |hits| > 0
    ensures InRange(blocks, hits[|hits| - 1])
    ensures Remembered(blocks, last, hits) == CurrentHover(blocks, hits[|hits| - 1])
    decreases |hits|
  {
    TailInRange(blocks, hits);
    var f := HoverFrame(blocks, last, hits[0]);
    if |hits| > 1 {
      RunRemembersLastFrame(blocks, f.hovered, hits[1..]);
      assert hits[1..][|hits[1..]| - 1] == hits[|hits| - 1];
    }
  }

  /** `n` consecutive frames with the same raycast result. */
  function Hold(hit: Option<nat>, n: nat): (hits: seq<Option<nat>>)
    ensures |hits| == n && forall k :: 0 <= k < n ==> hits[k] == hit
    decreases n
  {
    if n == 0 then [] else [hit] + Hold(hit, n - 1)
  }

  lemma HoldInRange(blocks: seq<Technology>, hit: Option<nat>, n: nat)
    requires InRange(blocks, hit)
    ensures HitsInRange(blocks, Hold(hit, n))
  {
  }

  /** Frames that miss every block, after `null` was remembered, never
      trigger the callback. */
  lemma {:induction false} MissesReportNothing(blocks: seq<Technology>, n: nat)
    ensures HitsInRange(blocks, Hold(None, n))
    ensures Reports(blocks, None, Hold(None, n)) == []
    ensures Remembered(blocks, None, Hold(None, n)) == None
    decreases n
  {
    HoldInRange(blocks, None, n);
    if n > 0 {
      var hits := Hold(None, n);
      assert hits[1..] == Hold(None, n - 1);
      MissesReportNothing(blocks, n - 1);
      assert HoverFrame(blocks, None, hits[0]).report == None;
    }
  }

  /** Frames that all hit block `i` report its name once, unless it was
      already the remembered hover, and leave it remembered. */
  lemma {:induction false} SteadyHover(blocks: seq<Technology>, last: Option<string>, i: nat, n: nat)
    requires i < |blocks| && n > 0
    ensures HitsInRange(blocks, Hold(Some(i), n))
    ensures Reports(blocks, last, Hold(Some(i), n))
      == if last == Some(blocks[i].name) then [] else [Some(blocks[i].name)]
    ensures Remembered(blocks, last, Hold(Some(i), n)) == Some(blocks[i].name)
    decreases n
  {
    HoldInRange(blocks, Some(i), n);
    var hits := Hold(Some(i), n);
    var name := Some(blocks[i].name);
    assert hits[1..] == Hold(Some(i), n - 1);
    var f := HoverFrame(blocks, last, hits[0]);
    assert f.hovered == name;
    if n > 1 {
      SteadyHover(blocks, name, i, n - 1);
    }
    var head := if last == name then [] else [name];
    assert Reports(blocks, last, hits) == head + Reports(blocks, name, hits[1..]);
    assert head + [] == head;
  }

  /** Leaving a hovered block reports `null` once. */
  lemma LeaveReportsNull(blocks: seq<Technology>, name: Option<string>, c: nat)
    requires name.Some? && c > 0
    ensures HitsInRange(blocks, Hold(None, c))
    ensures Reports(blocks, name, Hold(None, c)) == [None]
    ensures Remembered(blocks, name, Hold(None, c)) == None
  {
    var hits := Hold(None, c);
    MissesReportNothing(blocks, c);
    MissesReportNothing(blocks, c - 1);
    assert hits[1..] == Hold(None, c - 1);
    assert Reports(blocks, name, hits) == [None] + Reports(blocks, None, hits[1..]);
  }

  /** Running two stretches of frames one after the other. */
  lemma {:induction false} RunConcat(blocks: seq<Technology>, last: Option<string>,
                                     xs: seq<Option<nat>>, ys: seq<Option<nat>>)
    requires HitsInRange(blocks, xs) && HitsInRange(blocks, ys)
    ensures HitsInRange(blocks, xs + ys)
    ensures Reports(blocks, last, xs + ys)
      == Reports(blocks, last, xs) + Reports(blocks, Remembered(blocks, last, xs), ys)
    ensures Remembered(blocks, last, xs + ys) == Remembered(blocks, Remembered(blocks, last, xs), ys)
    decreases |xs|
  {
    assert HitsInRange(blocks, xs + ys) by {
      forall k | 0 <= k < |xs + ys| ensures InRange(blocks, (xs + ys)[k]) {
        if k < |xs| { assert (xs + ys)[k] == xs[k]; } else { assert (xs + ys)[k] == ys[k - |xs|]; }
      }
    }
    if |xs| > 0 {
      TailInRange(blocks, xs);
      var f := HoverFrame(blocks, last, xs[0]);
      RunConcat(blocks, f.hovered, xs[1..], ys);
      assert (xs + ys)[1..] == xs[1..] + ys;
      assert (xs + ys)[0] == xs[0];
      var head := if f.report.Some? then [f.report.value] else [];
      var m := Remembered(blocks, f.hovered, xs[1..]);
      assert Remembered(blocks, last, xs) == m;
      assert Reports(blocks, last, xs) == head + Reports(blocks, f.hovered, xs[1..]);
      assert Reports(blocks, last, xs + ys) == head + Reports(blocks, f.hovered, xs[1..] + ys);
      assert head + (Reports(blocks, f.hovered, xs[1..]) + Reports(blocks, m, ys))
          == (head + Reports(blocks, f.hovered, xs[1..])) + Reports(blocks, m, ys);
    } else {
      assert xs + ys == ys;
      assert Reports(blocks, last, xs) == [];
      assert [] + Reports(blocks, last, ys) == Reports(blocks, last, ys);
    }
  }

  /** A mouse path that crosses into block `i` once and leaves it once
      fires the callback exactly twice: the name on entering, `null` on
      leaving. */
  lemma EnterThenLeave(blocks: seq<Technology>, i: nat, a: nat, b: nat, c: nat)
    requires i < |blocks| && b > 0 && c > 0
    ensures var hits := Hold(None, a) + Hold(Some(i), b) + Hold(None, c);
            HitsInRange(blocks, hits)
            && Reports(blocks, None, hits) == [Some(blocks[i].name), None]
  {
    var name := Some(blocks[i].name);
    MissesReportNothing(blocks, a);
    SteadyHover(blocks, None, i, b);
    LeaveReportsNull(blocks, name, c);
    RunConcat(blocks, None, Hold(None, a), Hold(Some(i), b));
    RunConcat(blocks, None, Hold(None, a) + Hold(Some(i), b), Hold(None, c));
    assert [] + [name] + [None] == [name, None];
  }

  /** With the shipped technologies every name is non-empty, so the cursor
      is `pointer` exactly when a block is hovered. */
  lemma ShippedCursor(hit: Option<nat>)
    requires hit.Some? ==> hit.value < |Shipped|
    ensures var h := CurrentHover(Shipped, hit); CursorFor(h) == Pointer <==> h.Some?
  {
  }

  // ---------------------------------------------------------------------
  // Camera

  /** Height of the orthographic view volume in world units. */
  const FrustumSize: real := 14.0

  datatype Frustum = Frustum(left: real, right: real, top: real, bottom: real)

  /** The frustum the camera is created with for a container of the given
      size. */
  function SetupFrustum(width: nat, height: nat): (f: Frustum)
    requires height > 0
    ensures f.left == -f.right && f.bottom == -f.top && f.top == 7.0
    ensures f.right * (height as real) == 7.0 * (width as real)
  {
    var aspect := width as real / height as real;
    Frustum(FrustumSize * aspect / -2.0, FrustumSize * aspect / 2.0, FrustumSize / 2.0, FrustumSize / -2.0)
  }

  /** `handleResize`: all four bounds are recomputed from the new container
      size; the previous frustum has no influence. */
  function ResizeFrustum(previous: Frustum, width: nat, height: nat): (f: Frustum)
    requires height > 0
    ensures f.left == -f.right && f.bottom == -f.top && f.top == 7.0
    ensures f.right * (height as real) == 7.0 * (width as real)
  {
    var asp := width as real / height as real;
    previous.(left := -FrustumSize * asp / 2.0, right := FrustumSize * asp / 2.0,
              top := FrustumSize / 2.0, bottom := -FrustumSize / 2.0)
  }

  /** Resizing to a size gives the frustum the camera would have been
      created with at that size. */
  lemma ResizeAgreesWithSetup(previous: Frustum, width: nat, height: nat)
    requires height > 0
    ensures ResizeFrustum(previous, width, height) == SetupFrustum(width, height)
  {
  }
}
