/** `select_roi`, the drag-to-select window; crop_pdf.py and
    PDF-Coords_to_string.py carry identical copies. A press records the start
    point, a motion draws the red outline only once a start point exists, and
    the release records the end point only once an outline was drawn, then
    stops the event loop. The recorded points become `(x, y, w, h)`. */
module RoiSelection {

  datatype Option<T> = None | Some(value: T)

  /** A canvas position as Tk reports it in `event.x`, `event.y`. */
  datatype Pixel = Pixel(x: int, y: int)

  /** A region of interest `(x, y, w, h)`, in pixels of the rendered page. */
  datatype Roi = Roi(x: int, y: int, w: int, h: int)

  /** The events that reach the selection window. */
  datatype Event =
    | ButtonPress(at: Pixel)     // <ButtonPress-1>
    | Motion(at: Pixel)          // <B1-Motion>
    | ButtonRelease(at: Pixel)   // <ButtonRelease-1>
    | WindowClosed               // the user closes the window: mainloop returns

  function Min(a: int, b: int): int
  {
    if a <= b then a else b
  }

  function Max(a: int, b: int): int
  {
    if a <= b then b else a
  }

  function Abs(d: int): int
  {
    if d < 0 then -d else d
  }

  /** The tuple `select_roi` returns for a drag from `start` to `end`: its
      width and height are never negative and its edges are exactly the two
      drag coordinates on each axis. */
  function Normalize(start: Pixel, end: Pixel): (r: Roi)
    ensures r.w >= 0 && r.h >= 0
    ensures {r.x, r.x + r.w} == {start.x, end.x}
    ensures {r.y, r.y + r.h} == {start.y, end.y}
  {
    Roi(Min(start.x, end.x), Min(start.y, end.y), Abs(end.x - start.x), Abs(end.y - start.y))
  }

  /** Dragging in the opposite direction selects the same region. */
  lemma NormalizeSymmetric(a: Pixel, b: Pixel)
    ensures Normalize(a, b) == Normalize(b, a)
  {
  }

  /** The contract of Normalize pins its result down: a region of
      non-negative size whose edges are the two drag coordinates is the one
      Normalize returns. */
  lemma NormalizeUnique(a: Pixel, b: Pixel, r: Roi)
    requires r.w >= 0 && r.h >= 0
    requires {r.x, r.x + r.w} == {a.x, b.x} && {r.y, r.y + r.h} == {a.y, b.y}
    ensures r == Normalize(a, b)
  {
    var n := Normalize(a, b);
    assert r.x in {a.x, b.x} && r.x + r.w in {a.x, b.x};
    assert a.x in {r.x, r.x + r.w} && b.x in {r.x, r.x + r.w};
    assert n.x in {a.x, b.x} && n.x + n.w in {a.x, b.x};
    assert r.y in {a.y, b.y} && r.y + r.h in {a.y, b.y};
    assert a.y in {r.y, r.y + r.h} && b.y in {r.y, r.y + r.h};
    assert n.y in {a.y, b.y} && n.y + n.h in {a.y, b.y};
  }

  /** A drag between two opposite corners of a region, in either direction,
      selects that region. */
  lemma NormalizeCorners(r: Roi)
    requires r.w >= 0 && r.h >= 0
    ensures Normalize(Pixel(r.x, r.y), Pixel(r.x + r.w, r.y + r.h)) == r
    ensures Normalize(Pixel(r.x + r.w, r.y + r.h), Pixel(r.x, r.y)) == r
    ensures Normalize(Pixel(r.x + r.w, r.y), Pixel(r.x, r.y + r.h)) == r
  {
  }

  // ---------------------------------------------------------------------------
  // What a sequence of events leaves behind
  // ---------------------------------------------------------------------------

  predicate EndsLoop(e: Event)
  {
    e.ButtonRelease? || e.WindowClosed?
  }

  /** The index of the event that makes `root.mainloop()` return, or `|es|`
      when none does; events after it are never delivered. */
  function StopIndex(es: seq<Event>): (k: nat)
    ensures k <= |es|
    ensures forall j :: 0 <= j < k ==> !EndsLoop(es[j])
    ensures k < |es| ==> EndsLoop(es[k])
  {
    if es == [] then 0
    else if EndsLoop(es[0]) then 0
    else 1 + StopIndex(es[1..])
  }

  /** The point of the latest press in `es`: what `rect_start['start_x']`
      and `rect_start['start_y']` hold afterwards. */
  function LastPress(es: seq<Event>): Option<Pixel>
  {
    if es == [] then None
    else if es[|es| - 1].ButtonPress? then Some(es[|es| - 1].at)
    else LastPress(es[..|es| - 1])
  }

  /** Whether `rect_obj` is set after `es`: some motion came when a start
      point was already recorded. */
  function Dragged(es: seq<Event>): bool
  {
    es != [] && (Dragged(es[..|es| - 1]) || (es[|es| - 1].Motion? && LastPress(es[..|es| - 1]).Some?))
  }

  /** A start point is recorded exactly when some press happened, and it is
      the point of the last press: no press comes after it. */
  lemma {:induction false} LastPressIff(es: seq<Event>)
    ensures LastPress(es).Some? <==> exists i :: 0 <= i < |es| && es[i].ButtonPress?
    ensures LastPress(es).Some? ==>
      exists i :: 0 <= i < |es| && es[i] == ButtonPress(LastPress(es).value) &&
        forall j :: i < j < |es| ==> !es[j].ButtonPress?
  {
    if es != [] && !es[|es| - 1].ButtonPress? {
      var init := es[..|es| - 1];
      LastPressIff(init);
      if exists i :: 0 <= i < |es| && es[i].ButtonPress? {
        var i :| 0 <= i < |es| && es[i].ButtonPress?;
        assert init[i] == es[i];
      }
      if LastPress(es).Some? {
        var i :| 0 <= i < |init| && init[i] == ButtonPress(LastPress(init).value) &&
          forall j :: i < j < |init| ==> !init[j].ButtonPress?;
        assert es[i] == init[i];
        forall j | i < j < |es|
          ensures !es[j].ButtonPress?
        {
          if j < |init| {
            assert es[j] == init[j];
          }
        }
      }
    }
  }

  /** An outline has been drawn exactly when a motion followed a press. */
  lemma {:induction false} DraggedIff(es: seq<Event>)
    ensures Dragged(es) <==> exists i, j :: 0 <= i < j < |es| && es[i].ButtonPress? && es[j].Motion?
  {
    if es != [] {
      var n := |es| - 1;
      var init := es[..n];
      DraggedIff(init);
      LastPressIff(init);
      if Dragged(es) {
        if Dragged(init) {
          var i, j :| 0 <= i < j < |init| && init[i].ButtonPress? && init[j].Motion?;
          assert es[i] == init[i] && es[j] == init[j];
        } else {
          var i :| 0 <= i < |init| && init[i].ButtonPress?;
          assert es[i] == init[i];
          assert 0 <= i < n < |es| && es[i].ButtonPress? && es[n].Motion?;
        }
      }
      if exists i, j :: 0 <= i < j < |es| && es[i].ButtonPress? && es[j].Motion? {
        var i, j :| 0 <= i < j < |es| && es[i].ButtonPress? && es[j].Motion?;
        assert init[i] == es[i];
        if j < n {
          assert init[j] == es[j];
        }
      }
    }
  }

  lemma DraggedHasPress(es: seq<Event>)
    ensures Dragged(es) ==> LastPress(es).Some?
  {
    DraggedIff(es);
    LastPressIff(es);
  }

  /** What `select_roi` returns after the window received `es`: a region
      only when the loop was ended by a release that came after an outline
      was drawn. Its corners are the last press before that release and the
      release point. A sequence that never ends the loop gives None here; the
      script would still be waiting, so `SelectRoi` requires the loop to end. */
  function Selection(es: seq<Event>): (r: Option<Roi>)
    ensures r.Some? ==> StopIndex(es) < |es| && es[StopIndex(es)].ButtonRelease?
    ensures r.Some? ==> LastPress(es[..StopIndex(es)]).Some? && r.value.w >= 0 && r.value.h >= 0
    ensures r.Some? ==>
      {r.value.x, r.value.x + r.value.w} == {LastPress(es[..StopIndex(es)]).value.x, es[StopIndex(es)].at.x} &&
      {r.value.y, r.value.y + r.value.h} == {LastPress(es[..StopIndex(es)]).value.y, es[StopIndex(es)].at.y}
  {
    var k := StopIndex(es);
    if k < |es| && es[k].ButtonRelease? && Dragged(es[..k]) then
      DraggedHasPress(es[..k]);
      Some(Normalize(LastPress(es[..k]).value, es[k].at))
    else None
  }

  /** A region is returned exactly when, before the first release or window
      close, a press was followed by a motion, and that event is a release. */
  lemma SelectionIff(es: seq<Event>)
    ensures Selection(es).Some? <==>
      var k := StopIndex(es);
      k < |es| && es[k].ButtonRelease? &&
      exists i, j :: 0 <= i < j < k && es[i].ButtonPress? && es[j].Motion?
  {
    var k := StopIndex(es);
    DraggedIff(es[..k]);
    forall i | 0 <= i < k
      ensures es[..k][i] == es[i]
    {
    }
  }

  /** A press and release with no motion between them selects nothing. */
  lemma ClickWithoutDragSelectsNothing(p: Pixel, q: Pixel, rest: seq<Event>)
    ensures Selection([ButtonPress(p), ButtonRelease(q)] + rest) == None
  {
    var es := [ButtonPress(p), ButtonRelease(q)] + rest;
    assert es[1..][0] == ButtonRelease(q) && StopIndex(es[1..]) == 0;
    assert StopIndex(es) == 1;
    assert es[..1] == [ButtonPress(p)];
    assert [ButtonPress(p)][..0] == [];
    assert !Dragged([ButtonPress(p)]);
  }

  /** Closing the window before any release selects nothing. */
  lemma ClosedWindowSelectsNothing(es: seq<Event>)
    requires StopIndex(es) < |es| && es[StopIndex(es)].WindowClosed?
    ensures Selection(es) == None
  {
  }

  /** A press, a motion and a release select the region between the press
      and the release point, wherever the motion went. */
  lemma PressDragRelease(p: Pixel, m: Pixel, q: Pixel)
    ensures Selection([ButtonPress(p), Motion(m), ButtonRelease(q)]) == Some(Normalize(p, q))
  {
    var es := [ButtonPress(p), Motion(m), ButtonRelease(q)];
    assert es[1..] == [Motion(m), ButtonRelease(q)];
    assert es[1..][1..] == [ButtonRelease(q)];
    assert StopIndex(es[1..][1..]) == 0;
    assert StopIndex(es[1..]) == 1;
    assert StopIndex(es) == 2;
    assert es[..2] == [ButtonPress(p), Motion(m)];
    assert es[..2][..1] == [ButtonPress(p)];
    assert es[..2][..1][..0] == [];
    assert LastPress(es[..2]) == Some(p);
    assert Dragged(es[..2]);
  }

  // ---------------------------------------------------------------------------
  // The window's state and its event handlers
  // ---------------------------------------------------------------------------

  class RoiSelector {
    /** `rect_start['start_x']`, `rect_start['start_y']`, when present. */
    var start: Option<Pixel>
    /** `rect_start['end_x']`, `rect_start['end_y']`, when present. */
    var end: Option<Pixel>
    /** `rect_obj` is not None: an outline has been created. */
    var drawn: bool
    /** The corners of the red outline on the canvas, while one is shown. */
    var outline: Option<(Pixel, Pixel)>
    /** `root.mainloop()` is still running. */
    var running: bool

    ghost predicate Valid()
      reads this
    {
      (drawn ==> start.Some?) && (end.Some? ==> drawn) && (outline.Some? ==> drawn)
    }

    constructor ()
      ensures Valid() && running
      ensures start == None && end == None && !drawn && outline == None
    {
      start, end, drawn, outline, running := None, None, false, None, true;
    }

    /** `on_click`: a press (re)records the start point. */
    method OnClick(p: Pixel)
      requires Valid()
      modifies this
      ensures Valid()
      ensures start == Some(p)
      ensures end == old(end) && drawn == old(drawn) && outline == old(outline) && running == old(running)
    {
      start := Some(p);
    }

    /** `on_drag`: with a start point, replaces the outline by one from the
        start point to `p`; without one, does nothing. */
    method OnDrag(p: Pixel)
      requires Valid()
      modifies this
      ensures Valid()
      ensures start == old(start) && end == old(end) && running == old(running)
      ensures drawn == (old(drawn) || old(start).Some?)
      ensures outline == if old(start).Some? then Some((old(start).value, p)) else old(outline)
    {
      if start.Some? {
        outline := Some((start.value, p));
        drawn := true;
      }
    }

    /** `on_release`: records the end point only if an outline was drawn,
        removes the outline from the canvas and stops the loop. `rect_obj`
        itself is not reset. */
    method OnRelease(p: Pixel)
      requires Valid()
      modifies this
      ensures Valid()
      ensures start == old(start) && drawn == old(drawn) && !running
      ensures end == if old(drawn) then Some(p) else old(end)
      ensures outline == if old(drawn) then None else old(outline)
    {
      if drawn {
        end := Some(p);
        outline := None;
      }
      running := false;
    }

    /** Closing the window ends `mainloop` and changes nothing else. */
    method OnClose()
      requires Valid()
      modifies this
      ensures Valid()
      ensures start == old(start) && end == old(end) && drawn == old(drawn) && outline == old(outline)
      ensures !running
    {
      running := false;
    }

    /** The bindings of the canvas: each event goes to its handler. */
    method Dispatch(e: Event)
      requires Valid()
      modifies this
      ensures Valid()
      ensures start == (if e.ButtonPress? then Some(e.at) else old(start))
      ensures drawn == (old(drawn) || (e.Motion? && old(start).Some?))
      ensures end == (if e.ButtonRelease? && old(drawn) then Some(e.at) else old(end))
      ensures running == (old(running) && !EndsLoop(e))
    {
      match e
      case ButtonPress(p) => OnClick(p);
      case Motion(p) => OnDrag(p);
      case ButtonRelease(p) => OnRelease(p);
      case WindowClosed => OnClose();
    }

    /** The value computed after `mainloop` returns: a region exactly when an
        end point was recorded. */
    function Result(): (r: Option<Roi>)
      requires Valid()
      reads this
      ensures r.Some? <==> end.Some?
    {
      if end.Some? then Some(Normalize(start.value, end.value)) else None
    }
  }

  /** `select_roi`: opens the window, delivers events in order until one of
      them ends the loop, and returns the normalised region, if any. */
  method SelectRoi(events: seq<Event>) returns (roi: Option<Roi>)
    requires StopIndex(events) < |events|
    ensures roi == Selection(events)
  {
    var window := new RoiSelector();
    var i := 0;
    while i < |events| && window.running
      invariant 0 <= i <= |events|
      invariant window.Valid()
      invariant window.running ==>
        i <= StopIndex(events) && window.end == None &&
        window.start == LastPress(events[..i]) && window.drawn == Dragged(events[..i])
      invariant !window.running ==>
        0 < i && i - 1 == StopIndex(events) &&
        window.start == LastPress(events[..i - 1]) &&
        window.end == (if events[i - 1].ButtonRelease? && Dragged(events[..i - 1]) then Some(events[i - 1].at) else None)
    {
      assert events[..i + 1][..i] == events[..i];
      window.Dispatch(events[i]);
      i := i + 1;
    }
    roi := window.Result();
  }
}
