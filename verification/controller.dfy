/** The e-ink update coordinator of `display_controller.py` as a sequential state
    machine. Each public operation of `DisplayController` is one pure transition;
    timers are explicit "fires at `now`" transitions; every physical panel call is
    appended to `log`. The composed frame (`compose_panel()`) and the dialog font
    are parameters. */
module Controller {
  import opened Wrappers
  import opened Raster
  import Dialog

  /** Every 4th full render clears the panel first. */
  const ClearEvery := 4
  /** Every 5th partial update is replaced by a full render. */
  const EscalateEvery := 5
  /** Dialog geometry used by `show_dialog`. */
  const DialogWidth := 200
  const DialogHeight := 100
  const DialogPadding := 6
  /** Default `duration` of `show_dialog`, in seconds. */
  const DefaultDialogSeconds: real := 5.0
  /** Default `shadow_offset` of `build_dialog_image`. */
  const ShadowOffset := 3

  /** The calls made on the EPD driver. A partial write records the size of the
      image that was pushed and the box it was pushed into. */
  datatype PanelOp = Init | InitPart | Clear | Display | DisplayPartial(width: int, height: int, box: Box) | Sleep

  /** A visible dialog: where it is, the pixels it covers, when its restore timer fires. */
  datatype Session = Session(box: Box, backup: Option<Image>, restoreAt: real)

  datatype State = State(
    panelWidth: int,          // epd.width
    panelHeight: int,         // epd.height
    count: nat,               // _render_count
    cache: Option<Image>,     // _last_image
    session: Option<Session>, // _dialog_restore_timer / _dialog_backup / _dialog_bbox
    renderAt: Option<real>,   // pending debounce timer (_render_timer), by firing time
    stopped: bool,            // _stop_event
    log: seq<PanelOp>)        // what the panel was told to do

  /** `DisplayController(epd)`. */
  function Create(panelWidth: int, panelHeight: int): (r: State)
    ensures r.panelWidth == panelWidth && r.panelHeight == panelHeight
    ensures r.count == 0 && r.cache.None? && r.session.None? && r.renderAt.None?
    ensures !r.stopped && r.log == []
    ensures Inv(r)
  {
    State(panelWidth, panelHeight, 0, None, None, None, false, [])
  }

  /** The panel calls `r` added after those of `s`. */
  function NewOps(s: State, r: State): seq<PanelOp>
    requires |s.log| <= |r.log|
  {
    r.log[|s.log|..]
  }

  /** The settings that no operation changes. */
  predicate SamePanel(s: State, r: State) {
    r.panelWidth == s.panelWidth && r.panelHeight == s.panelHeight
  }

  /** The dialog box, centred on the panel with Python's floor division. */
  function CentredBox(panelWidth: int, panelHeight: int): (b: Box)
    ensures b.Width() == DialogWidth && b.Height() == DialogHeight
    ensures 2 * b.x1 <= panelWidth - DialogWidth < 2 * b.x1 + 2
    ensures 2 * b.y1 <= panelHeight - DialogHeight < 2 * b.y1 + 2
  {
    var x1 := (panelWidth - DialogWidth) / 2;
    var y1 := (panelHeight - DialogHeight) / 2;
    Box(x1, y1, x1 + DialogWidth, y1 + DialogHeight)
  }

  /** What stays true between operations: a visible dialog always has a cached
      image under it and a backup of the centred box. */
  predicate Inv(s: State) {
    s.session.Some? ==>
      && s.cache.Some?
      && s.session.value.box == CentredBox(s.panelWidth, s.panelHeight)
      && s.session.value.backup.Some?
      && Fits(s.session.value.backup.value, s.session.value.box)
  }

  // ---------------------------------------------------------------- render

  /** `render()`: init, clear on every 4th render, display the composed frame,
      sleep; cache the frame and count the operation. */
  function Render(s: State, frame: Image): (r: State)
    ensures s.log < r.log
    ensures r.cache == Some(frame)
    ensures r.count == s.count + 1
    ensures r.session == s.session && r.renderAt == s.renderAt && r.stopped == s.stopped && SamePanel(s, r)
    ensures Inv(s) ==> Inv(r)
  {
    s.(log := s.log + RenderOps(s.count), cache := Some(frame), count := s.count + 1)
  }

  /** The panel calls of a full render: `init` first, `sleep` last, one `display`,
      a `Clear` exactly on every 4th operation, and never a region write. */
  lemma RenderCalls(s: State, frame: Image)
    ensures var ops := NewOps(s, Render(s, frame));
      && ops[0] == Init && ops[|ops| - 1] == Sleep && Display in ops
      && (Clear in ops <==> s.count % ClearEvery == 0)
      && (forall op :: op in ops ==> !op.DisplayPartial?)
  {
    var ops := RenderOps(s.count);
    assert NewOps(s, Render(s, frame)) == ops;
    assert Clear in ops <==> s.count % ClearEvery == 0;
  }

  /** The panel calls of a full render at operation count `count`. */
  function RenderOps(count: nat): seq<PanelOp> {
    [Init] + (if count % ClearEvery == 0 then [Clear] else []) + [Display, Sleep]
  }

  // ---------------------------------------------------------------- partial update

  /** `partial_update(region_image, bbox)`. Escalation to a full render is modelled
      as the render the code intends (the real call re-acquires a held lock). */
  function PartialUpdate(s: State, patch: Image, box: Box, frame: Image): (r: State)
    ensures r.count == s.count + 1
    ensures s.count % EscalateEvery == 0 ==> r == Render(s, frame)
    ensures s.count % EscalateEvery != 0 && !Fits(patch, box) ==>
      r == Render(s.(log := s.log + [InitPart]), frame)
    ensures s.count % EscalateEvery != 0 && Fits(patch, box) ==>
      && r.log == s.log + [InitPart, DisplayPartial(patch.width, patch.height, box), Sleep]
      && r.session == s.session && r.renderAt == s.renderAt && r.stopped == s.stopped && SamePanel(s, r)
      && (s.cache.None? ==> r.cache.None?)
      && (s.cache.Some? ==> r.cache == Some(Paste(s.cache.value, patch, box.x1, box.y1)))
    ensures Inv(s) ==> Inv(r)
  {
    if s.count % EscalateEvery == 0 then
      Render(s, frame)
    else
      var s1 := s.(log := s.log + [InitPart]);
      if !Fits(patch, box) then
        Render(s1, frame)
      else
        var cache := if s.cache.Some? then Some(Paste(s.cache.value, patch, box.x1, box.y1)) else None;
        s1.(log := s1.log + [DisplayPartial(patch.width, patch.height, box), Sleep],
            cache := cache, count := s.count + 1)
  }

  // ---------------------------------------------------------------- dialog

  /** `show_dialog(text, duration)` with the dialog built with or without its drop
      shadow; the code as written uses the default, `shadow = true`. */
  function ShowDialogWith(s: State, shadow: bool, text: string, duration: real, now: real,
                          frame: Image, font: Dialog.Font): (r: State)
    ensures s.session.Some? && s.cache.Some? ==> r == s
    ensures s.session.Some? && s.cache.None? ==> r == Render(s, frame)
    ensures s.session.None? ==>
      var before := if s.cache.Some? then s.cache else Some(frame);
      var box := CentredBox(s.panelWidth, s.panelHeight);
      var d := Dialog.Build(text, DialogWidth, DialogHeight, DialogPadding, shadow, ShadowOffset, font);
      && r.cache == before
      && r.session == Some(Session(box, Some(Crop(before.value, box)), now + duration))
      && r.count == s.count + (if s.cache.None? then 2 else 1)
      && r.log == s.log + (if s.cache.None? then RenderOps(s.count) else [])
                        + [InitPart, DisplayPartial(d.width, d.height, box), Sleep]
      && r.renderAt == s.renderAt && r.stopped == s.stopped && SamePanel(s, r)
    ensures Inv(s) ==> Inv(r)
  {
    // the baseline render happens before the "already showing" check
    var s1 := if s.cache.None? then Render(s, frame) else s;
    if s1.session.Some? then
      s1
    else
      var box := CentredBox(s1.panelWidth, s1.panelHeight);
      var backup := if s1.cache.Some? then Some(Crop(s1.cache.value, box)) else None;
      var d := Dialog.Build(text, DialogWidth, DialogHeight, DialogPadding, shadow, ShadowOffset, font);
      s1.(log := s1.log + [InitPart, DisplayPartial(d.width, d.height, box), Sleep],
          count := s1.count + 1,
          session := Some(Session(box, backup, now + duration)))
  }

  /** `show_dialog(text, duration)` as written. */
  function ShowDialog(s: State, text: string, duration: real, now: real, frame: Image, font: Dialog.Font): (r: State)
    ensures s.session.None? ==>
      |r.log| >= 3 && r.log[|r.log| - 2] == DisplayPartial(DialogWidth + ShadowOffset, DialogHeight + ShadowOffset,
                                           CentredBox(s.panelWidth, s.panelHeight))
  {
    ShowDialogWith(s, true, text, duration, now, frame, font)
  }

  /** `show_dialog(text)`: the duration defaults to five seconds. */
  function ShowDialogDefault(s: State, text: string, now: real, frame: Image, font: Dialog.Font): (r: State)
    ensures s.session.None? ==> r.session.Some? && r.session.value.restoreAt == now + 5.0
  {
    ShowDialog(s, text, DefaultDialogSeconds, now, frame, font)
  }

  /** As written, the dialog written to the panel is larger than the box it is
      written into, by the shadow offset in each direction. */
  lemma DialogOverrunsItsBox(s: State, text: string, duration: real, now: real, frame: Image, font: Dialog.Font)
    requires s.session.None?
    ensures var r := ShowDialog(s, text, duration, now, frame, font);
      var op := r.log[|r.log| - 2];
      && op.DisplayPartial?
      && op.width == op.box.Width() + ShadowOffset
      && op.height == op.box.Height() + ShadowOffset
  {
  }

  /** `show_dialog` with the dialog image built to the size of its box: the image
      written to the panel has exactly the dimensions of the region it covers. */
  function ShowDialogFitted(s: State, text: string, duration: real, now: real, frame: Image, font: Dialog.Font): (r: State)
    ensures s.session.None? ==>
      && |r.log| >= 3
      && r.log[|r.log| - 2].DisplayPartial?
      && r.log[|r.log| - 2].width == r.log[|r.log| - 2].box.Width()
      && r.log[|r.log| - 2].height == r.log[|r.log| - 2].box.Height()
      && r.log[|r.log| - 2].box == CentredBox(s.panelWidth, s.panelHeight)
    ensures s.session.Some? && s.cache.Some? ==> r == s
  {
    ShowDialogWith(s, false, text, duration, now, frame, font)
  }

  /** The restore timer of the dialog firing at `now` (the inner `_restore`). */
  function RestoreFires(s: State, now: real): (r: State)
    ensures s.session.None? || now < s.session.value.restoreAt || s.stopped || s.session.value.backup.None? ==> r == s
    ensures s.session.Some? && now >= s.session.value.restoreAt && !s.stopped && s.session.value.backup.Some? ==>
      var ses := s.session.value;
      && r.session.None?
      && r.count == s.count + 1
      && r.log == s.log + [InitPart, DisplayPartial(ses.backup.value.width, ses.backup.value.height, ses.box), Sleep]
      && (s.cache.Some? ==> r.cache == Some(Paste(s.cache.value, ses.backup.value, ses.box.x1, ses.box.y1)))
      && (s.cache.None? ==> r.cache.None?)
      && r.renderAt == s.renderAt && r.stopped == s.stopped && SamePanel(s, r)
    ensures Inv(s) ==> Inv(r)
  {
    if s.session.None? || now < s.session.value.restoreAt || s.stopped || s.session.value.backup.None? then
      s
    else
      var ses := s.session.value;
      var b := ses.backup.value;
      var cache := if s.cache.Some? then Some(Paste(s.cache.value, b, ses.box.x1, ses.box.y1)) else None;
      s.(log := s.log + [InitPart, DisplayPartial(b.width, b.height, ses.box), Sleep],
         cache := cache, count := s.count + 1, session := None)
  }

  // ---------------------------------------------------------------- debounce and stop

  /** `schedule_render()` at time `now`: the pending render, if any, is cancelled
      and replaced by one firing `delay` later. */
  function ScheduleRender(s: State, now: real, delay: real): (r: State)
    ensures r.renderAt == Some(now + delay)
    ensures r == s.(renderAt := r.renderAt)
    ensures Inv(s) ==> Inv(r)
  {
    s.(renderAt := Some(now + delay))
  }

  /** The debounce timer firing at `now`: a due pending render is performed. */
  function RenderTimerFires(s: State, now: real, frame: Image): (r: State)
    ensures s.renderAt.None? || now < s.renderAt.value ==> r == s
    ensures s.renderAt.Some? && s.renderAt.value <= now ==> r == Render(s.(renderAt := None), frame)
    ensures r.renderAt.None? || r == s
    ensures Inv(s) ==> Inv(r)
  {
    if s.renderAt.Some? && s.renderAt.value <= now then Render(s.(renderAt := None), frame) else s
  }

  /** `stop()`: sets the stop flag and cancels the pending render only. */
  function Stop(s: State): (r: State)
    ensures r.stopped && r.renderAt.None?
    ensures r.session == s.session && r.cache == s.cache && r.count == s.count && r.log == s.log && SamePanel(s, r)
    ensures Inv(s) ==> Inv(r)
  {
    s.(stopped := true, renderAt := None)
  }

  /** The `stopped` property. */
  function Stopped(s: State): bool {
    s.stopped
  }

  // ---------------------------------------------------------------- properties

  /** A successful partial write changes exactly the cached pixels under the box,
      to the patch's. */
  lemma PartialUpdateCache(s: State, patch: Image, box: Box, frame: Image)
    requires s.count % EscalateEvery != 0 && Fits(patch, box) && s.cache.Some?
    ensures var r := PartialUpdate(s, patch, box, frame);
      && r.cache.Some?
      && r.cache.value.width == s.cache.value.width
      && r.cache.value.height == s.cache.value.height
      && forall x, y :: 0 <= x < r.cache.value.width && 0 <= y < r.cache.value.height ==>
           At(r.cache.value, x, y) ==
             (if box.Contains(x, y) then At(patch, x - box.x1, y - box.y1) else At(s.cache.value, x, y))
  {
  }

  /** A successful partial write leaves the cache holding the patch at the box. */
  lemma PartialUpdateCropsToPatch(s: State, patch: Image, box: Box, frame: Image)
    requires s.count % EscalateEvery != 0 && Fits(patch, box)
    requires s.cache.Some? && box.Within(s.cache.value.width, s.cache.value.height)
    ensures var r := PartialUpdate(s, patch, box, frame);
      r.cache.Some? && Crop(r.cache.value, box) == patch
  {
    CropAfterPaste(s.cache.value, patch, box);
  }

  /** A patch of the wrong size is not written: the panel gets `init_part` and then
      an ordinary full render. */
  lemma MismatchedPatchFallsBack(s: State, patch: Image, box: Box, frame: Image)
    requires s.count % EscalateEvery != 0 && !Fits(patch, box)
    ensures var r := PartialUpdate(s, patch, box, frame);
      var ops := NewOps(s, r);
      && ops[0] == InitPart && ops[1] == Init
      && (forall op :: op in ops ==> !op.DisplayPartial?)
      && r.cache == Some(frame)
  {
    var s1 := s.(log := s.log + [InitPart]);
    var r := PartialUpdate(s, patch, box, frame);
    assert r == Render(s1, frame);
    var ops1 := NewOps(s1, r);
    assert NewOps(s, r) == [InitPart] + ops1;
  }

  /** On every 5th operation a partial update is a full render and writes no region. */
  lemma EscalatedPartialWritesNoRegion(s: State, patch: Image, box: Box, frame: Image)
    requires s.count % EscalateEvery == 0
    ensures var r := PartialUpdate(s, patch, box, frame);
      var ops := NewOps(s, r);
      ops[0] == Init && !(InitPart in ops) && forall op :: op in ops ==> !op.DisplayPartial?
  {
    var r := PartialUpdate(s, patch, box, frame);
    assert r == Render(s, frame);
    var ops := NewOps(s, r);
    assert ops == RenderOps(s.count);
  }

  /** `partial_update(region_image, bbox)` called `n` times with the same patch. */
  function PartialUpdates(s: State, n: nat, patch: Image, box: Box, frame: Image): State
    decreases n
  {
    if n == 0 then s else PartialUpdates(PartialUpdate(s, patch, box, frame), n - 1, patch, box, frame)
  }

  /** `n` copies of a sequence of panel calls, one after the other. */
  function Repeat(w: seq<PanelOp>, n: nat): seq<PanelOp>
    decreases n
  {
    if n == 0 then [] else w + Repeat(w, n - 1)
  }

  /** A run of fitting partial updates that does not reach a multiple of 5 is
      written region by region: each adds `init_part`, the region write and `sleep`. */
  lemma {:induction false} PartialRun(s: State, n: nat, patch: Image, box: Box, frame: Image)
    requires Fits(patch, box) && s.count % EscalateEvery != 0
    requires s.count % EscalateEvery + n <= EscalateEvery
    ensures var r := PartialUpdates(s, n, patch, box, frame);
      && r.log == s.log + Repeat([InitPart, DisplayPartial(patch.width, patch.height, box), Sleep], n)
      && r.count == s.count + n
    decreases n
  {
    if n > 0 {
      var w := [InitPart, DisplayPartial(patch.width, patch.height, box), Sleep];
      var s1 := PartialUpdate(s, patch, box, frame);
      PartialWritten(s, patch, box, frame);
      if n > 1 {
        NextResidue(s.count);
        PartialRun(s1, n - 1, patch, box, frame);
      }
      assert s.log + w + Repeat(w, n - 1) == s.log + Repeat(w, n);
    }
  }

  /** From any count that is not a multiple of 5, the fitting partial updates up to
      the next multiple are written as regions, and the one after that is a full
      render: at most four region writes in a row. */
  lemma FifthPartialEscalates(s: State, patch: Image, box: Box, frame: Image)
    requires s.count % EscalateEvery != 0 && Fits(patch, box)
    ensures var n := EscalateEvery - s.count % EscalateEvery;
      var r := PartialUpdates(s, n, patch, box, frame);
      && 1 <= n <= 4
      && r.log == s.log + Repeat([InitPart, DisplayPartial(patch.width, patch.height, box), Sleep], n)
      && PartialUpdate(r, patch, box, frame) == Render(r, frame)
  {
    var n := EscalateEvery - s.count % EscalateEvery;
    var w := [InitPart, DisplayPartial(patch.width, patch.height, box), Sleep];
    var r := PartialUpdates(s, n, patch, box, frame);
    assert r.log == s.log + Repeat(w, n) && r.count == s.count + n by {
      PartialRun(s, n, patch, box, frame);
    }
    assert r.count % EscalateEvery == 0 by {
      ReachesMultiple(s.count);
    }
    EscalatesOnMultiple(r, patch, box, frame);
  }

  lemma EscalatesOnMultiple(r: State, patch: Image, box: Box, frame: Image)
    requires r.count % EscalateEvery == 0
    ensures PartialUpdate(r, patch, box, frame) == Render(r, frame)
  {
  }

  lemma NextResidue(c: nat)
    requires c % EscalateEvery != 0 && c % EscalateEvery < EscalateEvery - 1
    ensures (c + 1) % EscalateEvery == c % EscalateEvery + 1
  {
    var q := c / EscalateEvery;
    assert c == EscalateEvery * q + c % EscalateEvery;
    Residue(q, c % EscalateEvery + 1);
  }

  lemma ReachesMultiple(c: nat)
    ensures (c + (EscalateEvery - c % EscalateEvery)) % EscalateEvery == 0
  {
    var q := c / EscalateEvery;
    assert c + (EscalateEvery - c % EscalateEvery) == EscalateEvery * (q + 1) + 0;
    Residue(q + 1, 0);
  }

  lemma Residue(q: int, k: int)
    requires 0 <= k < EscalateEvery
    ensures (EscalateEvery * q + k) % EscalateEvery == k
  {
  }

  lemma PartialWritten(s: State, patch: Image, box: Box, frame: Image)
    requires s.count % EscalateEvery != 0 && Fits(patch, box)
    ensures var r := PartialUpdate(s, patch, box, frame);
      && r.log == s.log + [InitPart, DisplayPartial(patch.width, patch.height, box), Sleep]
      && r.count == s.count + 1
  {
  }

  /** A dialog request while one is visible changes nothing. */
  lemma SecondDialogIgnored(s: State, text: string, duration: real, now: real, frame: Image, font: Dialog.Font)
    requires Inv(s) && s.session.Some?
    ensures ShowDialog(s, text, duration, now, frame, font) == s
  {
  }

  /** Showing a dialog and letting its timer fire puts the cached image back exactly
      as it was before the dialog, closes the session and counts two operations
      (three when a baseline render was needed first). */
  lemma ShowThenRestore(s: State, text: string, duration: real, now: real, later: real, frame: Image, font: Dialog.Font)
    requires Inv(s) && s.session.None? && !s.stopped
    requires later >= now + duration
    ensures var shown := ShowDialog(s, text, duration, now, frame, font);
      var r := RestoreFires(shown, later);
      && shown.session.Some?
      && r.cache == (if s.cache.Some? then s.cache else Some(frame))
      && r.session.None?
      && r.count == s.count + (if s.cache.None? then 3 else 2)
  {
    var shown := ShowDialog(s, text, duration, now, frame, font);
    var before := if s.cache.Some? then s.cache else Some(frame);
    var box := CentredBox(s.panelWidth, s.panelHeight);
    assert shown.session == Some(Session(box, Some(Crop(before.value, box)), now + duration));
    PasteOfCrop(before.value, box);
  }

  /** Once the session is closed by its restore, the next dialog is shown. */
  lemma DialogAcceptedAfterRestore(s: State, text: string, duration: real, now: real, later: real,
                                   next: real, frame: Image, font: Dialog.Font)
    requires Inv(s) && s.session.None? && !s.stopped && later >= now + duration
    ensures var r := RestoreFires(ShowDialog(s, text, duration, now, frame, font), later);
      var again := ShowDialog(r, text, duration, next, frame, font);
      again.session.Some? && again.count == r.count + 1
  {
    ShowThenRestore(s, text, duration, now, later, frame, font);
  }

  /** After `stop()` the restore timer does nothing, so a visible dialog stays on
      the panel and every later dialog request is ignored. */
  lemma StoppedDialogStays(s: State, now: real, later: real, text: string, duration: real, frame: Image, font: Dialog.Font)
    requires Inv(s) && s.session.Some?
    ensures var t := Stop(s);
      && RestoreFires(t, later) == t
      && ShowDialog(RestoreFires(t, later), text, duration, now, frame, font) == t
  {
  }

  /** `schedule_render()` called at each of `times` in turn. */
  function ScheduleAll(s: State, times: seq<real>, delay: real): State
    decreases |times|
  {
    if |times| == 0 then s else ScheduleAll(ScheduleRender(s, times[0], delay), times[1..], delay)
  }

  lemma {:induction false} ScheduleAllKeepsLast(s: State, times: seq<real>, delay: real)
    requires |times| > 0
    ensures ScheduleAll(s, times, delay) == s.(renderAt := Some(times[|times| - 1] + delay))
    decreases |times|
  {
    if |times| > 1 {
      ScheduleAllKeepsLast(ScheduleRender(s, times[0], delay), times[1..], delay);
    }
  }

  /** A burst of `schedule_render()` calls leaves one pending render, due `delay`
      after the last call: the timer does nothing before then, renders exactly once
      when due, and firing again does nothing. */
  lemma DebounceCollapses(s: State, times: seq<real>, delay: real, now: real, again: real, frame: Image, frame2: Image)
    requires |times| > 0
    ensures var p := ScheduleAll(s, times, delay);
      var due := times[|times| - 1] + delay;
      && p.renderAt == Some(due)
      && (now < due ==> RenderTimerFires(p, now, frame) == p)
      && (now >= due ==>
            var r := RenderTimerFires(p, now, frame);
            && r.count == s.count + 1
            && r.cache == Some(frame)
            && s.log < r.log
            && RenderTimerFires(r, again, frame2) == r)
  {
    ScheduleAllKeepsLast(s, times, delay);
  }

  /** `stop()` cancels the pending render: its timer no longer renders. */
  lemma StopCancelsPendingRender(s: State, now: real, frame: Image)
    ensures RenderTimerFires(Stop(s), now, frame) == Stop(s)
  {
  }

  /** The stop flag is never cleared by any operation. */
  lemma StoppedIsSticky(s: State, patch: Image, box: Box, text: string, duration: real,
                        now: real, delay: real, frame: Image, font: Dialog.Font)
    requires Stopped(s)
    ensures Stopped(Render(s, frame))
    ensures Stopped(PartialUpdate(s, patch, box, frame))
    ensures Stopped(ShowDialog(s, text, duration, now, frame, font))
    ensures Stopped(RestoreFires(s, now))
    ensures Stopped(ScheduleRender(s, now, delay))
    ensures Stopped(RenderTimerFires(s, now, frame))
    ensures Stopped(Stop(s))
  {
  }

  // ---------------------------------------------------------------- ghosting cadence

  /** `render()` called once per frame. */
  function Renders(s: State, frames: seq<Image>): State
    decreases |frames|
  {
    if |frames| == 0 then s else Renders(Render(s, frames[0]), frames[1..])
  }

  /** Number of clears in a panel log. */
  function Clears(log: seq<PanelOp>): nat {
    if |log| == 0 then 0 else (if log[0] == Clear then 1 else 0) + Clears(log[1..])
  }

  lemma {:induction false} ClearsAppend(a: seq<PanelOp>, b: seq<PanelOp>)
    ensures Clears(a + b) == Clears(a) + Clears(b)
  {
    if |a| == 0 {
      assert a + b == b;
    } else {
      assert (a + b)[0] == a[0];
      assert (a + b)[1..] == a[1..] + b;
      ClearsAppend(a[1..], b);
    }
  }

  lemma RenderOpsClears(count: nat)
    ensures Clears(RenderOps(count)) == (if count % ClearEvery == 0 then 1 else 0)
  {
    var tail := [Display, Sleep];
    assert Clears(tail) == 0 by {
      assert tail[1..] == [Sleep] && [Sleep][1..] == [];
    }
    var ops := RenderOps(count);
    if count % ClearEvery == 0 {
      assert ops[1..] == [Clear] + tail && ([Clear] + tail)[1..] == tail;
    } else {
      assert ops[1..] == tail;
    }
  }

  /** One render adds one clear exactly when the count is a multiple of 4. */
  lemma RenderClears(s: State, frame: Image)
    ensures Clears(Render(s, frame).log) == Clears(s.log) + (if s.count % ClearEvery == 0 then 1 else 0)
  {
    assert Render(s, frame).log == s.log + RenderOps(s.count);
    ClearsAppend(s.log, RenderOps(s.count));
    RenderOpsClears(s.count);
  }

  /** How many of the counts `from, from + 1, ..., from + n - 1` are multiples of 4. */
  function ClearTurns(from: nat, n: nat): nat
    decreases n
  {
    if n == 0 then 0 else (if from % ClearEvery == 0 then 1 else 0) + ClearTurns(from + 1, n - 1)
  }

  /** `n` renders in a row clear the panel once for every count divisible by 4. */
  lemma {:induction false} RendersClearOnTurns(s: State, frames: seq<Image>)
    ensures Clears(Renders(s, frames).log) == Clears(s.log) + ClearTurns(s.count, |frames|)
    ensures Renders(s, frames).count == s.count + |frames|
    decreases |frames|
  {
    if |frames| > 0 {
      var s1 := Render(s, frames[0]);
      var bit := if s.count % ClearEvery == 0 then 1 else 0;
      RenderClears(s, frames[0]);
      assert Clears(s1.log) == Clears(s.log) + bit;
      assert s1.count == s.count + 1;
      RendersClearOnTurns(s1, frames[1..]);
      assert Renders(s, frames) == Renders(s1, frames[1..]);
      assert ClearTurns(s.count, |frames|) == bit + ClearTurns(s1.count, |frames[1..]|);
    }
  }

  /** Eight renders of a fresh controller clear the panel twice (the 1st and 5th). */
  lemma EightRendersClearTwice(width: int, height: int, frames: seq<Image>)
    requires |frames| == 8
    ensures Clears(Renders(Create(width, height), frames).log) == 2
  {
    RendersClearOnTurns(Create(width, height), frames);
    assert ClearTurns(0, 8) == 2;
  }
}
