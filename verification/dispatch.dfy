/** The message rule of the e-ink runner (`run_display.py`): an on/off message on a
    device topic updates the registry and, if a device flipped, pushes the redrawn
    devices column through the controller's partial update. */
module Dispatch {
  import opened Wrappers
  import opened Text
  import opened Raster
  import Devices
  import Controller

  /** Layout constants of the composed frame. */
  const Padding := 16
  const PanelHeight := 480

  /** A renderer of the devices column: it yields an image of the region's size. */
  ghost predicate Paints(paint: Devices.Region -> Image) {
    forall r: Devices.Region :: r.width >= 0 && r.height >= 0 ==>
      paint(r).width == r.width && paint(r).height == r.height
  }

  /** The devices column of the composed frame. */
  function ColumnRegion(devs: seq<Devices.Device>): (r: Devices.Region)
    ensures r.box == Box(Padding, Padding, Padding + 2 * Devices.IconSize, PanelHeight - Padding)
    ensures r.width == r.box.Width() >= 0 && r.height == r.box.Height() >= 0
  {
    Devices.GetDevicesRegion(devs, Padding, PanelHeight).value
  }

  /** Whether a message is acted on: a device topic with payload on/off after
      stripping and lower-casing. */
  predicate Accepted(topics: seq<string>, topic: string, raw: string) {
    topic in topics && Lower(Strip(raw)) in {"on", "off"}
  }

  /** `on_message` of the runner; `frame` is what a full render would compose. */
  function OnMessage(devs: seq<Devices.Device>, ctrl: Controller.State, topics: seq<string>,
                     topic: string, raw: string, paint: Devices.Region -> Image, frame: Image)
    : (r: (seq<Devices.Device>, Controller.State))
    ensures !Accepted(topics, topic, raw) ==> r == (devs, ctrl)
    ensures Accepted(topics, topic, raw) ==>
      var u := Devices.UpdateDeviceByTopic(devs, Some(topic), Lower(Strip(raw)) == "on");
      && r.0 == u.0
      && (u.1.None? ==> r.1 == ctrl)
      && (u.1.Some? ==> r.1 == Controller.PartialUpdate(ctrl, paint(ColumnRegion(u.0)), ColumnRegion(u.0).box, frame))
  {
    Handle(devs, ctrl, topics, topic, Lower(Strip(raw)), paint, frame)
  }

  /** The rule applied to the stripped, lower-cased payload. */
  function Handle(devs: seq<Devices.Device>, ctrl: Controller.State, topics: seq<string>,
                  topic: string, payload: string, paint: Devices.Region -> Image, frame: Image)
    : (seq<Devices.Device>, Controller.State)
  {
    if topic in topics && payload in {"on", "off"} then
      var (devs', updated) := Devices.UpdateDeviceByTopic(devs, Some(topic), payload == "on");
      if updated.Some? then
        var region := ColumnRegion(devs');
        (devs', Controller.PartialUpdate(ctrl, paint(region), region.box, frame))
      else (devs', ctrl)
    else (devs, ctrl)
  }

  /** The column image always fits its box, so a flip never takes the controller's
      size-mismatch fallback: it is either the every-fifth full render or one
      partial write of the column. */
  lemma FlipNeverFallsBack(devs: seq<Devices.Device>, ctrl: Controller.State, topics: seq<string>,
                           topic: string, raw: string, paint: Devices.Region -> Image, frame: Image)
    requires Paints(paint)
    requires Accepted(topics, topic, raw)
    requires Devices.UpdateDeviceByTopic(devs, Some(topic), Lower(Strip(raw)) == "on").1.Some?
    ensures var r := OnMessage(devs, ctrl, topics, topic, raw, paint, frame).1;
      && r.count == ctrl.count + 1
      && (ctrl.count % Controller.EscalateEvery == 0 ==> r == Controller.Render(ctrl, frame))
      && (ctrl.count % Controller.EscalateEvery != 0 ==>
            r.log == ctrl.log + [Controller.InitPart,
                                 Controller.DisplayPartial(2 * Devices.IconSize, PanelHeight - 2 * Padding,
                                   Box(Padding, Padding, Padding + 2 * Devices.IconSize, PanelHeight - Padding)),
                                 Controller.Sleep])
  {
    var u := Devices.UpdateDeviceByTopic(devs, Some(topic), Lower(Strip(raw)) == "on");
    var region := ColumnRegion(u.0);
    assert Fits(paint(region), region.box);
  }

  /** With one device per topic, delivering the same message twice changes nothing
      the second time: no second panel write. */
  lemma RepeatedMessageIsIgnored(devs: seq<Devices.Device>, ctrl: Controller.State, topics: seq<string>,
                                 topic: string, raw: string, paint: Devices.Region -> Image, frame: Image)
    requires forall i, j :: 0 <= i < |devs| && 0 <= j < |devs| && devs[i].topic == Some(topic) && devs[j].topic == Some(topic) ==> i == j
    ensures var first := OnMessage(devs, ctrl, topics, topic, raw, paint, frame);
      OnMessage(first.0, first.1, topics, topic, raw, paint, frame) == first
  {
    if Accepted(topics, topic, raw) {
      Devices.UpdateByTopicIdempotent(devs, Some(topic), Lower(Strip(raw)) == "on");
    }
  }

  /** A message on a topic that is not a device topic, or whose payload is neither
      `on` nor `off` once stripped and lower-cased, leaves both the registry and the
      panel alone. */
  lemma OtherPayloadIgnored(devs: seq<Devices.Device>, ctrl: Controller.State, topics: seq<string>,
                            topic: string, raw: string, paint: Devices.Region -> Image, frame: Image)
    requires topic !in topics || Lower(Strip(raw)) !in {"on", "off"}
    ensures OnMessage(devs, ctrl, topics, topic, raw, paint, frame) == (devs, ctrl)
  {
  }

  /** Surrounding blanks and letter case do not matter: a payload that strips and
      lower-cases to `on` or `off` acts exactly like that word. */
  lemma PayloadNormalised(devs: seq<Devices.Device>, ctrl: Controller.State, topics: seq<string>,
                          topic: string, raw: string, paint: Devices.Region -> Image, frame: Image)
    requires Lower(Strip(raw)) in {"on", "off"}
    ensures OnMessage(devs, ctrl, topics, topic, raw, paint, frame) ==
            OnMessage(devs, ctrl, topics, topic, Lower(Strip(raw)), paint, frame)
  {
    WordIsNormal(Lower(Strip(raw)));
  }

  /** `on` and `off` are unchanged by stripping and lower-casing. */
  lemma WordIsNormal(w: string)
    requires w in {"on", "off"}
    ensures Lower(Strip(w)) == w
  {
    StripTrimmed(w);
    assert Lower(w) == w;
  }
}
