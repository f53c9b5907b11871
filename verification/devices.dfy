/** The in-memory device registry of `devices.py`: updates by MQTT topic and by
    name, the geometry of the devices column, and where each icon is drawn. */
module Devices {
  import opened Wrappers
  import opened Raster

  /** Glyph size of the icon font. */
  const IconSize := 36
  /** Vertical padding around each icon. */
  const BoxPadding := 4
  /** Grey levels of the palette. */
  const Black := 0
  const LightGray := 170
  /** Icon given to a device added by name. */
  const DefaultIcon := "\U{e832}"

  /** One entry of `DEVICES`; `topic` is `None` for devices added by name. */
  datatype Device = Device(name: string, topic: Option<string>, icon: string, on: bool)

  /** Index of the first element satisfying `p`. */
  function FirstIndex<T>(xs: seq<T>, p: T -> bool): (k: Option<nat>)
    ensures k.Some? ==> k.value < |xs| && p(xs[k.value]) && forall j :: 0 <= j < k.value ==> !p(xs[j])
    ensures k.None? ==> forall j :: 0 <= j < |xs| ==> !p(xs[j])
  {
    if |xs| == 0 then None
    else if p(xs[0]) then Some(0)
    else match FirstIndex(xs[1..], p)
      case None => None
      case Some(k) => Some(k + 1)
  }

  /** The device a topic update would change: same topic, other state. */
  predicate Flips(d: Device, topic: Option<string>, on: bool) {
    d.topic == topic && d.on != on
  }

  /** `update_device_by_topic(topic, on)`: the new list and the changed device. */
  function UpdateDeviceByTopic(devs: seq<Device>, topic: Option<string>, on: bool): (r: (seq<Device>, Option<Device>))
    ensures |r.0| == |devs|
    ensures r.1.None? <==> forall j :: 0 <= j < |devs| ==> !Flips(devs[j], topic, on)
    ensures r.1.None? ==> r.0 == devs
    ensures r.1.Some? ==> r.1.value.topic == topic && r.1.value.on == on
    ensures forall j :: 0 <= j < |devs| ==>
      r.0[j].name == devs[j].name && r.0[j].topic == devs[j].topic && r.0[j].icon == devs[j].icon
    ensures forall j :: 0 <= j < |devs| && r.0[j] != devs[j] ==>
      Flips(devs[j], topic, on) && r.1 == Some(r.0[j]) && forall i :: 0 <= i < j ==> !Flips(devs[i], topic, on)
    ensures forall j :: 0 <= j < |devs| && Flips(devs[j], topic, on) && (forall i :: 0 <= i < j ==> !Flips(devs[i], topic, on)) ==>
      r.0[j] == devs[j].(on := on) && r.1 == Some(r.0[j])
  {
    match FirstIndex(devs, (d: Device) => Flips(d, topic, on))
    case None => (devs, None)
    case Some(k) =>
      var d := devs[k].(on := on);
      (devs[k := d], Some(d))
  }

  /** With at most one device per topic, repeating an update changes nothing more. */
  lemma UpdateByTopicIdempotent(devs: seq<Device>, topic: Option<string>, on: bool)
    requires forall i, j :: 0 <= i < |devs| && 0 <= j < |devs| && devs[i].topic == topic && devs[j].topic == topic ==> i == j
    ensures var r := UpdateDeviceByTopic(devs, topic, on);
      UpdateDeviceByTopic(r.0, topic, on) == (r.0, None)
  {
    var r := UpdateDeviceByTopic(devs, topic, on);
    forall j | 0 <= j < |r.0|
      ensures !Flips(r.0[j], topic, on)
    {
    }
  }

  /** With two devices on one topic, the same update flips the second one on its
      second call, so the uniqueness requirement above cannot be dropped. */
  lemma DuplicateTopicSecondCallFlipsAgain()
    ensures var devs := [Device("a", Some("t"), "x", false), Device("b", Some("t"), "y", false)];
      var first := UpdateDeviceByTopic(devs, Some("t"), true);
      var second := UpdateDeviceByTopic(first.0, Some("t"), true);
      first.1 == Some(Device("a", Some("t"), "x", true)) && second.1 == Some(Device("b", Some("t"), "y", true))
  {
    var devs := [Device("a", Some("t"), "x", false), Device("b", Some("t"), "y", false)];
    var first := UpdateDeviceByTopic(devs, Some("t"), true);
    assert Flips(devs[0], Some("t"), true);
    assert first.0 == [Device("a", Some("t"), "x", true), Device("b", Some("t"), "y", false)];
    assert !Flips(first.0[0], Some("t"), true) && Flips(first.0[1], Some("t"), true);
  }

  /** `update_device_state(name, on)`: set the first device with that name, or add one. */
  function UpdateDeviceState(devs: seq<Device>, name: string, on: bool): (r: seq<Device>)
    ensures |devs| <= |r| <= |devs| + 1
    ensures (forall j :: 0 <= j < |devs| ==> devs[j].name != name) ==>
      r == devs + [Device(name, None, DefaultIcon, on)]
    ensures (exists j :: 0 <= j < |devs| && devs[j].name == name) ==>
      && |r| == |devs|
      && forall j :: 0 <= j < |devs| ==>
           r[j] == (if devs[j].name == name && forall i :: 0 <= i < j ==> devs[i].name != name
                    then devs[j].(on := on) else devs[j])
  {
    match FirstIndex(devs, (d: Device) => d.name == name)
    case None => devs + [Device(name, None, DefaultIcon, on)]
    case Some(k) => devs[k := devs[k].(on := on)]
  }

  /** The state of the device a name lookup finds. */
  function StateOf(devs: seq<Device>, name: string): Option<bool> {
    match FirstIndex(devs, (d: Device) => d.name == name)
    case None => None
    case Some(k) => Some(devs[k].on)
  }

  /** After `update_device_state(name, on)` the device found under `name` has state `on`. */
  lemma UpdateDeviceStateThenLookup(devs: seq<Device>, name: string, on: bool)
    ensures StateOf(UpdateDeviceState(devs, name, on), name) == Some(on)
  {
    var r := UpdateDeviceState(devs, name, on);
    var p := (d: Device) => d.name == name;
    var k := FirstIndex(devs, p);
    var k' := FirstIndex(r, p);
    if k.None? {
      assert r[|devs|].name == name;
      assert k'.Some? && k'.value == |devs|;
    } else {
      assert r[k.value].name == name;
      assert k'.Some? && k'.value == k.value;
    }
  }

  // ---------------------------------------------------------------- drawing geometry

  /** One icon drawn at `(x, y)` in grey level `colour`. */
  datatype IconAt = IconAt(x: int, y: int, glyph: string, colour: int)

  /** `draw_device_icons(draw, (x, y))`: icons top-down, one box height apart,
      black when on and light grey when off. */
  function DrawDeviceIcons(devs: seq<Device>, x: int, y: int): (r: seq<IconAt>)
    ensures |r| == |devs|
    ensures forall i :: 0 <= i < |devs| ==>
      r[i] == IconAt(x, y + i * (IconSize + 2 * BoxPadding), devs[i].icon, if devs[i].on then Black else LightGray)
  {
    if |devs| == 0 then []
    else
      var rest := DrawDeviceIcons(devs[1..], x, y + IconSize + 2 * BoxPadding);
      assert forall i :: 0 <= i < |rest| ==> rest[i].y == y + (i + 1) * (IconSize + 2 * BoxPadding);
      [IconAt(x, y, devs[0].icon, if devs[0].on then Black else LightGray)] + rest
  }

  /** The devices column: its box in the panel, the size of its image, and the icons
      drawn into that image. */
  datatype Region = Region(box: Box, width: int, height: int, icons: seq<IconAt>)

  /** `get_devices_region(padding, full_height)`; a negative image height makes
      `Image.new` raise. */
  function GetDevicesRegion(devs: seq<Device>, padding: int, fullHeight: int): (r: Result<Region, string>)
    ensures r.Success? <==> fullHeight - 2 * padding >= 0
    ensures r.Success? ==>
      && r.value.box == Box(padding, padding, padding + 2 * IconSize, fullHeight - padding)
      && r.value.width == r.value.box.Width() && r.value.height == r.value.box.Height()
      && r.value.icons == DrawDeviceIcons(devs, 0, 0)
  {
    var width := IconSize * 2;
    var height := fullHeight - 2 * padding;
    if height < 0 then Failure("Width and height must be >= 0")
    else Success(Region(Box(padding, padding, padding + width, fullHeight - padding), width, height,
                        DrawDeviceIcons(devs, 0, 0)))
  }
}
