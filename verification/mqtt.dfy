/** Payload interpretation and device-state classification of `mqtt_debug.py`.
    The UTF-8 decode is left out (payloads are strings) and `json.loads` is a
    parameter that answers `None` for a decode error. */
module Mqtt {
  import opened Wrappers
  import opened Text

  /** What `_interpret_payload` returns: a bool, the stripped text, or a parsed JSON
      value (a list or an object, since only bracketed text is parsed). */
  datatype Payload<J> = PBool(b: bool) | PText(text: string) | PJson(value: J)

  const TrueWords: set<string> := {"on", "true", "1"}
  const FalseWords: set<string> := {"off", "false", "0"}

  /** Text that opens with `[` or `{` and closes with `]` or `}`. */
  predicate Bracketed(t: string) {
    |t| > 0 && t[0] in "[{" && t[|t| - 1] in "]}"
  }

  /** `_interpret_payload`. */
  function InterpretPayload<J>(raw: string, parse: string -> Option<J>): (r: Payload<J>)
    ensures Strip(raw) == "" ==> r == PText("")
    ensures r.PBool? <==> Lower(Strip(raw)) in TrueWords + FalseWords
    ensures r.PBool? ==> r.b == (Lower(Strip(raw)) in TrueWords)
    ensures r.PJson? <==> Lower(Strip(raw)) !in TrueWords + FalseWords && Bracketed(Strip(raw)) && parse(Strip(raw)).Some?
    ensures r.PJson? ==> parse(Strip(raw)) == Some(r.value)
    ensures r.PText? ==> r.text == Strip(raw)
  {
    var text := Strip(raw);
    if text == "" then PText("")
    else
      var lowered := Lower(text);
      if lowered in TrueWords + FalseWords then PBool(lowered in TrueWords)
      else if Bracketed(text) && parse(text).Some? then PJson(parse(text).value)
      else PText(text)
  }

  datatype DeviceState = On | Off | Unknown

  /** The state derivation of `on_message` (bool first, then the lower-cased text). */
  function StateOf<J>(p: Payload<J>): DeviceState {
    match p
    case PBool(b) => if b then On else Off
    case PText(t) => if Lower(t) in TrueWords then On else if Lower(t) in FalseWords then Off else Unknown
    case PJson(_) => Unknown
  }

  /** The device annotation `on_message` prints for a device topic. */
  datatype Annotation = Annotation(name: string, state: DeviceState)

  /** `on_message`, minus printing; `deviceByTopic` maps each device topic to its label. */
  function OnMessage<J>(topic: string, raw: string, deviceByTopic: map<string, string>, parse: string -> Option<J>): (r: Option<Annotation>)
    ensures r.None? <==> topic !in deviceByTopic
    ensures r.Some? ==> r.value.name == deviceByTopic[topic]
  {
    if topic in deviceByTopic then
      Some(Annotation(deviceByTopic[topic], StateOf(InterpretPayload(raw, parse))))
    else None
  }

  /** For a device topic the state is decided by the stripped, lower-cased payload alone:
      ON for on/true/1, OFF for off/false/0, unknown for anything else, JSON included. */
  lemma DeviceStateByWords<J>(topic: string, raw: string, deviceByTopic: map<string, string>, parse: string -> Option<J>)
    requires topic in deviceByTopic
    ensures var r := OnMessage(topic, raw, deviceByTopic, parse);
      && (r.value.state == On <==> Lower(Strip(raw)) in TrueWords)
      && (r.value.state == Off <==> Lower(Strip(raw)) in FalseWords)
      && (r.value.state == Unknown <==> Lower(Strip(raw)) !in TrueWords + FalseWords)
  {
    var p := InterpretPayload(raw, parse);
    if p.PText? {
      assert p.text == Strip(raw);
    }
  }

  /** The text branch of the state derivation never decides: a payload that is still
      text after interpretation is never an on/off word. */
  lemma TextPayloadIsUnknown<J>(raw: string, parse: string -> Option<J>)
    requires InterpretPayload(raw, parse).PText?
    ensures StateOf(InterpretPayload(raw, parse)) == Unknown
  {
  }

  /** Case does not matter, and a blank payload is empty text. */
  lemma CaseDoesNotMatter<J>(parse: string -> Option<J>)
    ensures InterpretPayload("ON", parse) == PBool(true)
    ensures InterpretPayload("False", parse) == PBool(false)
    ensures InterpretPayload(" \t", parse) == PText("")
  {
    StripTrimmed("ON");
    assert Lower("ON") == "on";
    StripTrimmed("False");
    assert Lower("False") == "false";
  }
}
