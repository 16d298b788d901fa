/**
 * The scheduling part of the event editor: the source being scheduled, the
 * conflicts a conflict check reports, and the capture-device name list that a
 * successful check writes into the capture agent's configuration.
 */
module Scheduling {
  import opened Optional

  /** HTTP status with which the conflict check reports conflicts. */
  const ConflictStatus: int := 409

  /** Leading characters dropped from a conflict's start and end before localisation. */
  const StartPrefixLength: nat := 6
  const EndPrefixLength: nat := 5

  /** Configuration key under which the enabled input methods are stored. */
  const DeviceNamesKey: string := "capture.device.names"

  datatype StartTime = StartTime(date: Option<string>)

  /** One input method of a capture device and whether it is selected. */
  datatype InputMethod = InputMethod(name: string, enabled: bool)

  /** A capture device; `inputMethods` is in the iteration order of the source object. */
  datatype Device = Device(id: Option<string>, inputMethods: seq<InputMethod>)

  /** One item of the body of a 409 response. */
  datatype ConflictItem = ConflictItem(title: string, start: string, end: string)

  datatype CheckResponse = CheckResponse(status: int, data: seq<ConflictItem>)

  /** Which callback the conflict-check resource calls. */
  datatype CheckOutcome = NoConflicts | CheckFailed(response: CheckResponse)

  /** A conflict as the editor lists it. */
  datatype ConflictRecord = ConflictRecord(title: string, start: string, end: string)

  /** The conflict-check eligibility test: a non-empty start date and a non-empty device id. */
  predicate Eligible(start: Option<StartTime>, device: Option<Device>) {
    && start.Some? && start.value.date.Some? && |start.value.date.value| > 0
    && device.Some? && device.value.id.Some? && |device.value.id.value| > 0
  }

  /** JavaScript `s.substr(from, s.length)`: the characters from `from` on, empty past the end. */
  function Substr(s: string, from: nat): (r: string)
    ensures |r| == if from <= |s| then |s| - from else 0
    ensures forall k :: 0 <= k < |r| ==> r[k] == s[from + k]
  {
    if from <= |s| then s[from..] else ""
  }

  /** A response item as a conflict record; `toLocalTime` is the localisation service. */
  function ToConflictRecord(item: ConflictItem, toLocalTime: string -> string): ConflictRecord {
    ConflictRecord(item.title, toLocalTime(Substr(item.start, StartPrefixLength)), toLocalTime(Substr(item.end, EndPrefixLength)))
  }

  /**
   * One record per response item, in order. The records keep the items'
   * titles; a start loses its first six characters and an end its first five
   * before localisation, and a value shorter than that is localised as the
   * empty string.
   */
  function ConflictRecords(items: seq<ConflictItem>, toLocalTime: string -> string): (rs: seq<ConflictRecord>)
    ensures |rs| == |items|
    ensures forall i :: 0 <= i < |items| ==>
      && rs[i].title == items[i].title
      && (|items[i].start| >= StartPrefixLength ==> rs[i].start == toLocalTime(items[i].start[StartPrefixLength..]))
      && (|items[i].start| < StartPrefixLength ==> rs[i].start == toLocalTime(""))
      && (|items[i].end| >= EndPrefixLength ==> rs[i].end == toLocalTime(items[i].end[EndPrefixLength..]))
      && (|items[i].end| < EndPrefixLength ==> rs[i].end == toLocalTime(""))
  {
    seq(|items|, i requires 0 <= i < |items| => ToConflictRecord(items[i], toLocalTime))
  }

  // ---------------------------------------------------------------------------
  // The capture-device name list
  // ---------------------------------------------------------------------------

  /**
   * The value the success callback of `saveScheduling` builds: start from the
   * empty string and, for each selected input method, add a comma when the
   * value is not empty and then the method's name.
   */
  function DeviceNames(methods: seq<InputMethod>): string
    decreases |methods|
  {
    if methods == [] then ""
    else
      var names := DeviceNames(methods[..|methods| - 1]);
      var m := methods[|methods| - 1];
      if !m.enabled then names
      else (if names != "" then names + "," else names) + m.name
  }

  /** The names of the selected input methods, in order. */
  function EnabledNames(methods: seq<InputMethod>): (names: seq<string>)
    decreases |methods|
    ensures |names| <= |methods|
    ensures forall n :: n in names <==> exists m :: m in methods && m.enabled && m.name == n
  {
    if methods == [] then []
    else
      var m := methods[|methods| - 1];
      EnabledNames(methods[..|methods| - 1]) + (if m.enabled then [m.name] else [])
  }

  /** Comma-separated concatenation. */
  function JoinWithCommas(parts: seq<string>): string
    decreases |parts|
  {
    if parts == [] then ""
    else if |parts| == 1 then parts[0]
    else JoinWithCommas(parts[..|parts| - 1]) + "," + parts[|parts| - 1]
  }

  lemma {:induction false} JoinOfNonEmptyParts(parts: seq<string>)
    requires forall k :: 0 <= k < |parts| ==> parts[k] != ""
    ensures JoinWithCommas(parts) == "" <==> parts == []
    ensures parts != [] ==> JoinWithCommas(parts)[0] == parts[0][0]
    ensures parts != [] ==>
      JoinWithCommas(parts)[|JoinWithCommas(parts)| - 1] == parts[|parts| - 1][|parts[|parts| - 1]| - 1]
    decreases |parts|
  {
    if |parts| > 1 {
      var init := parts[..|parts| - 1];
      JoinOfNonEmptyParts(init);
      assert init[0] == parts[0];
    }
  }

  /**
   * When no selected input method has an empty name, the device-name list is
   * the comma-join of the selected names: empty when none is selected, and
   * beginning and ending with a name rather than a comma.
   */
  lemma {:induction false} DeviceNamesJoinsEnabled(methods: seq<InputMethod>)
    requires forall i :: 0 <= i < |methods| && methods[i].enabled ==> methods[i].name != ""
    ensures DeviceNames(methods) == JoinWithCommas(EnabledNames(methods))
    ensures DeviceNames(methods) == "" <==> forall i :: 0 <= i < |methods| ==> !methods[i].enabled
    decreases |methods|
  {
    var names := EnabledNames(methods);
    forall k | 0 <= k < |names|
      ensures names[k] != ""
    {
      assert names[k] in names;
    }
    JoinOfNonEmptyParts(names);
    if methods != [] {
      var init, m := methods[..|methods| - 1], methods[|methods| - 1];
      DeviceNamesJoinsEnabled(init);
      var d := EnabledNames(init);
      if m.enabled {
        assert names == d + [m.name];
        assert (d + [m.name])[..|d|] == d;
        if d == [] {
          assert [m.name][0] == m.name;
        } else {
          forall k | 0 <= k < |d|
            ensures d[k] != ""
          {
            assert d[k] == names[k];
          }
          JoinOfNonEmptyParts(d);
        }
      } else {
        assert names == d;
      }
    }
    assert DeviceNames(methods) == JoinWithCommas(names);
    if forall i :: 0 <= i < |methods| ==> !methods[i].enabled {
      assert names == [];
    } else {
      var i :| 0 <= i < |methods| && methods[i].enabled;
      assert methods[i] in methods;
      assert methods[i].name in names;
    }
  }

  /**
   * A selected input method with an empty name adds nothing, and because the
   * list is still empty afterwards the next name is not preceded by a comma.
   */
  lemma EmptyNameAddsNoSeparator()
    ensures DeviceNames([InputMethod("", true), InputMethod("audio", true)]) == "audio"
    ensures JoinWithCommas(EnabledNames([InputMethod("", true), InputMethod("audio", true)])) == ",audio"
  {
    var ms := [InputMethod("", true), InputMethod("audio", true)];
    assert ms[..1] == [InputMethod("", true)];
    assert ms[..1][..0] == [];
    assert EnabledNames(ms) == ["", "audio"];
  }

  /**
   * The source being scheduled. The editor updates its fields in place: a
   * successful save sets `agentId` and the device-name list.
   */
  class SchedulingSource {
    var start: Option<StartTime>
    var device: Option<Device>
    var agentId: Option<string>
    var agentConfiguration: map<string, string>

    constructor (start: Option<StartTime>, device: Option<Device>, agentConfiguration: map<string, string>)
      ensures this.start == start && this.device == device && agentId == None
      ensures this.agentConfiguration == agentConfiguration
    {
      this.start := start;
      this.device := device;
      this.agentId := None;
      this.agentConfiguration := agentConfiguration;
    }

    /**
     * The success callback's update of the source: the agent is the device,
     * and the device-name list is rebuilt from the selected input methods.
     */
    method AssignCaptureAgent()
      requires device.Some?
      modifies this`agentId, this`agentConfiguration
      ensures agentId == device.value.id
      ensures agentConfiguration == old(agentConfiguration)[DeviceNamesKey := DeviceNames(device.value.inputMethods)]
    {
      agentId := device.value.id;
      agentConfiguration := agentConfiguration[DeviceNamesKey := ""];
      var methods := device.value.inputMethods;
      var i := 0;
      while i < |methods|
        invariant 0 <= i <= |methods|
        invariant agentId == device.value.id
        invariant agentConfiguration == old(agentConfiguration)[DeviceNamesKey := DeviceNames(methods[..i])]
      {
        assert methods[..i + 1][..i] == methods[..i];
        assert agentConfiguration[DeviceNamesKey] == DeviceNames(methods[..i]);
        if methods[i].enabled {
          if agentConfiguration[DeviceNamesKey] != "" {
            agentConfiguration := agentConfiguration[DeviceNamesKey := agentConfiguration[DeviceNamesKey] + ","];
          }
          agentConfiguration := agentConfiguration[DeviceNamesKey := agentConfiguration[DeviceNamesKey] + methods[i].name];
        }
        i := i + 1;
      }
      assert methods[..i] == methods;
    }
  }
}
