/** Port discovery of pygascard/util.py: the probe that decides from one
    settings-mode reply whether a port holds a Gascard, and the scan that
    keeps the ports that pass. */
module Util {
  import opened Wrappers
  import opened Text
  import opened Comm
  import opened Records
  import opened Device

  /** `X_labels`: the fields of a settings-mode reply. */
  const X_LABELS: seq<string> :=
    ["Mode", "Firmware Version", "Serial Number", "Config Register", "Frequency", "Time Constant", "Switches State"]

  /** The device kind a successful probe reports. */
  const GASCARD: string := "Gascard"

  /** `is_gascard_device` after its read: an empty reply is no device;
      otherwise the reply is zipped against the settings labels and a
      non-empty "Serial Number" field identifies a Gascard. */
  function ProbeVerdict(reply: string): Option<string> {
    if reply == "" then None
    else
      var info := Zip(X_LABELS, Tokens(reply));
      if "Serial Number" in info && info["Serial Number"] != "" then Some(GASCARD) else None
  }

  /** A reply identifies a Gascard exactly when it has at least three tokens
      once NULs are removed; the first token is not checked at all. */
  lemma ProbeVerdictIff(reply: string)
    ensures ProbeVerdict(reply).Some? <==> |Tokens(reply)| >= 3
    ensures ProbeVerdict(reply).Some? ==> ProbeVerdict(reply).value == GASCARD
  {
    var toks := Tokens(reply);
    if reply == "" {
      assert RemoveNul(reply) == "";
      assert toks == [];
    }
    if |toks| >= 3 {
      ZipAt(X_LABELS, toks, 2);
      assert IsToken(toks[2]);
    } else {
      var info := Zip(X_LABELS, toks);
      assert info.Keys == set j | 0 <= j < Min(|X_LABELS|, |toks|) :: X_LABELS[j];
      assert "Serial Number" !in info;
    }
  }

  /** What `is_gascard_device` returns or raises for a port and the input
      its line will deliver. */
  function ProbeSpec(port: string, input: seq<Event>): Result<Option<string>, Error> {
    if !("/dev/" <= port) then Failure(UnboundLocalError("device"))
    else
      var reply := ReadSpec(input).0;
      if reply.Failure? then Failure(reply.error) else Success(ProbeVerdict(reply.value))
  }

  /** `is_gascard_device`: opens the port, asks for the settings line and
      classifies the reply. The "X" request itself is never sent. */
  method IsGascardDevice(port: string, input: seq<Event>) returns (r: Result<Option<string>, Error>)
    ensures r == ProbeSpec(port, input)
  {
    if !("/dev/" <= port) {
      return Failure(UnboundLocalError("device"));
    }
    var device := new SerialDevice(port, input);
    var raw := device.WriteReadline("X");
    if raw.Failure? {
      return Failure(raw.error);
    }
    if raw.value == "" {
      return Success(None);
    }
    var info := Zip(X_LABELS, Tokens(raw.value));
    if "Serial Number" in info && info["Serial Number"] != "" {
      return Success(Some(GASCARD));
    }
    r := Success(None);
  }

  /** The scan over `ports`, with `world` giving the input of each port. */
  function Scan(ports: seq<string>, world: string -> seq<Event>): Result<map<string, string>, Error> {
    if ports == [] then Success(map[])
    else
      var prev := Scan(ports[..|ports| - 1], world);
      var port := ports[|ports| - 1];
      if prev.Failure? then prev
      else
        var probe := ProbeSpec(port, world(port));
        if probe.Failure? then Failure(probe.error)
        else if probe.value.Some? then Success(prev.value[port := probe.value.value])
        else prev
  }

  /** `find_devices` over a given port list: every probe that returns a
      device kind adds the port with that kind. */
  method FindDevices(ports: seq<string>, world: string -> seq<Event>) returns (r: Result<map<string, string>, Error>)
    ensures r == Scan(ports, world)
  {
    var devices: map<string, string> := map[];
    for i := 0 to |ports|
      invariant Scan(ports[..i], world) == Success(devices)
    {
      assert ports[..i + 1][..i] == ports[..i];
      var dev := IsGascardDevice(ports[i], world(ports[i]));
      if dev.Failure? {
        ScanStops(ports, world, i + 1);
        return Failure(dev.error);
      }
      if dev.value.Some? {
        devices := devices[ports[i] := dev.value.value];
      }
    }
    assert ports[..|ports|] == ports;
    r := Success(devices);
  }

  /** Once a probe raises, the scan has failed whatever follows. */
  lemma {:induction false} ScanStops(ports: seq<string>, world: string -> seq<Event>, i: nat)
    requires i <= |ports| && Scan(ports[..i], world).Failure?
    ensures Scan(ports, world) == Scan(ports[..i], world)
    decreases |ports|
  {
    if i < |ports| {
      var init := ports[..|ports| - 1];
      assert init[..i] == ports[..i];
      ScanStops(init, world, i);
    } else {
      assert ports[..i] == ports;
    }
  }

  /** A scan fails exactly when some probe raises. */
  lemma {:induction false} ScanSucceedsIff(ports: seq<string>, world: string -> seq<Event>)
    ensures Scan(ports, world).Success? <==> forall i | 0 <= i < |ports| :: ProbeSpec(ports[i], world(ports[i])).Success?
    decreases |ports|
  {
    if ports != [] {
      var init := ports[..|ports| - 1];
      ScanSucceedsIff(init, world);
      assert ports == init + [ports[|ports| - 1]];
    }
  }

  /** A completed scan holds exactly the probed ports whose reply has three
      or more tokens, each mapped to "Gascard". */
  lemma {:induction false} ScanKeys(ports: seq<string>, world: string -> seq<Event>)
    requires Scan(ports, world).Success?
    ensures forall p :: p in Scan(ports, world).value <==>
      p in ports && "/dev/" <= p && ReadSpec(world(p)).0.Success? && |Tokens(ReadSpec(world(p)).0.value)| >= 3
    ensures forall p | p in Scan(ports, world).value :: Scan(ports, world).value[p] == GASCARD
    decreases |ports|
  {
    if ports != [] {
      var init := ports[..|ports| - 1];
      var port := ports[|ports| - 1];
      ScanKeys(init, world);
      assert ports == init + [port];
      if "/dev/" <= port && ReadSpec(world(port)).0.Success? {
        ProbeVerdictIff(ReadSpec(world(port)).0.value);
      }
    }
  }

  /** A completed scan maps exactly the probed ports whose reply has three
      or more tokens to "Gascard"; the scan fails exactly when some probe
      raises. */
  lemma ScanExactly(ports: seq<string>, world: string -> seq<Event>)
    ensures Scan(ports, world).Success? <==> forall i | 0 <= i < |ports| :: ProbeSpec(ports[i], world(ports[i])).Success?
    ensures Scan(ports, world).Success? ==>
      && (forall p :: p in Scan(ports, world).value <==>
            p in ports && "/dev/" <= p && ReadSpec(world(p)).0.Success? && |Tokens(ReadSpec(world(p)).0.value)| >= 3)
      && (forall p | p in Scan(ports, world).value :: Scan(ports, world).value[p] == GASCARD)
  {
    ScanSucceedsIff(ports, world);
    if Scan(ports, world).Success? {
      ScanKeys(ports, world);
    }
  }
}
