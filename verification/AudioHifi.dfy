/**
 * The HiFi policy of the audio HAL (hardware/meizu/m86/audio/audio_primary_m86.cpp): the vendor's stream is to be in the
 * HiFi state only while the user allows it, the route asks for it and a wired output is active. A vendor call either
 * succeeds or has no effect; which is an input of every operation.
 */
module AudioHifi {
  import opened Bytes
  import opened AudioParameters

  const HIFI_STATE := "hifi_state"
  const SPEAKER: bv32 := 0x2
  const WIRED_HEADSET: bv32 := 0x4
  const WIRED_HEADPHONE: bv32 := 0x8
  const EINVAL := 22
  const ENODEV := 19
  const ENOMEM := 12

  /** `m86_is_wired_output`: headset or headphone. */
  predicate Wired(devices: bv32) {
    devices & (WIRED_HEADSET | WIRED_HEADPHONE) != 0
  }

  /** Either bit makes a device word wired, whatever else it has; without both it is not. */
  lemma WiredIs(devices: bv32)
    ensures Wired(devices | 0x4) && Wired(devices | 0x8)
    ensures Wired(devices) <==> devices & 0x4 != 0 || devices & 0x8 != 0
    ensures !Wired(SPEAKER) && WIRED_HEADSET == 0x4 && WIRED_HEADPHONE == 0x8
  {
  }

  /** What `snprintf("hifi_state=%s")` gives. */
  function StateText(on: bool): string {
    if on then "hifi_state=on" else "hifi_state=off"
  }

  function Digit(d: nat): char
    requires d < 10
  {
    "0123456789"[d]
  }

  function Decimal(n: nat): (s: string)
    ensures s != "" && forall i :: 0 <= i < |s| ==> '0' <= s[i] <= '9'
  {
    if n < 10 then [Digit(n)] else Decimal(n / 10) + [Digit(n % 10)]
  }

  /** The number that digits stand for. */
  function NumberOf(s: string): int {
    if s == "" then 0 else 10 * NumberOf(s[..|s| - 1]) + (s[|s| - 1] as int - '0' as int)
  }

  /** A number is printed as itself, without leading zeros. */
  lemma {:induction false} DecimalIs(n: nat)
    ensures NumberOf(Decimal(n)) == n && (n > 0 ==> Decimal(n)[0] != '0')
  {
    var s := Decimal(n);
    if n < 10 {
      assert s[..0] == "";
    } else {
      DecimalIs(n / 10);
      assert s[..|s| - 1] == Decimal(n / 10);
    }
  }

  function RoutingText(devices: bv32): string {
    "routing=" + Decimal(devices as int)
  }

  predicate NoNul(s: string) {
    forall i :: 0 <= i < |s| ==> s[i] != 0 as char
  }

  /** The HiFi state a string asks for. */
  function HifiOf(text: string): Option<string> {
    Lookup(Tokens(text), HIFI_STATE)
  }

  /** The last HiFi state among the strings a stream has accepted. */
  function LastHifi(accepted: seq<string>): Option<string> {
    if accepted == [] then None
    else
      var last := HifiOf(accepted[|accepted| - 1]);
      if last.Some? then last else LastHifi(accepted[..|accepted| - 1])
  }

  lemma LastHifiSnoc(accepted: seq<string>, text: string)
    ensures LastHifi(accepted + [text]) == if HifiOf(text).Some? then HifiOf(text) else LastHifi(accepted)
  {
    assert (accepted + [text])[..|accepted|] == accepted;
  }

  lemma TokensOfOne(t: string)
    requires IsToken(t)
    ensures Tokens(t) == [t]
  {
    assert t + "" == t;
    TokensOfToken(t, "");
  }

  lemma StateTextIs(on: bool)
    ensures IsToken(StateText(on)) && Matches(StateText(on), HIFI_STATE) && IsKey(HIFI_STATE) && NoNul(StateText(on))
    ensures StateText(on)[|HIFI_STATE| + 1..] == (if on then "on" else "off")
    ensures HifiOf(StateText(on)) == Some(if on then "on" else "off")
  {
    TokensOfOne(StateText(on));
  }

  lemma RoutingTextIs(devices: bv32)
    ensures HifiOf(RoutingText(devices)) == None
  {
    var number := Decimal(devices as int);
    RoutingIsToken(number);
    NoHifiIn("routing=" + number);
  }

  lemma NoHifiIn(t: string)
    requires t != "" && t[0] == 'r' && IsToken(t)
    ensures HifiOf(t) == None
  {
    hide IsToken, Tokens;
    TokensOfOne(t);
    StartsOtherwise(t, HIFI_STATE + "=");
    assert Lookup([t], HIFI_STATE) == Lookup([t][1..], HIFI_STATE);
    assert [t][1..] == [];
  }

  lemma StartsOtherwise(t: string, k: string)
    requires t != "" && k != "" && t[0] != k[0]
    ensures !(k <= t)
  {
  }

  lemma RoutingIsToken(number: string)
    requires forall i :: 0 <= i < |number| ==> '0' <= number[i] <= '9'
    ensures IsToken("routing=" + number)
  {
    var t := "routing=" + number;
    forall i | 0 <= i < |t| ensures !IsSeparator(t[i]) {
      if i >= 8 {
        assert t[i] == number[i - 8];
      } else {
        assert t[i] == "routing="[i];
      }
    }
  }

  /** The vendor's stream: the strings it accepted. */
  class Stream {
    var accepted: seq<string>

    constructor ()
      ensures accepted == []
    {
      accepted := [];
    }

    predicate On()
      reads this
    {
      LastHifi(accepted) == Some("on")
    }

    method SetParameters(text: string, ok: bool)
      modifies this
      ensures accepted == old(accepted) + if ok then [text] else []
      ensures HifiOf(text) == None ==> On() == old(On())
      ensures HifiOf(text).Some? ==> On() == if ok then HifiOf(text) == Some("on") else old(On())
    {
      if ok {
        LastHifiSnoc(accepted, text);
        accepted := accepted + [text];
      }
    }
  }

  // ---- The wrapper

  /** Characters of tokens come from their string. */
  lemma {:induction false} TokensNoNul(s: string)
    requires NoNul(s)
    ensures forall t :: t in Tokens(s) ==> NoNul(t)
    decreases |s|
  {
    if s == "" {
    } else if IsSkipped(s[0]) {
      TokensNoNul(s[1..]);
    } else {
      BreakIsPositive(s);
      TokensNoNul(s[Break(s)..]);
    }
  }

  lemma {:induction false} JoinedNoNul(tokens: seq<string>)
    requires forall t :: t in tokens ==> NoNul(t)
    ensures NoNul(Joined(tokens))
  {
    if tokens != [] {
      JoinedNoNul(tokens[..|tokens| - 1]);
      assert tokens[|tokens| - 1] in tokens;
    }
  }

  /** The C string in a buffer. */
  method CString(buffer: array<char>, ghost text: string) returns (s: string)
    requires NoNul(text) && |text| < buffer.Length && buffer[..|text| + 1] == text + [0 as char]
    ensures s == text
  {
    assert buffer[|text|] == (text + [0 as char])[|text|] && forall i :: 0 <= i < |text| ==> buffer[i] == (text + [0 as char])[i];
    var n := 0;
    while buffer[n] != 0 as char
      invariant n <= |text|
      decreases |text| - n
    {
      n := n + 1;
    }
    s := buffer[..n];
  }

  /** The string sent on when a HiFi state is asked for. */
  function Rewritten(kv: string, on: bool): string {
    Joined(Substitute(Tokens(kv), HIFI_STATE, StateText(on)))
  }

  /** It asks for the state allowed, and says the same about every other key. */
  lemma RewrittenIs(kv: string, on: bool, other: string)
    requires IsKey(other) && other != HIFI_STATE
    ensures HifiOf(Rewritten(kv, on)) == if HifiOf(kv).Some? then Some(if on then "on" else "off") else None
    ensures Lookup(Tokens(Rewritten(kv, on)), other) == Lookup(Tokens(kv), other)
  {
    hide Tokens, Joined, Substitute, Lookup;
    StateTextIs(on);
    RewrittenLookups(kv, HIFI_STATE, StateText(on), other);
  }

  /** `m86_replace_parameter` for the HiFi state, into a buffer of 512 bytes. */
  method Rewrite(kv: string, on: bool) returns (fits: bool, text: string)
    requires NoNul(kv) && HifiOf(kv).Some?
    ensures fits <==> |Rewritten(kv, on)| < 512
    ensures fits ==> text == Rewritten(kv, on)
  {
    hide Tokens, Joined, StateText;
    var buffer := new char[512];
    StateTextIs(on);
    fits := ReplaceParameter(kv, HIFI_STATE, StateText(on), buffer);
    text := "";
    if fits {
      TokensNoNul(kv);
      JoinedNoNul(Substitute(Tokens(kv), HIFI_STATE, StateText(on)));
      text := CString(buffer, Rewritten(kv, on));
    }
  }

  datatype Sink = Sink(isDevice: bool, devices: bv32)

  /** The devices of the sinks, or the speaker when they name none. */
  function SinkDevices(sinks: seq<Sink>): bv32 {
    if sinks == [] then 0
    else
      var s := sinks[|sinks| - 1];
      var front := SinkDevices(sinks[..|sinks| - 1]);
      if s.isDevice then front | s.devices else front
  }

  predicate HasBit(devices: bv32, bit: bv32) {
    devices & bit != 0
  }

  lemma MaskOfEither(a: bv32, b: bv32, bit: bv32)
    ensures (a | b) & bit == (a & bit) | (b & bit)
  {
  }

  lemma EitherIsZero(x: bv32, y: bv32)
    ensures x | y == 0 <==> x == 0 && y == 0
  {
  }

  lemma EitherBit(a: bv32, b: bv32, bit: bv32)
    ensures HasBit(a | b, bit) <==> HasBit(a, bit) || HasBit(b, bit)
    ensures !HasBit(0, bit)
  {
    MaskOfEither(a, b, bit);
    EitherIsZero(a & bit, b & bit);
  }

  /** A patch asks for a device exactly if one of its device sinks does. */
  lemma {:induction false} SinkDevicesIs(sinks: seq<Sink>, bit: bv32)
    ensures HasBit(SinkDevices(sinks), bit) <==> exists i :: 0 <= i < |sinks| && sinks[i].isDevice && HasBit(sinks[i].devices, bit)
  {
    hide HasBit;
    if sinks == [] {
      EitherBit(0, 0, bit);
    } else {
      var n := |sinks| - 1;
      SinkDevicesIs(sinks[..n], bit);
      EitherBit(SinkDevices(sinks[..n]), sinks[n].devices, bit);
      assert forall i :: 0 <= i < n ==> sinks[..n][i] == sinks[i];
    }
  }

  /** The loop over the sinks of a patch. */
  method AllSinks(sinks: seq<Sink>) returns (found: bool, target: bv32)
    ensures target == SinkDevices(sinks) && (found <==> exists i :: 0 <= i < |sinks| && sinks[i].isDevice)
  {
    target, found := 0, false;
    for i := 0 to |sinks|
      invariant target == SinkDevices(sinks[..i]) && (found <==> exists j :: 0 <= j < i && sinks[j].isDevice)
    {
      assert sinks[..i + 1][..i] == sinks[..i];
      if sinks[i].isDevice {
        found := true;
        target := target | sinks[i].devices;
      }
    }
    assert sinks[..|sinks|] == sinks;
  }

  class Device {
    var output: Stream?
    var devices: bv32
    var user: bool
    var route: bool
    var gain: int

    predicate Effective()
      reads this
    {
      user && route && Wired(devices)
    }

    /** Whether the last HiFi state the stream in use accepted is "on". */
    predicate On()
      reads this, output
    {
      output != null && output.On()
    }

    /** Without an output there is no route. */
    ghost predicate Valid()
      reads this
    {
      output == null ==> !route
    }

    predicate OnlyWired()
      reads this, output
    {
      On() ==> Wired(devices)
    }

    /** The device as a value, but for the gain. */
    function State(): Policy
      reads this, output
    {
      Policy(output != null, devices, user, route, On())
    }

    constructor (user: bool, gain: int)
      ensures Valid() && State() == Closed(user) && output == null
    {
      this.user, this.gain := user, gain;
      output, devices, route := null, 0, false;
    }

    /** `m86_apply_hifi_state`, which the vendor accepts or not. */
    method ApplyHifiState(ok: bool) returns (r: int)
      modifies output
      ensures output != null ==> On() == if ok then Effective() else old(On())
      ensures r == if output == null || ok then 0 else -1
    {
      if output == null {
        return 0;
      }
      StateTextIs(Effective());
      output.SetParameters(StateText(Effective()), ok);
      r := if ok then 0 else -1;
    }

    /** `out_set_device`. */
    method SetDevice(device: bv32, ok: bool, applied: bool) returns (r: int)
      requires Valid() && output != null
      modifies this`devices, output
      ensures Valid() && (!ok ==> devices == old(devices) && On() == old(On()))
      ensures ok ==> devices == device && On() == if applied then Effective() else old(On())
      ensures ok ==> (On() == Effective() <==> applied || old(On()) == Effective())
      ensures ok ==> (OnlyWired() <==> applied || !old(On()) || Wired(device))
    {
      if !ok {
        return -1;
      }
      devices := device;
      r := ApplyHifiState(applied);
      r := 0;
    }

    /** `out_set_parameters`; `parse` is the number in a string, as `strtoul` reads it. */
    method SetOutputParameters(kv: string, parse: string -> Option<bv32>, ok: bool, applied: bool) returns (r: int)
      requires Valid() && output != null && NoNul(kv)
      modifies this`devices, this`route, output
      ensures var hifi, routing := HifiOf(kv), RoutingOf(kv, parse);
        var wanted := hifi.Some? && hifi.value in {"on", "1"};
        var target := if routing.Some? then routing.value else old(devices);
        var fits := hifi.Some? ==> |Rewritten(kv, user && wanted && Wired(target))| < 512;
        && (!fits ==> r == -EINVAL)
        && (!fits || !ok ==> r != 0 && devices == old(devices) && route == old(route) && On() == old(On()))
        && (fits && ok ==> r == 0 && devices == target && (route == if hifi.Some? then wanted else old(route)))
        && (fits && ok && (hifi.Some? || (routing.Some? && applied)) ==> On() == Effective())
        && (fits && ok && !hifi.Some? && !(routing.Some? && applied) ==> On() == old(On()))
    {
      hide Tokens, Lookup, StateText, Rewritten, LastHifi;
      var hasRouting, routing := FindParameter(kv, "routing", 32);
      var requested: bv32 := 0;
      if hasRouting {
        var number := parse(routing);
        if number.Some? {
          requested := number.value;
        } else {
          hasRouting := false;
        }
      }
      var hasHifi, hifi := FindParameter(kv, HIFI_STATE, 32);
      var wanted := hasHifi && (hifi == "on" || hifi == "1");
      var forwarded := kv;
      if hasHifi {
        var effective := user && wanted && Wired(if hasRouting then requested else devices);
        var fits;
        fits, forwarded := Rewrite(kv, effective);
        if !fits {
          return -EINVAL;
        }
        RewrittenIs(kv, effective, "routing");
      }
      output.SetParameters(forwarded, ok);
      if !ok {
        return -1;
      }
      if hasHifi {
        route := wanted;
      }
      if hasRouting {
        devices := requested;
        r := ApplyHifiState(applied);
      }
      r := 0;
    }

    /** `m86_create_audio_patch`: a string with the route, then the policy. */
    method CreatePatch(sinks: seq<Sink>, ok: bool, applied: bool) returns (r: int)
      requires Valid()
      modifies this`devices, output
      ensures var target := if SinkDevices(sinks) == 0 then SPEAKER else SinkDevices(sinks);
        var routes := (exists i :: 0 <= i < |sinks| && sinks[i].isDevice) && output != null && ok;
        && Valid() && (!routes ==> devices == old(devices) && On() == old(On()))
        && (routes ==> r == 0 && devices == target && On() == if applied then Effective() else old(On()))
        && (routes ==> (On() == Effective() <==> applied || old(On()) == Effective()))
        && (routes ==> (OnlyWired() <==> applied || !old(On()) || Wired(target)))
      ensures sinks == [] ==> r == -EINVAL
    {
      hide SinkDevices, LastHifi;
      if sinks == [] {
        return -EINVAL;
      }
      var found, target := AllSinks(sinks);
      if !found {
        return 0;
      }
      if target == 0 {
        target := SPEAKER;
      }
      if output == null {
        return -ENODEV;
      }
      RoutingTextIs(target);
      output.SetParameters(RoutingText(target), ok);
      if !ok {
        return -1;
      }
      devices := target;
      r := ApplyHifiState(applied);
      r := 0;
    }

    /** `m86_open_output`, with no other output open. */
    method OpenOutput(device: bv32, ok: bool, canAllocate: bool, applied: bool) returns (r: int)
      requires Valid() && output == null
      modifies this`output, this`devices
      ensures Valid() && On() == Effective() && (r == 0 <==> ok && canAllocate)
      ensures if r == 0 then output != null && fresh(output) && devices == device else output == null && devices == old(devices)
    {
      if !ok {
        return -1;
      }
      var stream := new Stream();
      if !canAllocate {
        return -ENOMEM;
      }
      output, devices := stream, device;
      r := ApplyHifiState(applied);
      r := 0;
    }

    /** `m86_close_output` of the output in use. */
    method CloseOutput()
      requires Valid()
      modifies this`output, this`devices, this`route
      ensures Valid() && output == null && devices == 0 && !route && !On()
    {
      output, devices, route := null, 0, false;
    }

    /** `m86_set_parameters`: the policy is only remembered; a string without it goes to the vendor's device, not the stream. */
    method SetPolicy(kv: string, parseLong: string -> Option<int>, vendorResult: int) returns (r: int)
      requires Valid()
      modifies this`user, this`gain
      ensures Valid() && On() == old(On())
      ensures var enabled := Lookup(Tokens(kv), "m86_hifi_enabled");
        user == if enabled.Some? then enabled.value in {"on", "1"} else old(user)
      ensures var level := Lookup(Tokens(kv), "hifi_gain");
        gain == if level.Some? && parseLong(Cut(level.value)).Some? then Clamped(parseLong(Cut(level.value)).value) else old(gain)
      ensures var enabled, level := Lookup(Tokens(kv), "m86_hifi_enabled"), Lookup(Tokens(kv), "hifi_gain");
        r == if enabled.None? && level.None? then vendorResult
             else if level.Some? && parseLong(Cut(level.value)).None? then -EINVAL else 0
    {
      hide Tokens, Lookup;
      var hasEnabled, state := FindParameter(kv, "m86_hifi_enabled", 32);
      var hasGain, level := FindParameter(kv, "hifi_gain", 32);
      if !hasEnabled && !hasGain {
        return vendorResult;
      }
      if hasEnabled {
        user := state == "on" || state == "1";
      }
      if hasGain {
        var requested := parseLong(level);
        if requested.None? {
          return -EINVAL;
        }
        gain := Clamped(requested.value);
      }
      r := 0;
    }
  }

  function Clamped(gain: int): int {
    if gain < 0 then 0 else if gain > 3 then 3 else gain
  }

  /** The number of the four levels that is nearest. */
  lemma ClampedIs(gain: int, level: int)
    requires 0 <= level <= 3
    ensures 0 <= Clamped(gain) <= 3
    ensures (if gain < Clamped(gain) then Clamped(gain) - gain else gain - Clamped(gain))
      <= if gain < level then level - gain else gain - level
  {
  }

  /** The devices a string asks to be routed to. */
  function RoutingOf(kv: string, parse: string -> Option<bv32>): Option<bv32> {
    var routing := Lookup(Tokens(kv), "routing");
    if routing.None? then None else parse(Cut(routing.value))
  }

  /** What a buffer of 32 bytes holds of a value. */
  function Cut(value: string): string {
    if |value| < 32 then value else value[..31]
  }

  // ---- Whole runs

  /** `applied` is whether the vendor accepts the state that follows the operation itself. */
  datatype Op =
    | SetDeviceOp(device: bv32, ok: bool, applied: bool)
    | SetParametersOp(kv: string, ok: bool, applied: bool)
    | CreatePatchOp(sinks: seq<Sink>, ok: bool, applied: bool)
    | OpenOp(device: bv32, ok: bool, canAllocate: bool, applied: bool)
    | CloseOp
    | SetPolicyOp(kv: string)

  /** A device as far as the policy matters, on values. */
  datatype Policy = Policy(open: bool, devices: bv32, user: bool, route: bool, on: bool)
  {
    predicate Effective() { user && route && Wired(devices) }

    /** The stream takes the state that policy, route and devices call for. */
    function Agreeing(): Policy { this.(on := open && Effective()) }
  }

  predicate IsWanted(hifi: Option<string>) {
    hifi.Some? && hifi.value in {"on", "1"}
  }

  predicate HasDevice(sinks: seq<Sink>) {
    exists i :: 0 <= i < |sinks| && sinks[i].isDevice
  }

  /** Whether a string is forwarded at all: with the HiFi state rewritten, it fits the buffer. */
  predicate Forwarded(p: Policy, kv: string, target: bv32) {
    HifiOf(kv).Some? ==> |Rewritten(kv, p.user && IsWanted(HifiOf(kv)) && Wired(target))| < 512
  }

  function Target(p: Policy, kv: string, parse: string -> Option<bv32>): bv32 {
    var routing := RoutingOf(kv, parse);
    if routing.Some? then routing.value else p.devices
  }

  /** A successful change of route, device, output or HiFi state. */
  predicate Moves(p: Policy, op: Op, parse: string -> Option<bv32>) {
    match op
    case SetDeviceOp(_, ok, _) => p.open && ok
    case SetParametersOp(kv, ok, _) =>
      p.open && ok && Forwarded(p, kv, Target(p, kv, parse)) && (HifiOf(kv).Some? || RoutingOf(kv, parse).Some?)
    case CreatePatchOp(sinks, ok, _) => p.open && ok && HasDevice(sinks)
    case OpenOp(_, ok, canAllocate, _) => !p.open && ok && canAllocate
    case CloseOp => p.open
    case SetPolicyOp(_) => false
  }

  /** One whose state reaches the stream: in the string itself, or applied after it. A new or closed stream is off anyway. */
  predicate Settles(p: Policy, op: Op, parse: string -> Option<bv32>) {
    && Moves(p, op, parse)
    && match op
       case SetDeviceOp(_, _, applied) => applied
       case SetParametersOp(kv, _, applied) => applied || HifiOf(kv).Some?
       case CreatePatchOp(_, _, applied) => applied
       case _ => true
  }

  /** One whose state the vendor refuses. */
  predicate Refused(p: Policy, op: Op, parse: string -> Option<bv32>) {
    Moves(p, op, parse) && !Settles(p, op, parse)
  }

  /** The route and devices after an operation that moves. */
  function Moved(p: Policy, op: Op, parse: string -> Option<bv32>): Policy
    requires !op.SetPolicyOp?
  {
    match op
    case SetDeviceOp(device, _, _) => p.(devices := device)
    case SetParametersOp(kv, _, _) =>
      p.(devices := Target(p, kv, parse), route := if HifiOf(kv).Some? then IsWanted(HifiOf(kv)) else p.route)
    case CreatePatchOp(sinks, _, _) => p.(devices := if SinkDevices(sinks) == 0 then SPEAKER else SinkDevices(sinks))
    case OpenOp(device, _, _, _) => p.(open := true, devices := device)
    case CloseOp => Closed(p.user)
  }

  /** What an operation does. */
  function After(p: Policy, op: Op, parse: string -> Option<bv32>): Policy {
    if op.SetPolicyOp? then
      var enabled := Lookup(Tokens(op.kv), "m86_hifi_enabled");
      p.(user := if enabled.Some? then enabled.value in {"on", "1"} else p.user)
    else if !Moves(p, op, parse) then p
    else if Settles(p, op, parse) then Moved(p, op, parse).Agreeing()
    else Moved(p, op, parse)
  }

  function AfterAll(p: Policy, ops: seq<Op>, parse: string -> Option<bv32>): Policy {
    if ops == [] then p else After(AfterAll(p, ops[..|ops| - 1], parse), ops[|ops| - 1], parse)
  }

  /** The state right after the last settling operation. */
  function Settled(p: Policy, ops: seq<Op>, parse: string -> Option<bv32>): Policy {
    if ops == [] then p
    else
      var before, op := ops[..|ops| - 1], ops[|ops| - 1];
      if Settles(AfterAll(p, before, parse), op, parse) then AfterAll(p, ops, parse) else Settled(p, before, parse)
  }

  function Closed(user: bool): Policy { Policy(false, 0, user, false, false) }

  /** The stream is on exactly as it was called for when the state was last settled: no refusal and no later switch matters. */
  lemma {:induction false} OnIsSettled(user: bool, ops: seq<Op>, parse: string -> Option<bv32>)
    ensures var p, q := AfterAll(Closed(user), ops, parse), Settled(Closed(user), ops, parse);
      && (p.on <==> q.Effective()) && (p.route || p.on ==> p.open)
    decreases |ops|
  {
    hide Tokens, Lookup, Rewritten, LastHifi, SinkDevices, Target, Forwarded, Wired, HasDevice;
    if ops != [] {
      OnIsSettled(user, ops[..|ops| - 1], parse);
    }
  }

  /** The stream is on over an output that is not wired exactly if the last settled state was on and the output is not wired now. */
  lemma {:induction false} OnlyWiredIff(user: bool, ops: seq<Op>, parse: string -> Option<bv32>)
    ensures var p, q := AfterAll(Closed(user), ops, parse), Settled(Closed(user), ops, parse);
      && ((p.on ==> Wired(p.devices)) <==> !q.Effective() || Wired(p.devices))
      && ((p.on <==> p.Effective()) <==> (q.Effective() <==> p.Effective()))
  {
    hide *;
    OnIsSettled(user, ops, parse);
  }

  /** Since the `k`-th operation nothing that moved was refused. */
  predicate NoneRefused(p: Policy, ops: seq<Op>, k: nat, parse: string -> Option<bv32>) {
    forall j :: k <= j < |ops| ==> !Refused(AfterAll(p, ops[..j], parse), ops[j], parse)
  }

  /** Without refusals route and output are those of the settled state. */
  lemma {:induction false} SettledStays(p: Policy, ops: seq<Op>, k: nat, parse: string -> Option<bv32>)
    requires k <= |ops| && NoneRefused(p, ops, k, parse)
    requires k == 0 || Settles(AfterAll(p, ops[..k - 1], parse), ops[k - 1], parse)
    ensures var q, s := AfterAll(p, ops, parse), Settled(p, ops, parse);
      && s.route == q.route && s.devices == q.devices
      && ((forall j :: k <= j < |ops| ==> !ops[j].SetPolicyOp?) ==> s.user == q.user)
    decreases |ops|
  {
    hide Moves, Settles, Moved;
    if |ops| > k {
      var n := |ops| - 1;
      assert NoneRefused(p, ops[..n], k, parse) by {
        forall j | k <= j < n ensures !Refused(AfterAll(p, ops[..n][..j], parse), ops[..n][j], parse) {
          assert ops[..n][..j] == ops[..j];
        }
      }
      assert k > 0 ==> ops[..n][..k - 1] == ops[..k - 1];
      SettledStays(p, ops[..n], k, parse);
      assert !Refused(AfterAll(p, ops[..n], parse), ops[n], parse);
    } else if k > 0 {
      assert ops[..k - 1] == ops[..|ops| - 1];
    }
  }

  /**
   * Without refusals the stream is on only over a wired output, and as the policy wants exactly if the switch is as it was
   * at the last settling operation, or no HiFi route leads to a wired device.
   */
  lemma {:induction false} AgreesIff(user: bool, ops: seq<Op>, parse: string -> Option<bv32>)
    requires NoneRefused(Closed(user), ops, 0, parse)
    ensures var p := AfterAll(Closed(user), ops, parse);
      && (p.on ==> Wired(p.devices))
      && ((p.on <==> p.Effective()) <==> (Settled(Closed(user), ops, parse).user == p.user || !p.route || !Wired(p.devices)))
  {
    hide AfterAll, Settled, NoneRefused, Settles, Wired;
    OnIsSettled(user, ops, parse);
    SettledStays(Closed(user), ops, 0, parse);
  }

  /** After a settling operation the stream agrees with the policy until the policy is set again or a state is refused. */
  lemma {:induction false} AgreesSinceSettling(user: bool, ops: seq<Op>, k: nat, parse: string -> Option<bv32>)
    requires k < |ops| && Settles(AfterAll(Closed(user), ops[..k], parse), ops[k], parse)
    requires NoneRefused(Closed(user), ops, k + 1, parse) && forall j :: k < j < |ops| ==> !ops[j].SetPolicyOp?
    ensures var p := AfterAll(Closed(user), ops, parse); p.on <==> p.Effective()
  {
    hide AfterAll, Settled, NoneRefused, Settles, Wired;
    OnIsSettled(user, ops, parse);
    SettledStays(Closed(user), ops, k + 1, parse);
  }

  /** Right after a settling operation the stream is on exactly with switch, route and one of the two wired devices. */
  lemma SettledIsOn(user: bool, ops: seq<Op>, parse: string -> Option<bv32>)
    requires var n := |ops| - 1; n >= 0 && Settles(AfterAll(Closed(user), ops[..n], parse), ops[n], parse)
    ensures var p := AfterAll(Closed(user), ops, parse);
      p.on <==> p.user && p.route && (p.devices & 0x4 != 0 || p.devices & 0x8 != 0)
  {
    hide After, Settles;
    OnIsSettled(user, ops, parse);
    WiredIs(AfterAll(Closed(user), ops, parse).devices);
  }

  /** A headset is unplugged while the stream is on and the vendor refuses the new state: on, over a speaker. */
  lemma RefusedOverSpeaker(p: Policy, parse: string -> Option<bv32>)
    requires p.open && p.on
    ensures Refused(p, SetDeviceOp(SPEAKER, true, false), parse)
    ensures var q := After(p, SetDeviceOp(SPEAKER, true, false), parse); q.on && !Wired(q.devices)
  {
  }

  /** A parameter string, if there is an output to take it. */
  method PerformParameters(w: Device, kv: string, ok: bool, applied: bool, parse: string -> Option<bv32>)
    requires w.Valid() && NoNul(kv)
    modifies w, w.output
    ensures w.Valid() && w.output == old(w.output)
    ensures w.State() == After(old(w.State()), SetParametersOp(kv, ok, applied), parse)
  {
    hide Tokens, Lookup, Rewritten, LastHifi, SinkDevices, Wired, NoNul, StateText;
    if w.output != null {
      var r := w.SetOutputParameters(kv, parse, ok, applied);
    }
  }

  /** One operation, if it can be made. */
  method Perform(w: Device, op: Op, parse: string -> Option<bv32>, parseLong: string -> Option<int>)
    requires w.Valid() && (op.SetParametersOp? ==> NoNul(op.kv))
    modifies w, w.output
    ensures w.Valid() && (w.output == old(w.output) || w.output == null || fresh(w.output))
    ensures w.State() == After(old(w.State()), op, parse)
  {
    hide Tokens, Lookup, Rewritten, LastHifi, SinkDevices, Wired, NoNul, RoutingOf, HifiOf;
    match op
    case SetDeviceOp(device, ok, applied) =>
      if w.output != null {
        var r := w.SetDevice(device, ok, applied);
      }
    case SetParametersOp(kv, ok, applied) =>
      PerformParameters(w, kv, ok, applied, parse);
    case CreatePatchOp(sinks, ok, applied) =>
      var r := w.CreatePatch(sinks, ok, applied);
    case OpenOp(device, ok, canAllocate, applied) =>
      if w.output == null {
        var r := w.OpenOutput(device, ok, canAllocate, applied);
      }
    case CloseOp =>
      if w.output != null {
        w.CloseOutput();
      }
    case SetPolicyOp(kv) =>
      var r := w.SetPolicy(kv, parseLong, 0);
  }

  /**
   * Any run: it leaves the device as the values say, on exactly as called for when the state was last settled, and on only
   * over a wired output exactly if that was off or the output is wired; always, if the vendor refuses no state.
   */
  method RunOps(user: bool, ops: seq<Op>, parse: string -> Option<bv32>, parseLong: string -> Option<int>) returns (w: Device)
    requires forall i :: 0 <= i < |ops| && ops[i].SetParametersOp? ==> NoNul(ops[i].kv)
    ensures w.Valid() && w.State() == AfterAll(Closed(user), ops, parse)
    ensures w.On() <==> Settled(Closed(user), ops, parse).Effective()
    ensures w.OnlyWired() <==> !Settled(Closed(user), ops, parse).Effective() || Wired(w.devices)
    ensures NoneRefused(Closed(user), ops, 0, parse) ==> w.OnlyWired()
    ensures ops != [] && Settles(AfterAll(Closed(user), ops[..|ops| - 1], parse), ops[|ops| - 1], parse) ==>
      (w.On() <==> w.user && w.route && (w.devices & 0x4 != 0 || w.devices & 0x8 != 0))
  {
    hide After, Settled, Wired, NoneRefused;
    w := new Device(user, 0);
    for i := 0 to |ops|
      invariant fresh(w) && (w.output == null || fresh(w.output)) && w.Valid()
      invariant w.State() == AfterAll(Closed(user), ops[..i], parse)
    {
      assert ops[..i + 1][..i] == ops[..i];
      Perform(w, ops[i], parse, parseLong);
    }
    assert ops[..|ops|] == ops;
    OnIsSettled(user, ops, parse);
    if NoneRefused(Closed(user), ops, 0, parse) {
      AgreesIff(user, ops, parse);
    }
    if ops != [] && Settles(AfterAll(Closed(user), ops[..|ops| - 1], parse), ops[|ops| - 1], parse) {
      SettledIsOn(user, ops, parse);
    }
  }
}
