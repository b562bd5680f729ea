/**
  One pass of the sketch's `loop`: the access-point screen, station
  reconnection, the READY window after the station connects, the FAILED
  indicator and the throttled MQTT reconnect. The pass is a function of the
  globals it reads and of what the radio, the MQTT client and the clock
  report during it; the display commands it issues are listed in order.
 */
module Supervisor {
  import opened Platform

  const READY_WINDOW: nat := 5000
  const MQTT_RECONNECT_INTERVAL: nat := 5000
  const AP_REDRAW_INTERVAL: nat := 2000

  const AP_TEXT: string := "AP:192.168.4.1"
  const READY_TEXT: string := "READY"
  const FAILED_TEXT: string := "FAILED"
  const WIFI_FAILED_TEXT: string := "WiFi FAILED"
  const CONFIG_TEXT: string := "CONFIG"

  /** The Wi-Fi mode the sketch has put the radio in: none yet, access point only, or access point plus station. */
  datatype WifiMode = Off | AccessPoint | AccessPointAndStation

  /** One command to the LED panel driver. */
  datatype Draw =
    | ClearPanel
    | Print(text: string)           // display.print
    | ShowFixed(text: string)       // display.displayText, centred
    | Scroll(buffer: seq<byte>, speed: int)

  /** The globals one pass of `loop` reads and writes. */
  datatype Flags = Flags(
    mode: WifiMode,
    readyShown: bool,
    messageLooping: bool,
    wifiConnectedTime: u32,
    lastMqttAttempt: u32,
    lastApRedraw: u32)

  /**
    What the radio, the MQTT client, the panel and `millis()` report during
    one pass. `stationUpAfter` is the station status once any reconnect
    attempt of this pass is over (it is what the READY section and
    `connectMQTT` see); without a reconnect it is a later reading of the
    same status.
   */
  datatype Inputs = Inputs(
    stationUp: bool,
    stationUpAfter: bool,
    brokerUp: bool,
    clockAtStart: u32,
    clockAtReady: u32,
    clockAtBroker: u32)

  /** The effect of one pass. */
  datatype Outcome = Outcome(
    flags: Flags,
    draws: seq<Draw>,
    stationReconnect: bool,   // connectWiFi was called
    brokerAttempt: bool,      // connectMQTT was called (the throttle let it through)
    brokerConnect: bool)      // and it went on to mqtt.connect (the station was up)

  /** The access-point-only branch: redraw the address every 2 s and end the pass. */
  predicate AccessPointOnly(f: Flags, io: Inputs)
  {
    f.mode == AccessPoint && !io.stationUp
  }

  /** The READY section: start the window on the first connected pass, show READY inside it, clear once after it. */
  function ReadySection(f: Flags, io: Inputs): (r: (Flags, seq<Draw>))
    // only the connection time and the READY flag can change
    ensures r.0 == f.(wifiConnectedTime := r.0.wifiConnectedTime, readyShown := r.0.readyShown)
    // nothing happens unless the station is up and the READY phase is not over
    ensures !(io.stationUpAfter && !f.readyShown) ==> r == (f, [])
    // the window starts at the first connected pass and is kept afterwards
    ensures io.stationUpAfter && !f.readyShown ==>
      && r.0.wifiConnectedTime == (if f.wifiConnectedTime == 0 then io.clockAtReady else f.wifiConnectedTime)
      && (r.0.readyShown <==> Sub32(io.clockAtReady, r.0.wifiConnectedTime) >= READY_WINDOW)
      && r.1 == if r.0.readyShown then [ClearPanel] else [ClearPanel, Print(READY_TEXT)]
  {
    if io.stationUpAfter && !f.readyShown then
      var since := if f.wifiConnectedTime == 0 then io.clockAtReady else f.wifiConnectedTime;
      if Sub32(io.clockAtReady, since) < READY_WINDOW then
        (f.(wifiConnectedTime := since), [ClearPanel, Print(READY_TEXT)])
      else
        (f.(wifiConnectedTime := since, readyShown := true), [ClearPanel])
    else
      (f, [])
  }

  /**
    One pass of `loop` up to the MQTT service call: what follows it
    (`mqtt.loop()` delivering messages, then `loopMessage` while a message
    is looping) depends on the rest of the device and is done by
    `Firmware.Device.Loop`. The web-server and mDNS service calls and the
    final `delay(10)` are not modelled.
   */
  function Step(f: Flags, io: Inputs): (o: Outcome)
    // the access-point-only branch touches nothing but its redraw timer
    ensures AccessPointOnly(f, io) ==> o.flags == f.(lastApRedraw := o.flags.lastApRedraw)
  {
    if AccessPointOnly(f, io) then
      if Sub32(io.clockAtStart, f.lastApRedraw) > AP_REDRAW_INTERVAL then
        Outcome(f.(lastApRedraw := io.clockAtStart), [ClearPanel, Print(AP_TEXT)], false, false, false)
      else
        Outcome(f, [], false, false, false)
    else
      var reconnect := !io.stationUp;
      var f1 := if reconnect then f.(mode := AccessPointAndStation, readyShown := false, messageLooping := false) else f;
      var d1 := if reconnect && !io.stationUpAfter then [ShowFixed(WIFI_FAILED_TEXT)] else [];
      var (f2, d2) := ReadySection(f1, io);
      var d3 := if !io.brokerUp && f2.readyShown && !f2.messageLooping then [ClearPanel, Print(FAILED_TEXT)] else [];
      var attempt := !io.brokerUp && Sub32(io.clockAtBroker, f2.lastMqttAttempt) > MQTT_RECONNECT_INTERVAL;
      var f3 := if attempt then f2.(lastMqttAttempt := io.clockAtBroker) else f2;
      Outcome(f3, d1 + d2 + d3, reconnect, attempt, attempt && io.stationUpAfter)
  }

  /**
    The access-point-only branch redraws the address, and moves its timer,
    only after more than 2 s; it neither rejoins nor tries the broker.
   */
  lemma AccessPointBranch(f: Flags, io: Inputs)
    requires AccessPointOnly(f, io)
    ensures var o := Step(f, io);
      && !o.stationReconnect && !o.brokerAttempt && !o.brokerConnect
      && (o.draws != [] <==> Sub32(io.clockAtStart, f.lastApRedraw) > AP_REDRAW_INTERVAL)
      && if Sub32(io.clockAtStart, f.lastApRedraw) > AP_REDRAW_INTERVAL
         then o.flags.lastApRedraw == io.clockAtStart && o.draws == [ClearPanel, Print(AP_TEXT)]
         else o.flags.lastApRedraw == f.lastApRedraw && o.draws == []
  {
  }

  /**
    Outside that branch a lost station is rejoined: the mode becomes access
    point plus station and looping stops, but the connection time is kept.
    The READY phase is over either because it already was on a connected
    station or because the 5 s window has elapsed.
   */
  lemma RejoinBranch(f: Flags, io: Inputs)
    requires !AccessPointOnly(f, io)
    ensures var o := Step(f, io);
      && (o.stationReconnect <==> !io.stationUp)
      && o.flags.lastApRedraw == f.lastApRedraw
      && o.flags.mode == (if io.stationUp then f.mode else AccessPointAndStation)
      && o.flags.messageLooping == (io.stationUp && f.messageLooping)
      && o.flags.wifiConnectedTime ==
           (if io.stationUpAfter && !o.stationReconnect && f.readyShown then f.wifiConnectedTime
            else if io.stationUpAfter && f.wifiConnectedTime == 0 then io.clockAtReady
            else f.wifiConnectedTime)
      && o.flags.readyShown ==
           (if io.stationUp && f.readyShown then true
            else io.stationUpAfter && Sub32(io.clockAtReady, o.flags.wifiConnectedTime) >= READY_WINDOW)
  {
  }

  /**
    The broker is tried exactly when it is down outside the access-point-only
    branch and more than 5 s of the clock have passed since the last try; the
    timer moves only then, and `mqtt.connect` follows only on an up station.
   */
  lemma BrokerThrottle(f: Flags, io: Inputs)
    ensures var o := Step(f, io);
      && (o.brokerAttempt <==>
            !AccessPointOnly(f, io) && !io.brokerUp && Sub32(io.clockAtBroker, f.lastMqttAttempt) > MQTT_RECONNECT_INTERVAL)
      && o.flags.lastMqttAttempt == (if o.brokerAttempt then io.clockAtBroker else f.lastMqttAttempt)
      && (o.brokerConnect <==> o.brokerAttempt && io.stationUpAfter)
  {
  }

  /**
    Outside the access-point-only branch the panel gets, in this order and
    nothing else: "WiFi FAILED" after a failed rejoin, the READY section's
    commands, then FAILED.
   */
  lemma StepDrawOrder(f: Flags, io: Inputs)
    requires !AccessPointOnly(f, io)
    ensures var o := Step(f, io);
      var rejoined := if io.stationUp then f else f.(mode := AccessPointAndStation, readyShown := false, messageLooping := false);
      o.draws == (if !io.stationUp && !io.stationUpAfter then [ShowFixed(WIFI_FAILED_TEXT)] else [])
               + ReadySection(rejoined, io).1
               + (if !io.brokerUp && o.flags.readyShown && !o.flags.messageLooping then [ClearPanel, Print(FAILED_TEXT)] else [])
  {
  }

  /**
    "WiFi FAILED" is shown exactly when the rejoin fails; READY exactly on
    connected passes while the READY phase is not over; FAILED exactly when
    the broker is down after the READY phase and nothing is looping.
   */
  lemma StepPanelMessages(f: Flags, io: Inputs)
    ensures var o := Step(f, io);
      && (ShowFixed(WIFI_FAILED_TEXT) in o.draws <==> !AccessPointOnly(f, io) && !io.stationUp && !io.stationUpAfter)
      && (Print(FAILED_TEXT) in o.draws <==>
            !AccessPointOnly(f, io) && !io.brokerUp && o.flags.readyShown && !o.flags.messageLooping)
      && (Print(READY_TEXT) in o.draws <==> !AccessPointOnly(f, io) && io.stationUpAfter && !o.flags.readyShown)
      && (Print(READY_TEXT) in o.draws ==>
            io.stationUpAfter && Sub32(io.clockAtReady, o.flags.wifiConnectedTime) < READY_WINDOW)
  {
    if !AccessPointOnly(f, io) {
      var o := Step(f, io);
      var rejoined := if io.stationUp then f else f.(mode := AccessPointAndStation, readyShown := false, messageLooping := false);
      var d1 := if !io.stationUp && !io.stationUpAfter then [ShowFixed(WIFI_FAILED_TEXT)] else [];
      var d2 := ReadySection(rejoined, io).1;
      var d3 := if !io.brokerUp && o.flags.readyShown && !o.flags.messageLooping then [ClearPanel, Print(FAILED_TEXT)] else [];
      StepDrawOrder(f, io);
      assert o.draws == d1 + d2 + d3;
      assert Print(FAILED_TEXT) !in d1 + d2;
      assert Print(READY_TEXT) !in d1 + d3;
      assert ShowFixed(WIFI_FAILED_TEXT) !in d2 + d3;
    }
  }

  /**
    On a reconnect the connection time is kept, so once 5 s have passed since
    the first connection the READY phase ends at once: READY is not shown again.
   */
  lemma ReconnectSkipsReady(f: Flags, io: Inputs)
    requires f.mode == AccessPointAndStation && !io.stationUp && io.stationUpAfter
    requires f.wifiConnectedTime != 0 && Sub32(io.clockAtReady, f.wifiConnectedTime) >= READY_WINDOW
    ensures Print(READY_TEXT) !in Step(f, io).draws
    ensures Step(f, io).flags.readyShown
  {
  }

  // ---------------------------------------------------------------------
  // Runs of the loop
  // ---------------------------------------------------------------------

  /** `fs` are the flags before and after each pass driven by `ios`. */
  ghost predicate IsRun(fs: seq<Flags>, ios: seq<Inputs>)
  {
    |fs| == |ios| + 1 && forall k :: 0 <= k < |ios| ==> fs[k + 1] == Step(fs[k], ios[k]).flags
  }

  /** The clock readings of the MQTT section follow real times `ts`, which never go backwards. */
  ghost predicate BrokerClockFollows(ios: seq<Inputs>, ts: seq<nat>)
  {
    && |ts| == |ios|
    && (forall k :: 0 <= k < |ios| ==> ios[k].clockAtBroker == Clock(ts[k]))
    && (forall k, l :: 0 <= k <= l < |ts| ==> ts[k] <= ts[l])
  }

  /** Between two broker attempts the reconnect timer holds the clock of the first. */
  lemma {:induction false} TimerHoldsLastAttempt(fs: seq<Flags>, ios: seq<Inputs>, k: nat, j: nat)
    requires IsRun(fs, ios)
    requires k < j <= |ios|
    requires Step(fs[k], ios[k]).brokerAttempt
    requires forall m :: k < m < j ==> !Step(fs[m], ios[m]).brokerAttempt
    ensures fs[j].lastMqttAttempt == ios[k].clockAtBroker
  {
    if j > k + 1 {
      TimerHoldsLastAttempt(fs, ios, k, j - 1);
      assert fs[j] == Step(fs[j - 1], ios[j - 1]).flags;
    } else {
      assert fs[k + 1] == Step(fs[k], ios[k]).flags;
    }
  }

  /** The latest broker attempt before pass `j`, given one at pass `i`. */
  lemma LatestAttempt(fs: seq<Flags>, ios: seq<Inputs>, i: nat, j: nat) returns (k: nat)
    requires IsRun(fs, ios)
    requires i < j < |ios|
    requires Step(fs[i], ios[i]).brokerAttempt
    ensures i <= k < j && Step(fs[k], ios[k]).brokerAttempt
    ensures forall m :: k < m < j ==> !Step(fs[m], ios[m]).brokerAttempt
  {
    k := j - 1;
    while !Step(fs[k], ios[k]).brokerAttempt
      invariant i <= k < j
      invariant forall m :: k < m < j ==> !Step(fs[m], ios[m]).brokerAttempt
      decreases k
    {
      k := k - 1;
    }
  }

  /**
    However often `loop` runs, two broker connection attempts are more than
    5 s of real time apart, the 32-bit wrap of `millis()` included.
   */
  lemma BrokerAttemptsSpaced(fs: seq<Flags>, ios: seq<Inputs>, ts: seq<nat>, i: nat, j: nat)
    requires IsRun(fs, ios) && BrokerClockFollows(ios, ts)
    requires i < j < |ios|
    requires Step(fs[i], ios[i]).brokerAttempt && Step(fs[j], ios[j]).brokerAttempt
    ensures ts[j] - ts[i] > MQTT_RECONNECT_INTERVAL
  {
    var k := LatestAttempt(fs, ios, i, j);
    TimerHoldsLastAttempt(fs, ios, k, j);
    assert Sub32(Clock(ts[j]), Clock(ts[k])) > MQTT_RECONNECT_INTERVAL;
    if ts[j] < ts[k] + 0x1_0000_0000 {
      ElapsedFromClock(ts[k], ts[j]);
    }
    assert ts[i] <= ts[k];
  }

  /**
    A device left in access-point-only mode (no valid configuration at boot)
    stays there: no station reconnect, no broker attempt, no READY or FAILED,
    and its flags keep their values apart from the redraw timer.
   */
  lemma {:induction false} AccessPointModeIsFinal(fs: seq<Flags>, ios: seq<Inputs>, k: nat)
    requires IsRun(fs, ios)
    requires fs[0].mode == AccessPoint
    requires forall m :: 0 <= m < |ios| ==> !ios[m].stationUp
    requires k <= |ios|
    ensures fs[k] == fs[0].(lastApRedraw := fs[k].lastApRedraw)
    ensures k < |ios| ==> !Step(fs[k], ios[k]).brokerAttempt && !Step(fs[k], ios[k]).stationReconnect
    ensures k < |ios| ==> Print(READY_TEXT) !in Step(fs[k], ios[k]).draws && Print(FAILED_TEXT) !in Step(fs[k], ios[k]).draws
  {
    if k > 0 {
      AccessPointModeIsFinal(fs, ios, k - 1);
      assert fs[k] == Step(fs[k - 1], ios[k - 1]).flags;
    }
    if k < |ios| {
      var o := Step(fs[k], ios[k]);
      assert o.draws == [] || o.draws == [ClearPanel, Print(AP_TEXT)];
    }
  }

  /** All three clock readings of every pass follow real times `ts`, which never go backwards. */
  ghost predicate ClockFollows(ios: seq<Inputs>, ts: seq<nat>)
  {
    && |ts| == |ios|
    && (forall k :: 0 <= k < |ios| ==> ios[k].clockAtReady == Clock(ts[k]) && ios[k].clockAtBroker == Clock(ts[k]))
    && (forall k, l :: 0 <= k <= l < |ts| ==> ts[k] <= ts[l])
  }

  /**
    After the first station connection at real time `ts[0]` (a non-zero
    clock reading), with the station up on every pass, READY is drawn on
    exactly the passes less than 5 s later; the READY phase is over from the
    first pass at 5 s or more on.
   */
  lemma {:induction false} ReadyWindowLasts5s(fs: seq<Flags>, ios: seq<Inputs>, ts: seq<nat>, k: nat)
    requires IsRun(fs, ios) && ClockFollows(ios, ts)
    requires fs[0].mode == AccessPointAndStation && !fs[0].readyShown && fs[0].wifiConnectedTime == 0
    requires forall m :: 0 <= m < |ios| ==> ios[m].stationUp && ios[m].stationUpAfter
    requires |ios| > 0 && Clock(ts[0]) != 0 && ts[|ts| - 1] < ts[0] + 0x1_0000_0000
    requires k < |ios|
    ensures fs[k + 1].wifiConnectedTime == Clock(ts[0])
    ensures fs[k + 1].readyShown <==> ts[k] - ts[0] >= READY_WINDOW
    ensures Print(READY_TEXT) in Step(fs[k], ios[k]).draws <==> ts[k] - ts[0] < READY_WINDOW
  {
    assert ts[0] <= ts[k] <= ts[|ts| - 1];
    ElapsedFromClock(ts[0], ts[k]);
    assert fs[k + 1] == Step(fs[k], ios[k]).flags;
    if k > 0 {
      ReadyWindowLasts5s(fs, ios, ts, k - 1);
      assert ts[k - 1] <= ts[k];
    }
  }
}
