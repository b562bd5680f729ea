/**
  The sketch's global state and the functions that change it: the
  emulated EEPROM as a 512-byte array, the loaded configuration, the
  display settings, the message being scrolled, the supervisor flags of
  `loop`, and a log of the commands sent to the LED panel.

  Each method states its new state through the pure definitions of the
  other modules (`Storage` for what lands in the EEPROM, `DisplayText`
  for the scroll buffer, `Commands` for what an MQTT message or an HTTP
  request asks for, `Supervisor` for one pass of `loop`); the properties of
  those definitions are proved there.
 */
module Firmware {
  import opened Platform
  import opened Storage
  import opened DisplayText
  import opened Commands
  import opened Supervisor

  /** The brightness `setupDisplay` gives the panel, and the compiled-in default of `brightness`. */
  const MAX_INTENSITY: int := 3
  const DEFAULT_SCROLL_SPEED: int := 100

  const HTTP_OK: int := 200
  const HTTP_BAD_REQUEST: int := 400

  /** One message `mqtt.loop()` hands to the callback. */
  datatype MqttMessage = MqttMessage(topic: string, payload: seq<byte>)

  /** The part of the device an MQTT message can change, as a value. */
  datatype DisplayState = DisplayState(
    eeprom: seq<byte>,
    currentMessage: seq<byte>,
    scrollText: seq<byte>,
    messageLooping: bool,
    brightness: int,
    intensity: Option<int>,
    scrollSpeed: int,
    drawn: seq<Draw>)

  /** What `updateDisplay` does to that state. */
  function Displayed(s: DisplayState, message: seq<byte>): (r: DisplayState)
    requires |s.eeprom| == EEPROM_SIZE
    ensures |r.eeprom| == EEPROM_SIZE
    ensures r.currentMessage == message && (r.messageLooping <==> message != [])
    ensures r.brightness == s.brightness && r.intensity == s.intensity && r.scrollSpeed == s.scrollSpeed
    ensures s.drawn <= r.drawn
  {
    if message == [] then
      s.(currentMessage := [], scrollText := [], messageLooping := false, drawn := s.drawn + [ClearPanel])
    else
      s.(eeprom := WriteAt(s.eeprom, MESSAGE_START, MessageRecord(message)),
         currentMessage := message, scrollText := ScrollBuffer(message), messageLooping := true,
         drawn := s.drawn + [ClearPanel, Scroll(ScrollBuffer(message), s.scrollSpeed)])
  }

  /** The effect of one command decoded by `mqttCallback`. */
  function Effect(s: DisplayState, command: Command): (r: DisplayState)
    requires |s.eeprom| == EEPROM_SIZE
    ensures |r.eeprom| == EEPROM_SIZE
    ensures s.drawn <= r.drawn
    ensures !command.SetBrightness? ==> r.brightness == s.brightness && r.intensity == s.intensity
    ensures !command.SetScrollSpeed? ==> r.scrollSpeed == s.scrollSpeed
    ensures !command.ShowText? && !command.Clear? ==>
      r.currentMessage == s.currentMessage && r.scrollText == s.scrollText && r.messageLooping == s.messageLooping
  {
    match command
    case ShowText(text) => Displayed(s, text)
    case Clear => Displayed(s, [])
    case SetBrightness(level) =>
      s.(brightness := level, intensity := Some(level),
         eeprom := WriteAt(s.eeprom, BRIGHTNESS_ADDR, [BrightnessByte(level)]))
    case SetScrollSpeed(speed) =>
      s.(scrollSpeed := speed, eeprom := WriteAt(s.eeprom, SCROLL_SPEED_ADDR, SpeedBytes(speed)))
    case Ignored => s
  }

  /** `mqtt.loop()`: the callback's effect for each delivered message, in order. */
  function Replay(s: DisplayState, delivered: seq<MqttMessage>): (r: DisplayState)
    requires |s.eeprom| == EEPROM_SIZE
    ensures |r.eeprom| == EEPROM_SIZE
    ensures s.drawn <= r.drawn
    decreases |delivered|
  {
    if delivered == [] then s
    else
      var last := delivered[|delivered| - 1];
      Effect(Replay(s, delivered[..|delivered| - 1]), Route(last.topic, last.payload))
  }

  /**
    The rest of a `loop` pass once the station is up: the delivered
    messages in order, then one animation step of a looping message.
   */
  function Served(s: DisplayState, delivered: seq<MqttMessage>, animationDone: bool): (r: DisplayState)
    requires |s.eeprom| == EEPROM_SIZE
    ensures r.(drawn := []) == Replay(s, delivered).(drawn := [])
    ensures var d := Replay(s, delivered).drawn;
      r.drawn == d || (animationDone && r.messageLooping && r.drawn == d + [Scroll(r.scrollText, r.scrollSpeed)])
  {
    var d := Replay(s, delivered);
    d.(drawn := d.drawn + if d.messageLooping && d.scrollText != [] && animationDone then [Scroll(d.scrollText, d.scrollSpeed)] else [])
  }

  /** A message on the message topic shows its payload text, or clears the panel when it is empty. */
  lemma EffectOfMessage(s: DisplayState, payload: seq<byte>)
    requires |s.eeprom| == EEPROM_SIZE
    ensures var text := PayloadText(payload);
      && Effect(s, Route(TOPIC_MESSAGE, payload)).currentMessage == text
      && Effect(s, Route(TOPIC_MESSAGE, payload)).messageLooping == (text != [])
      && Effect(s, Route(TOPIC_MESSAGE, payload)).scrollText == (if text == [] then [] else ScrollBuffer(text))
  {
    RouteOfMessage(payload);
  }

  /**
    One step of the fold: the last message acts on the state the others left.
    This is `Replay`'s own definition, given as a lemma so that the inductive
    proofs below can take the step without unfolding `Replay` further.
   */
  lemma ReplayLast(s: DisplayState, delivered: seq<MqttMessage>)
    requires |s.eeprom| == EEPROM_SIZE && delivered != []
    ensures var last := delivered[|delivered| - 1];
      Replay(s, delivered) == Effect(Replay(s, delivered[..|delivered| - 1]), Route(last.topic, last.payload))
  {
  }

  /**
    The last message of a pass sets brightness and intensity when it is an
    in-range brightness command, and leaves those the others left otherwise.
    A narrow form of `ReplayLast` for the inductive proof below.
   */
  lemma BrightnessStep(s: DisplayState, delivered: seq<MqttMessage>)
    requires |s.eeprom| == EEPROM_SIZE && delivered != []
    ensures var last := delivered[|delivered| - 1];
      var command := Route(last.topic, last.payload);
      var before := Replay(s, delivered[..|delivered| - 1]);
      && Replay(s, delivered).brightness == (if command.SetBrightness? then command.level else before.brightness)
      && Replay(s, delivered).intensity == (if command.SetBrightness? then Some(command.level) else before.intensity)
  {
    var last := delivered[|delivered| - 1];
    ReplayLast(s, delivered);
    EffectOnBrightness(Replay(s, delivered[..|delivered| - 1]), Route(last.topic, last.payload));
  }

  /** A brightness command sets brightness and intensity; any other command leaves both. */
  lemma EffectOnBrightness(s: DisplayState, command: Command)
    requires |s.eeprom| == EEPROM_SIZE
    ensures Effect(s, command).brightness == (if command.SetBrightness? then command.level else s.brightness)
    ensures Effect(s, command).intensity == (if command.SetBrightness? then Some(command.level) else s.intensity)
  {
  }

  /**
    Of the messages `mqtt.loop()` delivers in one pass, the last in-range
    brightness wins: it is the brightness and the panel intensity afterwards.
   */
  lemma {:induction false} LastBrightnessWins(s: DisplayState, delivered: seq<MqttMessage>, k: nat)
    requires |s.eeprom| == EEPROM_SIZE
    requires k < |delivered| && Route(delivered[k].topic, delivered[k].payload).SetBrightness?
    requires forall m :: k < m < |delivered| ==> !Route(delivered[m].topic, delivered[m].payload).SetBrightness?
    ensures Replay(s, delivered).brightness == Route(delivered[k].topic, delivered[k].payload).level
    ensures Replay(s, delivered).intensity == Some(Replay(s, delivered).brightness)
  {
    var n := |delivered| - 1;
    BrightnessStep(s, delivered);
    if k < n {
      assert !Route(delivered[n].topic, delivered[n].payload).SetBrightness?;
      var front := delivered[..n];
      assert forall m :: k <= m < |front| ==> front[m] == delivered[m];
      LastBrightnessWins(s, front, k);
    } else {
      assert delivered[n] == delivered[k];
    }
  }

  /** Without an in-range brightness among the messages, brightness and intensity stay. */
  lemma {:induction false} BrightnessKeptWithoutCommand(s: DisplayState, delivered: seq<MqttMessage>)
    requires |s.eeprom| == EEPROM_SIZE
    requires forall m :: 0 <= m < |delivered| ==> !Route(delivered[m].topic, delivered[m].payload).SetBrightness?
    ensures Replay(s, delivered).brightness == s.brightness && Replay(s, delivered).intensity == s.intensity
  {
    if delivered != [] {
      var front := delivered[..|delivered| - 1];
      assert forall m :: 0 <= m < |front| ==> front[m] == delivered[m];
      BrightnessKeptWithoutCommand(s, front);
    }
  }

  /** Messages on the other topics leave the shown text, its scroll buffer and the loop flag alone. */
  lemma {:induction false} TextKeptByOtherTopics(s: DisplayState, delivered: seq<MqttMessage>, k: nat)
    requires |s.eeprom| == EEPROM_SIZE
    requires k <= |delivered|
    requires forall m :: k <= m < |delivered| ==> delivered[m].topic != TOPIC_MESSAGE
    ensures var before := Replay(s, delivered[..k]);
      && Replay(s, delivered).currentMessage == before.currentMessage
      && Replay(s, delivered).scrollText == before.scrollText
      && Replay(s, delivered).messageLooping == before.messageLooping
    decreases |delivered|
  {
    var n := |delivered| - 1;
    if k <= n {
      var front := delivered[..n];
      assert forall m :: k <= m < |front| ==> front[m] == delivered[m];
      assert front[..k] == delivered[..k];
      TextKeptByOtherTopics(s, front, k);
      ReplayLast(s, delivered);
      RouteOffMessageTopic(delivered[n].topic, delivered[n].payload);
    } else {
      assert delivered[..k] == delivered;
    }
  }

  /**
    The last message on the message topic decides what is shown: a text is
    the current message, scrolled and looping; an empty one leaves the
    panel cleared and nothing looping.
   */
  lemma LastTextWins(s: DisplayState, delivered: seq<MqttMessage>, k: nat)
    requires |s.eeprom| == EEPROM_SIZE
    requires k < |delivered| && delivered[k].topic == TOPIC_MESSAGE
    requires forall m :: k < m < |delivered| ==> delivered[m].topic != TOPIC_MESSAGE
    ensures var text := PayloadText(delivered[k].payload);
      && Replay(s, delivered).currentMessage == text
      && Replay(s, delivered).messageLooping == (text != [])
      && Replay(s, delivered).scrollText == (if text == [] then [] else ScrollBuffer(text))
  {
    var upTo := delivered[..k + 1];
    assert upTo[..k] == delivered[..k];
    EffectOfMessage(Replay(s, delivered[..k]), delivered[k].payload);
    TextKeptByOtherTopics(s, delivered, k + 1);
  }


  /**
    The HTTP setters are idempotent: repeating a request with the same `value`
    sets the same brightness or speed and leaves the EEPROM as the first
    request left it.
   */
  lemma HttpSettersIdempotent(mem: seq<byte>, value: seq<byte>)
    requires |mem| == EEPROM_SIZE
    ensures var b := ClampBrightness(ToInt(value));
      && ClampBrightness(b) == b
      && WriteAt(WriteAt(mem, BRIGHTNESS_ADDR, [b]), BRIGHTNESS_ADDR, [b]) == WriteAt(mem, BRIGHTNESS_ADDR, [b])
    ensures var v := ClampScrollSpeed(ToInt(value));
      && ClampScrollSpeed(v) == v
      && WriteAt(WriteAt(mem, SCROLL_SPEED_ADDR, SpeedBytes(v)), SCROLL_SPEED_ADDR, SpeedBytes(v))
         == WriteAt(mem, SCROLL_SPEED_ADDR, SpeedBytes(v))
  {
    var b := ClampBrightness(ToInt(value));
    var v := ClampScrollSpeed(ToInt(value));
    WriteAtTwice(mem, BRIGHTNESS_ADDR, [b]);
    WriteAtTwice(mem, SCROLL_SPEED_ADDR, SpeedBytes(v));
  }

  class Device {
    /** The RAM copy of the emulated EEPROM that `EEPROM.begin` reads and `EEPROM.commit` writes back. */
    var eeprom: array<byte>
    var config: Config
    var configValid: bool
    var currentMessage: seq<byte>
    var scrollText: seq<byte>
    var brightness: int
    var scrollSpeed: int
    /** The last value given to the panel's `setIntensity`, if any. */
    var intensity: Option<int>
    var wifiMode: WifiMode
    var readyShown: bool
    var messageLooping: bool
    var wifiConnectedTime: u32
    var lastMqttAttempt: u32
    /** The function-local `static last_update` of the access-point branch of `loop`. */
    var lastApRedraw: u32
    /** Every command sent to the panel so far, oldest first. */
    var drawn: seq<Draw>

    /**
      The EEPROM has its size, the configuration its field sizes, the
      settings their ranges; the scroll buffer is empty or a padded text,
      and never empty while a message is looping.
     */
    predicate Valid()
      reads this
    {
      && eeprom.Length == EEPROM_SIZE
      && WellFormed(config)
      && BRIGHTNESS_MIN <= brightness <= BRIGHTNESS_MAX
      && SPEED_MIN <= scrollSpeed <= SPEED_MAX
      && (scrollText == [] || 2 * |PADDING| <= |scrollText| <= 2 * |PADDING| + MAX_TEXT)
      && (messageLooping ==> scrollText != [])
    }

    /** The globals one pass of `loop` reads and writes. */
    function LoopFlags(): Flags
      reads this
    {
      Flags(wifiMode, readyShown, messageLooping, wifiConnectedTime, lastMqttAttempt, lastApRedraw)
    }

    /** The part of the device an MQTT message can change. */
    function State(): DisplayState
      reads this, eeprom
    {
      DisplayState(eeprom[..], currentMessage, scrollText, messageLooping, brightness, intensity, scrollSpeed, drawn)
    }

    /** Power-on: the globals take their initial values and `EEPROM.begin` copies the flash image. */
    constructor (image: seq<byte>)
      requires |image| == EEPROM_SIZE
      ensures Valid() && fresh(eeprom) && eeprom[..] == image
      ensures config == ZeroConfig && !configValid
      ensures currentMessage == [] && scrollText == []
      ensures brightness == MAX_INTENSITY && scrollSpeed == DEFAULT_SCROLL_SPEED && intensity == None
      ensures LoopFlags() == Flags(Off, false, false, 0, 0, 0)
      ensures drawn == []
    {
      eeprom := new byte[EEPROM_SIZE](i => if 0 <= i < |image| then image[i] else 0);
      config := ZeroConfig;
      configValid := false;
      currentMessage := [];
      scrollText := [];
      brightness := MAX_INTENSITY;
      scrollSpeed := DEFAULT_SCROLL_SPEED;
      intensity := None;
      wifiMode := Off;
      readyShown := false;
      messageLooping := false;
      wifiConnectedTime := 0;
      lastMqttAttempt := 0;
      lastApRedraw := 0;
      drawn := [];
    }

    // -------------------------------------------------------------------
    // EEPROM access
    // -------------------------------------------------------------------

    /** `EEPROM.put` / a run of `EEPROM.write`: the bytes of `data` go to `addr` on, one by one. */
    method Put(addr: nat, data: seq<byte>)
      requires eeprom.Length == EEPROM_SIZE && addr + |data| <= EEPROM_SIZE
      modifies eeprom
      ensures eeprom[..] == WriteAt(old(eeprom[..]), addr, data)
    {
      var i := 0;
      while i < |data|
        invariant 0 <= i <= |data|
        invariant eeprom[..] == WriteAt(old(eeprom[..]), addr, data[..i])
      {
        eeprom[addr + i] := data[i];
        assert data[..i + 1] == data[..i] + [data[i]];
        i := i + 1;
      }
      assert data[..i] == data;
    }

    /** A run of `EEPROM.read`: `n` bytes from `addr` on, one by one. */
    method Get(addr: nat, n: nat) returns (data: seq<byte>)
      requires eeprom.Length == EEPROM_SIZE && addr + n <= EEPROM_SIZE
      ensures data == eeprom[..][addr..addr + n]
    {
      data := [];
      var i := 0;
      while i < n
        invariant 0 <= i <= n
        invariant data == eeprom[addr..addr + i]
      {
        data := data + [eeprom[addr + i]];
        i := i + 1;
      }
    }

    /** `loadConfig`. */
    method LoadConfig()
      requires Valid()
      modifies this`config, this`configValid
      ensures Valid()
      ensures (config, configValid) == Storage.LoadConfig(eeprom[..])
    {
      var record := Get(CONFIG_START, CONFIG_BYTES);
      var c := DecodeConfig(record);
      configValid := c.ssid[0] != 0 && c.ssid[0] != 255 && c.mqttHost[0] != 0 && c.mqttHost[0] != 255;
      if configValid {
        c := c.(ssid := c.ssid[31 := 0], password := c.password[63 := 0],
                mqttHost := c.mqttHost[31 := 0], clientId := c.clientId[31 := 0]);
      }
      config := c;
    }

    /** `saveConfig`: all of `sizeof(Config)` is written from address 0, and the configuration counts as valid. */
    method SaveConfig()
      requires Valid()
      modifies eeprom, this`configValid
      ensures Valid()
      ensures eeprom[..] == WriteAt(old(eeprom[..]), CONFIG_START, EncodeConfig(config))
      ensures configValid
    {
      Put(CONFIG_START, EncodeConfig(config));
      configValid := true;
    }

    /** `resetConfig`: the configuration is zeroed in memory and in the EEPROM. */
    method ResetConfig()
      requires Valid()
      modifies eeprom, this`config, this`configValid
      ensures Valid()
      ensures config == ZeroConfig && !configValid
      ensures eeprom[..] == WriteAt(old(eeprom[..]), CONFIG_START, EncodeConfig(ZeroConfig))
    {
      config := ZeroConfig;
      Put(CONFIG_START, EncodeConfig(config));
      configValid := false;
    }

    /** `saveLastMessage`: the 128-byte record at 256. */
    method SaveLastMessage(message: seq<byte>)
      requires eeprom.Length == EEPROM_SIZE
      modifies eeprom
      ensures eeprom[..] == WriteAt(old(eeprom[..]), MESSAGE_START, MessageRecord(message))
    {
      var buffer := MessageRecord(message);
      Put(MESSAGE_START, buffer);
    }

    /** `loadLastMessage`: a record that starts with NUL or 0xFF leaves the current message as it was. */
    method LoadLastMessage()
      requires Valid()
      modifies this`currentMessage
      ensures Valid()
      ensures currentMessage == StoredMessage(eeprom[..]).GetOr(old(currentMessage))
    {
      var buffer := Get(MESSAGE_START, MESSAGE_SIZE);
      if buffer[0] != 0 && buffer[0] != 255 {
        currentMessage := CString(buffer);
      }
    }

    /** `loadBrightness`: a stored 0..15 becomes the brightness and is sent to the panel. */
    method LoadBrightness()
      requires Valid()
      modifies this`brightness, this`intensity
      ensures Valid()
      ensures brightness == StoredBrightness(eeprom[..]).GetOr(old(brightness))
      ensures intensity == if StoredBrightness(eeprom[..]).Some? then Some(brightness) else old(intensity)
    {
      var stored := eeprom[BRIGHTNESS_ADDR];
      if stored != 255 && 0 <= stored <= 15 {
        brightness := stored;
        intensity := Some(brightness);
      }
    }

    /** `saveBrightness`: one byte at 384. */
    method SaveBrightness()
      requires Valid()
      modifies eeprom
      ensures Valid()
      ensures eeprom[..] == WriteAt(old(eeprom[..]), BRIGHTNESS_ADDR, [brightness])
    {
      eeprom[BRIGHTNESS_ADDR] := BrightnessByte(brightness);
    }

    /** `loadScrollSpeed`: a stored 50..500 becomes the scroll speed. */
    method LoadScrollSpeed()
      requires Valid()
      modifies this`scrollSpeed
      ensures Valid()
      ensures scrollSpeed == StoredScrollSpeed(eeprom[..]).GetOr(old(scrollSpeed))
    {
      var high := eeprom[SCROLL_SPEED_ADDR];
      var low := eeprom[SCROLL_SPEED_ADDR + 1];
      var stored := high as int * 0x100 + low as int;
      if stored != 0xFFFF && 50 <= stored <= 500 {
        scrollSpeed := stored;
      }
    }

    /** `saveScrollSpeed`: the high byte at 385, the low byte at 386. */
    method SaveScrollSpeed()
      requires Valid()
      modifies eeprom
      ensures Valid()
      ensures eeprom[..] == WriteAt(old(eeprom[..]), SCROLL_SPEED_ADDR, SpeedBytes(scrollSpeed))
    {
      eeprom[SCROLL_SPEED_ADDR] := scrollSpeed / 0x100 % 0x100;
      eeprom[SCROLL_SPEED_ADDR + 1] := scrollSpeed % 0x100;
    }

    // -------------------------------------------------------------------
    // Display
    // -------------------------------------------------------------------

    /**
      `updateDisplay`: an empty message clears the panel and stops looping;
      any other is saved to the EEPROM, turned into the padded scroll buffer
      and scrolled at the current speed, looping from then on.
     */
    method UpdateDisplay(message: seq<byte>)
      requires Valid()
      modifies eeprom, this`currentMessage, this`scrollText, this`messageLooping, this`drawn
      ensures Valid()
      ensures State() == Displayed(old(State()), message)
      ensures currentMessage == message
      ensures message == [] ==>
        && eeprom[..] == old(eeprom[..]) && scrollText == [] && !messageLooping
        && drawn == old(drawn) + [ClearPanel]
      ensures message != [] ==>
        && eeprom[..] == WriteAt(old(eeprom[..]), MESSAGE_START, MessageRecord(message))
        && scrollText == ScrollBuffer(message) && messageLooping
        && drawn == old(drawn) + [ClearPanel, Scroll(scrollText, scrollSpeed)]
    {
      currentMessage := message;
      if |message| == 0 {
        drawn := drawn + [ClearPanel];
        messageLooping := false;
        scrollText := [];
        return;
      }
      SaveLastMessage(message);
      var text := CleanText(ToUpper(message));
      if |text| > MAX_TEXT {
        text := text[..MAX_TEXT];
      }
      scrollText := PADDING + text + PADDING;
      drawn := drawn + [ClearPanel, Scroll(scrollText, scrollSpeed)];
      messageLooping := true;
    }

    /** `loopMessage`: once a scroll has finished, the same buffer is scrolled again at the current speed. */
    method LoopMessage(animationDone: bool)
      modifies this`drawn
      ensures drawn == old(drawn) +
        if messageLooping && scrollText != [] && animationDone then [Scroll(scrollText, scrollSpeed)] else []
    {
      if messageLooping && |scrollText| > 0 {
        if animationDone {
          drawn := drawn + [Scroll(scrollText, scrollSpeed)];
        }
      }
    }

    // -------------------------------------------------------------------
    // Inbound commands
    // -------------------------------------------------------------------

    /** The dispatch at the end of `mqttCallback`: carry out one decoded command. */
    method Perform(command: Command)
      requires Valid()
      requires command.ShowText? ==> command.text != []
      requires command.SetBrightness? ==> BRIGHTNESS_MIN <= command.level <= BRIGHTNESS_MAX
      requires command.SetScrollSpeed? ==> SPEED_MIN <= command.speed <= SPEED_MAX
      modifies eeprom, this`currentMessage, this`scrollText, this`messageLooping, this`drawn
      modifies this`brightness, this`intensity, this`scrollSpeed
      ensures Valid()
      ensures State() == Effect(old(State()), command)
      ensures old(drawn) <= drawn
      ensures command.ShowText? ==>
        && currentMessage == command.text && scrollText == ScrollBuffer(command.text) && messageLooping
        && eeprom[..] == WriteAt(old(eeprom[..]), MESSAGE_START, MessageRecord(command.text))
        && drawn == old(drawn) + [ClearPanel, Scroll(scrollText, scrollSpeed)]
      ensures command.Clear? ==>
        && currentMessage == [] && scrollText == [] && !messageLooping && eeprom[..] == old(eeprom[..])
        && drawn == old(drawn) + [ClearPanel]
      ensures command.SetBrightness? ==>
        && brightness == command.level && intensity == Some(brightness)
        && eeprom[..] == WriteAt(old(eeprom[..]), BRIGHTNESS_ADDR, [brightness])
      ensures command.SetScrollSpeed? ==>
        && scrollSpeed == command.speed
        && eeprom[..] == WriteAt(old(eeprom[..]), SCROLL_SPEED_ADDR, SpeedBytes(scrollSpeed))
      ensures !command.ShowText? && !command.Clear? ==>
        && currentMessage == old(currentMessage) && scrollText == old(scrollText)
        && messageLooping == old(messageLooping) && drawn == old(drawn)
      ensures !command.SetBrightness? ==> brightness == old(brightness) && intensity == old(intensity)
      ensures !command.SetScrollSpeed? ==> scrollSpeed == old(scrollSpeed)
      ensures command.Ignored? ==> eeprom[..] == old(eeprom[..])
    {
      match command
      case ShowText(text) =>
        UpdateDisplay(text);
      case Clear =>
        UpdateDisplay([]);
      case SetBrightness(level) =>
        brightness := level;
        intensity := Some(brightness);
        SaveBrightness();
      case SetScrollSpeed(speed) =>
        scrollSpeed := speed;
        SaveScrollSpeed();
      case Ignored =>
    }

    /**
      `mqttCallback`: the command `Route` decodes from the topic and the
      payload is carried out as `Perform` states, which `Effect` sums up: a
      text is shown and saved, an empty one clears the panel, an in-range
      brightness or speed is applied and saved, and anything else changes
      nothing.
     */
    method MqttCallback(topic: string, payload: seq<byte>)
      requires Valid()
      modifies eeprom, this`currentMessage, this`scrollText, this`messageLooping, this`drawn
      modifies this`brightness, this`intensity, this`scrollSpeed
      ensures Valid()
      ensures State() == Effect(old(State()), Route(topic, payload))
      ensures old(drawn) <= drawn
    {
      Perform(Route(topic, payload));
    }

    /** `handleBrightnessAPI`: a missing `value` is refused; any other is clamped to 0..15, applied and saved. */
    method HandleBrightnessApi(value: Option<seq<byte>>) returns (status: int)
      requires Valid()
      modifies eeprom, this`brightness, this`intensity
      ensures Valid()
      ensures value.None? ==>
        status == HTTP_BAD_REQUEST && brightness == old(brightness) && intensity == old(intensity)
        && eeprom[..] == old(eeprom[..])
      ensures value.Some? ==>
        && status == HTTP_OK
        && brightness == ClampBrightness(ToInt(value.value)) && intensity == Some(brightness)
        && eeprom[..] == WriteAt(old(eeprom[..]), BRIGHTNESS_ADDR, [brightness])
    {
      if value.None? {
        return HTTP_BAD_REQUEST;
      }
      brightness := ClampBrightness(ToInt(value.value));
      intensity := Some(brightness);
      SaveBrightness();
      status := HTTP_OK;
    }

    /** `handleScrollSpeedAPI`: a missing `value` is refused; any other is clamped to 50..500 and saved. */
    method HandleScrollSpeedApi(value: Option<seq<byte>>) returns (status: int)
      requires Valid()
      modifies eeprom, this`scrollSpeed
      ensures Valid()
      ensures value.None? ==>
        status == HTTP_BAD_REQUEST && scrollSpeed == old(scrollSpeed) && eeprom[..] == old(eeprom[..])
      ensures value.Some? ==>
        && status == HTTP_OK
        && scrollSpeed == ClampScrollSpeed(ToInt(value.value))
        && eeprom[..] == WriteAt(old(eeprom[..]), SCROLL_SPEED_ADDR, SpeedBytes(scrollSpeed))
    {
      if value.None? {
        return HTTP_BAD_REQUEST;
      }
      scrollSpeed := ClampScrollSpeed(ToInt(value.value));
      SaveScrollSpeed();
      status := HTTP_OK;
    }

    /** `handleTestMessageAPI`: a missing `text` is refused; any other goes to `updateDisplay` untrimmed. */
    method HandleTestMessageApi(text: Option<seq<byte>>) returns (status: int)
      requires Valid()
      modifies eeprom, this`currentMessage, this`scrollText, this`messageLooping, this`drawn
      ensures Valid()
      ensures text.None? ==>
        && status == HTTP_BAD_REQUEST && eeprom[..] == old(eeprom[..])
        && currentMessage == old(currentMessage) && scrollText == old(scrollText)
        && messageLooping == old(messageLooping) && drawn == old(drawn)
      ensures text.Some? ==> status == HTTP_OK && currentMessage == text.value
      ensures text.Some? && text.value != [] ==>
        && scrollText == ScrollBuffer(text.value) && messageLooping
        && eeprom[..] == WriteAt(old(eeprom[..]), MESSAGE_START, MessageRecord(text.value))
        && drawn == old(drawn) + [ClearPanel, Scroll(scrollText, scrollSpeed)]
      ensures text.Some? && text.value == [] ==>
        && scrollText == [] && !messageLooping && eeprom[..] == old(eeprom[..])
        && drawn == old(drawn) + [ClearPanel]
    {
      if text.None? {
        return HTTP_BAD_REQUEST;
      }
      UpdateDisplay(text.value);
      status := HTTP_OK;
    }

    /**
      `handleConfig` up to the restart: without `mqtt_host` nothing changes;
      otherwise the form is applied to the configuration, with the client id
      formatted from the MAC address, and saved.
     */
    method HandleConfig(args: FormArgs, mac: seq<byte>) returns (status: int)
      requires Valid() && |mac| == 6
      modifies eeprom, this`config, this`configValid
      ensures Valid()
      ensures "mqtt_host" !in args ==>
        && status == HTTP_BAD_REQUEST && config == old(config) && configValid == old(configValid)
        && eeprom[..] == old(eeprom[..])
      ensures "mqtt_host" in args ==>
        && status == HTTP_OK && configValid
        && config == ApplyConfigForm(old(config), args, ClientIdText(mac))
        && eeprom[..] == WriteAt(old(eeprom[..]), CONFIG_START, EncodeConfig(config))
    {
      if "mqtt_host" !in args {
        return HTTP_BAD_REQUEST;
      }
      var updated := ApplyConfigForm(config, args, ClientIdText(mac));
      assert WellFormed(updated);
      config := updated;
      SaveConfig();
      status := HTTP_OK;
    }

    // -------------------------------------------------------------------
    // setup and loop
    // -------------------------------------------------------------------

    /** The four loads at the start of `setup`, in their order. */
    method LoadStoredState()
      requires Valid()
      modifies this`config, this`configValid, this`currentMessage, this`brightness, this`scrollSpeed, this`intensity
      ensures Valid()
      ensures (config, configValid) == Storage.LoadConfig(eeprom[..])
      ensures currentMessage == StoredMessage(eeprom[..]).GetOr(old(currentMessage))
      ensures brightness == StoredBrightness(eeprom[..]).GetOr(old(brightness))
      ensures intensity == if StoredBrightness(eeprom[..]).Some? then Some(brightness) else old(intensity)
      ensures scrollSpeed == StoredScrollSpeed(eeprom[..]).GetOr(old(scrollSpeed))
    {
      LoadConfig();
      LoadLastMessage();
      LoadBrightness();
      LoadScrollSpeed();
    }

    /**
      `setup`: load the four records, initialise the panel (which sets its
      intensity to 3 whatever brightness was loaded), then either open the
      configuration access point and show CONFIG, or join the configured
      network, showing WiFi FAILED when that does not succeed.
     */
    method Setup(stationJoined: bool)
      requires Valid()
      modifies this`config, this`configValid, this`currentMessage, this`brightness, this`scrollSpeed
      modifies this`intensity, this`wifiMode, this`drawn
      ensures Valid()
      ensures (config, configValid) == Storage.LoadConfig(eeprom[..])
      ensures currentMessage == StoredMessage(eeprom[..]).GetOr(old(currentMessage))
      ensures brightness == StoredBrightness(eeprom[..]).GetOr(old(brightness))
      ensures scrollSpeed == StoredScrollSpeed(eeprom[..]).GetOr(old(scrollSpeed))
      ensures intensity == Some(MAX_INTENSITY)
      ensures wifiMode == if configValid then AccessPointAndStation else AccessPoint
      ensures drawn == old(drawn) + [ClearPanel] +
        if !configValid then [ShowFixed(CONFIG_TEXT)]
        else if stationJoined then [] else [ShowFixed(WIFI_FAILED_TEXT)]
    {
      LoadStoredState();
      intensity := Some(MAX_INTENSITY);
      drawn := drawn + [ClearPanel];
      if !configValid {
        wifiMode := AccessPoint;
        drawn := drawn + [ShowFixed(CONFIG_TEXT)];
      } else {
        wifiMode := AccessPointAndStation;
        if !stationJoined {
          drawn := drawn + [ShowFixed(WIFI_FAILED_TEXT)];
        }
      }
    }

    /** The part of `loop` up to the MQTT service call: `Supervisor.Step` on the device's flags. */
    method Supervise(io: Inputs)
      requires Valid()
      modifies this`messageLooping, this`drawn
      modifies this`wifiMode, this`readyShown, this`wifiConnectedTime, this`lastMqttAttempt, this`lastApRedraw
      ensures Valid()
      ensures LoopFlags() == Step(old(LoopFlags()), io).flags
      ensures drawn == old(drawn) + Step(old(LoopFlags()), io).draws
      ensures State() == old(State()).(messageLooping := messageLooping, drawn := drawn)
    {
      var o := Step(LoopFlags(), io);
      wifiMode := o.flags.mode;
      readyShown := o.flags.readyShown;
      messageLooping := o.flags.messageLooping;
      wifiConnectedTime := o.flags.wifiConnectedTime;
      lastMqttAttempt := o.flags.lastMqttAttempt;
      lastApRedraw := o.flags.lastApRedraw;
      drawn := drawn + o.draws;
    }

    /** `mqtt.loop()`: the callback runs once per delivered message, in order; panel commands are only added. */
    method Deliver(delivered: seq<MqttMessage>)
      requires Valid()
      modifies eeprom, this`currentMessage, this`scrollText, this`messageLooping, this`drawn
      modifies this`brightness, this`intensity, this`scrollSpeed
      ensures Valid()
      ensures State() == Replay(old(State()), delivered)
      ensures old(drawn) <= drawn
    {
      var k := 0;
      while k < |delivered|
        invariant 0 <= k <= |delivered|
        invariant Valid()
        invariant State() == Replay(old(State()), delivered[..k])
        invariant old(drawn) <= drawn
      {
        MqttCallback(delivered[k].topic, delivered[k].payload);
        assert delivered[..k + 1][..k] == delivered[..k];
        ReplayLast(old(State()), delivered[..k + 1]);
        k := k + 1;
      }
      assert delivered[..k] == delivered;
    }

    /** The MQTT service call and the animation step that end a pass of `loop`. */
    method Serve(delivered: seq<MqttMessage>, animationDone: bool)
      requires Valid()
      modifies eeprom, this`currentMessage, this`scrollText, this`messageLooping, this`drawn
      modifies this`brightness, this`intensity, this`scrollSpeed
      ensures Valid()
      ensures State() == Served(old(State()), delivered, animationDone)
      ensures old(drawn) <= drawn
    {
      if delivered != [] {
        Deliver(delivered);
      }
      if messageLooping {
        LoopMessage(animationDone);
      }
    }

    /**
      `loop`: one pass of the supervisor, then, while the broker session is
      up, the messages `mqtt.loop()` delivers, then one animation step of a
      looping message. The supervisor flags end as `Supervisor.Step` says
      (the callbacks never touch them), and its panel commands come first.
     */
    method Loop(io: Inputs, delivered: seq<MqttMessage>, animationDone: bool)
      requires Valid()
      modifies eeprom, this`currentMessage, this`scrollText, this`messageLooping, this`drawn
      modifies this`brightness, this`intensity, this`scrollSpeed
      modifies this`wifiMode, this`readyShown, this`wifiConnectedTime, this`lastMqttAttempt, this`lastApRedraw
      ensures Valid()
      ensures var o := Step(old(LoopFlags()), io);
        && wifiMode == o.flags.mode && readyShown == o.flags.readyShown
        && wifiConnectedTime == o.flags.wifiConnectedTime
        && lastMqttAttempt == o.flags.lastMqttAttempt && lastApRedraw == o.flags.lastApRedraw
        && old(drawn) + o.draws <= drawn
      // an access-point-only pass changes nothing an MQTT message could
      ensures AccessPointOnly(old(LoopFlags()), io) ==>
        State() == old(State()).(drawn := old(drawn) + Step(old(LoopFlags()), io).draws)
      // otherwise the delivered messages take effect in order, after the supervisor's draws
      // (with none delivered, Replay(s, []) == s)
      ensures !AccessPointOnly(old(LoopFlags()), io) ==>
        var o := Step(old(LoopFlags()), io);
        State() == Served(old(State()).(messageLooping := o.flags.messageLooping, drawn := old(drawn) + o.draws),
                          if io.brokerUp then delivered else [], animationDone)
    {
      var apOnly := AccessPointOnly(LoopFlags(), io);
      Supervise(io);
      if apOnly {
        return;
      }
      Serve(if io.brokerUp then delivered else [], animationDone);
    }
  }
}
