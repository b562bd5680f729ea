/**
  Inbound commands: the MQTT callback's decoding of (topic, payload) into
  an action, the HTTP setters' clamping of their `value` argument, and the
  field-update rules of the configuration form.
 */
module Commands {
  import opened Platform
  import opened Storage

  const TOPIC_MESSAGE: string := "home_assistant/spotify/current"
  const TOPIC_BRIGHTNESS: string := "home_assistant/spotify/brightness"
  const TOPIC_SCROLL_SPEED: string := "home_assistant/spotify/scroll_speed"

  /** The callback copies at most this many payload bytes into its 512-byte buffer. */
  const PAYLOAD_MAX: nat := 511

  const BRIGHTNESS_MIN: int := 0
  const BRIGHTNESS_MAX: int := 15
  const SPEED_MIN: int := 50
  const SPEED_MAX: int := 500
  const DEFAULT_MQTT_PORT: int := 1883

  /** What one MQTT message asks the device to do. */
  datatype Command =
    | ShowText(text: seq<byte>)
    | Clear
    | SetBrightness(level: int)
    | SetScrollSpeed(speed: int)
    | Ignored

  /** The payload as `mqttCallback` reads it: at most 511 bytes, up to the first NUL, trimmed. */
  function PayloadText(payload: seq<byte>): (r: seq<byte>)
    ensures |r| <= PAYLOAD_MAX
    ensures 0 !in r
    ensures r != [] ==> !IsSpace(r[0]) && !IsSpace(r[|r| - 1])
    ensures var s := CString(payload[..Min(|payload|, PAYLOAD_MAX)]);
      && LeadingSpaces(s) + |r| <= |s|
      && r == s[LeadingSpaces(s)..LeadingSpaces(s) + |r|]
      && AllSpaces(s[..LeadingSpaces(s)])
      && AllSpaces(s[LeadingSpaces(s) + |r|..])
  {
    var s := CString(payload[..Min(|payload|, PAYLOAD_MAX)]);
    TrimNulFree(s);
    Trim(s)
  }

  /**
    `mqttCallback`: the exact topic picks the action. On the message topic
    an empty text clears the display; on the brightness and scroll-speed
    topics the `toInt` value is taken only when it is in range, and any
    other value is ignored.
   */
  function Route(topic: string, payload: seq<byte>): (r: Command)
    ensures topic !in {TOPIC_MESSAGE, TOPIC_BRIGHTNESS, TOPIC_SCROLL_SPEED} ==> r == Ignored
    ensures topic == TOPIC_MESSAGE ==> r == (if PayloadText(payload) == [] then Clear else ShowText(PayloadText(payload)))
    ensures r.ShowText? || r.Clear? <==> topic == TOPIC_MESSAGE
    ensures r.SetBrightness? ==> topic == TOPIC_BRIGHTNESS && BRIGHTNESS_MIN <= r.level <= BRIGHTNESS_MAX
    ensures r.SetScrollSpeed? ==> topic == TOPIC_SCROLL_SPEED && SPEED_MIN <= r.speed <= SPEED_MAX
    ensures topic == TOPIC_BRIGHTNESS ==>
      (r.SetBrightness? <==> BRIGHTNESS_MIN <= ToInt(PayloadText(payload)) <= BRIGHTNESS_MAX)
    ensures topic == TOPIC_SCROLL_SPEED ==>
      (r.SetScrollSpeed? <==> SPEED_MIN <= ToInt(PayloadText(payload)) <= SPEED_MAX)
    ensures topic == TOPIC_BRIGHTNESS ==>
      r == (if BRIGHTNESS_MIN <= ToInt(PayloadText(payload)) <= BRIGHTNESS_MAX
            then SetBrightness(ToInt(PayloadText(payload))) else Ignored)
    ensures topic == TOPIC_SCROLL_SPEED ==>
      r == (if SPEED_MIN <= ToInt(PayloadText(payload)) <= SPEED_MAX
            then SetScrollSpeed(ToInt(PayloadText(payload))) else Ignored)
  {
    var message := PayloadText(payload);
    if topic == TOPIC_MESSAGE then
      if |message| > 0 then ShowText(message) else Clear
    else if topic == TOPIC_BRIGHTNESS then
      var level := ToInt(message);
      if BRIGHTNESS_MIN <= level <= BRIGHTNESS_MAX then SetBrightness(level) else Ignored
    else if topic == TOPIC_SCROLL_SPEED then
      var speed := ToInt(message);
      if SPEED_MIN <= speed <= SPEED_MAX then SetScrollSpeed(speed) else Ignored
    else Ignored
  }

  /**
    On the message topic, the payload text is shown, or the panel cleared when
    it is empty. This is one of `Route`'s ensures, given as a lemma so that
    proofs about runs of messages can call it without the rest of `Route`.
   */
  lemma RouteOfMessage(payload: seq<byte>)
    ensures Route(TOPIC_MESSAGE, payload) == if PayloadText(payload) == [] then Clear else ShowText(PayloadText(payload))
  {
  }

  /**
    Off the message topic, nothing is shown or cleared. Like `RouteOfMessage`,
    a narrow form of `Route`'s ensures for proofs about runs of messages.
   */
  lemma RouteOffMessageTopic(topic: string, payload: seq<byte>)
    requires topic != TOPIC_MESSAGE
    ensures !Route(topic, payload).ShowText? && !Route(topic, payload).Clear?
  {
  }

  /** Bytes past the 511th never influence the action. */
  lemma RouteIgnoresBytesPastCap(topic: string, payload: seq<byte>, extra: seq<byte>)
    requires |payload| >= PAYLOAD_MAX
    ensures Route(topic, payload + extra) == Route(topic, payload)
  {
    assert (payload + extra)[..PAYLOAD_MAX] == payload[..PAYLOAD_MAX];
  }

  /**
    A decimal number with white space around it, on the brightness topic,
    sets that brightness when it is 0..15 and is ignored otherwise.
   */
  lemma RouteBrightnessNumber(lead: seq<byte>, n: nat, trail: seq<byte>)
    requires forall i :: 0 <= i < |lead| ==> IsSpace(lead[i])
    requires forall i :: 0 <= i < |trail| ==> IsSpace(trail[i])
    requires |lead + Decimal(n) + trail| <= PAYLOAD_MAX
    ensures Route(TOPIC_BRIGHTNESS, lead + Decimal(n) + trail)
         == if n <= BRIGHTNESS_MAX then SetBrightness(n) else Ignored
  {
    PayloadOfNumber(lead, n, trail);
  }

  /** The same for the scroll-speed topic and 50..500. */
  lemma RouteScrollSpeedNumber(lead: seq<byte>, n: nat, trail: seq<byte>)
    requires forall i :: 0 <= i < |lead| ==> IsSpace(lead[i])
    requires forall i :: 0 <= i < |trail| ==> IsSpace(trail[i])
    requires |lead + Decimal(n) + trail| <= PAYLOAD_MAX
    ensures Route(TOPIC_SCROLL_SPEED, lead + Decimal(n) + trail)
         == if SPEED_MIN <= n <= SPEED_MAX then SetScrollSpeed(n) else Ignored
  {
    PayloadOfNumber(lead, n, trail);
  }

  lemma PayloadOfNumber(lead: seq<byte>, n: nat, trail: seq<byte>)
    requires forall i :: 0 <= i < |lead| ==> IsSpace(lead[i])
    requires forall i :: 0 <= i < |trail| ==> IsSpace(trail[i])
    requires |lead + Decimal(n) + trail| <= PAYLOAD_MAX
    ensures ToInt(PayloadText(lead + Decimal(n) + trail)) == Saturate32(n)
  {
    PaddedDigits(lead, Decimal(n), trail);
    DecimalAlone(n);
  }

  /** Digits padded with white space come out of the payload handling as the digits. */
  lemma PaddedDigits(lead: seq<byte>, d: seq<byte>, trail: seq<byte>)
    requires forall i :: 0 <= i < |lead| ==> IsSpace(lead[i])
    requires forall i :: 0 <= i < |trail| ==> IsSpace(trail[i])
    requires d != [] && forall i :: 0 <= i < |d| ==> IsDigit(d[i])
    requires |lead + d + trail| <= PAYLOAD_MAX
    ensures PayloadText(lead + d + trail) == d
  {
    NumberTextNulFree(lead, d, trail);
    PayloadOfNulFree(lead + d + trail);
    TrimPadded(lead, d, trail);
  }

  /** `toInt` of a decimal alone is its value, saturated to 32 bits. */
  lemma DecimalAlone(n: nat)
    ensures ToInt(Decimal(n)) == Saturate32(n)
  {
    ToIntOfDecimal([], n, []);
    assert [] + Decimal(n) + [] == Decimal(n);
  }

  /** Digits between white space hold no NUL. */
  lemma NumberTextNulFree(lead: seq<byte>, d: seq<byte>, trail: seq<byte>)
    requires forall i :: 0 <= i < |lead| ==> IsSpace(lead[i])
    requires forall i :: 0 <= i < |d| ==> IsDigit(d[i])
    requires forall i :: 0 <= i < |trail| ==> IsSpace(trail[i])
    ensures 0 !in lead + d + trail
  {
    assert 0 !in trail;
    DigitsThenNulFree(d, trail);
    SpacesThenNulFree(lead, d + trail);
    assert lead + d + trail == lead + (d + trail);
  }

  /** A NUL-free payload within the cap is only trimmed. */
  lemma PayloadOfNulFree(p: seq<byte>)
    requires |p| <= PAYLOAD_MAX && 0 !in p
    ensures PayloadText(p) == Trim(p)
  {
    assert p[..Min(|p|, PAYLOAD_MAX)] == p;
    CStringOfTerminated(p, []);
    assert p + [] == p;
  }

  /**
    A payload whose message text holds no number reads as 0: a valid
    brightness, but not a valid speed. This covers text that starts with
    anything but a digit or a sign, and a sign that is not followed by a
    digit; white space before it and anything after a NUL do not matter.
   */
  lemma RouteNoNumber(payload: seq<byte>)
    requires NoNumber(PayloadText(payload))
    ensures Route(TOPIC_BRIGHTNESS, payload) == SetBrightness(0)
    ensures Route(TOPIC_SCROLL_SPEED, payload) == Ignored
  {
    ToIntNoNumber(PayloadText(payload));
  }

  /** Text with no number where `atol` looks for one reads as 0. */
  lemma ToIntNoNumber(t: seq<byte>)
    requires NoNumber(t)
    ensures ToInt(t) == 0
  {
    var u := TrimStart(CString(t));
    if u != [] && (u[0] == '-' as int || u[0] == '+' as int) {
      assert LeadingDigits(u[1..]) == [];
    } else {
      assert LeadingDigits(u) == [];
    }
  }

  // ---------------------------------------------------------------------
  // HTTP setters
  // ---------------------------------------------------------------------

  /** `handleBrightnessAPI`: below 0 becomes 0, above 15 becomes 15. */
  function ClampBrightness(value: int): (r: int)
    ensures BRIGHTNESS_MIN <= r <= BRIGHTNESS_MAX
    ensures BRIGHTNESS_MIN <= value <= BRIGHTNESS_MAX ==> r == value
    ensures value < BRIGHTNESS_MIN ==> r == BRIGHTNESS_MIN
    ensures value > BRIGHTNESS_MAX ==> r == BRIGHTNESS_MAX
  {
    if value < BRIGHTNESS_MIN then BRIGHTNESS_MIN
    else if value > BRIGHTNESS_MAX then BRIGHTNESS_MAX
    else value
  }

  /** `handleScrollSpeedAPI`: below 50 becomes 50, above 500 becomes 500. */
  function ClampScrollSpeed(value: int): (r: int)
    ensures SPEED_MIN <= r <= SPEED_MAX
    ensures SPEED_MIN <= value <= SPEED_MAX ==> r == value
    ensures value < SPEED_MIN ==> r == SPEED_MIN
    ensures value > SPEED_MAX ==> r == SPEED_MAX
  {
    if value < SPEED_MIN then SPEED_MIN
    else if value > SPEED_MAX then SPEED_MAX
    else value
  }

  /**
    The two paths must not be conflated: a brightness above 15 is clamped to
    15 over HTTP but ignored over MQTT; a speed above 500 likewise.
   */
  lemma HttpClampsWhereMqttIgnores(n: nat)
    requires |Decimal(n)| <= PAYLOAD_MAX
    ensures n > BRIGHTNESS_MAX ==>
      ClampBrightness(ToInt(Decimal(n))) == BRIGHTNESS_MAX && Route(TOPIC_BRIGHTNESS, Decimal(n)) == Ignored
    ensures n > SPEED_MAX ==>
      ClampScrollSpeed(ToInt(Decimal(n))) == SPEED_MAX && Route(TOPIC_SCROLL_SPEED, Decimal(n)) == Ignored
  {
    var d := Decimal(n);
    ToIntOfDecimal([], n, []);
    assert [] + d + [] == d;
    RouteBrightnessNumber([], n, []);
    RouteScrollSpeedNumber([], n, []);
  }

  /**
    A negative number is never a valid level: MQTT ignores it on both
    topics, while the HTTP setters clamp it up to 0 and 50.
   */
  lemma NegativeValue(n: nat)
    requires 0 < n && 1 + |Decimal(n)| <= PAYLOAD_MAX
    ensures var text := ['-' as byte] + Decimal(n);
      && Route(TOPIC_BRIGHTNESS, text) == Ignored
      && Route(TOPIC_SCROLL_SPEED, text) == Ignored
      && ClampBrightness(ToInt(text)) == BRIGHTNESS_MIN
      && ClampScrollSpeed(ToInt(text)) == SPEED_MIN
  {
    var text := ['-' as byte] + Decimal(n);
    ToIntOfSignedDecimal([], true, n, []);
    assert [] + ['-' as byte] + Decimal(n) + [] == text;
    SignedPayload(n);
  }

  /** A minus sign and digits pass the payload trim unchanged. */
  lemma SignedPayload(n: nat)
    requires 1 + |Decimal(n)| <= PAYLOAD_MAX
    ensures PayloadText(['-' as byte] + Decimal(n)) == ['-' as byte] + Decimal(n)
  {
    var text := ['-' as byte] + Decimal(n);
    SignThenDecimal('-' as int, n, []);
    assert Decimal(n) + [] == Decimal(n);
    assert text[..Min(|text|, PAYLOAD_MAX)] == text;
    CStringOfTerminated(text, []);
    assert text + [] == text;
    TrimPadded([], text, []);
    assert [] + text + [] == text;
  }

  // ---------------------------------------------------------------------
  // The configuration form
  // ---------------------------------------------------------------------

  /** The form arguments of a request; `server.arg(name)` is empty when absent. */
  type FormArgs = map<string, seq<byte>>

  function Arg(args: FormArgs, name: string): seq<byte>
  {
    if name in args then args[name] else []
  }

  /**
    The field updates of `handleConfig`: SSID and password only when their
    argument is non-empty, the MQTT fields always (31 or 63 bytes through
    `strncpy`), a port that `toInt` reads as 0 or less becomes 1883, and the
    client id is the formatted text cut to 30 bytes by `snprintf`.
   */
  function ApplyConfigForm(c: Config, args: FormArgs, clientId: seq<byte>): (r: Config)
    requires WellFormed(c) && 0 !in clientId
    ensures WellFormed(r)
    ensures Arg(args, "ssid") == [] ==> r.ssid == c.ssid
    ensures Arg(args, "ssid") != [] ==> CopiedInto(r.ssid, c.ssid, Arg(args, "ssid"), 31)
    ensures Arg(args, "password") == [] ==> r.password == c.password
    ensures Arg(args, "password") != [] ==> CopiedInto(r.password, c.password, Arg(args, "password"), 63)
    ensures CopiedInto(r.mqttHost, c.mqttHost, Arg(args, "mqtt_host"), 31)
    ensures CopiedInto(r.mqttUser, c.mqttUser, Arg(args, "mqtt_user"), 31)
    ensures CopiedInto(r.mqttPass, c.mqttPass, Arg(args, "mqtt_pass"), 63)
    ensures r.mqttPort > 0
    ensures r.mqttPort == if ToInt(Arg(args, "mqtt_port")) <= 0 then DEFAULT_MQTT_PORT else ToInt(Arg(args, "mqtt_port"))
    ensures CString(r.clientId) == clientId[..Min(|clientId|, 30)]
    ensures r.clientId[Min(|clientId|, 30) + 1..] == c.clientId[Min(|clientId|, 30) + 1..]
  {
    var ssid := Arg(args, "ssid");
    var password := Arg(args, "password");
    var port := ToInt(Arg(args, "mqtt_port"));
    var host := Strncpy(c.mqttHost, Arg(args, "mqtt_host"), 31);
    var user := Strncpy(c.mqttUser, Arg(args, "mqtt_user"), 31);
    var pass := Strncpy(c.mqttPass, Arg(args, "mqtt_pass"), 63);
    var id := Snprintf(c.clientId, clientId, 31);
    Config(
      if |ssid| > 0 then Strncpy(c.ssid, ssid, 31) else c.ssid,
      if |password| > 0 then Strncpy(c.password, password, 63) else c.password,
      host,
      if port <= 0 then DEFAULT_MQTT_PORT else port,
      user,
      pass,
      id)
  }

  /** A text of ASCII characters as the bytes of a C string literal. */
  function Ascii(s: string): (r: seq<byte>)
    requires forall i :: 0 <= i < |s| ==> s[i] as int < 0x100
    ensures |r| == |s| && forall i :: 0 <= i < |s| ==> r[i] == s[i] as int
  {
    seq(|s|, i requires 0 <= i < |s| => s[i] as int)
  }

  const CLIENT_ID_PREFIX: seq<byte> := Ascii("esp8266_spotify_")

  /** The characters `%x` prints: 0-9 and lower-case a-f. */
  predicate IsLowerHex(d: byte)
  {
    '0' as int <= d <= '9' as int || 'a' as int <= d <= 'f' as int
  }

  /** The digit `%x` prints for 0..15, lower case, which reads back as the value. */
  function HexDigit(n: nat): (r: byte)
    requires n < 16
    ensures r != 0 && IsLowerHex(r)
    ensures HexDigitValue(r) == n
  {
    if n < 10 then '0' as int + n else 'a' as int + (n - 10)
  }

  /** The value of a lower-case hex digit. */
  function HexDigitValue(d: byte): int
  {
    if '0' as int <= d <= '9' as int then d - '0' as int else d - 'a' as int + 10
  }

  /** `%02x`: a byte as exactly two lower-case hex digits, from which it can be read back. */
  function Hex2(b: byte): (r: seq<byte>)
    ensures |r| == 2 && 0 !in r
    ensures IsLowerHex(r[0]) && IsLowerHex(r[1])
    ensures 16 * HexDigitValue(r[0]) + HexDigitValue(r[1]) == b
  {
    [HexDigit(b / 16), HexDigit(b % 16)]
  }

  /**
    The client id `handleConfig` formats from the station MAC address:
    "esp8266_spotify_" and the last three MAC bytes in hex, 22 characters,
    so the 31-byte `snprintf` never cuts it.
   */
  function ClientIdText(mac: seq<byte>): (r: seq<byte>)
    requires |mac| == 6
    ensures |r| == |CLIENT_ID_PREFIX| + 6 == 22 && 0 !in r
    ensures r[..|CLIENT_ID_PREFIX|] == CLIENT_ID_PREFIX
    ensures r[|CLIENT_ID_PREFIX|..] == Hex2(mac[3]) + Hex2(mac[4]) + Hex2(mac[5])
  {
    assert 0 !in CLIENT_ID_PREFIX by {
      forall i | 0 <= i < |CLIENT_ID_PREFIX| ensures CLIENT_ID_PREFIX[i] != 0 {
        assert "esp8266_spotify_"[i] != 0 as char;
      }
    }
    CLIENT_ID_PREFIX + Hex2(mac[3]) + Hex2(mac[4]) + Hex2(mac[5])
  }

  /** Two devices get the same client id exactly when the last three bytes of their MAC addresses agree. */
  lemma ClientIdDistinguishesDevices(mac1: seq<byte>, mac2: seq<byte>)
    requires |mac1| == 6 && |mac2| == 6
    ensures ClientIdText(mac1) == ClientIdText(mac2) <==> mac1[3..] == mac2[3..]
  {
    var p := |CLIENT_ID_PREFIX|;
    if ClientIdText(mac1) == ClientIdText(mac2) {
      var a, b := ClientIdText(mac1), ClientIdText(mac2);
      assert a[p..p + 2] == Hex2(mac1[3]) && b[p..p + 2] == Hex2(mac2[3]);
      assert a[p + 2..p + 4] == Hex2(mac1[4]) && b[p + 2..p + 4] == Hex2(mac2[4]);
      assert a[p + 4..p + 6] == Hex2(mac1[5]) && b[p + 4..p + 6] == Hex2(mac2[5]);
      assert mac1[3..] == [mac1[3], mac1[4], mac1[5]];
      assert mac2[3..] == [mac2[3], mac2[4], mac2[5]];
    } else {
      assert mac1[3] != mac2[3] || mac1[4] != mac2[4] || mac1[5] != mac2[5];
    }
  }

  /** The leading byte of a field that `Strncpy` filled from a text shorter than its limit. */
  lemma FirstByteOfCopy(dst: seq<byte>, src: seq<byte>, n: nat)
    requires 0 < n <= |dst| && |CString(src)| < n
    ensures Strncpy(dst, src, n)[0] == if CString(src) == [] then 0 else src[0]
  {
    var r := Strncpy(dst, src, n);
    if CString(src) == [] {
      assert CString(r) == [];
      assert |r| > 0;
    } else {
      assert CString(r)[0] == r[0];
    }
  }

  /**
    A field filled by `strncpy(field, src, n)` and then given a NUL at index
    `n`, as `loadConfig` does, reads back as the C string of `src` cut to `n`
    bytes, and starts with a NUL exactly when that C string is empty.
   */
  lemma CopyThenTerminate(r: seq<byte>, dst: seq<byte>, src: seq<byte>, n: nat, t: seq<byte>)
    requires CopiedInto(r, dst, src, n) && 0 < n < |r| == |t|
    requires t[..n] == r[..n] && t[n] == 0
    ensures CString(t) == Prefix(CString(src), n)
    ensures t[0] == r[0] == if CString(src) == [] then 0 else CString(src)[0]
  {
    var s := CString(src);
    if |s| < n {
      assert t[..|s|] == r[..|s|];
      assert r[|s|] == 0;
      assert t == s + t[|s|..];
      CStringOfTerminated(s, t[|s|..]);
    } else {
      assert src[..n] == s[..n];
      assert t[..n] == s[..n];
      assert t == t[..n] + t[n..];
      CStringOfTerminated(t[..n], t[n..]);
    }
  }

  /**
    After the form is saved, the next boot finds the configuration valid
    exactly when the SSID in force and the submitted broker host both start
    with a byte other than NUL and 0xFF. An empty SSID argument keeps the
    stored SSID, which then loads with its last cell forced to NUL; any other
    SSID, and the host, read back as the submitted C string cut to 31 bytes.
   */
  lemma ConfigFormThenBoot(mem: seq<byte>, c: Config, args: FormArgs, clientId: seq<byte>)
    requires |mem| == EEPROM_SIZE && WellFormed(c) && 0 !in clientId
    ensures var ssid := Arg(args, "ssid");
      var host := Arg(args, "mqtt_host");
      var (loaded, valid) := LoadConfig(WriteAt(mem, CONFIG_START, EncodeConfig(ApplyConfigForm(c, args, clientId))));
      && (valid <==>
            && (if ssid == [] then c.ssid[0] != 0 && c.ssid[0] != 255 else CString(ssid) != [] && CString(ssid)[0] != 255)
            && CString(host) != [] && CString(host)[0] != 255)
      && (valid && ssid == [] ==> loaded.ssid == c.ssid[31 := 0])
      && (valid && ssid != [] ==> CString(loaded.ssid) == Prefix(CString(ssid), 31))
      && (valid ==> CString(loaded.mqttHost) == Prefix(CString(host), 31))
  {
    var r := ApplyConfigForm(c, args, clientId);
    SaveConfigThenLoad(mem, r);
    var t := Terminate(r);
    CopyThenTerminate(r.mqttHost, c.mqttHost, Arg(args, "mqtt_host"), 31, t.mqttHost);
    if Arg(args, "ssid") != [] {
      CopyThenTerminate(r.ssid, c.ssid, Arg(args, "ssid"), 31, t.ssid);
    }
  }

  /**
    After a boot without a valid configuration `client_id[28..31]` holds
    EEPROM bytes 256..259 as they are; the form's 22-byte client id leaves
    those cells alone, so saving the form writes the same four bytes back
    and the last message survives whole.
   */
  lemma FormAfterInvalidBootKeepsMessage(mem: seq<byte>, args: FormArgs, mac: seq<byte>)
    requires |mem| == EEPROM_SIZE && |mac| == 6
    requires !LoadConfig(mem).1
    ensures var r := ApplyConfigForm(LoadConfig(mem).0, args, ClientIdText(mac));
      var after := WriteAt(mem, CONFIG_START, EncodeConfig(r));
      && after[MESSAGE_START..MESSAGE_START + MESSAGE_SIZE] == mem[MESSAGE_START..MESSAGE_START + MESSAGE_SIZE]
      && StoredMessage(after) == StoredMessage(mem)
  {
    var r := ApplyConfigForm(LoadConfig(mem).0, args, ClientIdText(mac));
    FormKeepsClientTail(mem, args, mac);
    ConfigSaveMessageBytes(mem, r);
    assert mem[MESSAGE_START..CONFIG_BYTES] + mem[CONFIG_BYTES..MESSAGE_START + MESSAGE_SIZE]
        == mem[MESSAGE_START..MESSAGE_START + MESSAGE_SIZE];
  }

  /** The form rewrites the client id only up to its NUL, so its last four bytes stay those loaded. */
  lemma FormKeepsClientTail(mem: seq<byte>, args: FormArgs, mac: seq<byte>)
    requires |mem| == EEPROM_SIZE && |mac| == 6
    requires !LoadConfig(mem).1
    ensures ApplyConfigForm(LoadConfig(mem).0, args, ClientIdText(mac)).clientId[28..] == mem[MESSAGE_START..CONFIG_BYTES]
  {
    var c := LoadConfig(mem).0;
    var r := ApplyConfigForm(c, args, ClientIdText(mac));
    assert c.clientId == mem[CLIENT_ID_AT..CONFIG_BYTES];
    assert r.clientId[23..] == c.clientId[23..];
    assert r.clientId[28..] == r.clientId[23..][5..];
    assert c.clientId[28..] == c.clientId[23..][5..];
  }

  /**
    After a boot with a valid configuration `client_id[31]` is NUL, the
    form leaves it so, and saving the form cuts the last message to at
    most three characters.
   */
  lemma FormAfterValidBootCutsMessage(mem: seq<byte>, args: FormArgs, mac: seq<byte>)
    requires |mem| == EEPROM_SIZE && |mac| == 6
    requires LoadConfig(mem).1
    ensures var r := ApplyConfigForm(LoadConfig(mem).0, args, ClientIdText(mac));
      var after := WriteAt(mem, CONFIG_START, EncodeConfig(r));
      StoredMessage(after).Some? ==> |StoredMessage(after).value| <= 3
  {
    var c := LoadConfig(mem).0;
    var r := ApplyConfigForm(c, args, ClientIdText(mac));
    assert c.clientId[31] == 0;
    assert r.clientId[23..] == c.clientId[23..];
    assert r.clientId[31] == r.clientId[23..][8];
    SaveConfigCutsMessage(mem, r);
  }

  /** Forcing a NUL at index `n` keeps a C string shorter than `n`. */
  lemma TerminatedKeepsText(field: seq<byte>, forced: seq<byte>, n: nat)
    requires n < |field| == |forced| && |CString(field)| < n
    requires forced[..n] == field[..n]
    ensures CString(forced) == CString(field)
  {
    var s := CString(field);
    assert field == s + field[|s|..];
    assert forced[..|s| + 1] == field[..|s| + 1];
    assert forced == s + forced[|s|..];
    CStringOfTerminated(s, field[|s|..]);
    CStringOfTerminated(s, forced[|s|..]);
  }
}
