/** The configuration record: the 43-byte payload `main.set_configuration` builds from the window and
    the fixed offsets `main.get_configuration` reads back out of the device's reply to 0xB7. */
module Config {
  import opened Base
  import opened Codec

  const SetConfigurationCommand: byte := 0xB8
  const ConfigurationLength: nat := 43
  /** "Operation mode should be 4". */
  const OperationMode: byte := 4

  /** The two logging formats: position/time/speed, or the same with altitude. */
  datatype InfoType = PositionTimeSpeed | PositionTimeSpeedAltitude

  /** The window as `set_configuration` reads it. A numeric entry is `int(text)`, or None when the
      text is not an integer (the field is then sent as four zero bytes). The time interval is in
      seconds. */
  datatype ConfigForm = ConfigForm(
    infoType: InfoType,
    speedDisabled: bool,
    speedThreshold: Option<int>,
    distanceDisabled: bool,
    distanceThreshold: Option<int>,
    timeInterval: Option<int>,
    byTime: bool,
    distanceInterval: Option<int>,
    waas: bool)

  function Flag(b: bool): byte
  {
    if b then 1 else 0
  }

  /** One 4-byte entry: `int2bytes(scale * n, 4)`, four zeros when the text did not parse, and None for
      a negative number (the following `payload.extend(None)` raises). */
  function Entry(v: Option<int>, scale: nat): (r: Option<seq<byte>>)
    ensures r.Some? ==> |r.value| == 4
  {
    match v
    case None => Some([0, 0, 0, 0])
    case Some(n) => Int2Bytes(scale * n, 4)
  }

  predicate EntryOk(v: Option<int>)
  {
    v.None? || v.value >= 0
  }

  /** The payload of `set_configuration`. */
  function BuildConfig(form: ConfigForm): (r: Result<seq<byte>>)
    ensures r.Success? <==>
      EntryOk(form.speedThreshold) && EntryOk(form.distanceThreshold)
      && EntryOk(form.timeInterval) && EntryOk(form.distanceInterval)
    ensures r.Success? ==> (|r.value| == ConfigurationLength
      && r.value[0] == SetConfigurationCommand && r.value[41] == OperationMode)
  {
    var info: byte := if form.infoType == PositionTimeSpeedAltitude then 2 else 1;
    var speed := Entry(form.speedThreshold, 1);
    var distance := Entry(form.distanceThreshold, 1);
    var time := Entry(form.timeInterval, 1000);
    var interval := Entry(form.distanceInterval, 1);
    if speed.None? || distance.None? || time.None? || interval.None? then Failure(Malformed)
    else
      Success(Layout(info, Flag(form.speedDisabled), speed.value, Flag(form.distanceDisabled),
                     distance.value, time.value, Flag(!form.byTime), interval.value, Flag(form.waas)))
  }

  /** `set_configuration` appending the payload field by field; a negative entry makes the
      `extend` of its field raise. */
  method BuildPayload(form: ConfigForm) returns (r: Result<seq<byte>>)
    ensures r == BuildConfig(form)
  {
    var payload: seq<byte> := [SetConfigurationCommand];
    var info: byte := if form.infoType == PositionTimeSpeedAltitude then 2 else 1;
    payload := payload + [info];
    payload := payload + [Flag(form.speedDisabled)];
    var speed := Entry(form.speedThreshold, 1);
    if speed.None? {
      return Failure(Malformed);
    }
    payload := payload + speed.value;
    payload := payload + [Flag(form.distanceDisabled)];
    var distance := Entry(form.distanceThreshold, 1);
    if distance.None? {
      return Failure(Malformed);
    }
    payload := payload + distance.value;
    var time := Entry(form.timeInterval, 1000);
    if time.None? {
      return Failure(Malformed);
    }
    payload := payload + time.value;
    payload := payload + Unused(10);
    payload := payload + [Flag(!form.byTime)];
    payload := payload + [0, 0];
    var interval := Entry(form.distanceInterval, 1);
    if interval.None? {
      return Failure(Malformed);
    }
    payload := payload + interval.value;
    payload := payload + Unused(8);
    payload := payload + [OperationMode];
    payload := payload + [Flag(form.waas)];
    AppendedLayout(info, Flag(form.speedDisabled), speed.value, Flag(form.distanceDisabled),
                   distance.value, time.value, Flag(!form.byTime), interval.value, Flag(form.waas));
    r := Success(payload);
  }

  /** The byte layout: command, fields, and the unused bytes as zeros. */
  function Layout(info: byte, speedFlag: byte, speed: seq<byte>, distanceFlag: byte, distance: seq<byte>,
                  time: seq<byte>, byDistance: byte, interval: seq<byte>, waas: byte): (p: seq<byte>)
    requires |speed| == 4 && |distance| == 4 && |time| == 4 && |interval| == 4
    ensures |p| == ConfigurationLength && p[0] == SetConfigurationCommand && p[41] == OperationMode
    ensures p[1] == info && p[2] == speedFlag && p[3..7] == speed && p[7] == distanceFlag
    ensures p[8..12] == distance && p[12..16] == time && p[26] == byDistance
    ensures p[29..33] == interval && p[42] == waas
  {
    var part1 := [SetConfigurationCommand, info, speedFlag] + speed + [distanceFlag] + distance + time;
    var part2 := Unused(10) + [byDistance] + [0, 0] + interval;
    var part3 := Unused(8) + [OperationMode, waas];
    assert |part1| == 16 && |part2| == 17;
    assert part1[3..7] == speed && part1[8..12] == distance && part1[12..16] == time;
    assert part2[13..17] == interval;
    assert (part1 + part2 + part3)[29..33] == part2[13..17];
    part1 + part2 + part3
  }

  /** Unused bytes, sent as zeros. */
  function Unused(n: nat): (s: seq<byte>)
    ensures |s| == n
  {
    seq(n, _ => 0)
  }

  /** The payload as `set_configuration` appends it, one piece after the other, is the layout. */
  lemma AppendedLayout(info: byte, speedFlag: byte, speed: seq<byte>, distanceFlag: byte, distance: seq<byte>,
                       time: seq<byte>, byDistance: byte, interval: seq<byte>, waas: byte)
    requires |speed| == 4 && |distance| == 4 && |time| == 4 && |interval| == 4
    ensures [SetConfigurationCommand] + [info] + [speedFlag] + speed + [distanceFlag] + distance + time
      + Unused(10) + [byDistance] + [0, 0] + interval + Unused(8) + [OperationMode] + [waas]
      == Layout(info, speedFlag, speed, distanceFlag, distance, time, byDistance, interval, waas)
  {
    var part1 := [SetConfigurationCommand, info, speedFlag] + speed + [distanceFlag] + distance + time;
    var part2 := Unused(10) + [byDistance] + [0, 0] + interval;
    assert [SetConfigurationCommand] + [info] + [speedFlag] + speed + [distanceFlag] + distance + time
      == part1;
    assert part1 + Unused(10) + [byDistance] + [0, 0] + interval == part1 + part2;
    assert part1 + part2 + Unused(8) + [OperationMode] + [waas] == part1 + part2 + (Unused(8) + [OperationMode, waas]);
  }

  /** What `get_configuration` puts in the window. Flags follow the source's comparisons:
      the information type is only selected for the values 1 and 2, and the "disable"/WAAS boxes are
      only ever switched on (a byte other than 1 leaves them as they were). */
  datatype DeviceSettings = DeviceSettings(
    infoType: Option<InfoType>,
    byTime: bool,
    timeInterval: real,
    distanceInterval: nat,
    speedDisabled: bool,
    speedThreshold: nat,
    distanceDisabled: bool,
    distanceThreshold: nat,
    waas: bool)

  datatype DeviceConfiguration = DeviceConfiguration(settings: DeviceSettings, memoryUsage: nat)

  /** The settable fields at `get_configuration`'s offsets; the last one read is `conf[42]`, so a
      shorter reply raises. */
  function ParseSettings(conf: seq<byte>): (r: Result<DeviceSettings>)
    ensures r.Success? <==> |conf| >= ConfigurationLength
  {
    if |conf| < ConfigurationLength then Failure(Malformed)
    else
      Success(DeviceSettings(
        infoType := if conf[1] == 1 then Some(PositionTimeSpeed)
                    else if conf[1] == 2 then Some(PositionTimeSpeedAltitude) else None,
        byTime := conf[26] == 0,
        timeInterval := BigEndian(conf[12..16]) as real / 1000.0,
        distanceInterval := BigEndian(conf[29..33]),
        speedDisabled := conf[2] == 1,
        speedThreshold := BigEndian(conf[3..7]),
        distanceDisabled := conf[7] == 1,
        distanceThreshold := BigEndian(conf[8..12]),
        waas := conf[42] == 1))
  }

  /** All of `get_configuration`, including the memory usage percentage in `conf[43]`. */
  function ParseConfiguration(conf: seq<byte>): (r: Result<DeviceConfiguration>)
    ensures r.Success? <==> |conf| > ConfigurationLength
    ensures r.Success? ==> r.value.memoryUsage == conf[43] && Success(r.value.settings) == ParseSettings(conf)
  {
    match ParseSettings(conf)
    case Failure(e) => Failure(e)
    case Success(settings) =>
      if |conf| == ConfigurationLength then Failure(Malformed)
      else Success(DeviceConfiguration(settings, conf[43]))
  }

  /** The value an entry is read back as, when it fits in 4 bytes. */
  function Stored(v: Option<int>): nat
  {
    if v.Some? && v.value >= 0 then v.value else 0
  }

  predicate Fits(v: Option<int>, scale: nat)
  {
    v.None? || 0 <= scale * v.value < Pow256(4)
  }

  /** Reading the built payload at `get_configuration`'s offsets gives back every flag written. */
  lemma SetThenGetFlags(form: ConfigForm)
    requires BuildConfig(form).Success?
    ensures var s := ParseSettings(BuildConfig(form).value);
      && s.Success?
      && s.value.infoType == Some(form.infoType)
      && s.value.speedDisabled == form.speedDisabled
      && s.value.distanceDisabled == form.distanceDisabled
      && s.value.byTime == form.byTime
      && s.value.waas == form.waas
  {
    var info: byte := if form.infoType == PositionTimeSpeedAltitude then 2 else 1;
    var speed := Entry(form.speedThreshold, 1).value;
    var distance := Entry(form.distanceThreshold, 1).value;
    var time := Entry(form.timeInterval, 1000).value;
    var interval := Entry(form.distanceInterval, 1).value;
    assert BuildConfig(form) == Success(Layout(info, Flag(form.speedDisabled), speed,
      Flag(form.distanceDisabled), distance, time, Flag(!form.byTime), interval, Flag(form.waas)));
    ParseLayout(info, Flag(form.speedDisabled), speed, Flag(form.distanceDisabled),
                distance, time, Flag(!form.byTime), interval, Flag(form.waas));
  }

  /** Reading the built payload gives back every threshold and the distance interval, provided each
      fits in 4 bytes. */
  lemma SetThenGetNumbers(form: ConfigForm, payload: seq<byte>)
    requires Fits(form.speedThreshold, 1) && Fits(form.distanceThreshold, 1) && Fits(form.distanceInterval, 1)
    requires BuildConfig(form) == Success(payload)
    ensures var s := ParseSettings(payload);
      && s.Success?
      && s.value.speedThreshold == Stored(form.speedThreshold)
      && s.value.distanceThreshold == Stored(form.distanceThreshold)
      && s.value.distanceInterval == Stored(form.distanceInterval)
  {
    BuildConfigEntries(form);
    EntryReadBack(form.speedThreshold, 1);
    EntryReadBack(form.distanceThreshold, 1);
    EntryReadBack(form.distanceInterval, 1);
  }

  /** The time interval is written in milliseconds and read back in seconds. */
  lemma SetThenGetTimeInterval(form: ConfigForm, payload: seq<byte>)
    requires Fits(form.timeInterval, 1000)
    requires BuildConfig(form) == Success(payload)
    ensures var s := ParseSettings(payload);
      s.Success? && s.value.timeInterval == Stored(form.timeInterval) as real
  {
    BuildConfigEntries(form);
    SecondsReadBack(form.timeInterval);
  }

  /** Where the four numeric entries sit in the built payload. */
  lemma BuildConfigEntries(form: ConfigForm)
    requires BuildConfig(form).Success?
    ensures var p := BuildConfig(form).value;
      && p[3..7] == Entry(form.speedThreshold, 1).value
      && p[8..12] == Entry(form.distanceThreshold, 1).value
      && p[12..16] == Entry(form.timeInterval, 1000).value
      && p[29..33] == Entry(form.distanceInterval, 1).value
  {
  }

  lemma SecondsReadBack(v: Option<int>)
    requires Fits(v, 1000) && (v.Some? ==> v.value >= 0)
    ensures BigEndian(Entry(v, 1000).value) as real / 1000.0 == Stored(v) as real
  {
    EntryReadBack(v, 1000);
    var t := Stored(v);
    assert (1000 * t) as real / 1000.0 == t as real;
  }

  lemma ParseLayout(info: byte, speedFlag: byte, speed: seq<byte>, distanceFlag: byte, distance: seq<byte>,
                    time: seq<byte>, byDistance: byte, interval: seq<byte>, waas: byte)
    requires |speed| == 4 && |distance| == 4 && |time| == 4 && |interval| == 4
    ensures var s := ParseSettings(Layout(info, speedFlag, speed, distanceFlag, distance, time,
                                          byDistance, interval, waas));
      && s.Success?
      && s.value == DeviceSettings(
        infoType := if info == 1 then Some(PositionTimeSpeed)
                    else if info == 2 then Some(PositionTimeSpeedAltitude) else None,
        byTime := byDistance == 0,
        timeInterval := BigEndian(time) as real / 1000.0,
        distanceInterval := BigEndian(interval),
        speedDisabled := speedFlag == 1,
        speedThreshold := BigEndian(speed),
        distanceDisabled := distanceFlag == 1,
        distanceThreshold := BigEndian(distance),
        waas := waas == 1)
  {
  }

  lemma EntryReadBack(v: Option<int>, scale: nat)
    requires Fits(v, scale) && (v.Some? ==> v.value >= 0) && scale > 0
    ensures BigEndian(Entry(v, scale).value) == scale * Stored(v)
  {
    if v.Some? {
      Int2BytesRoundTrip(scale * v.value, 4);
    } else {
      assert ToBigEndian(0, 4) == [0, 0, 0, 0];
      BigEndianOfToBigEndian(0, 4);
    }
  }
}
