/** Track points: `process_point` on one 20- or 32-byte record, and the part of `main.get_track`
    that turns the raw bytes of one track component into points. */
module Points {
  import opened Base
  import opened Codec
  import opened Arith

  /** 2**32: a 4-byte coordinate or altitude whose first byte is above 128 stands for -(2**32 - v). */
  const Wrap: nat := 0x1_0000_0000
  /** A coordinate field is DDDMMmmmm: degrees above 10^6, minutes x 10^4 below. */
  const Million: nat := 1000000

  /** One entry of the track: latitude and longitude in degrees, the ISO timestamp, the speed in m/s,
      and the altitude in the 32-byte format (the Python list then has five fields instead of four). */
  datatype Point = Point(lat: real, lon: real, time: string, speed: real, alt: Option<real>)

  /** `float(s[:-6]) + float(s[-6:]) / 600000` on the nine-digit text of m: whole degrees plus
      minutes x 10^4 turned into degrees. */
  function Magnitude(m: nat): real
  {
    (m / Million) as real + (m % Million) as real / 600000.0
  }

  function Coordinate(field: seq<byte>): real
    requires |field| == 4
  {
    assert Pow256(4) == Wrap;
    if field[0] > 128 then -Magnitude(Wrap - BigEndian(field)) else Magnitude(BigEndian(field))
  }

  function Altitude(field: seq<byte>): real
    requires |field| == 4
  {
    assert Pow256(4) == Wrap;
    if field[0] > 128 then -(Wrap - BigEndian(field)) as real / 10000.0
    else BigEndian(field) as real / 10000.0
  }

  /** `'20' + udate[4:6] + '-' + udate[2:4] + '-' + udate[:2] + 'T' + ...` with the time in bytes
      9-11 and the date (DDMMYY) in bytes 12-15, each printed with `'{0:0>6d}'`. */
  function Timestamp(raw: seq<byte>): string
    requires |raw| >= 16
  {
    IsoStamp(PadDecimal(BigEndian(raw[12..16]), 6), PadDecimal(BigEndian(raw[9..12]), 6))
  }

  function IsoStamp(date: string, time: string): string
    requires |date| >= 6 && |time| >= 6
  {
    "20" + date[4..6] + "-" + date[2..4] + "-" + date[0..2] + "T"
      + time[0..2] + ":" + time[2..4] + ":" + time[4..6] + "Z"
  }

  /** `process_point`: fails when the record is too short for `raw_point[16:20]` to be non-empty,
      gives None for a length other than 20 or 32, and otherwise the point, with an altitude exactly
      in the 32-byte format. */
  function ProcessPoint(raw: seq<byte>): (r: Result<Option<Point>>)
    ensures r.Success? <==> |raw| >= 17
    ensures r.Success? && r.value.Some? <==> |raw| == 20 || |raw| == 32
    ensures r.Success? && r.value.Some? ==> (r.value.value.alt.Some? <==> |raw| == 32)
  {
    if |raw| < 17 then Failure(Malformed)
    else if |raw| != 20 && |raw| != 32 then Success(None)
    else
      var alt := if |raw| == 32 then Some(Altitude(raw[20..24])) else None;
      Success(Some(Point(Coordinate(raw[0..4]), Coordinate(raw[4..8]), Timestamp(raw),
                         BigEndian(raw[16..20]) as real / 100.0 / 3.6, alt)))
  }

  // ---- coordinates and timestamps -----------------------------------------------------------

  /** A coordinate is negative exactly when its first byte is above 128. */
  lemma CoordinateSign(field: seq<byte>)
    requires |field| == 4
    ensures Coordinate(field) < 0.0 <==> field[0] > 128
  {
    assert Pow256(4) == Wrap;
    var v := BigEndian(field);
    if field[0] > 128 {
      var m: nat := Wrap - v;
      assert m == (m / Million) * Million + m % Million;
    }
  }

  /** The first byte of a big-endian field is its value divided by 256^k. */
  lemma {:induction false} FirstByte(n: nat, k: nat)
    requires n < Pow256(k + 1)
    ensures ToBigEndian(n, k + 1)[0] == n / Pow256(k)
  {
    if k > 0 {
      DivBelow(n, 256, Pow256(k));
      FirstByte(n / 256, k - 1);
      DivDiv(n, 256, Pow256(k - 1));
    }
  }

  lemma MagnitudeOf(degrees: nat, minutes: nat)
    requires minutes < Million
    ensures Magnitude(degrees * Million + minutes) == degrees as real + minutes as real / 600000.0
  {
    DivUnique(degrees * Million + minutes, Million, degrees, minutes);
  }

  /** The device's encoding DDD MM.mmmm (value degrees x 10^6 + minutes x 10^4) decodes to
      degrees + minutes / 60, as a positive value when stored as is and as a negative value when
      stored as its 32-bit two's complement. */
  lemma CoordinateOfMinutes(degrees: nat, minutes: nat)
    requires minutes < Million
    requires 0 < degrees * Million + minutes <= 127 * Pow256(3)
    ensures var m := degrees * Million + minutes;
      && Coordinate(ToBigEndian(m, 4)) == degrees as real + minutes as real / 600000.0
      && Coordinate(ToBigEndian(Wrap - m, 4)) == -(degrees as real + minutes as real / 600000.0)
  {
    var m := degrees * Million + minutes;
    assert Pow256(4) == Wrap && Pow256(3) == 0x100_0000;
    MagnitudeOf(degrees, minutes);
    FirstByte(m, 3);
    DivBelow(m, Pow256(3), 128);
    BigEndianOfToBigEndian(m, 4);
    FirstByte(Wrap - m, 3);
    DivAtLeast(Wrap - m, Pow256(3), 129);
    BigEndianOfToBigEndian(Wrap - m, 4);
  }

  /** A record whose time field holds HHMMSS and whose date field holds DDMMYY is stamped
      20YY-MM-DDTHH:MM:SSZ. */
  lemma TimestampFields(raw: seq<byte>, day: nat, month: nat, year: nat, hour: nat, minute: nat, second: nat)
    requires |raw| >= 16
    requires day < 100 && month < 100 && year < 100 && hour < 100 && minute < 100 && second < 100
    requires BigEndian(raw[9..12]) == hour * 10000 + minute * 100 + second
    requires BigEndian(raw[12..16]) == day * 10000 + month * 100 + year
    ensures Timestamp(raw) == "20" + TwoDigits(year) + "-" + TwoDigits(month) + "-"
      + TwoDigits(day) + "T" + TwoDigits(hour) + ":" + TwoDigits(minute) + ":" + TwoDigits(second) + "Z"
  {
    var time := PadDecimal(hour * 10000 + minute * 100 + second, 6);
    var date := PadDecimal(day * 10000 + month * 100 + year, 6);
    assert Timestamp(raw) == IsoStamp(date, time);
    DigitPairs(hour, minute, second);
    DigitPairs(day, month, year);
    IsoStampOf(date, time, TwoDigits(day), TwoDigits(month), TwoDigits(year),
               TwoDigits(hour), TwoDigits(minute), TwoDigits(second));
  }

  lemma IsoStampOf(date: string, time: string, dd: string, mm: string, yy: string,
                   hh: string, mi: string, ss: string)
    requires |date| >= 6 && |time| >= 6
    requires date[0..2] == dd && date[2..4] == mm && date[4..6] == yy
    requires time[0..2] == hh && time[2..4] == mi && time[4..6] == ss
    ensures IsoStamp(date, time) == "20" + yy + "-" + mm + "-" + dd + "T" + hh + ":" + mi + ":" + ss + "Z"
  {
  }

  /** The altitude field is a signed 32-bit count of 1/10000 m: negative exactly when its first
      byte is above 128. */
  lemma AltitudeSign(field: seq<byte>)
    requires |field| == 4
    ensures Altitude(field) < 0.0 <==> field[0] > 128
  {
    assert Pow256(4) == Wrap;
  }

  // ---- one track component --------------------------------------------------------------------

  function PadBlock(k: nat): (r: seq<byte>)
    ensures |r| == k
  {
    seq(k, _ => 0xFF)
  }

  /** `while track_raw[-k:] == ['0xFF'] * k: del track_raw[-k:]`. */
  function StripPadding(s: seq<byte>, k: nat): (r: seq<byte>)
    requires k > 0
    ensures r <= s
    decreases |s|
  {
    if |s| >= k && s[|s| - k..] == PadBlock(k) then StripPadding(s[..|s| - k], k) else s
  }

  /** `del l[-n:]`, which empties a list shorter than n. */
  function DropLast(s: seq<byte>, n: nat): (r: seq<byte>)
    ensures |s| >= n ==> |r| == |s| - n
  {
    if |s| >= n then s[..|s| - n] else []
  }

  /** The n consecutive records of `size` bytes that start at `start`. */
  function Chunks(s: seq<byte>, start: nat, size: nat, n: nat): (r: seq<seq<byte>>)
    requires start + size * n <= |s|
    ensures |r| == n
    ensures forall i :: 0 <= i < n ==> |r[i]| == size
  {
    if n == 0 then []
    else
      MulLe(n - 1, n, size);
      Chunks(s, start, size, n - 1) + [s[start + size * (n - 1)..start + size * n]]
  }

  /** `process_point` over a list of records, appending in order; the first exception ends it. */
  function ProcessAll(records: seq<seq<byte>>): Result<seq<Option<Point>>>
  {
    if records == [] then Success([])
    else match ProcessAll(records[..|records| - 1])
      case Failure(e) => Failure(e)
      case Success(points) =>
        match ProcessPoint(records[|records| - 1])
        case Failure(e) => Failure(e)
        case Success(p) => Success(points + [p])
  }

  /** `bytes2int(track_raw[28:32])`, which raises on fewer than 29 bytes. */
  function Marker(raw: seq<byte>): Option<nat>
  {
    Bytes2Int(raw[Min(28, |raw|)..Min(32, |raw|)])
  }

  /** `int((len(track_raw) - 32) / 20 + 1)`, truncated toward zero: 0 below 32 bytes. */
  function Marker1Count(len: nat): (n: nat)
    ensures n >= 1 ==> 32 + 20 * (n - 1) <= len
  {
    if len >= 32 then
      MulLe((len - 32) / 20, (len - 32) / 20, 20);
      (len - 32) / 20 + 1
    else 0
  }

  /** The 20-byte records after the first point: `range(1, nb_points)`. */
  function LaterRecords(body: seq<byte>): (r: seq<seq<byte>>)
    ensures |r| == (if |body| >= 32 then (|body| - 32) / 20 else 0)
    ensures forall i :: 0 <= i < |r| ==> |r[i]| == 20
  {
    var n := Marker1Count(|body|);
    if n >= 1 then Chunks(body, 32, 20, n - 1) else []
  }

  /** Format 1: drop the 16-byte trailer and the 20-byte pad blocks, then one 32-byte point and
      20-byte points after it. */
  function Format1Points(raw: seq<byte>): Result<seq<Option<Point>>>
  {
    var body := StripPadding(DropLast(raw, 16), 20);
    match ProcessPoint(body[..Min(32, |body|)])
    case Failure(e) => Failure(e)
    case Success(first) =>
      match ProcessAll(LaterRecords(body))
      case Failure(e) => Failure(e)
      case Success(rest) => Success([first] + rest)
  }

  /** The points `get_track` appends for one downloaded component `track_raw`. Format 1 drops the 16
      trailing pad bytes and the 20-byte pad blocks, reads the first point from the first 32 bytes
      and 20-byte points after it; format 2 drops 32-byte pad blocks and reads 32-byte points; any
      other marker contributes nothing. */
  function BlockPoints(raw: seq<byte>): Result<seq<Option<Point>>>
  {
    match Marker(raw)
    case None => Failure(Malformed)
    case Some(marker) =>
      if marker == 1 then Format1Points(raw)
      else if marker == 2 then
        var body := StripPadding(raw, 32);
        ProcessAll(Chunks(body, 0, 32, |body| / 32))
      else Success([])
  }

  // ---- properties of one track component ------------------------------------------------

  /** How many blocks `StripPadding` removes. */
  function StrippedBlocks(s: seq<byte>, k: nat): nat
    requires k > 0
    decreases |s|
  {
    if |s| >= k && s[|s| - k..] == PadBlock(k) then StrippedBlocks(s[..|s| - k], k) + 1 else 0
  }

  /** One more block of pad bytes. */
  lemma PadBlockStep(k: nat, n: nat)
    ensures PadBlock(k * (n + 1)) == PadBlock(k * n) + PadBlock(k)
  {
    assert k * (n + 1) == k * n + k;
  }

  /** A sequence ending in a pad block is what comes before it plus that block. */
  lemma SplitPadded(s: seq<byte>, k: nat)
    requires |s| >= k && s[|s| - k..] == PadBlock(k)
    ensures s == s[..|s| - k] + PadBlock(k)
  {
  }

  /** Stripping looks only at the last block. */
  lemma StripOnce(x: seq<byte>, k: nat)
    requires k > 0
    ensures StripPadding(x + PadBlock(k), k) == StripPadding(x, k)
  {
    var s := x + PadBlock(k);
    assert s[|s| - k..] == PadBlock(k) && s[..|s| - k] == x;
  }

  /** Stripping removes a whole number of blocks, all of them pad bytes, and stops at the first
      block from the end that is not all pad. */
  lemma {:induction false} StripPaddingSpec(s: seq<byte>, k: nat)
    requires k > 0
    ensures var r := StripPadding(s, k);
      && s == r + PadBlock(k * StrippedBlocks(s, k))
      && !(|r| >= k && r[|r| - k..] == PadBlock(k))
    decreases |s|
  {
    if |s| >= k && s[|s| - k..] == PadBlock(k) {
      var t := s[..|s| - k];
      StripPaddingSpec(t, k);
      var r := StripPadding(t, k);
      var n := StrippedBlocks(t, k);
      assert StripPadding(s, k) == r;
      assert StrippedBlocks(s, k) == n + 1;
      SplitPadded(s, k);
      PadBlockStep(k, n);
      Concat3(r, PadBlock(k * n), PadBlock(k));
      assert s == r + PadBlock(k * (n + 1));
    } else {
      assert s + PadBlock(k * 0) == s;
    }
  }

  /** However many pad blocks follow a record list that does not itself end in one, stripping
      gives back exactly that list. */
  lemma {:induction false} StripPaddingOfPadded(body: seq<byte>, k: nat, blocks: nat)
    requires k > 0
    requires !(|body| >= k && body[|body| - k..] == PadBlock(k))
    ensures StripPadding(body + PadBlock(k * blocks), k) == body
  {
    if blocks > 0 {
      var n := blocks - 1;
      PadBlockStep(k, n);
      Concat3(body, PadBlock(k * n), PadBlock(k));
      StripOnce(body + PadBlock(k * n), k);
      StripPaddingOfPadded(body, k, n);
    } else {
      assert body + PadBlock(k * 0) == body;
    }
  }

  /** `process_point` over a list succeeds exactly when every record has at least 17 bytes, and gives
      one entry per record, in order. */
  lemma {:induction false} ProcessAllSpec(records: seq<seq<byte>>)
    ensures ProcessAll(records).Success? <==> forall i :: 0 <= i < |records| ==> |records[i]| >= 17
    ensures ProcessAll(records).Success? ==>
      && |ProcessAll(records).value| == |records|
      && forall i :: 0 <= i < |records| ==> ProcessAll(records).value[i] == ProcessPoint(records[i]).value
  {
    if records != [] {
      var init, last := records[..|records| - 1], records[|records| - 1];
      ProcessAllSpec(init);
      var prev, p := ProcessAll(init), ProcessPoint(last);
      if prev.Failure? {
        assert ProcessAll(records) == Failure(prev.error);
        var j :| 0 <= j < |init| && |init[j]| < 17;
        assert records[j] == init[j];
      } else if p.Failure? {
        assert ProcessAll(records) == Failure(p.error);
      } else {
        var all := prev.value + [p.value];
        assert ProcessAll(records) == Success(all);
        forall i | 0 <= i < |records|
          ensures |records[i]| >= 17 && all[i] == ProcessPoint(records[i]).value
        {
          if i < |init| {
            assert records[i] == init[i];
          }
        }
      }
    }
  }

  /** Format 2: one point with altitude per 32-byte record left after stripping the pad blocks. */
  lemma Marker2Block(raw: seq<byte>)
    requires Marker(raw) == Some(2)
    ensures var body := StripPadding(raw, 32);
      && BlockPoints(raw).Success?
      && |BlockPoints(raw).value| == |body| / 32
      && forall i :: 0 <= i < |body| / 32 ==>
           && BlockPoints(raw).value[i].Some?
           && BlockPoints(raw).value[i].value.alt.Some?
  {
    var body := StripPadding(raw, 32);
    ProcessAllSpec(Chunks(body, 0, 32, |body| / 32));
  }

  /** Format 1: the first point comes from the first 32 bytes (at most) after stripping, and one
      point without altitude from every further 20-byte record; the component fails exactly when
      fewer than 17 bytes are left. */
  lemma Marker1Block(raw: seq<byte>)
    requires Marker(raw) == Some(1)
    ensures var body := StripPadding(DropLast(raw, 16), 20);
      && (BlockPoints(raw).Success? <==> |body| >= 17)
      && (BlockPoints(raw).Success? ==>
        var points := BlockPoints(raw).value;
        && |points| == (if |body| >= 32 then (|body| - 32) / 20 + 1 else 1)
        && (points[0].Some? <==> |body| >= 32 || |body| == 20)
        && forall i :: 1 <= i < |points| ==> points[i].Some? && points[i].value.alt.None?)
  {
    var body := StripPadding(DropLast(raw, 16), 20);
    ProcessAllSpec(LaterRecords(body));
  }

  /** A format-1 component of 32 + 20 k record bytes followed by the 16 trailing pad bytes and
      any number of 20-byte pad blocks decodes to k + 1 points. */
  lemma Marker1PointCount(body: seq<byte>, k: nat, blocks: nat)
    requires |body| == 32 + 20 * k
    requires BigEndian(body[28..32]) == 1
    requires body[|body| - 20..] != PadBlock(20)
    ensures var raw := body + PadBlock(20 * blocks) + PadBlock(16);
      BlockPoints(raw).Success? && |BlockPoints(raw).value| == k + 1
  {
    var raw := body + PadBlock(20 * blocks) + PadBlock(16);
    assert raw[28..32] == body[28..32];
    assert DropLast(raw, 16) == body + PadBlock(20 * blocks);
    StripPaddingOfPadded(body, 20, blocks);
    Marker1Block(raw);
  }

  /** A format-2 component of m 32-byte records followed by any number of 32-byte pad blocks
      decodes to m points. */
  lemma Marker2PointCount(body: seq<byte>, m: nat, blocks: nat)
    requires |body| == 32 * m && m > 0
    requires BigEndian(body[28..32]) == 2
    requires body[|body| - 32..] != PadBlock(32)
    ensures var raw := body + PadBlock(32 * blocks);
      BlockPoints(raw).Success? && |BlockPoints(raw).value| == m
  {
    var raw := body + PadBlock(32 * blocks);
    assert raw[28..32] == body[28..32];
    StripPaddingOfPadded(body, 32, blocks);
    Marker2Block(raw);
  }

  // ---- the loops of get_track -----------------------------------------------------------------

  method StripTrailing(s: seq<byte>, k: nat) returns (r: seq<byte>)
    requires k > 0
    ensures r == StripPadding(s, k)
  {
    r := s;
    while |r| >= k && r[|r| - k..] == PadBlock(k)
      invariant StripPadding(r, k) == StripPadding(s, k)
      decreases |r|
    {
      r := r[..|r| - k];
    }
  }

  method ProcessChunks(s: seq<byte>, start: nat, size: nat, n: nat) returns (r: Result<seq<Option<Point>>>)
    requires start + size * n <= |s|
    ensures r == ProcessAll(Chunks(s, start, size, n))
  {
    var points := [];
    for i := 0 to n
      invariant ProcessAll(Chunks(s, start, size, i)) == Success(points)
    {
      ChunksStep(s, start, size, i, n);
      var p := ProcessPoint(s[start + size * i..start + size * (i + 1)]);
      if p.Failure? {
        ProcessAllFails(s, start, size, i + 1, n);
        return Failure(Malformed);
      }
      points := points + [p.value];
    }
    r := Success(points);
  }

  lemma ChunksStep(s: seq<byte>, start: nat, size: nat, i: nat, n: nat)
    requires i < n && start + size * n <= |s|
    ensures start + size * (i + 1) <= |s|
    ensures Chunks(s, start, size, i + 1)[..i] == Chunks(s, start, size, i)
    ensures Chunks(s, start, size, i + 1)[i] == s[start + size * i..start + size * (i + 1)]
  {
    MulLe(i + 1, n, size);
  }

  /** Once a prefix of the records fails, so does every longer prefix. */
  lemma {:induction false} ProcessAllFails(s: seq<byte>, start: nat, size: nat, i: nat, n: nat)
    requires i <= n && start + size * n <= |s|
    requires ProcessAll(Chunks(s, start, size, i)).Failure?
    ensures ProcessAll(Chunks(s, start, size, n)) == Failure(Malformed)
    decreases n - i
  {
    if i < n {
      ChunksStep(s, start, size, i, n);
      ProcessAllFails(s, start, size, i + 1, n);
    } else {
      ProcessAllError(Chunks(s, start, size, n));
    }
  }

  lemma {:induction false} ProcessAllError(records: seq<seq<byte>>)
    ensures ProcessAll(records).Failure? ==> ProcessAll(records) == Failure(Malformed)
  {
    if records != [] {
      ProcessAllError(records[..|records| - 1]);
    }
  }

  /** The block decoding of `get_track`, statement by statement. */
  method DecodeBlock(raw: seq<byte>) returns (r: Result<seq<Option<Point>>>)
    ensures r == BlockPoints(raw)
  {
    var marker := Bytes2Int(raw[Min(28, |raw|)..Min(32, |raw|)]);
    if marker.None? {
      return Failure(Malformed);
    }
    if marker.value == 1 {
      r := DecodeFormat1(raw);
    } else if marker.value == 2 {
      var body := StripTrailing(raw, 32);
      r := ProcessChunks(body, 0, 32, |body| / 32);
    } else {
      r := Success([]);
    }
  }

  /** The format 1 branch of `get_track`: the `del` statements, the first point and the loop over
      the later ones. */
  method DecodeFormat1(raw: seq<byte>) returns (r: Result<seq<Option<Point>>>)
    ensures r == Format1Points(raw)
  {
    var body := DropLast(raw, 16);
    body := StripTrailing(body, 20);
    var first := ProcessPoint(body[..Min(32, |body|)]);
    if first.Failure? {
      return Failure(first.error);
    }
    var n := Marker1Count(|body|);
    assert LaterRecords(body) == if n >= 1 then Chunks(body, 32, 20, n - 1) else [];
    var rest := Success([]);
    if n >= 1 {
      rest := ProcessChunks(body, 32, 20, n - 1);
      if rest.Failure? {
        return Failure(rest.error);
      }
    }
    r := Success([first.value] + rest.value);
  }
}
