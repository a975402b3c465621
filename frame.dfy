/** The DG-200 wire frame `A0 A2 <len_hi> <len_lo> <payload> <chk_hi> <chk_lo> B0 B3`, as `DG200.send`
    builds it and as `DG200.receive` reads and checks it. The two sides reduce the checksum by
    different moduli (2^15 - 1 when sending, 2^15 when checking); both are kept as written. */
module Frame {
  import opened Base
  import opened Codec
  import opened Arith

  const MaxPayload: nat := 0xFFFF
  /** `2**15-1` in `send`. */
  const SendModulus: nat := 32767
  /** `2**15` in `receive`. */
  const CheckModulus: nat := 32768
  /** A reply whose first byte is 0x12 means "device not ready": `receive` reads again. */
  const NotReady: byte := 0x12

  function Sum(s: seq<byte>): nat
  {
    if s == [] then 0 else Sum(s[..|s| - 1]) + s[|s| - 1]
  }

  lemma {:induction false} SumBound(s: seq<byte>)
    ensures Sum(s) <= 255 * |s|
  {
    if s != [] {
      SumBound(s[..|s| - 1]);
    }
  }

  /** A frame around `payload` carrying the 16-bit checksum field `chk`. */
  function FrameBytes(payload: seq<byte>, chk: nat): (f: seq<byte>)
    requires |payload| <= MaxPayload && chk < 0x10000
    ensures |f| == |payload| + 8
  {
    [0xA0, 0xA2] + ToBigEndian(|payload|, 2) + payload + ToBigEndian(chk, 2) + [0xB0, 0xB3]
  }

  /** The bytes `DG200.send(payload)` writes, or None when it refuses a payload longer than 0xFFFF. */
  function EncodeFrame(payload: seq<byte>): (r: Option<seq<byte>>)
    ensures r.None? <==> |payload| > MaxPayload
    ensures r.Some? ==> (
      && |r.value| == |payload| + 8
      && r.value[..2] == [0xA0, 0xA2] && r.value[|payload| + 6..] == [0xB0, 0xB3]
      && BigEndian(r.value[2..4]) == |payload|
      && r.value[4..|payload| + 4] == payload
      && BigEndian(r.value[|payload| + 4..|payload| + 6]) == Sum(payload) % SendModulus)
  {
    if |payload| > MaxPayload then None
    else
      var f := FrameBytes(payload, Sum(payload) % SendModulus);
      assert f[2..4] == ToBigEndian(|payload|, 2);
      assert f[|payload| + 4..|payload| + 6] == ToBigEndian(Sum(payload) % SendModulus, 2);
      BigEndianOfToBigEndian(|payload|, 2);
      BigEndianOfToBigEndian(Sum(payload) % SendModulus, 2);
      Some(f)
  }

  // ---- receiving ----------------------------------------------------------------------------

  /** `read(n)` on a line that will deliver `input` and has delivered `input[..pos]` so far:
      at most n bytes, fewer only when the line runs dry (the read times out). */
  function Read(input: seq<byte>, pos: nat, n: nat): (r: seq<byte>)
    requires pos <= |input|
    ensures |r| <= n && pos + |r| <= |input| && r == input[pos..pos + |r|]
    ensures |r| < n ==> pos + |r| == |input|
  {
    if pos + n <= |input| then input[pos..pos + n] else input[pos..]
  }

  function DropLast4(n: nat): nat
  {
    if n >= 4 then n - 4 else 0
  }

  /** `sum(payload[:-4]) % 2**15`, the checksum `receive` expects. */
  function ExpectedChecksum(raw: seq<byte>): nat
  {
    Sum(raw[..DropLast4(|raw|)]) % CheckModulus
  }

  /** `int(''.join(payload[-4:-2]), 16)`, the checksum field `receive` finds; the slice is
      empty, and Python raises, unless there are at least 3 bytes. */
  function ChecksumField(raw: seq<byte>): nat
    requires |raw| >= 3
  {
    BigEndian(raw[DropLast4(|raw|)..|raw| - 2])
  }

  /** One pass of the `while` loop of `receive`, starting at `pos`. */
  datatype Attempt =
    | Short               // fewer than 4 header bytes: `receive` returns None
    | Broken(next: nat)   // a Python exception on a body of at most 3 bytes
    | Retry(next: nat)    // not-ready sentinel or checksum mismatch: read another frame
    | Accept(payload: seq<byte>, next: nat)

  function ReadAttempt(input: seq<byte>, pos: nat): (a: Attempt)
    requires pos <= |input|
    ensures a.Broken? || a.Retry? ==> pos + 4 <= a.next <= |input|
    ensures a.Accept? ==> a.next == pos + |a.payload| + 8 <= |input|
    ensures a.Accept? ==> a.payload == input[pos + 4..a.next - 4]
  {
    var header := Read(input, pos, 4);
    if |header| != 4 then Short
    else
      var length := (header[2] as int) * 256 + header[3] as int;
      var raw := Read(input, pos + 4, length + 4);
      var next := pos + 4 + |raw|;
      if |raw| <= 2 then Broken(next)
      else if raw[0] == NotReady || ChecksumField(raw) != ExpectedChecksum(raw) then Retry(next)
      else if |raw| < 4 then Broken(next)
      else Accept(raw[..|raw| - 4], next)
  }

  /** What `receive` returns and where it leaves the line. */
  datatype Received = Received(result: Result<seq<byte>>, next: nat)

  /** `DG200.receive` as a function of the line contents: it loops while the reply starts with the
      not-ready byte or fails its checksum, and each pass consumes at least the 4 header bytes. */
  function Receive(input: seq<byte>, pos: nat): (r: Received)
    requires pos <= |input|
    ensures pos <= r.next <= |input|
    ensures r.result.Success? ==> pos + |r.result.value| + 8 <= r.next
    decreases |input| - pos
  {
    match ReadAttempt(input, pos)
    case Short => Received(Failure(ShortRead), |input|)
    case Broken(next) => Received(Failure(Malformed), next)
    case Retry(next) => Receive(input, next)
    case Accept(payload, next) => Received(Success(payload), next)
  }

  // ---- properties ---------------------------------------------------------------------------

  /** The pass of the `receive` loop that accepted the reply: a later pass that read the payload
      and stopped where `receive` stops. */
  lemma {:induction false} AcceptingPass(input: seq<byte>, pos: nat) returns (q: nat)
    requires pos <= |input|
    ensures var r := Receive(input, pos);
      r.result.Success? ==> pos <= q <= |input| && ReadAttempt(input, q) == Accept(r.result.value, r.next)
    decreases |input| - pos
  {
    q := pos;
    var a := ReadAttempt(input, pos);
    if a.Retry? {
      ReceiveRetry(input, pos, a.next);
      q := AcceptingPass(input, a.next);
    }
  }

  /** `payload` is the body of a frame whose trailer ends at `next` on the line. */
  predicate FrameBodyAt(input: seq<byte>, payload: seq<byte>, next: nat)
  {
    |payload| + 4 <= next <= |input| && payload == input[next - |payload| - 4..next - 4]
  }

  lemma AcceptedSlice(input: seq<byte>, q: nat, payload: seq<byte>, next: nat)
    requires q <= |input| && ReadAttempt(input, q) == Accept(payload, next)
    ensures FrameBodyAt(input, payload, next)
  {
  }

  /** The payload `receive` returns is the body of the last frame it read: the bytes between that
      frame's 4 header bytes and its 4 trailer bytes, which end where reading stops. */
  lemma ReceivePayload(input: seq<byte>, pos: nat)
    requires pos <= |input|
    ensures var r := Receive(input, pos);
      r.result.Success? ==> FrameBodyAt(input, r.result.value, r.next)
  {
    var q := AcceptingPass(input, pos);
    var r := Receive(input, pos);
    if r.result.Success? {
      AcceptedSlice(input, q, r.result.value, r.next);
    }
  }

  lemma BigEndianPair(s: seq<byte>)
    requires |s| == 2
    ensures BigEndian(s) == (s[0] as int) * 256 + s[1] as int
  {
    assert s[..1][..0] == [];
  }

  /** A frame after its four header bytes. */
  function FrameBody(payload: seq<byte>, chk: nat): seq<byte>
    requires chk < 0x10000
  {
    payload + ToBigEndian(chk, 2) + [0xB0, 0xB3]
  }

  /** The header of a frame gives the payload length; the body follows it. */
  lemma FrameSplit(payload: seq<byte>, chk: nat)
    requires |payload| <= MaxPayload && chk < 0x10000
    ensures var f := FrameBytes(payload, chk);
      (f[2] as int) * 256 + f[3] as int == |payload| && f[4..] == FrameBody(payload, chk)
  {
    var n := |payload|;
    ToBigEndianPair(n);
    var lead := [0xA0, 0xA2] + ToBigEndian(n, 2);
    assert FrameBytes(payload, chk) == lead + FrameBody(payload, chk);
  }

  /** The body of a frame yields the payload and carries `chk` as its checksum field. */
  lemma BodyFields(payload: seq<byte>, chk: nat)
    requires chk < 0x10000
    ensures var raw := FrameBody(payload, chk);
      && |raw| == |payload| + 4 && raw[..DropLast4(|raw|)] == payload && ChecksumField(raw) == chk
      && raw[0] == (payload + ToBigEndian(chk, 2))[0]
  {
    var raw := FrameBody(payload, chk);
    var n := |payload|;
    assert raw[..n] == payload;
    assert raw[n..n + 2] == ToBigEndian(chk, 2);
    assert Pow256(2) == 0x10000;
    BigEndianOfToBigEndian(chk, 2);
  }

  lemma SliceOnLine(input: seq<byte>, pos: nat, s: seq<byte>, i: nat, j: nat)
    requires OnLine(input, pos, s) && i <= j <= |s|
    ensures input[pos + i..pos + j] == s[i..j]
  {
    forall k | 0 <= k < j - i
      ensures input[pos + i..pos + j][k] == s[i..j][k]
    {
      assert input[pos + i + k] == input[pos..pos + |s|][i + k];
    }
  }

  /** One pass of `receive` over a well-formed frame: it is accepted exactly when its first body byte
      is not the not-ready byte and its checksum field is the payload sum modulo 2^15. */
  lemma {:induction false} AttemptOnFrame(input: seq<byte>, pos: nat, payload: seq<byte>, chk: nat)
    requires |payload| <= MaxPayload && chk < 0x10000
    requires pos + |payload| + 8 <= |input| && input[pos..pos + |payload| + 8] == FrameBytes(payload, chk)
    ensures var next := pos + |payload| + 8;
      ReadAttempt(input, pos) ==
        if (payload + ToBigEndian(chk, 2))[0] != NotReady && chk == Sum(payload) % CheckModulus
        then Accept(payload, next) else Retry(next)
  {
    var f := FrameBytes(payload, chk);
    var n := |payload|;
    FrameSplit(payload, chk);
    SliceOnLine(input, pos, f, 0, 4);
    SliceOnLine(input, pos, f, 4, n + 8);
    BodyFields(payload, chk);
    var header := Read(input, pos, 4);
    assert header == f[0..4];
    var length := (header[2] as int) * 256 + header[3] as int;
    assert length == n;
    var raw := Read(input, pos + 4, length + 4);
    assert raw == f[4..n + 8] == f[4..];
    assert ExpectedChecksum(raw) == Sum(payload) % CheckModulus;
  }

  /** The two moduli agree on every sum an encodable frame can carry exactly when it is below 2^15 - 1. */
  lemma ModuliAgree(s: nat)
    requires s <= 255 * MaxPayload
    ensures s % SendModulus == s % CheckModulus <==> s < SendModulus
  {
  }

  /** Send/receive round trip: a frame written by `send`, read back by `receive` from a line that holds
      nothing else, yields the payload exactly when the payload sum is below 2^15 - 1; otherwise the
      checksum check fails, `receive` reads again and finds the line empty. */
  lemma {:induction false} SendThenReceive(payload: seq<byte>)
    requires |payload| <= MaxPayload
    requires payload == [] || payload[0] != NotReady
    ensures var f := EncodeFrame(payload).value;
      Receive(f, 0) ==
        if Sum(payload) < SendModulus then Received(Success(payload), |f|)
        else Received(Failure(ShortRead), |f|)
  {
    var chk := Sum(payload) % SendModulus;
    var f := FrameBytes(payload, chk);
    assert f[0..|payload| + 8] == f;
    AttemptOnFrame(f, 0, payload, chk);
    SumBound(payload);
    MulLe(|payload|, MaxPayload, 255);
    ModuliAgree(Sum(payload));
    if payload == [] {
      ToBigEndianPair(chk);
    }
    if Sum(payload) >= SendModulus {
      assert ReadAttempt(f, |f|) == Short;
    }
  }

  /** A concrete payload where the moduli disagree: 128 bytes 0xFF and one byte 0x7F sum to 32767,
      `send` writes checksum 0 and `receive` expects 32767. */
  lemma ChecksumModuliDisagree()
    ensures var p := seq(128, _ => 0xFF) + [0x7F];
      Sum(p) == 32767 && Sum(p) % SendModulus == 0 && Sum(p) % CheckModulus == 32767
      && Receive(EncodeFrame(p).value, 0).result == Failure(ShortRead)
  {
    var p: seq<byte> := seq(128, _ => 0xFF) + [0x7F];
    SumConstant(128, 0xFF);
    assert p[..|p| - 1] == seq(128, _ => 0xFF);
    SendThenReceive(p);
  }

  lemma {:induction false} SumConstant(n: nat, b: byte)
    ensures Sum(seq(n, _ => b)) == n * b
  {
    if n > 0 {
      assert seq(n, _ => b)[..n - 1] == seq(n - 1, _ => b);
      SumConstant(n - 1, b);
    }
  }

  /** The reply frame the reading side accepts: checksum modulo 2^15. */
  function ReplyFrame(payload: seq<byte>): (f: seq<byte>)
    requires |payload| <= MaxPayload
    ensures |f| == |payload| + 8
  {
    FrameBytes(payload, Sum(payload) % CheckModulus)
  }

  /** The line holds `s` from `pos` on. */
  predicate OnLine(input: seq<byte>, pos: nat, s: seq<byte>)
  {
    pos + |s| <= |input| && input[pos..pos + |s|] == s
  }

  /** Two pieces held one after the other. */
  lemma SplitOnLine(input: seq<byte>, pos: nat, a: seq<byte>, b: seq<byte>)
    requires OnLine(input, pos, a + b)
    ensures OnLine(input, pos, a) && OnLine(input, pos + |a|, b)
  {
    assert input[pos..pos + |a|] == (a + b)[..|a|];
    assert input[pos + |a|..pos + |a| + |b|] == (a + b)[|a|..];
  }

  /** `receive` returns the payload of a reply frame that is ready. */
  lemma {:induction false} ReceiveReply(input: seq<byte>, pos: nat, payload: seq<byte>)
    requires |payload| <= MaxPayload && (payload == [] || payload[0] != NotReady)
    requires pos + |payload| + 8 <= |input| && input[pos..pos + |payload| + 8] == ReplyFrame(payload)
    ensures Receive(input, pos) == Received(Success(payload), pos + |payload| + 8)
  {
    var chk := Sum(payload) % CheckModulus;
    AttemptOnFrame(input, pos, payload, chk);
    ToBigEndianPair(chk);
    assert (payload + ToBigEndian(chk, 2))[0] != NotReady;
    ReceiveAccept(input, pos, payload, pos + |payload| + 8);
  }

  /** A pass of the `receive` loop that reads again. */
  lemma ReceiveRetry(input: seq<byte>, pos: nat, next: nat)
    requires pos <= next <= |input| && ReadAttempt(input, pos) == Retry(next)
    ensures Receive(input, pos) == Receive(input, next)
  {
  }

  /** A pass of the `receive` loop that accepts the reply. */
  lemma ReceiveAccept(input: seq<byte>, pos: nat, payload: seq<byte>, next: nat)
    requires pos <= next <= |input| && ReadAttempt(input, pos) == Accept(payload, next)
    ensures Receive(input, pos) == Received(Success(payload), next)
  {
  }
}
