/** The `DG200` serial-port object. The port is replaced by the bytes the device will put on the
    line (`input`, fixed when the port is opened), a read position into them, and the record of
    everything written to the line. */
module Device {
  import opened Base
  import opened Codec
  import Frame

  /** Command bytes the program sends. */
  const GetConfigurationCommand: byte := 0xB7
  const GetIdCommand: byte := 0xBF

  /** The loop `for x in payload: checksum = checksum + int(x, 16)` shared by `send` and `receive`. */
  method SumBytes(s: seq<byte>) returns (total: nat)
    ensures total == Frame.Sum(s)
  {
    total := 0;
    for i := 0 to |s|
      invariant total == Frame.Sum(s[..i])
    {
      assert s[..i + 1][..i] == s[..i];
      total := total + s[i];
    }
    assert s[..|s|] == s;
  }

  class DG200 {
    /** Every byte the device will send, in order. */
    const input: seq<byte>
    /** How many of them have been read. */
    var pos: nat
    /** Every byte written to the device so far. */
    var written: seq<byte>
    /** `self.conf` and `self.id`: the last replies to the configuration and identity queries
        (None when `receive` returned None). */
    var conf: Option<seq<byte>>
    var id: Option<seq<byte>>

    ghost predicate Valid()
      reads this
    {
      pos <= |input|
    }

    constructor (line: seq<byte>)
      ensures Valid() && input == line && pos == 0 && written == []
      ensures conf == None && id == None
    {
      input, pos, written := line, 0, [];
      conf, id := None, None;
    }

    /** `read(n)`: at most n bytes, fewer when the line runs dry. */
    method Read(n: nat) returns (data: seq<byte>)
      requires Valid()
      modifies this`pos
      ensures Valid()
      ensures data == Frame.Read(input, old(pos), n) && pos == old(pos) + |data|
    {
      data := if pos + n <= |input| then input[pos..pos + n] else input[pos..];
      pos := pos + |data|;
    }

    /** `send(payload)`: writes the frame and returns the number of bytes written, or writes nothing
        and returns 0 when the payload is longer than 0xFFFF. */
    method Send(payload: seq<byte>) returns (sent: nat)
      requires Valid()
      modifies this`written
      ensures Valid()
      ensures Frame.EncodeFrame(payload).None? ==> sent == 0 && written == old(written)
      ensures Frame.EncodeFrame(payload).Some? ==>
        sent == |payload| + 8 && written == old(written) + Frame.EncodeFrame(payload).value
    {
      var sequence: seq<byte> := [0xA0, 0xA2];
      if |payload| > Frame.MaxPayload {
        return 0;
      }
      sequence := sequence + ToBigEndian(|payload|, 2);
      sequence := sequence + payload;
      var checksum := SumBytes(payload);
      checksum := checksum % Frame.SendModulus;
      sequence := sequence + ToBigEndian(checksum, 2);
      sequence := sequence + [0xB0, 0xB3];
      written := written + sequence;
      sent := |sequence|;
    }

    /** One pass of the loop body of `receive`: read a 4-byte header, then length + 4 more bytes,
        and compute the checksum verdict (`check` is the Python flag `check == 1`). */
    method ReadFrame() returns (a: Frame.Attempt)
      requires Valid()
      modifies this`pos
      ensures Valid()
      ensures a == Frame.ReadAttempt(input, old(pos))
      ensures a.Short? ==> pos == |input|
      ensures a.Broken? || a.Retry? || a.Accept? ==> pos == a.next
    {
      var header := Read(4);
      if |header| != 4 {
        return Frame.Short;
      }
      var length := (header[2] as int) * 256 + header[3] as int;
      var payload := Read(length + 4);
      if |payload| <= 2 {
        // `payload[0]` or `int('', 16)` raises
        return Frame.Broken(pos);
      }
      var checksum := SumBytes(payload[..Frame.DropLast4(|payload|)]);
      checksum := checksum % Frame.CheckModulus;
      var check := BigEndian(payload[Frame.DropLast4(|payload|)..|payload| - 2]) != checksum;
      if payload[0] == Frame.NotReady || check {
        return Frame.Retry(pos);
      }
      if |payload| < 4 {
        // the fourth `payload.pop()` raises
        return Frame.Broken(pos);
      }
      return Frame.Accept(payload[..|payload| - 4], pos);
    }

    /** `receive()`: reads frames until one is ready and passes its checksum, and returns its body
        without the checksum and end marker. */
    method Receive() returns (r: Result<seq<byte>>)
      requires Valid()
      modifies this`pos
      ensures Valid()
      ensures Frame.Received(r, pos) == Frame.Receive(input, old(pos))
    {
      // the Python loop condition `payload[0] == '0x12' or check == 1` is the Retry case
      while true
        invariant Valid() && old(pos) <= pos
        invariant Frame.Receive(input, old(pos)) == Frame.Receive(input, pos)
        decreases |input| - pos
      {
        var a := ReadFrame();
        match a
        case Short => return Failure(ShortRead);
        case Broken(_) => return Failure(Malformed);
        case Retry(_) =>
        case Accept(payload, _) => return Success(payload);
      }
    }

    /** `DG200.get_configuration`: sends 0xB7 and keeps the reply in `conf`. */
    method GetConfiguration() returns (r: Result<seq<byte>>)
      requires Valid()
      modifies this`pos, this`written, this`conf
      ensures Valid()
      ensures written == old(written) + Frame.EncodeFrame([GetConfigurationCommand]).value
      ensures Frame.Received(r, pos) == Frame.Receive(input, old(pos))
      ensures conf == (match r
                       case Success(reply) => Some(reply)
                       case Failure(ShortRead) => None
                       case Failure(Malformed) => old(conf))
    {
      var _ := Send([GetConfigurationCommand]);
      r := Receive();
      match r
      case Success(reply) => conf := Some(reply);
      case Failure(ShortRead) => conf := None;
      case Failure(Malformed) =>
    }

    /** `DG200.get_id`: sends 0xBF and keeps the reply in `id`. */
    method GetId() returns (r: Result<seq<byte>>)
      requires Valid()
      modifies this`pos, this`written, this`id
      ensures Valid()
      ensures written == old(written) + Frame.EncodeFrame([GetIdCommand]).value
      ensures Frame.Received(r, pos) == Frame.Receive(input, old(pos))
      ensures id == (match r
                     case Success(reply) => Some(reply)
                     case Failure(ShortRead) => None
                     case Failure(Malformed) => old(id))
    {
      var _ := Send([GetIdCommand]);
      r := Receive();
      match r
      case Success(reply) => id := Some(reply);
      case Failure(ShortRead) => id := None;
      case Failure(Malformed) =>
    }
  }
}
