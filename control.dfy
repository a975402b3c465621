/** The protocol logic of the program's window class `main`: writing the configuration, reading it
    back, reading the track list into the tree view, and downloading a track into a GPX file. The
    widgets are replaced by the values they hold (the configuration form) or show (the tree rows). */
module Control {
  import opened Base
  import opened Codec
  import Frame
  import Device
  import Config
  import Headers
  import Points
  import Gpx

  /** "get track command". */
  const TrackCommand: byte := 0xB5
  /** The erase command, sent as `BA FF FF`. */
  const ClearCommand: byte := 0xBA

  /** The verdict of `clear_memory` on the device's reply: `bytes2int(res[1:5]) == 0`, which raises
      when the slice is empty (a reply of at most one byte). */
  function ClearStatus(res: seq<byte>): (r: Result<bool>)
    ensures r.Success? <==> |res| >= 2
    ensures r.Success? ==> (r.value <==> forall k :: 1 <= k < |res| && k < 5 ==> res[k] == 0)
  {
    var status := Bytes2Int(res[Min(1, |res|)..Min(5, |res|)]);
    if status.None? then Failure(Malformed)
    else
      StatusField(res);
      Success(status.value == 0)
  }

  /** The status field is zero exactly when reply bytes 1 to 4 (those present) are. */
  lemma StatusField(res: seq<byte>)
    requires |res| >= 2
    ensures BigEndian(res[1..Min(5, |res|)]) == 0 <==> forall k :: 1 <= k < |res| && k < 5 ==> res[k] == 0
  {
    var field := res[1..Min(5, |res|)];
    BigEndianZero(field);
    assert forall k :: 0 <= k < |field| ==> field[k] == res[k + 1];
    assert forall k :: 1 <= k < |res| && k < 5 ==> res[k] == field[k - 1];
  }

  /** A big-endian number is zero exactly when all its bytes are. */
  lemma {:induction false} BigEndianZero(s: seq<byte>)
    ensures BigEndian(s) == 0 <==> forall k :: 0 <= k < |s| ==> s[k] == 0
  {
    if s != [] {
      var init := s[..|s| - 1];
      BigEndianZero(init);
      assert forall k :: 0 <= k < |init| ==> init[k] == s[k];
    }
  }

  /** The request for one track component: the command and the component index in two bytes. */
  function TrackRequest(index: nat): (p: seq<byte>)
    ensures |p| == 3 && p[0] == TrackCommand && p[1..] == Int2Bytes(index, 2).value
  {
    [TrackCommand] + Int2Bytes(index, 2).value
  }

  /** The request frames for the components, in order. */
  function TrackRequests(indices: seq<nat>): seq<byte>
  {
    if indices == [] then []
    else Frame.EncodeFrame(TrackRequest(indices[0])).value + TrackRequests(indices[1..])
  }

  /** `part = receive(); part.pop(0)`: a reply without its command byte; `pop` raises on None and on
      an empty reply. */
  function ReceivePart(input: seq<byte>, pos: nat): (r: Frame.Received)
    requires pos <= |input|
    ensures pos <= r.next <= |input|
  {
    var reply := Frame.Receive(input, pos);
    match reply.result
    case Failure(_) => reply
    case Success(p) =>
      if p == [] then Frame.Received(Failure(Malformed), reply.next)
      else Frame.Received(Success(p[1..]), reply.next)
  }

  /** One component read by `get_track`: its points (or the exception), the read position after
      it, and how many replies were taken apart (`progress_counter` grows by one per reply). */
  datatype Fetched = Fetched(result: Result<seq<Option<Points.Point>>>, next: nat, parts: nat)

  /** The two replies of one component, each without its command byte, decoded as one block. */
  function ReadComponent(input: seq<byte>, pos: nat): (c: Fetched)
    requires pos <= |input|
    ensures pos <= c.next <= |input| && c.parts <= 2
    ensures c.result.Success? ==> c.parts == 2
  {
    var first := ReceivePart(input, pos);
    match first.result
    case Failure(e) => Fetched(Failure(e), first.next, 0)
    case Success(a) =>
      var second := ReceivePart(input, first.next);
      match second.result
      case Failure(e) => Fetched(Failure(e), second.next, 1)
      case Success(b) => Fetched(Points.BlockPoints(a + b), second.next, 2)
  }

  /** What the download loop leaves: the points (or the exception), the read position, the request
      bytes sent, and how many replies it took apart. */
  datatype Download = Download(result: Result<seq<Option<Points.Point>>>, next: nat, sent: seq<byte>,
                               parts: nat)

  /** The loop of `get_track` over the components still to fetch, after `track` was built: request
      the component, read it and append its points. */
  function DownloadFrom(input: seq<byte>, pos: nat, indices: seq<nat>,
                        track: seq<Option<Points.Point>>): (d: Download)
    requires pos <= |input|
    ensures pos <= d.next <= |input|
    decreases |indices|
  {
    if indices == [] then Download(Success(track), pos, [], 0)
    else
      var request := Frame.EncodeFrame(TrackRequest(indices[0])).value;
      var c := ReadComponent(input, pos);
      match c.result
      case Failure(e) => Download(Failure(e), c.next, request, c.parts)
      case Success(points) =>
        var rest := DownloadFrom(input, c.next, indices[1..], track + points);
        Download(rest.result, rest.next, request + rest.sent, c.parts + rest.parts)
  }

  // ---- properties of the download -------------------------------------------------------------

  /** A download that succeeds has sent one request per component, in order, taken two replies per
      component apart, and kept the points it started from in front. */
  lemma {:induction false} DownloadSucceeds(input: seq<byte>, pos: nat, indices: seq<nat>,
                                            track: seq<Option<Points.Point>>)
    requires pos <= |input|
    ensures var d := DownloadFrom(input, pos, indices, track);
      d.result.Success? ==>
        && d.parts == 2 * |indices| && d.sent == TrackRequests(indices)
        && track <= d.result.value
    decreases |indices|
  {
    if indices != [] {
      var c := ReadComponent(input, pos);
      if c.result.Success? {
        DownloadSucceeds(input, c.next, indices[1..], track + c.result.value);
      }
    }
  }

  /** One component as the device sends it: the payloads of its two replies, each led by the
      command byte that `pop(0)` removes. */
  datatype Component = Component(first: seq<byte>, second: seq<byte>)

  predicate WellFormedReply(p: seq<byte>)
  {
    1 <= |p| <= Frame.MaxPayload && p[0] != Frame.NotReady
  }

  predicate WellFormedComponents(cs: seq<Component>)
  {
    cs == [] || (WellFormedReply(cs[0].first) && WellFormedReply(cs[0].second)
                 && WellFormedComponents(cs[1..]))
  }

  /** The reply frames of the components, in the order they arrive. */
  function ComponentFrames(cs: seq<Component>): seq<byte>
    requires WellFormedComponents(cs)
  {
    if cs == [] then []
    else Frame.ReplyFrame(cs[0].first) + Frame.ReplyFrame(cs[0].second) + ComponentFrames(cs[1..])
  }

  /** The points of the components, block after block, or the first decoding error. */
  function Decoded(cs: seq<Component>): Result<seq<Option<Points.Point>>>
    requires WellFormedComponents(cs)
  {
    if cs == [] then Success([])
    else
      match Points.BlockPoints(cs[0].first[1..] + cs[0].second[1..])
      case Failure(e) => Failure(e)
      case Success(points) =>
        match Decoded(cs[1..])
        case Failure(e) => Failure(e)
        case Success(rest) => Success(points + rest)
  }

  /** On a line carrying the two reply frames of every requested component, the download reads
      them all and yields the points of every block in order. */
  lemma {:induction false} DownloadLine(input: seq<byte>, pos: nat, indices: seq<nat>,
                                        track: seq<Option<Points.Point>>, cs: seq<Component>,
                                        points: seq<Option<Points.Point>>)
    requires |cs| == |indices| && WellFormedComponents(cs)
    requires Frame.OnLine(input, pos, ComponentFrames(cs))
    requires Decoded(cs) == Success(points)
    ensures var d := DownloadFrom(input, pos, indices, track);
      d.result == Success(track + points) && d.next == pos + |ComponentFrames(cs)|
    decreases |indices|
  {
    if cs == [] {
      assert track + points == track;
    } else {
      var next, block, rest := DownloadHead(input, pos, indices, track, cs);
      DownloadLine(input, next, indices[1..], track + block, cs[1..], rest);
      Concat3(track, block, rest);
    }
  }

  /** The first component of the line read and decoded; the rest of the line holds the rest. */
  lemma DownloadHead(input: seq<byte>, pos: nat, indices: seq<nat>, track: seq<Option<Points.Point>>,
                     cs: seq<Component>)
    returns (next: nat, block: seq<Option<Points.Point>>, rest: seq<Option<Points.Point>>)
    requires |cs| == |indices| && cs != [] && WellFormedComponents(cs)
    requires Frame.OnLine(input, pos, ComponentFrames(cs))
    requires Decoded(cs).Success?
    ensures |cs[1..]| == |indices[1..]| && WellFormedComponents(cs[1..])
    ensures next + |ComponentFrames(cs[1..])| == pos + |ComponentFrames(cs)|
    ensures Frame.OnLine(input, next, ComponentFrames(cs[1..]))
    ensures Decoded(cs[1..]) == Success(rest) && Decoded(cs).value == block + rest
    ensures var r := DownloadFrom(input, next, indices[1..], track + block);
      DownloadFrom(input, pos, indices, track)
        == Download(r.result, r.next, Frame.EncodeFrame(TrackRequest(indices[0])).value + r.sent, 2 + r.parts)
  {
    var mid;
    mid, next := ComponentHead(input, pos, cs);
    block, rest := DecodedHead(cs);
    DownloadCons(input, pos, indices, track, cs, mid, next, block);
  }

  /** The first component of the line, read and decoded. */
  lemma DownloadCons(input: seq<byte>, pos: nat, indices: seq<nat>, track: seq<Option<Points.Point>>,
                     cs: seq<Component>, mid: nat, next: nat, block: seq<Option<Points.Point>>)
    requires indices != [] && cs != [] && WellFormedComponents(cs)
    requires mid == pos + |Frame.ReplyFrame(cs[0].first)| && next == mid + |Frame.ReplyFrame(cs[0].second)|
    requires Frame.OnLine(input, pos, Frame.ReplyFrame(cs[0].first))
    requires Frame.OnLine(input, mid, Frame.ReplyFrame(cs[0].second))
    requires next <= |input|
    requires Points.BlockPoints(cs[0].first[1..] + cs[0].second[1..]) == Success(block)
    ensures var rest := DownloadFrom(input, next, indices[1..], track + block);
      DownloadFrom(input, pos, indices, track)
        == Download(rest.result, rest.next, Frame.EncodeFrame(TrackRequest(indices[0])).value + rest.sent,
                    2 + rest.parts)
  {
    ReceivePartReply(input, pos, cs[0].first);
    ReceivePartReply(input, mid, cs[0].second);
    ReadComponentOf(input, pos, cs[0].first[1..], mid, cs[0].second[1..], next);
    DownloadStep(input, pos, indices, track, block, next);
  }

  /** Both replies of a component taken apart: the component is their block. */
  lemma ReadComponentOf(input: seq<byte>, pos: nat, a: seq<byte>, mid: nat, b: seq<byte>, next: nat)
    requires pos <= mid <= next <= |input|
    requires ReceivePart(input, pos) == Frame.Received(Success(a), mid)
    requires ReceivePart(input, mid) == Frame.Received(Success(b), next)
    ensures ReadComponent(input, pos) == Fetched(Points.BlockPoints(a + b), next, 2)
  {
  }

  /** One pass of the download loop when the component is read and decoded. */
  lemma DownloadStep(input: seq<byte>, pos: nat, indices: seq<nat>, track: seq<Option<Points.Point>>,
                     points: seq<Option<Points.Point>>, next: nat)
    requires indices != [] && pos <= next <= |input|
    requires ReadComponent(input, pos) == Fetched(Success(points), next, 2)
    ensures var rest := DownloadFrom(input, next, indices[1..], track + points);
      DownloadFrom(input, pos, indices, track)
        == Download(rest.result, rest.next, Frame.EncodeFrame(TrackRequest(indices[0])).value + rest.sent,
                    2 + rest.parts)
  {
  }

  /** The download seen from part-way through the loop: `sent` and `parts` already done. */
  function AfterDownload(sent: seq<byte>, parts: nat, d: Download): Download
  {
    Download(d.result, d.next, sent + d.sent, parts + d.parts)
  }

  /** One full pass of the `get_track` loop: the component read and decoded. */
  lemma DownloadRest(l: Download, sent: seq<byte>, parts: nat, input: seq<byte>, pos: nat,
                     indices: seq<nat>, i: nat, track: seq<Option<Points.Point>>,
                     next: nat, points: seq<Option<Points.Point>>)
    requires i < |indices| && pos <= next <= |input|
    requires ReadComponent(input, pos) == Fetched(Success(points), next, 2)
    requires l == AfterDownload(sent, parts, DownloadFrom(input, pos, indices[i..], track))
    ensures l == AfterDownload(sent + Frame.EncodeFrame(TrackRequest(indices[i])).value, parts + 2,
                               DownloadFrom(input, next, indices[i + 1..], track + points))
  {
    assert indices[i..][0] == indices[i] && indices[i..][1..] == indices[i + 1..];
    DownloadStep(input, pos, indices[i..], track, points, next);
    var request := Frame.EncodeFrame(TrackRequest(indices[i])).value;
    var rest := DownloadFrom(input, next, indices[i + 1..], track + points);
    Concat3(sent, request, rest.sent);
  }

  /** The ways the `get_track` loop ends: every component fetched, or an exception while reading
      the current one. */
  lemma DownloadExit(l: Download, sent: seq<byte>, parts: nat, input: seq<byte>, pos: nat,
                     indices: seq<nat>, i: nat, track: seq<Option<Points.Point>>)
    requires i <= |indices| && pos <= |input|
    requires l == AfterDownload(sent, parts, DownloadFrom(input, pos, indices[i..], track))
    ensures i == |indices| ==> l == Download(Success(track), pos, sent, parts)
    ensures i < |indices| ==>
      var request, c := Frame.EncodeFrame(TrackRequest(indices[i])).value, ReadComponent(input, pos);
      c.result.Failure? ==> l == Download(Failure(c.result.error), c.next, sent + request, parts + c.parts)
  {
    if i == |indices| {
      assert indices[i..] == [] && sent + [] == sent;
    } else {
      assert indices[i..][0] == indices[i];
    }
  }

  /** A reply frame on the line is received whole, and `pop(0)` drops its command byte. */
  lemma ReceivePartReply(input: seq<byte>, pos: nat, p: seq<byte>)
    requires WellFormedReply(p)
    requires Frame.OnLine(input, pos, Frame.ReplyFrame(p))
    ensures ReceivePart(input, pos) == Frame.Received(Success(p[1..]), pos + |Frame.ReplyFrame(p)|)
  {
    Frame.ReceiveReply(input, pos, p);
  }

  /** The first component's two reply frames lead the line, and the rest of it follows them. */
  lemma ComponentHead(input: seq<byte>, pos: nat, cs: seq<Component>) returns (mid: nat, next: nat)
    requires cs != [] && WellFormedComponents(cs)
    requires Frame.OnLine(input, pos, ComponentFrames(cs))
    ensures mid == pos + |Frame.ReplyFrame(cs[0].first)| && next == mid + |Frame.ReplyFrame(cs[0].second)|
    ensures Frame.OnLine(input, pos, Frame.ReplyFrame(cs[0].first))
    ensures Frame.OnLine(input, mid, Frame.ReplyFrame(cs[0].second))
    ensures next + |ComponentFrames(cs[1..])| == pos + |ComponentFrames(cs)|
    ensures Frame.OnLine(input, next, ComponentFrames(cs[1..]))
  {
    var f1, f2, rest := Frame.ReplyFrame(cs[0].first), Frame.ReplyFrame(cs[0].second), ComponentFrames(cs[1..]);
    mid := pos + |f1|;
    next := mid + |f2|;
    assert ComponentFrames(cs) == (f1 + f2) + rest;
    Frame.SplitOnLine(input, pos, f1 + f2, rest);
    Frame.SplitOnLine(input, pos, f1, f2);
  }

  /** The blocks of a non-empty list of components split into the first block and the rest. */
  lemma DecodedHead(cs: seq<Component>) returns (block: seq<Option<Points.Point>>, rest: seq<Option<Points.Point>>)
    requires cs != [] && WellFormedComponents(cs) && Decoded(cs).Success?
    ensures Points.BlockPoints(cs[0].first[1..] + cs[0].second[1..]) == Success(block)
    ensures Decoded(cs[1..]) == Success(rest)
    ensures Decoded(cs).value == block + rest
  {
    block := Points.BlockPoints(cs[0].first[1..] + cs[0].second[1..]).value;
    rest := Decoded(cs[1..]).value;
  }

  // ---- the window ------------------------------------------------------------------------------

  class Window {
    /** `self.dg200`. */
    const dev: Device.DG200
    /** The tree view: one row per session. */
    var rows: seq<Headers.Session>
    /** `self.header_index`: the component index of every header slot, in order. */
    var headerIndex: seq<nat>
    /** `self.progress_counter`: the replies received by the downloads. */
    var progress: nat

    ghost predicate Valid()
      reads this, dev
    {
      dev.Valid()
    }

    constructor (line: seq<byte>)
      ensures Valid() && fresh(dev)
      ensures dev.input == line && dev.pos == 0 && dev.written == []
      ensures rows == [] && headerIndex == [] && progress == 0
    {
      dev := new Device.DG200(line);
      rows, headerIndex, progress := [], [], 0;
    }

    /** `set_configuration`: sends the payload built from the form and reads one reply; an entry
        that makes the payload raise sends nothing. */
    method SetConfiguration(form: Config.ConfigForm) returns (r: Result<seq<byte>>)
      requires Valid()
      modifies dev`pos, dev`written
      ensures Valid()
      ensures match Config.BuildConfig(form)
        case Failure(e) => r == Failure(e) && dev.pos == old(dev.pos) && dev.written == old(dev.written)
        case Success(payload) =>
          && dev.written == old(dev.written) + Frame.EncodeFrame(payload).value
          && Frame.Received(r, dev.pos) == Frame.Receive(dev.input, old(dev.pos))
    {
      var payload := Config.BuildPayload(form);
      if payload.Failure? {
        return Failure(payload.error);
      }
      var _ := dev.Send(payload.value);
      r := dev.Receive();
    }

    /** `get_configuration`: asks the device for its configuration and reads the window's fields
        out of `conf`, which raises when there is none or it is too short. */
    method GetConfiguration() returns (r: Result<Config.DeviceConfiguration>)
      requires Valid()
      modifies dev`pos, dev`written, dev`conf
      ensures Valid()
      ensures dev.written == old(dev.written) + Frame.EncodeFrame([Device.GetConfigurationCommand]).value
      ensures var reply := Frame.Receive(dev.input, old(dev.pos));
        && dev.pos == reply.next
        && dev.conf == match reply.result
                       case Success(conf) => Some(conf)
                       case Failure(ShortRead) => None
                       case Failure(Malformed) => old(dev.conf)
      ensures Frame.Receive(dev.input, old(dev.pos)).result == Failure(ShortRead) ==> r == Failure(ShortRead)
      ensures Frame.Receive(dev.input, old(dev.pos)).result != Failure(ShortRead) && dev.conf.None? ==>
        r == Failure(Malformed)
      ensures dev.conf.Some? ==> r == Config.ParseConfiguration(dev.conf.value)
    {
      var reply := dev.GetConfiguration();
      if reply == Failure(ShortRead) {
        // `conf` is None and `conf[1]` raises on it
        return Failure(ShortRead);
      }
      if dev.conf.None? {
        return Failure(Malformed);
      }
      r := Config.ParseConfiguration(dev.conf.value);
    }

    /** `get_track_list`: clears the tree, reads the paged header list and fills the tree with one
        row per session and `header_index` with one entry per slot. */
    method GetTrackList() returns (r: Result<seq<Headers.Session>>)
      requires Valid()
      modifies this`rows, this`headerIndex, dev`pos, dev`written
      ensures Valid()
      ensures var l := Headers.ReadHeaderList(dev.input, old(dev.pos));
        && dev.pos == l.next && dev.written == old(dev.written) + l.sent
        && r == match l.result
                case Failure(e) => Failure(e)
                case Success(list) => Headers.Sessions(list)
      ensures var l := Headers.ReadHeaderList(dev.input, old(dev.pos));
        l.result.Failure? ==>
          && rows == []
          && headerIndex == if Frame.Receive(dev.input, old(dev.pos)).result.Success? then [] else old(headerIndex)
      ensures var l := Headers.ReadHeaderList(dev.input, old(dev.pos));
        l.result.Success? ==>
          var read := Headers.SlotsRead(l.result.value);
          && Headers.IndexesSlots(headerIndex, read)
          && rows == if r.Success? then r.value else Headers.Pending(Headers.Rows(read))
    {
      rows := [];
      var list := ReadPages();
      if list.Failure? {
        return Failure(list.error);
      }
      ghost var read;
      r, read := FillTree(list.value);
    }

    /** The paging half of `get_track_list`: `BB 00 00`, then one request per page that points to a
        further one, extending the list with every page's bytes after the fifth. */
    method ReadPages() returns (r: Result<seq<byte>>)
      requires Valid()
      modifies dev`pos, dev`written, this`headerIndex
      ensures Valid()
      ensures var l := Headers.ReadHeaderList(dev.input, old(dev.pos));
        r == l.result && dev.pos == l.next && dev.written == old(dev.written) + l.sent
      ensures var first := Frame.Receive(dev.input, old(dev.pos));
        && headerIndex == (if first.result.Success? then [] else old(headerIndex))
        && (r.Success? ==> first.result.Success?)
    {
      ghost var l := Headers.ReadHeaderList(dev.input, dev.pos);
      Headers.ReadStart(dev.input, dev.pos);
      var _ := dev.Send([Headers.TrackListCommand, 0, 0]);
      ghost var first := Frame.Receive(dev.input, dev.pos);
      var reply := dev.Receive();
      if reply.Failure? {
        return Failure(reply.error);
      }
      headerIndex := [];
      var page := reply.value;
      if |page| <= 3 {
        // `bytes2int(header_list_tmp[3:5])` of an empty slice raises
        return Failure(Malformed);
      }
      var list := Headers.Tail(page, 5);
      ghost var sent := Frame.EncodeFrame([Headers.TrackListCommand, 0, 0]).value;
      while Headers.NextIndex(page) != 0
        invariant Valid() && |page| >= 4 && headerIndex == [] && first.result.Success?
        invariant dev.written == old(dev.written) + sent
        invariant l == Headers.After(sent, Headers.FollowPages(dev.input, dev.pos, page, list))
        decreases |dev.input| - dev.pos
      {
        Headers.FollowExit(l, sent, dev.input, dev.pos, page, list);
        if |page| < 5 {
          // `header_list_tmp[4]` raises
          return Failure(Malformed);
        }
        var request := [Headers.TrackListCommand, page[3], page[4]];
        var _ := dev.Send(request);
        Concat3(old(dev.written), sent, Frame.EncodeFrame(request).value);
        ghost var pos := dev.pos;
        reply := dev.Receive();
        if reply.Failure? {
          return Failure(reply.error);
        }
        if |reply.value| <= 3 {
          return Failure(Malformed);
        }
        Headers.FollowRest(l, sent, dev.input, pos, page, list, reply.value, dev.pos);
        sent := sent + Frame.EncodeFrame(request).value;
        page := reply.value;
        list := list + Headers.Tail(page, 5);
      }
      Headers.FollowExit(l, sent, dev.input, dev.pos, page, list);
      r := Success(list);
    }

    /** The slot half of `get_track_list`: each slot adds its index to `header_index`; a marked slot
        closes the open row with the running count and opens a row showing 0; the last slot closes
        the open row, which raises when no row was opened. */
    method FillTree(list: seq<byte>) returns (r: Result<seq<Headers.Session>>, ghost read: seq<Headers.Slot>)
      requires rows == [] && headerIndex == []
      modifies this`rows, this`headerIndex
      ensures r == Headers.Sessions(list) && read == Headers.SlotsRead(list)
      ensures Headers.IndexesSlots(headerIndex, read)
      ensures rows == if r.Success? then r.value else Headers.Pending(Headers.Rows(read))
    {
      var n := Headers.SlotCount(|list|);
      var count := 0;
      ghost var slots: seq<Headers.Slot> := [];
      for i := 0 to n
        invariant Headers.ParseSlots(list, i) == Success(slots)
        invariant Headers.IndexesSlots(headerIndex, slots)
        invariant count == Headers.Running(slots)
        invariant rows == Headers.Pending(Headers.Rows(slots))
      {
        Headers.SlotStarts(|list|, i);
        var slot := Headers.ParseSlot(list, i);
        if slot.Failure? {
          Headers.ParseSlotsFails(list, i);
          Headers.SlotsReadCut(list, i, slots);
          return Failure(Malformed), slots;
        }
        var s := slot.value;
        Headers.ParseSlotsStep(list, i, slots, s);
        count := AddSlot(slots, count, s);
        slots := slots + [s];
      }
      Headers.SessionsOf(list, slots);
      Headers.SlotsReadAll(list, slots);
      read := slots;
      // the pass over the last slot ends by closing the open row, which raises when there is none
      if n > 0 {
        if rows == [] {
          return Failure(Malformed), read;
        }
        Headers.ClosePending(slots);
        rows := Headers.SetCount(rows, count);
      }
      r := Success(rows);
    }

    /** One pass of the slot loop of `get_track_list` on a readable slot: its index goes to
        `header_index`; a marked slot closes the open row with the running count and opens a new
        row showing 0. */
    method AddSlot(ghost slots: seq<Headers.Slot>, count: nat, s: Headers.Slot) returns (count': nat)
      requires rows == Headers.Pending(Headers.Rows(slots))
      requires count == Headers.Running(slots)
      requires Headers.IndexesSlots(headerIndex, slots)
      modifies this`rows, this`headerIndex
      ensures rows == Headers.Pending(Headers.Rows(slots + [s]))
      ensures count' == Headers.Running(slots + [s])
      ensures Headers.IndexesSlots(headerIndex, slots + [s])
    {
      headerIndex := headerIndex + [s.index];
      Headers.RowsStep(slots, s);
      ghost var open := Headers.Rows(slots) != [];
      assert open <==> rows != [];
      count' := count;
      if s.first {
        if rows != [] {
          rows := Headers.SetCount(rows, count');
          count' := 0;
        }
        rows := rows + [Headers.Session(s.date, s.time, s.index, 0)];
      }
      count' := count' + 1;
    }

    /** `clear_memory` once confirmed: sends the erase command and reads the reply, whose bytes 1-4
        are zero when the memory was cleared. */
    method ClearMemory() returns (r: Result<bool>)
      requires Valid()
      modifies dev`pos, dev`written
      ensures Valid()
      ensures dev.written == old(dev.written) + Frame.EncodeFrame([ClearCommand, 0xFF, 0xFF]).value
      ensures var reply := Frame.Receive(dev.input, old(dev.pos));
        && dev.pos == reply.next
        && r == match reply.result
                case Failure(e) => Failure(e)
                case Success(res) => ClearStatus(res)
    {
      var _ := dev.Send([ClearCommand, 0xFF, 0xFF]);
      var res := dev.Receive();
      if res.Failure? {
        return Failure(res.error);
      }
      r := ClearStatus(res.value);
    }

    /** One pass of the `get_track` loop: the request, then two replies, each without its command
        byte, decoded as one block; the progress counter grows by one per reply taken apart. */
    method FetchComponent(index: nat) returns (r: Result<seq<Option<Points.Point>>>)
      requires Valid()
      modifies dev`pos, dev`written, this`progress
      ensures Valid()
      ensures dev.written == old(dev.written) + Frame.EncodeFrame(TrackRequest(index)).value
      ensures var c := ReadComponent(dev.input, old(dev.pos));
        r == c.result && dev.pos == c.next && progress == old(progress) + c.parts
    {
      var payload := [TrackCommand];
      payload := payload + Int2Bytes(index, 2).value;
      var _ := dev.Send(payload);
      var first := dev.Receive();
      if first.Failure? {
        return Failure(first.error);
      }
      if first.value == [] {
        return Failure(Malformed);
      }
      var firstPart := first.value[1..];
      progress := progress + 1;
      ghost var mid := dev.pos;
      var second := dev.Receive();
      if second.Failure? {
        return Failure(second.error);
      }
      if second.value == [] {
        return Failure(Malformed);
      }
      var secondPart := second.value[1..];
      progress := progress + 1;
      ReadComponentOf(dev.input, old(dev.pos), firstPart, mid, secondPart, dev.pos);
      r := Points.DecodeBlock(firstPart + secondPart);
    }

    /** `get_track`: fetches every listed component, decodes its blocks in order and writes the
        points as one GPX file in `folder`. `fixed7` and `str` stand for `format(x, '.7f')` and
        `str(x)`. */
    method GetTrack(folder: string, indices: seq<nat>, fixed7: real -> string, str: real -> string)
      returns (r: Result<Gpx.GpxFile>)
      requires Valid()
      modifies dev`pos, dev`written, this`progress
      ensures Valid()
      ensures var d := DownloadFrom(dev.input, old(dev.pos), indices, []);
        && dev.pos == d.next && dev.written == old(dev.written) + d.sent
        && progress == old(progress) + d.parts
        && r == match d.result
                case Failure(e) => Failure(e)
                case Success(track) => Gpx.WriteGpxResult(folder, track, fixed7, str)
    {
      ghost var l := DownloadFrom(dev.input, dev.pos, indices, []);
      ghost var sent: seq<byte> := [];
      ghost var parts: nat := 0;
      assert indices[0..] == indices && [] + l.sent == l.sent;
      var track: seq<Option<Points.Point>> := [];
      for i := 0 to |indices|
        invariant Valid()
        invariant dev.written == old(dev.written) + sent && progress == old(progress) + parts
        invariant l == AfterDownload(sent, parts, DownloadFrom(dev.input, dev.pos, indices[i..], track))
      {
        DownloadExit(l, sent, parts, dev.input, dev.pos, indices, i, track);
        ghost var pos := dev.pos;
        ghost var request := Frame.EncodeFrame(TrackRequest(indices[i])).value;
        var points := FetchComponent(indices[i]);
        Concat3(old(dev.written), sent, request);
        if points.Failure? {
          return Failure(points.error);
        }
        DownloadRest(l, sent, parts, dev.input, pos, indices, i, track, dev.pos, points.value);
        sent := sent + request;
        parts := parts + 2;
        track := track + points.value;
      }
      DownloadExit(l, sent, parts, dev.input, dev.pos, indices, |indices|, track);
      r := Gpx.WriteGpx(folder, track, fixed7, str);
    }
  }
}
