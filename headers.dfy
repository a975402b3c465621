/** The track list of `main.get_track_list`: the paged header list read from the device, its
    12-byte slots, and their grouping into the sessions shown in the tree view. */
module Headers {
  import opened Base
  import opened Codec
  import Frame

  const TrackListCommand: byte := 0xBB
  /** The first byte of a slot that opens a session. */
  const SessionStart: byte := 0x80

  // ---- paging ---------------------------------------------------------------------------------

  /** `l[n:]`. */
  function Tail(s: seq<byte>, n: nat): seq<byte>
  {
    if |s| >= n then s[n..] else []
  }

  /** `bytes2int(page[3:5])`, the index of the next header page (0 for the last one). */
  function NextIndex(page: seq<byte>): nat
    requires |page| >= 4
  {
    BigEndian(page[3..Min(5, |page|)])
  }

  /** What the paging loop leaves: the header list (or the exception), the read position, and the
      bytes of every request it sent. */
  datatype Listing = Listing(result: Result<seq<byte>>, next: nat, sent: seq<byte>)

  /** The same after `sent` went out first. */
  function After(sent: seq<byte>, l: Listing): Listing
  {
    Listing(l.result, l.next, sent + l.sent)
  }

  /** The `while next_tracker_index != 0` loop, after `page` was received and `acc` built:
      request the page `page[3], page[4]`, receive it, read its next index, append `page[5:]`. */
  function FollowPages(input: seq<byte>, pos: nat, page: seq<byte>, acc: seq<byte>): (l: Listing)
    requires pos <= |input| && |page| >= 4
    ensures pos <= l.next <= |input|
    decreases |input| - pos
  {
    if NextIndex(page) == 0 then Listing(Success(acc), pos, [])
    else if |page| < 5 then Listing(Failure(Malformed), pos, [])  // `header_list_tmp[4]` raises
    else
      var request := Frame.EncodeFrame([TrackListCommand, page[3], page[4]]).value;
      var reply := Frame.Receive(input, pos);
      match reply.result
      case Failure(e) => Listing(Failure(e), reply.next, request)
      case Success(p) =>
        if |p| <= 3 then Listing(Failure(Malformed), reply.next, request)  // `bytes2int([])` raises
        else
          var rest := FollowPages(input, reply.next, p, acc + Tail(p, 5));
          Listing(rest.result, rest.next, request + rest.sent)
  }

  /** The whole paging of `get_track_list`, from the first request `BB 00 00`. */
  function ReadHeaderList(input: seq<byte>, pos: nat): (l: Listing)
    requires pos <= |input|
    ensures pos <= l.next <= |input|
  {
    var request := Frame.EncodeFrame([TrackListCommand, 0, 0]).value;
    var reply := Frame.Receive(input, pos);
    match reply.result
    case Failure(e) => Listing(Failure(e), reply.next, request)
    case Success(p) =>
      if |p| <= 3 then Listing(Failure(Malformed), reply.next, request)
      else
        var rest := FollowPages(input, reply.next, p, Tail(p, 5));
        Listing(rest.result, rest.next, request + rest.sent)
  }

  // ---- slots ----------------------------------------------------------------------------------

  /** `round(len(header_list) / 12)`; Python rounds a half to the even neighbour. */
  function SlotCount(len: nat): nat
  {
    var q, r := len / 12, len % 12;
    if r < 6 then q else if r > 6 then q + 1 else if q % 2 == 0 then q else q + 1
  }

  /** Every slot counted by `SlotCount` starts inside the list (only the last may be cut short). */
  lemma SlotStarts(len: nat, i: nat)
    requires i < SlotCount(len)
    ensures 12 * i < len
  {
  }

  /** One header slot: the session marker, the date as DD/MM/YY, the time as HH:MM:SS and the index
      of the track component. */
  datatype Slot = Slot(first: bool, date: string, time: string, index: nat)

  /** `header_list[a:b]`. */
  function Slice(s: seq<byte>, a: nat, b: nat): seq<byte>
    requires a <= b
  {
    s[Min(a, |s|)..Min(b, |s|)]
  }

  /** `sep.join([t[0:2], t[2:4], t[4:6]])` on `t = '{0:0>6d}'.format(n)`. */
  function Joined(n: nat, sep: char): string
  {
    var text := PadDecimal(n, 6);
    text[0..2] + [sep] + text[2..4] + [sep] + text[4..6]
  }

  /** Slot `i`: date from bytes 4-7, time from bytes 1-3, index from bytes 8-11; an empty slice
      (a last slot of at most 8 bytes) raises. */
  function ParseSlot(list: seq<byte>, i: nat): (r: Result<Slot>)
    requires 12 * i < |list|
    ensures r.Success? <==> 12 * i + 8 < |list|
  {
    var date := Bytes2Int(Slice(list, 12 * i + 4, 12 * i + 8));
    var time := Bytes2Int(Slice(list, 12 * i + 1, 12 * i + 4));
    var index := Bytes2Int(Slice(list, 12 * i + 8, 12 * i + 12));
    if date.None? || time.None? || index.None? then Failure(Malformed)
    else Success(Slot(list[12 * i] == SessionStart, Joined(date.value, '/'), Joined(time.value, ':'),
                      index.value))
  }

  /** The first n slots of the list, in order; only the last of them can be cut short. */
  function ParseSlots(list: seq<byte>, n: nat): (r: Result<seq<Slot>>)
    requires n <= SlotCount(|list|)
    ensures r.Success? ==> |r.value| == n
    ensures r.Failure? ==> r.error == Malformed
  {
    if n == 0 then Success([])
    else
      SlotStarts(|list|, n - 1);
      match ParseSlots(list, n - 1)
      case Failure(e) => Failure(e)
      case Success(slots) =>
        match ParseSlot(list, n - 1)
        case Failure(e) => Failure(e)
        case Success(slot) => Success(slots + [slot])
  }

  /** The first n slots are read exactly when the n-th is not cut short before its index field,
      and then slot i is `ParseSlot(list, i)`, in order. */
  lemma {:induction false} ParseSlotsSpec(list: seq<byte>, n: nat)
    requires n <= SlotCount(|list|)
    ensures ParseSlots(list, n).Success? <==> n == 0 || 12 * (n - 1) + 8 < |list|
    ensures ParseSlots(list, n).Success? ==>
      forall i :: 0 <= i < n ==> 12 * i < |list| && ParseSlot(list, i) == Success(ParseSlots(list, n).value[i])
  {
    if n > 0 {
      SlotStarts(|list|, n - 1);
      ParseSlotsSpec(list, n - 1);
      var prev := ParseSlots(list, n - 1);
      assert prev.Success?;
      var slot := ParseSlot(list, n - 1);
      if slot.Success? {
        var slots := prev.value + [slot.value];
        assert ParseSlots(list, n) == Success(slots);
        forall i | 0 <= i < n
          ensures 12 * i < |list| && ParseSlot(list, i) == Success(slots[i])
        {
          if i < n - 1 {
            assert slots[i] == prev.value[i];
          }
        }
      }
    }
  }

  // ---- sessions -------------------------------------------------------------------------------

  /** A row of the tree view: date, time, index of the first component, number of components. */
  datatype Session = Session(date: string, time: string, index: nat, count: nat)

  /** The rows after the loop has gone through `slots`, with the last row's count as far as it has
      got: a marked slot opens a row; any other slot adds one to the open row. Slots before the
      first marked one are added to the first row, because the running count is only reset when a
      row was already open. */
  function Rows(slots: seq<Slot>): seq<Session>
  {
    if slots == [] then []
    else
      var init, s := slots[..|slots| - 1], slots[|slots| - 1];
      var rows := Rows(init);
      if s.first then
        rows + [Session(s.date, s.time, s.index, if rows == [] then |init| + 1 else 1)]
      else if rows == [] then []
      else rows[..|rows| - 1] + [rows[|rows| - 1].(count := rows[|rows| - 1].count + 1)]
  }

  /** `header_track_num` after `slots`. */
  function Running(slots: seq<Slot>): nat
  {
    var rows := Rows(slots);
    if rows == [] then |slots| else rows[|rows| - 1].count
  }

  /** The tree as it stands inside the loop: the open row still shows 0 components. */
  function Pending(rows: seq<Session>): seq<Session>
  {
    if rows == [] then [] else SetCount(rows, 0)
  }

  /** `treestore.set_value(header_iter, 4, n)` on the open (last) row. */
  function SetCount(rows: seq<Session>, n: nat): (r: seq<Session>)
    requires rows != []
    ensures |r| == |rows| && r[..|rows| - 1] == rows[..|rows| - 1]
    ensures r[|rows| - 1] == rows[|rows| - 1].(count := n)
  {
    rows[..|rows| - 1] + [rows[|rows| - 1].(count := n)]
  }

  /** The slot phase of `get_track_list`: the rows, or an exception when a slot cannot be read or
      when there are slots but none opens a session (`set_value(None, ...)` raises). */
  function Sessions(list: seq<byte>): Result<seq<Session>>
  {
    match ParseSlots(list, SlotCount(|list|))
    case Failure(e) => Failure(e)
    case Success(slots) => if slots != [] && Rows(slots) == [] then Failure(Malformed) else Success(Rows(slots))
  }

  /** The slots the loop of `get_track_list` gets through: all of them, or every one before the
      last when the last is cut short. */
  function SlotsRead(list: seq<byte>): seq<Slot>
  {
    var n := SlotCount(|list|);
    match ParseSlots(list, n)
    case Success(slots) => slots
    case Failure(_) =>
      // n > 0 here, and the slots before the last are always read (`ParseSlotsSpec`)
      if n == 0 then []
      else
        match ParseSlots(list, n - 1)
        case Success(slots) => slots
        case Failure(_) => []
  }

  /** When every slot is read, the loop gets through all of them. */
  lemma SlotsReadAll(list: seq<byte>, slots: seq<Slot>)
    requires ParseSlots(list, SlotCount(|list|)) == Success(slots)
    ensures SlotsRead(list) == slots
  {
  }

  /** When the last slot is cut short, the loop gets through the ones before it. */
  lemma SlotsReadCut(list: seq<byte>, i: nat, slots: seq<Slot>)
    requires i + 1 == SlotCount(|list|)
    requires ParseSlots(list, i) == Success(slots) && ParseSlots(list, i + 1).Failure?
    ensures SlotsRead(list) == slots
  {
  }

  /** `header_index` lists the component index of every slot, in order. */
  predicate IndexesSlots(index: seq<nat>, slots: seq<Slot>)
  {
    |index| == |slots| && forall k :: 0 <= k < |slots| ==> index[k] == slots[k].index
  }

  // ---- properties -----------------------------------------------------------------------------

  function Marked(slots: seq<Slot>): (r: seq<Slot>)
    ensures |r| <= |slots|
  {
    if slots == [] then []
    else Marked(slots[..|slots| - 1]) + (if slots[|slots| - 1].first then [slots[|slots| - 1]] else [])
  }

  function TotalCount(rows: seq<Session>): nat
  {
    if rows == [] then 0 else TotalCount(rows[..|rows| - 1]) + rows[|rows| - 1].count
  }

  /** Row k carries marked slot k's date, time and index, and counts at least one component. */
  predicate Matches(rows: seq<Session>, marked: seq<Slot>)
  {
    && |rows| == |marked|
    && forall k :: 0 <= k < |rows| ==>
         && rows[k].date == marked[k].date && rows[k].time == marked[k].time
         && rows[k].index == marked[k].index && rows[k].count >= 1
  }

  lemma MatchesOpen(rows: seq<Session>, marked: seq<Slot>, s: Slot, n: nat)
    requires Matches(rows, marked) && n >= 1
    ensures Matches(rows + [Session(s.date, s.time, s.index, n)], marked + [s])
  {
  }

  lemma MatchesBump(rows: seq<Session>, marked: seq<Slot>)
    requires Matches(rows, marked) && rows != []
    ensures Matches(SetCount(rows, rows[|rows| - 1].count + 1), marked)
  {
  }

  lemma TotalCountSnoc(rows: seq<Session>, r: Session)
    ensures TotalCount(rows + [r]) == TotalCount(rows) + r.count
  {
    assert (rows + [r])[..|rows|] == rows;
  }

  lemma TotalCountBump(rows: seq<Session>)
    requires rows != []
    ensures TotalCount(SetCount(rows, rows[|rows| - 1].count + 1)) == TotalCount(rows) + 1
  {
    var r := SetCount(rows, rows[|rows| - 1].count + 1);
    assert r[..|rows| - 1] == rows[..|rows| - 1];
  }

  /** A marked last slot opens a row and is the last marked slot. */
  lemma RowsOpen(slots: seq<Slot>)
    requires slots != [] && slots[|slots| - 1].first
    ensures var init, s := slots[..|slots| - 1], slots[|slots| - 1];
      && Rows(slots) == Rows(init) + [Session(s.date, s.time, s.index, if Rows(init) == [] then |init| + 1 else 1)]
      && Marked(slots) == Marked(init) + [s]
  {
  }

  /** An unmarked last slot adds one to the open row and is not marked. */
  lemma RowsBump(slots: seq<Slot>)
    requires slots != [] && !slots[|slots| - 1].first && Rows(slots[..|slots| - 1]) != []
    ensures var rows := Rows(slots[..|slots| - 1]);
      && Rows(slots) == SetCount(rows, rows[|rows| - 1].count + 1)
      && Marked(slots) == Marked(slots[..|slots| - 1])
  {
    assert Marked(slots) == Marked(slots[..|slots| - 1]) + [];
  }

  /** One row per marked slot, in order, carrying that slot's date, time and index; every row
      counts at least one component, and when there is a row the counts add up to the number of
      slots. */
  lemma {:induction false} RowsSpec(slots: seq<Slot>)
    ensures Matches(Rows(slots), Marked(slots))
    ensures Rows(slots) != [] ==> TotalCount(Rows(slots)) == |slots|
  {
    if slots != [] {
      var init, s := slots[..|slots| - 1], slots[|slots| - 1];
      RowsSpec(init);
      var rows, marked := Rows(init), Marked(init);
      if s.first {
        var r := Session(s.date, s.time, s.index, if rows == [] then |init| + 1 else 1);
        RowsOpen(slots);
        MatchesOpen(rows, marked, s, r.count);
        TotalCountSnoc(rows, r);
      } else if rows != [] {
        RowsBump(slots);
        MatchesBump(rows, marked);
        TotalCountBump(rows);
      }
    }
  }

  /** A row per marked slot. */
  lemma RowsLength(slots: seq<Slot>)
    ensures |Rows(slots)| == |Marked(slots)|
  {
    RowsSpec(slots);
  }

  /** The count a marked slot's row starts with: itself, and every slot before it when none of
      them is marked. */
  function OpeningCount(a: seq<Slot>): nat
  {
    1 + if Marked(a) == [] then |a| else 0
  }

  /** A marked slot `m` followed by unmarked slots `b` is the open row: one row per marked slot
      before it, then `m`'s row counting `m`, `b`, and every slot of `a` when none of them is
      marked. */
  lemma {:induction false} OpenRow(a: seq<Slot>, m: Slot, b: seq<Slot>)
    requires m.first && forall i :: 0 <= i < |b| ==> !b[i].first
    ensures var rows := Rows(a + [m] + b);
      && |rows| == |Marked(a)| + 1
      && rows[|rows| - 1] == Session(m.date, m.time, m.index, |b| + OpeningCount(a))
    decreases |b|
  {
    if b == [] {
      assert a + [m] + b == a + [m];
      OpenFirst(a, m);
    } else {
      var slots, init := a + [m] + b, a + [m] + b[..|b| - 1];
      OpenRow(a, m, b[..|b| - 1]);
      assert slots[..|slots| - 1] == init;
      assert slots[|slots| - 1] == b[|b| - 1];
      RowsBump(slots);
      var rows := Rows(init);
      assert Rows(slots) == SetCount(rows, rows[|rows| - 1].count + 1);
    }
  }

  lemma OpenFirst(a: seq<Slot>, m: Slot)
    requires m.first
    ensures var rows := Rows(a + [m]);
      && |rows| == |Marked(a)| + 1
      && rows[|rows| - 1] == Session(m.date, m.time, m.index, OpeningCount(a))
  {
    RowsLength(a);
    assert (a + [m])[..|a|] == a && (a + [m])[|a|] == m;
    RowsOpen(a + [m]);
  }

  /** Slots that start with a marked one leave the rows before them as they are and add rows. */
  lemma {:induction false} RowsKeep(x: seq<Slot>, y: seq<Slot>)
    requires y == [] || y[0].first
    ensures |Rows(x)| <= |Rows(x + y)| && Rows(x + y)[..|Rows(x)|] == Rows(x)
    ensures y != [] ==> |Rows(x)| < |Rows(x + y)|
    decreases |y|
  {
    if y == [] {
      assert x + y == x;
    } else {
      var init := y[..|y| - 1];
      if init != [] {
        RowsKeep(x, init);
      } else {
        assert x + init == x;
      }
      assert x + y == (x + init) + [y[|y| - 1]];
      RowsLast(x + init, y[|y| - 1], |Rows(x)|);
    }
  }

  /** One more slot keeps the first k rows when they are not the open one, and never removes a row. */
  lemma RowsLast(slots: seq<Slot>, s: Slot, k: nat)
    requires k < |Rows(slots)| || (k == |Rows(slots)| && s.first)
    ensures |Rows(slots)| <= |Rows(slots + [s])| && k < |Rows(slots + [s])|
    ensures Rows(slots + [s])[..k] == Rows(slots)[..k]
  {
    var rows, next := Rows(slots), slots + [s];
    assert next[..|next| - 1] == slots && next[|next| - 1] == s;
    if s.first {
      RowsOpen(next);
      assert Rows(next)[..k] == rows[..k];
    } else {
      RowsBump(next);
      assert Rows(next)[..|rows| - 1] == rows[..|rows| - 1];
      assert Rows(next)[..k] == Rows(next)[..|rows| - 1][..k];
      assert rows[..k] == rows[..|rows| - 1][..k];
    }
  }

  /** The session opened by a marked slot counts that slot and the unmarked slots up to the next
      marked one; the first session also counts the unmarked slots before it. */
  lemma SessionCount(a: seq<Slot>, m: Slot, b: seq<Slot>, c: seq<Slot>)
    requires m.first && forall i :: 0 <= i < |b| ==> !b[i].first
    requires c == [] || c[0].first
    ensures var rows := Rows(a + [m] + b + c);
      && |Marked(a)| < |rows|
      && rows[|Marked(a)|] == Session(m.date, m.time, m.index, |b| + OpeningCount(a))
  {
    OpenRow(a, m, b);
    RowsKeep(a + [m] + b, c);
    var open := Rows(a + [m] + b);
    assert open[|Marked(a)|] == Rows(a + [m] + b + c)[..|open|][|Marked(a)|];
  }

  /** There is no row exactly when no slot is marked. */
  lemma NoRows(slots: seq<Slot>)
    ensures Rows(slots) == [] <==> forall i :: 0 <= i < |slots| ==> !slots[i].first
  {
    RowsSpec(slots);
    MarkedEmpty(slots);
  }

  lemma {:induction false} MarkedEmpty(slots: seq<Slot>)
    ensures Marked(slots) == [] <==> forall i :: 0 <= i < |slots| ==> !slots[i].first
  {
    if slots != [] {
      var init := slots[..|slots| - 1];
      MarkedEmpty(init);
      assert forall i :: 0 <= i < |init| ==> init[i] == slots[i];
    }
  }

  /** One pass of the slot loop: a marked slot closes the open row with the running count and opens
      a row showing 0; the running count restarts at 1 when a row was open and otherwise grows by
      one. */
  lemma RowsStep(slots: seq<Slot>, s: Slot)
    ensures var rows := Rows(slots);
      && Running(slots + [s]) == (if s.first && rows != [] then 1 else Running(slots) + 1)
      && Pending(Rows(slots + [s])) ==
           if !s.first then Pending(rows)
           else (if rows == [] then [] else SetCount(Pending(rows), Running(slots)))
                + [Session(s.date, s.time, s.index, 0)]
  {
    assert (slots + [s])[..|slots|] == slots;
    var rows := Rows(slots);
    if rows != [] {
      assert SetCount(Pending(rows), Running(slots)) == rows;
      if !s.first {
        assert SetCount(rows, rows[|rows| - 1].count + 1)[..|rows| - 1] == rows[..|rows| - 1];
      }
    }
  }

  /** Setting the open row's count to the running count turns the pending tree into the rows. */
  lemma ClosePending(slots: seq<Slot>)
    requires Rows(slots) != []
    ensures SetCount(Pending(Rows(slots)), Running(slots)) == Rows(slots)
  {
  }

  /** One more slot read. */
  lemma ParseSlotsStep(list: seq<byte>, i: nat, slots: seq<Slot>, s: Slot)
    requires i < SlotCount(|list|) && 12 * i < |list|
    requires ParseSlots(list, i) == Success(slots) && ParseSlot(list, i) == Success(s)
    ensures ParseSlots(list, i + 1) == Success(slots + [s])
  {
  }

  /** The slot phase once every slot is read. */
  lemma SessionsOf(list: seq<byte>, slots: seq<Slot>)
    requires ParseSlots(list, SlotCount(|list|)) == Success(slots)
    ensures Sessions(list) == if slots != [] && Rows(slots) == [] then Failure(Malformed) else Success(Rows(slots))
  {
  }

  /** Only the last slot can be unreadable (it is cut short), and then the slots fail. */
  lemma ParseSlotsFails(list: seq<byte>, i: nat)
    requires i < SlotCount(|list|)
    requires 12 * i < |list| && ParseSlot(list, i).Failure?
    ensures i == SlotCount(|list|) - 1
    ensures ParseSlots(list, i + 1) == Failure(Malformed)
  {
    if i + 1 < SlotCount(|list|) {
      SlotStarts(|list|, i + 1);
    }
  }

  // ---- properties of paging -------------------------------------------------------------------

  /** A page the device may send: long enough to carry the next index and ready. */
  predicate WellFormedPage(p: seq<byte>)
  {
    5 <= |p| <= Frame.MaxPayload && p[0] != Frame.NotReady
  }

  predicate WellFormedPages(pages: seq<seq<byte>>)
  {
    pages == [] || (WellFormedPage(pages[0]) && WellFormedPages(pages[1..]))
  }

  /** `page` is followed by `pages`, each page pointing on to the next and the last one ending the
      list with next index 0. */
  predicate Chain(page: seq<byte>, pages: seq<seq<byte>>)
    requires |page| >= 4
    requires WellFormedPages(pages)
    decreases |pages|
  {
    if pages == [] then NextIndex(page) == 0
    else NextIndex(page) != 0 && |page| >= 5 && Chain(pages[0], pages[1..])
  }

  function Frames(pages: seq<seq<byte>>): seq<byte>
    requires WellFormedPages(pages)
  {
    if pages == [] then [] else Frame.ReplyFrame(pages[0]) + Frames(pages[1..])
  }

  function Tails(pages: seq<seq<byte>>): seq<byte>
  {
    if pages == [] then [] else Tail(pages[0], 5) + Tails(pages[1..])
  }

  /** The requests for the pages after `page`: each one names the page the previous one points to. */
  function Requests(page: seq<byte>, pages: seq<seq<byte>>): seq<byte>
    requires |page| >= 5
    requires WellFormedPages(pages)
    decreases |pages|
  {
    if pages == [] then []
    else Frame.EncodeFrame([TrackListCommand, page[3], page[4]]).value + Requests(pages[0], pages[1..])
  }

  /** One pass of the paging loop when the requested page arrives intact. */
  lemma FollowStep(input: seq<byte>, pos: nat, page: seq<byte>, acc: seq<byte>, p: seq<byte>, next: nat)
    requires pos <= next <= |input| && |page| >= 5 && |p| >= 4 && NextIndex(page) != 0
    requires Frame.Receive(input, pos) == Frame.Received(Success(p), next)
    ensures var rest := FollowPages(input, next, p, acc + Tail(p, 5));
      FollowPages(input, pos, page, acc) == Listing(rest.result, rest.next,
        Frame.EncodeFrame([TrackListCommand, page[3], page[4]]).value + rest.sent)
  {
  }

  /** The paging loop's invariant carried over one pass: what is left to do after `page`, with
      `sent` already written, is what is left after the reply `p`, with the request written too. */
  lemma FollowRest(l: Listing, sent: seq<byte>, input: seq<byte>, pos: nat, page: seq<byte>,
                   acc: seq<byte>, p: seq<byte>, next: nat)
    requires pos <= next <= |input| && |page| >= 5 && |p| >= 4 && NextIndex(page) != 0
    requires Frame.Receive(input, pos) == Frame.Received(Success(p), next)
    requires l == After(sent, FollowPages(input, pos, page, acc))
    ensures l == After(sent + Frame.EncodeFrame([TrackListCommand, page[3], page[4]]).value,
                       FollowPages(input, next, p, acc + Tail(p, 5)))
  {
    var request := Frame.EncodeFrame([TrackListCommand, page[3], page[4]]).value;
    var rest := FollowPages(input, next, p, acc + Tail(p, 5));
    FollowStep(input, pos, page, acc, p, next);
    calc {
      l;
      After(sent, Listing(rest.result, rest.next, request + rest.sent));
      Listing(rest.result, rest.next, sent + (request + rest.sent));
      { Concat3(sent, request, rest.sent); }
      After(sent + request, rest);
    }
  }

  /** The ways the paging loop ends, seen from a pass that starts after `page` with `sent` written:
      the last page, a page too short to name the next one, a failed receive, and a reply too short
      to hold the next index. */
  lemma FollowExit(l: Listing, sent: seq<byte>, input: seq<byte>, pos: nat, page: seq<byte>, acc: seq<byte>)
    requires pos <= |input| && |page| >= 4
    requires l == After(sent, FollowPages(input, pos, page, acc))
    ensures NextIndex(page) == 0 ==> l == Listing(Success(acc), pos, sent)
    ensures NextIndex(page) != 0 && |page| < 5 ==> l == Listing(Failure(Malformed), pos, sent)
    ensures NextIndex(page) != 0 && |page| >= 5 ==>
      var request, reply := Frame.EncodeFrame([TrackListCommand, page[3], page[4]]).value,
                            Frame.Receive(input, pos);
      && (reply.result.Failure? ==> l == Listing(Failure(reply.result.error), reply.next, sent + request))
      && (reply.result.Success? && |reply.result.value| <= 3 ==>
            l == Listing(Failure(Malformed), reply.next, sent + request))
  {
    assert sent + [] == sent;
  }

  /** The first request and reply of the paging: the ways it ends early, and otherwise the loop
      that follows it. */
  lemma ReadStart(input: seq<byte>, pos: nat)
    requires pos <= |input|
    ensures var request, reply := Frame.EncodeFrame([TrackListCommand, 0, 0]).value, Frame.Receive(input, pos);
      && (reply.result.Failure? ==>
            ReadHeaderList(input, pos) == Listing(Failure(reply.result.error), reply.next, request))
      && (reply.result.Success? && |reply.result.value| <= 3 ==>
            ReadHeaderList(input, pos) == Listing(Failure(Malformed), reply.next, request))
      && (reply.result.Success? && |reply.result.value| > 3 ==>
            ReadHeaderList(input, pos)
              == After(request, FollowPages(input, reply.next, reply.result.value, Tail(reply.result.value, 5))))
  {
  }

  /** On a line carrying the reply frames of a chain of pages, the loop requests each page the
      previous one points to, reads all of them, and builds the list from every page's bytes after
      the fifth. */
  lemma {:induction false} FollowChain(input: seq<byte>, pos: nat, page: seq<byte>, acc: seq<byte>,
                                       pages: seq<seq<byte>>)
    requires |page| >= 5
    requires WellFormedPages(pages)
    requires Chain(page, pages)
    requires Frame.OnLine(input, pos, Frames(pages))
    ensures FollowPages(input, pos, page, acc)
      == Listing(Success(acc + Tails(pages)), pos + |Frames(pages)|, Requests(page, pages))
    decreases |pages|
  {
    if pages == [] {
      assert acc + Tails(pages) == acc;
    } else {
      var p, later := pages[0], pages[1..];
      var next := FollowHead(input, pos, pages);
      FollowChain(input, next, p, acc + Tail(p, 5), later);
      FollowStep(input, pos, page, acc, p, next);
      FollowJoin(page, acc, pages);
    }
  }

  /** The first reply on the line is read whole and the rest of the line holds the later replies. */
  lemma FollowHead(input: seq<byte>, pos: nat, pages: seq<seq<byte>>) returns (next: nat)
    requires pages != [] && WellFormedPages(pages)
    requires Frame.OnLine(input, pos, Frames(pages))
    ensures next == pos + |Frame.ReplyFrame(pages[0])|
    ensures Frame.Receive(input, pos) == Frame.Received(Success(pages[0]), next)
    ensures next + |Frames(pages[1..])| == pos + |Frames(pages)|
    ensures Frame.OnLine(input, next, Frames(pages[1..]))
  {
    var f := Frame.ReplyFrame(pages[0]);
    next := pos + |f|;
    assert Frames(pages) == f + Frames(pages[1..]);
    Frame.SplitOnLine(input, pos, f, Frames(pages[1..]));
    Frame.ReceiveReply(input, pos, pages[0]);
  }

  /** The totals over a non-empty chain split into its first page and the rest. */
  lemma FollowJoin(page: seq<byte>, acc: seq<byte>, pages: seq<seq<byte>>)
    requires |page| >= 5 && pages != [] && WellFormedPages(pages)
    ensures acc + Tail(pages[0], 5) + Tails(pages[1..]) == acc + Tails(pages)
    ensures Requests(page, pages)
      == Frame.EncodeFrame([TrackListCommand, page[3], page[4]]).value + Requests(pages[0], pages[1..])
    ensures |Frames(pages)| == |Frame.ReplyFrame(pages[0])| + |Frames(pages[1..])|
  {
  }

  /** The whole paging on such a line: the first request `BB 00 00`, then one request per page that
      points further, and the concatenated list. */
  lemma ReadChain(input: seq<byte>, pos: nat, pages: seq<seq<byte>>)
    requires pages != []
    requires WellFormedPages(pages)
    requires Chain(pages[0], pages[1..])
    requires Frame.OnLine(input, pos, Frames(pages))
    ensures ReadHeaderList(input, pos) == Listing(Success(Tails(pages)), pos + |Frames(pages)|,
      Frame.EncodeFrame([TrackListCommand, 0, 0]).value + Requests(pages[0], pages[1..]))
  {
    var next := FollowHead(input, pos, pages);
    FollowChain(input, next, pages[0], Tail(pages[0], 5), pages[1..]);
  }
}
