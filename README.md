# Py3DG200 protocol core, modelled in Dafny

Py3DG200 manages a GlobalSat DG-200 GPS datalogger over a serial line. It builds and checks the
device's frames (`A0 A2 <len> <payload> <checksum> B0 B3`). It writes and reads the 43-byte
configuration and pages through the stored track headers. It downloads track components, decodes
their 20- and 32-byte point records and writes the result as a GPX 1.1 file. This project models
that protocol and decoding logic of `Py3DG200.py` and proves what it does.

The model has these modules:

- `Base` holds bytes, `Option`, `Result` and the two ways a call can fail. `ShortRead` is `receive`
  returning None, and it stays the label when the caller then raises on that None. `Malformed`
  stands for any other Python exception raised on data that is too short.
- `Codec` models `int2bytes` and `bytes2int`, and the decimal text of `'{0:0>Nd}'.format`.
- `Frame` holds `send`'s frame as a function and `receive` as a function of the line contents. It
  also holds the send/receive round trip.
- `Device` is the `DG200` object as a class. Its serial port is the byte sequence the device will
  put on the line, plus a read position and the bytes written so far. Its methods `Send`, `Receive`
  (the retry loop), `GetConfiguration` and `GetId` are proved against `Frame`.
- `Config` covers the payload `set_configuration` builds and the offsets `get_configuration` reads.
- `Points` models `process_point` and the block decoding of `get_track`, with exact `real`s.
- `Headers` models the header paging and the grouping of 12-byte slots into sessions from
  `get_track_list`.
- `Gpx` models `write_gpx` as the file name plus the sequence of lines written.
- `Control` is the window's protocol logic as a class: `SetConfiguration`, `GetConfiguration`,
  `GetTrackList`, `GetTrack` and `ClearMemory`. The tree view is a sequence of session rows.

Where the source code and its design description disagree, the model follows the code:

- A format marker other than 1 or 2 adds no points. It is not an error.
- A body read that comes up short is not an error by itself. `receive` goes on with the bytes it got.
- The not-ready and checksum retry loop has no bound. It ends here because the line is finite.
- Each reply's status is not checked.
- The clear-memory verdict reads reply bytes 1-4.
- The configuration reply is not checked for its length, only indexed. A reply shorter than 43 bytes raises.

## Model

| member | source | states |
|---|---|---|
| `Codec.Int2Bytes` | Py3DG200.py:39-44 | None exactly for a negative number; otherwise exactly `nbBytes` bytes |
| `Codec.Bytes2Int` | Py3DG200.py:46-47 | None exactly for an empty list; otherwise a value below 256^k whose k big-endian bytes are the input |
| `Codec.Int2BytesRoundTrip` | Py3DG200.py:39-47 | `bytes2int(int2bytes(n, k)) == n` for 0 <= n < 256^k |
| `Codec.Int2BytesOverflow` | Py3DG200.py:41-42 | a number too large for k bytes keeps its leading 2k hex digits (a non-zero leading digit), not its low bytes |
| `Codec.PadDecimalIsFixed` | Py3DG200.py:70-72 | `'{0:0>wd}'` of a number below 10^w is exactly its w low-order digits |
| `Codec.DigitPairs` | Py3DG200.py:69-75 | a six-digit field cut at [0:2], [2:4], [4:6] yields its three two-digit parts |
| `Config.BuildConfig` | Py3DG200.py:432-494 | the payload exists exactly when no numeric entry is negative; it is 43 bytes, starts with 0xB8 and has mode 4 at byte 41 |
| `Config.BuildPayload` | Py3DG200.py:432-494 | the append-by-append construction equals `BuildConfig` |
| `Config.Layout` | Py3DG200.py:469-494 | every field sits at the offset `get_configuration` reads |
| `Config.ParseSettings` | Py3DG200.py:396-424 | succeeds exactly on replies of at least 43 bytes |
| `Config.ParseConfiguration` | Py3DG200.py:396-427 | succeeds exactly on replies longer than 43 bytes; the memory usage is byte 43 |
| `Config.SetThenGetFlags` | Py3DG200.py:396-494 | reading the built payload gives back the information type, both disable flags, time/distance mode and WAAS |
| `Config.SetThenGetNumbers` | Py3DG200.py:396-494 | reading the built payload gives back both thresholds and the distance interval when they fit in 4 bytes |
| `Config.SetThenGetTimeInterval` | Py3DG200.py:405-468 | the time interval is written x1000 and read /1000, giving back the seconds entered |
| `Config.EntryReadBack` | Py3DG200.py:443-485 | a 4-byte entry reads back as the scaled value, or 0 for text that is not a number |
| `Frame.EncodeFrame` | Py3DG200.py:152-169 | None exactly for payloads over 0xFFFF; otherwise the frame is len+8 bytes: `A0 A2`, big-endian length, payload, checksum = sum mod 32767, `B0 B3` |
| `Frame.Read` | Py3DG200.py:181-188 | `read(n)` gives at most n bytes, the next ones on the line, and fewer only when the line runs dry |
| `Frame.ReadAttempt` | Py3DG200.py:180-205 | one pass of the loop consumes at least the 4 header bytes; an accepted payload is exactly the bytes after the 4-byte header up to the 4 trailer bytes, and the pass ends after them |
| `Frame.Receive` | Py3DG200.py:177-212 | the retry loop ends within the line and moves forward; an accepted payload leaves room for a 4-byte header and a 4-byte trailer between the start and where reading stops |
| `Frame.AcceptingPass` | Py3DG200.py:177-212 | an accepted reply comes from a single later pass of the loop that accepted exactly that payload and ended where `receive` stops |
| `Frame.ReceivePayload` | Py3DG200.py:177-212 | an accepted payload is exactly the bytes of the last frame read between its 4 header bytes and its 4 trailer bytes, which end where reading stops |
| `Frame.AttemptOnFrame` | Py3DG200.py:181-205 | a well-formed frame is accepted exactly when its first byte is not 0x12 and its checksum field is the payload sum mod 32768, otherwise read again |
| `Frame.ModuliAgree` | Py3DG200.py:165-200 | for every sum an encodable payload can have, the two moduli agree exactly when the sum is below 32767 |
| `Frame.SendThenReceive` | Py3DG200.py:152-212 | `receive` on a frame written by `send` yields the payload exactly when its sum is below 32767; otherwise it retries and finds the line empty |
| `Frame.ChecksumModuliDisagree` | Py3DG200.py:162-201 | a concrete 129-byte payload (sum 32767) that `send` frames with checksum 0 and `receive` refuses |
| `Frame.ReceiveReply` | Py3DG200.py:177-212 | a ready reply frame with the receiving side's checksum is returned whole, and the position moves past it |
| `Frame.SumBound` | Py3DG200.py:162-165 | the byte sum is at most 255 times the length |
| `Device.SumBytes` | Py3DG200.py:162-164 | the checksum loop computes the byte sum |
| `Device.DG200.constructor` | Py3DG200.py:132-135 | a fresh port has read nothing and written nothing |
| `Device.DG200.Read` | Py3DG200.py:181-188 | reads as `Frame.Read` and advances the position by what it read |
| `Device.DG200.Send` | Py3DG200.py:152-175 | writes exactly `EncodeFrame(payload)` and returns its length, or writes nothing and returns 0 |
| `Device.DG200.ReadFrame` | Py3DG200.py:181-205 | one pass of the loop body is `Frame.ReadAttempt` |
| `Device.DG200.Receive` | Py3DG200.py:177-212 | the `while` loop returns `Frame.Receive` and leaves the line where it ends |
| `Device.DG200.GetConfiguration` | Py3DG200.py:214-221 | sends 0xB7 and stores the reply in `conf` (None on no reply, unchanged when Python raises) |
| `Device.DG200.GetId` | Py3DG200.py:223-230 | sends 0xBF and stores the reply in `id` the same way |
| `Points.ProcessPoint` | Py3DG200.py:49-86 | raises exactly below 17 bytes; a point exactly for 20 or 32 bytes, with an altitude exactly for 32 |
| `Points.CoordinateSign` | Py3DG200.py:53-68 | a coordinate is negative exactly when its first byte is above 128 (0x80 counts as positive) |
| `Points.CoordinateOfMinutes` | Py3DG200.py:53-68 | DDDMMmmmm decodes to degrees + minutes/600000, negated when stored as the two's complement |
| `Points.TimestampFields` | Py3DG200.py:69-75 | time HHMMSS in bytes 9-11 and date DDMMYY in bytes 12-15 give `20YY-MM-DDTHH:MM:SSZ` |
| `Points.AltitudeSign` | Py3DG200.py:80-83 | the altitude is negative exactly when its first byte is above 128 |
| `Points.StripPadding` | Py3DG200.py:620-634 | stripping keeps a prefix of the block |
| `Points.StripPaddingSpec` | Py3DG200.py:620-634 | stripping removes whole all-0xFF blocks and stops at the first block that is not all 0xFF |
| `Points.StripPaddingOfPadded` | Py3DG200.py:620-634 | any number of pad blocks after records that do not end in one is removed exactly |
| `Points.ProcessAllSpec` | Py3DG200.py:625-638 | decoding a record list succeeds exactly when every record has 17 bytes or more, giving one entry per record in order |
| `Points.Marker1Block` | Py3DG200.py:618-629 | format 1 gives `int((len-32)/20+1)` points (one when shorter), later points without altitude, and fails exactly below 17 bytes |
| `Points.Marker2Block` | Py3DG200.py:631-638 | format 2 gives `len div 32` points, all with altitude |
| `Points.Marker1PointCount` | Py3DG200.py:618-629 | 32+20k record bytes, any 20-byte padding and the 16 trailing bytes give k+1 points |
| `Points.Marker2PointCount` | Py3DG200.py:631-638 | m 32-byte records with any 32-byte padding give m points |
| `Points.Marker1Count` | Py3DG200.py:626 | the stride count never reads past the end of the block |
| `Points.StripTrailing` | Py3DG200.py:620-634 | the `del` loop computes `StripPadding` |
| `Points.ProcessChunks` | Py3DG200.py:628-638 | the point loop computes `ProcessAll` of the stride records |
| `Points.DecodeBlock` | Py3DG200.py:617-638 | the statement-by-statement decoding equals `BlockPoints` |
| `Points.DecodeFormat1` | Py3DG200.py:618-628 | the format 1 statements (`del` of the trailer and pad blocks, first point, later points) equal `Format1Points` |
| `Headers.FollowPages` | Py3DG200.py:511-517 | the paging loop ends within the line |
| `Headers.ReadHeaderList` | Py3DG200.py:504-517 | the whole paging ends within the line |
| `Headers.FollowChain` | Py3DG200.py:511-517 | on a chain of pages, each request names the page the previous one points to, and the list is every page's bytes after the fifth, in order |
| `Headers.ReadChain` | Py3DG200.py:504-517 | the paging starts with `BB 00 00`, stops after the page whose next index is 0, and concatenates every `page[5:]` in page order |
| `Headers.SlotStarts` | Py3DG200.py:522-525 | every slot counted by `round(len/12)` starts inside the list |
| `Headers.ParseSlot` | Py3DG200.py:524-540 | a slot is readable exactly when it reaches byte 9 |
| `Headers.ParseSlots` | Py3DG200.py:522-539 | reading the first n slots gives n slots, and its only exception is a short slot |
| `Headers.ParseSlotsSpec` | Py3DG200.py:522-539 | the first n slots are read exactly when n is 0 or slot n-1 reaches its index field, and then slot i is `ParseSlot(list, i)`, in order |
| `Headers.SetCount` | Py3DG200.py:544 | `set_value` changes the count of the open row only |
| `Headers.RowsSpec` | Py3DG200.py:540-553 | one row per 0x80 slot, in order, with its date, time and index; every count is at least 1; the counts sum to the slot count |
| `Headers.OpenRow` | Py3DG200.py:540-550 | after a 0x80 slot and the unmarked slots that follow it, its row is the last one, counting itself, those slots, and the slots before it when none of them is marked |
| `Headers.RowsKeep` | Py3DG200.py:540-550 | slots that start with a 0x80 slot leave every earlier row as it was and add at least one row |
| `Headers.SessionCount` | Py3DG200.py:540-553 | the session opened by the k-th 0x80 slot is row k, with that slot's date, time and index, and it counts that slot and the unmarked slots up to the next 0x80 slot or the end; the first session also counts the unmarked slots before it |
| `Headers.NoRows` | Py3DG200.py:540-553 | there is no row exactly when no slot starts with 0x80 |
| `Headers.RowsStep` | Py3DG200.py:540-550 | one pass of the slot loop: a 0x80 slot closes the open row with the running count and opens one showing 0 |
| `Headers.ParseSlotsFails` | Py3DG200.py:522-539 | only the last slot can be unreadable, and then the slot phase raises |
| `Control.TrackRequest` | Py3DG200.py:600-601 | the track request is 0xB5 and the index in two bytes |
| `Control.ReceivePart` | Py3DG200.py:603-610 | a reply without its command byte stays within the line |
| `Control.ReadComponent` | Py3DG200.py:603-615 | one component's exchange stays within the line, takes at most two replies apart, and two when it succeeds |
| `Control.ReadComponentOf` | Py3DG200.py:603-615 | when both replies arrive, the component is the block of the two payloads without their command bytes, and the read ends after the second reply |
| `Control.DownloadFrom` | Py3DG200.py:599-638 | the download loop ends within the line |
| `Control.DownloadSucceeds` | Py3DG200.py:599-638 | a successful download sent one request per component, took two replies apart per component, and kept earlier points in front |
| `Control.DownloadLine` | Py3DG200.py:599-638 | on a line holding two reply frames per component, the download yields every block's points in order |
| `Control.ClearStatus` | Py3DG200.py:656-658 | the erase reply raises exactly when it has under two bytes; it reports success exactly when its bytes 1-4 are zero |
| `Control.BigEndianZero` | Py3DG200.py:658 | a big-endian status is zero exactly when all its bytes are |
| `Control.Window.SetConfiguration` | Py3DG200.py:429-497 | sends the built payload and reads one reply; an entry that raises sends nothing |
| `Control.Window.GetConfiguration` | Py3DG200.py:388-427 | sends 0xB7 and parses the reply stored in `conf`; raises when there is none, keeping `ShortRead` when this call's reply was missing |
| `Control.Window.ReadPages` | Py3DG200.py:503-517 | the paging loop computes `ReadHeaderList` and writes exactly its requests; `header_index` is emptied exactly when the first reply arrives, and kept when it does not |
| `Control.Window.FillTree` | Py3DG200.py:521-553 | the slot loop gives `Sessions`; `header_index` holds the index of every slot it got through; the tree holds the session rows, or on an exception the rows so far with the open one showing 0 (empty when no slot is marked) |
| `Control.Window.AddSlot` | Py3DG200.py:538-550 | one pass keeps the pending tree, the running count and `header_index` in step with the slots read |
| `Control.Window.GetTrackList` | Py3DG200.py:499-553 | clears the tree, pages and fills it; when paging fails the tree is empty and `header_index` is empty or, when not even the first reply arrived, unchanged; otherwise the tree and `header_index` are as `FillTree` leaves them |
| `Control.Window.FetchComponent` | Py3DG200.py:600-615 | writes the request frame, reads as `ReadComponent` does, and raises the progress counter by one per reply taken apart |
| `Control.Window.GetTrack` | Py3DG200.py:596-642 | downloads every component, counts two replies each as progress, and writes the GPX of the points |
| `Control.Window.ClearMemory` | Py3DG200.py:656-658 | sends `BA FF FF` and reports the status of the reply |
| `Gpx.WriteGpxResult` | Py3DG200.py:88-126 | a file exactly when the track is non-empty and holds no undecoded entry; it is named folder/timestamp.gpx |
| `Gpx.WriteGpx` | Py3DG200.py:88-126 | the sequential writes produce `WriteGpxResult` |
| `Gpx.WriteWaypoints` | Py3DG200.py:98-107 | the first loop raises exactly on an undecoded entry, otherwise writes `Waypoints` |
| `Gpx.WriteTrackPoints` | Py3DG200.py:112-121 | the second loop writes `TrackPoints` |
| `Gpx.WaypointsInOrder` | Py3DG200.py:98-107 | one `<wpt>` per point with abs(lat) > 100, in track order, at lat - 100 |
| `Gpx.TrackPointsInOrder` | Py3DG200.py:112-121 | one `<trkpt>` per point with abs(lat) < 100, in track order |
| `Gpx.WaypointAndTrackPoint` | Py3DG200.py:98-121 | latitudes 148 and 48 give one `<wpt>` at 48 and one `<trkpt>` at 48 |
| `Gpx.PartitionCounts` | Py3DG200.py:100-114 | no point is both kinds; exactly the points with abs(lat) == 100 are in neither |
| `Gpx.GpxElementCounts` | Py3DG200.py:91-125 | the file closes one `<wpt>` per waypoint and one `<trkpt>` per track point, and nothing else |

## Left out

- Opening the serial port (`connect`, baud rate, timeout, Py3DG200.py:132-150) is left out. The port is the finite byte sequence the device will send, and a read timeout is that sequence running dry.
- The `time.sleep(0.1)` before a retry is left out: it has no effect on the bytes.
- Debug output, the `isDebug` flag and the warnings printed by `send` and `receive` are left out.
- The catch-all `except` blocks are not modelled as such, and neither is the class of an exception. An exception raised on data that is too short becomes `Failure(Malformed)`. When `receive` returns None and the caller then indexes, slices or pops it, Python raises a TypeError or AttributeError; the model keeps the label `Failure(ShortRead)` there. This happens at `header_list_tmp[5:]` (Py3DG200.py:506), `first_part.pop(0)` (Py3DG200.py:604, 610), `self.dg200.conf[1]` (Py3DG200.py:396) and `res[1:5]` (Py3DG200.py:658).
- The GTK window is left out: widgets, dialogs, `toggled_cb`, `select_all`, `select_none`, `set_sensitive`, `quit` and the progress bar's float fraction. The form values are parameters, and the tree view is a sequence of rows without their selection column. The progress counter is kept.
- `download_tracks` is left out: the folder dialog, the sum of the selected rows' counts, and the `header_index.index` lookup of each selected row (Py3DG200.py:555-594). `Control.Window.GetTrack` takes the component indices directly.
- Device auto-detection over `/dev/ttyUSB*` is left out: it is filesystem and hardware probing.
- In `set_configuration`, the `int(text)` parse of each entry is left out. Each entry is given as `Option<int>`, with None for text that is not an integer.
- The confirmation dialog of `clear_memory` is left out. So are the `get_configuration` and `get_track_list` calls that follow it: the caller runs `Control.Window.GetConfiguration` and `Control.Window.GetTrackList`.
- Creating and closing the GPX file is left out. The text of `format(x, '.7f')` and `str(float)` is a parameter.
- Floating-point rounding of `/600000`, `/100/3.6` and `/10000` is left out. These values are exact reals.
- `Config.SetThenGetNumbers` covers only entries that fit in 4 bytes. For larger numbers, `Codec.Int2BytesOverflow` gives what `int2bytes` writes instead.
