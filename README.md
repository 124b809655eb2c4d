# asscam frame pipeline and relay, in Dafny

asscam is a terminal video chat. Each peer turns webcam images into grids of
ASCII characters ("frames") and sends them through a UDP relay server that
pairs two peers. This project models the byte-level core of that system and
proves what it does:

- **the message envelope** (`Message`). Every datagram starts with a one-byte
  type tag: Info, Frame, Audio, Error, or anything else for Unknown.
- **run-length coding of frames** (`Codec`, `CodecProperties`). The encoding
  is the column count, then (count, character) pairs over the cells in
  row-major order. The decoder refolds the cells into rows.
- **chunking** (`Chunk`). An encoded frame is cut into pieces under a 6-byte
  header: a little-endian frame id, a sequence number and a chunk count.
  Each piece can be written to, and read back from, the wire.
- **reassembly** (`Catcher`, `Transport`). The catcher collects chunks per
  frame id. Once a frame id has as many chunks as the arriving chunk
  announces, it sorts them, joins them and decodes the frame.
- **terminal redraw** (`Render`, `RenderProperties`). The renderer computes
  the cell-by-cell diff against the previous frame. When the diff is nil it
  clears the screen and prints the whole frame instead. As written, the
  incremental writes land one row up and one column left of their cells
  (see "## Findings"); the screen-level lemmas are proved for the corrected
  cursor positions.
- **the relay server** (`Room`, `Relay`). The room maps address strings to
  peers. One pass of the receive loop checks whether the room is full for
  the sender, then reacts to the message type.

Go's behaviour is modelled explicitly:

- `uint8(...)` and `byte(...)` keep the low eight bits (`Uint8`).
- A `nil` slice is `None`, and an empty non-nil slice is `Some([])`.
- A run-time panic (index out of range, integer divide by zero) is an
  `Outcome.Panic` value that the functions return.
- The decoder ranges over a Go string, so its index `i` is a byte offset.
  A code point of 0x80 or more takes two bytes there (`Codec.Width`).
- Iteration over a Go map has no fixed order, so `Room` picks keys with
  `:|` and states only what holds for every order.

Code that updates state step by step is written as methods with loops, proved
against specification functions:

- `RunLengthEncode`, `RunLengthDecode`, `Encode` and `ChunkFrameData`;
- `Catch` on the `FrameChunkCatcher` class, whose map field it updates;
- `Diff`, `Do` and `Display`;
- `IsRoomFull`, `OtherBro`, `Add` and `Remove` on the `Bros` class;
- `Handle` on the relay's `Server` class.

The properties are lemmas about those specification functions.

## Model

| member | source | states |
|---|---|---|
| GoTypes.Uint8 | pkg/video/endcoding.go:27 | the byte conversion keeps values below 256 and otherwise differs from its argument by a multiple of 256 |
| Message.Parse | pkg/message/types.go:13-27 | tags 0, 1, 2 and 99 are stripped and name their type; any other first byte returns the datagram whole, typed Unknown |
| Message.Make | pkg/message/types.go:29-43 | a built message is the type's tag followed by the payload |
| Message.MakeError | pkg/message/types.go:29-31 | an Error message is byte 99 followed by the text |
| Message.MakeInfo | pkg/message/types.go:33-35 | an Info message is byte 0 followed by the text |
| Message.MakeFrame | pkg/message/types.go:37-39 | a Frame message is byte 1 followed by the data |
| Message.MakeAudio | pkg/message/types.go:41-43 | an Audio message is byte 2 followed by the data |
| Message.ParseMake | pkg/message/types.go:13-43 | parsing a built message gives back its payload and type, for every known type |
| Message.MakeParse | pkg/message/types.go:13-43 | rebuilding a parsed datagram with a known tag gives back the datagram |
| Message.ParseUnknownTag | pkg/message/types.go:10-24 | a datagram that starts with the Unknown constant 255 is returned whole |
| Codec.Step | pkg/video/endcoding.go:34-45 | the open tally never exceeds 254 after a step |
| Codec.RunLengthEncode | pkg/video/endcoding.go:11-54 | the two nested loops produce exactly the specified encoding |
| Codec.Encoding | pkg/video/endcoding.go:11-54 | a frame with no rows or an empty first row encodes to nothing, and only such a frame; any other encoding starts with the first row's length as a byte |
| Codec.Place | pkg/video/endcoding.go:75-82 | a placement that does not panic keeps every row `cols` wide |
| Codec.Expand | pkg/video/endcoding.go:67-72 | the string built from the pairs has as many code points as the pair counts add up to |
| Codec.Refold | pkg/video/endcoding.go:74-83 | refolding that does not panic leaves every row exactly `cols` wide |
| Codec.ExpandPairs | pkg/video/endcoding.go:67-72 | an odd number of bytes after the column count panics, and only then; otherwise the string is every character repeated its count |
| Codec.RefoldCells | pkg/video/endcoding.go:74-83 | zero columns with cells panics with a divide by zero; otherwise the loop computes the specified refold |
| Codec.Decoding | pkg/video/endcoding.go:56-84 | a non-empty input of even length always panics; a decoded frame has rows exactly as wide as the column byte says |
| Codec.RunLengthDecode | pkg/video/endcoding.go:56-84 | the decoder returns exactly the specified decoding: `Frame{}` for no bytes, nil for no cells, or one of the panics |
| CodecProperties.RunShape | pkg/video/endcoding.go:27-47 | after any cells, the output starts with the column byte and holds whole pairs whose counts are all at least 1 |
| CodecProperties.EncodingShape | pkg/video/endcoding.go:11-54 | a frame encodes to nothing exactly when it has no rows or an empty first row; otherwise to the column byte and at least one pair |
| CodecProperties.RunTracksCells | pkg/video/endcoding.go:30-47 | without zero cells or 255-long runs, the written pairs plus the open run spell out exactly the cells seen |
| CodecProperties.RunLengthBound | pkg/video/endcoding.go:34-40 | the run ending at cell i is at most i+1 long |
| CodecProperties.ShortNoLongRun | pkg/video/endcoding.go:34-40 | fewer than 255 cells can never saturate a tally |
| CodecProperties.EncodingExpands | pkg/video/endcoding.go:49-72 | expanding the pairs of an encoding gives back the bytes of the cells, in row-major order |
| CodecProperties.SaturatedRun | pkg/video/endcoding.go:34-40 | 255 equal cells encode as (255, c) then (1, c), which expands to 256 cells: the saturated run gains a cell |
| CodecProperties.FlattenLength | pkg/video/endcoding.go:30-31 | a rectangular frame has rows × columns cells |
| CodecProperties.PlaceGrid | pkg/video/endcoding.go:75-82 | placing an ASCII code point at the next index extends the row-major grid by that cell |
| CodecProperties.RefoldAscii | pkg/video/endcoding.go:74-83 | ASCII cells refold into the row-major grid, with the last row padded with rune 0 |
| CodecProperties.FlattenIndex | pkg/video/endcoding.go:30-31 | cell (r, c) of a rectangular frame is cell r·cols + c of its row-major sequence |
| CodecProperties.CellAt | pkg/video/endcoding.go:76-81 | cell i of the row-major sequence is row i / cols, column i % cols |
| CodecProperties.GridFlatten | pkg/video/endcoding.go:74-83 | refolding the cells of a rectangular ASCII frame by its width gives back the frame |
| CodecProperties.DecodingOfAscii | pkg/video/endcoding.go:56-84 | bytes with whole pairs, a non-zero column count and ASCII characters decode to the grid of their expansion |
| CodecProperties.DecodeEncode | pkg/video/endcoding.go:11-84 | a rectangular frame with 1 to 255 columns, ASCII cells other than rune 0 and no 255-long run decodes back to itself |
| CodecProperties.EmptyFrames | pkg/video/encoding_test.go:133-136 | an empty frame encodes to nothing, and nothing decodes to the empty frame |
| CodecProperties.RunAppend | pkg/video/endcoding.go:30-47 | encoding two blocks of cells one after the other is encoding their concatenation: runs carry across rows |
| CodecProperties.TestFrameEncoding | pkg/video/encoding_test.go:11-16 | the two-row test grid encodes to the 13 bytes the test expects |
| CodecProperties.NonAsciiCell | pkg/video/endcoding.go:71-81 | cell 200 encodes as byte 200, whose two-byte UTF-8 form shifts the index, so [[200, 65]] decodes to [[200, 0], [65, 0]] |
| Chunk.PutUint32 | pkg/video/endcoding.go:96 | the little-endian form of a 32-bit id is four bytes |
| Chunk.Uint32 | pkg/video/endcoding.go:109 | the first byte is the least significant and the fourth the most significant |
| Chunk.Uint32PutUint32 | pkg/video/endcoding.go:96-109 | reading back the little-endian form gives the id |
| Chunk.PutUint32Uint32 | pkg/video/endcoding.go:96-109 | any four bytes are the little-endian form of the id they read as |
| Chunk.Encode | pkg/video/endcoding.go:93-101 | the buffer is the id in four little-endian bytes, the sequence number, the chunk count, then the data |
| Chunk.Wire | pkg/video/endcoding.go:93-101 | the wire form is 6 bytes longer than the data, with the id, sequence number and chunk count at offsets 0-3, 4 and 5 and the data from offset 6 |
| Chunk.WireLayout | pkg/video/endcoding.go:94-99 | each header byte and each data byte sits at its offset in the wire form |
| Chunk.Decode | pkg/video/endcoding.go:103-120 | fewer than 6 bytes fail with "frame chunk too small", and only then; 6 bytes or more always decode, and the header fields and the rest of the bytes are read back |
| Chunk.DecodeWire | pkg/video/endcoding.go:93-120 | decoding an encoded chunk gives back the chunk |
| Chunk.WireDecode | pkg/video/endcoding.go:93-120 | a datagram that decodes is the encoding of what it decodes to |
| Chunk.Piece | pkg/video/endcoding.go:134-146 | every chunk holds between 1 and `size` bytes |
| Chunk.Chunks | pkg/video/endcoding.go:128-131 | there are ⌈len/size⌉ chunks |
| Chunk.ChunkFrameData | pkg/video/endcoding.go:128-150 | the fill loop produces exactly the specified chunks |
| Chunk.JoinPrefix | pkg/video/endcoding.go:133-147 | the data of the first k chunks is the first min(k·size, len) bytes |
| Chunk.JoinChunks | pkg/video/endcoding.go:128-150 | joining the data of all chunks in order gives back the input |
| Chunk.ChunkHeaders | pkg/video/endcoding.go:140-145 | with at most 255 chunks, each carries the frame id, its own index as sequence number and the true count; all but the last are full |
| Chunk.SequenceWraps | pkg/video/endcoding.go:142 | with more than 256 chunks, chunk 256's sequence number wraps to 0, like chunk 0's |
| Chunk.ThirteenBytes | pkg/video/encoding_test.go:27-31 | 13 bytes in chunks of 2 make 7 chunks, the last holding 1 byte |
| Catcher.Insert | pkg/video/endcoding.go:176-178 | inserting into a list sorted by sequence number keeps it sorted and adds exactly that chunk |
| Catcher.SortBySeq | pkg/video/endcoding.go:176-178 | the sort returns a permutation of the chunks ordered by sequence number |
| Catcher.SortedUnique | pkg/video/endcoding.go:176-178 | when sequence numbers are distinct, only one ordering is sorted, so any sort gives the same list |
| Catcher.FrameChunkCatcher.constructor | pkg/video/endcoding.go:154-156 | a new catcher holds no partial frames |
| Catcher.CatchStep | pkg/video/endcoding.go:158-195 | an undecodable datagram returns nil and leaves the map alone; a call adds at most one entry to the map |
| Catcher.FrameChunkCatcher.Catch | pkg/video/endcoding.go:158-195 | the map the call leaves and the frame it returns are those of the specified catch step |
| Catcher.CatchTooSmall | pkg/video/endcoding.go:160-165 | an undecodable datagram returns nil and leaves the map alone |
| Catcher.CatchSingle | pkg/video/endcoding.go:169-171 | a chunk announcing 1 chunk is decoded at once and the map is left alone |
| Catcher.CatchOtherIds | pkg/video/endcoding.go:173-192 | a call touches only the entry of the arriving chunk's frame id |
| Catcher.CatchStores | pkg/video/endcoding.go:173-192 | while the list is shorter than the announced count, the chunk is appended (or starts a list) and nil is returned |
| Catcher.CatchCompletes | pkg/video/endcoding.go:173-185 | when the list reaches the announced count, the entry is removed and the sorted, joined data is decoded |
| Catcher.DuplicateCompletes | pkg/video/endcoding.go:175 | completion counts list entries, so the same chunk of a 2-chunk frame sent twice completes the frame with its data doubled |
| Catcher.ZeroTotalGrows | pkg/video/endcoding.go:173-192 | a chunk announcing 0 chunks is stored and never completes, so the map grows |
| Catcher.Feed | pkg/video/endcoding.go:158-195 | a stream of datagrams yields one result per datagram |
| Catcher.SortRestores | pkg/video/endcoding.go:176-184 | sorting the chunks of a frame, in any arrival order, and joining them gives back the encoded frame |
| Catcher.FeedPrefix | pkg/video/endcoding.go:173-192 | all chunks of a frame but the last, in any order, are stored under the fresh frame id and each returns nil |
| Catcher.LastChunk | pkg/video/endcoding.go:173-185 | the last chunk completes the frame, removes its id and decodes the original bytes |
| Catcher.ReassemblyAnyOrder | pkg/video/endcoding.go:158-195 | the chunks of one frame (2 to 255 of them) caught in any order give nil until the last, which returns the decoded frame, and the map ends as it began |
| Transport.FrameSurvives | pkg/video/encoding_test.go:9-61 | a frame the codec carries, chunked and caught in any order, comes out equal to the original |
| Transport.TestEncoding | pkg/video/encoding_test.go:9-61 | the test grid travels as 7 shuffled chunks of 2, comes back whole from the last catch, and the catcher ends empty |
| Render.Diff | pkg/video/update.go:3-38 | the nested loops return exactly the specified diff |
| Render.Diffing | pkg/video/update.go:3-38 | a non-nil diff comes only from a previous frame of the same shape, and it is never empty |
| Render.Writes | pkg/video/update.go:40-44 | there is one write per update |
| Render.Do | pkg/video/update.go:40-44 | one move-and-write per update, in list order, none skipped, with the update's own row and column as cursor position |
| Render.Show | pkg/video/frame.go:60-63 | a redraw first clears the screen and ends by printing the frame |
| Render.Displaying | pkg/video/frame.go:49-58 | the display panics exactly when the diff does, and otherwise always does something: a redraw or at least one write |
| Render.CursorWrites | pkg/video/ansi.go:21-28 | the corrected writes: one per update, none at cursor row or column 0 |
| Render.CursorDisplaying | pkg/video/frame.go:49-58 | the corrected display panics exactly when the as-written one does, and issues as many effects |
| Render.Display | pkg/video/frame.go:49-58 | the effects are exactly the specified ones |
| RenderProperties.RowChangesSound | pkg/video/update.go:26-35 | every update for a row is a changed cell of that row, in column order |
| RenderProperties.RowChangesComplete | pkg/video/update.go:26-35 | every changed cell of a row has its update |
| RenderProperties.ChangesSound | pkg/video/update.go:24-37 | every update writes the new character of a changed cell, in strict row-major order |
| RenderProperties.ChangesComplete | pkg/video/update.go:24-37 | every changed cell has its update |
| RenderProperties.DiffExact | pkg/video/update.go:24-37 | a non-nil diff lists exactly the changed cells, each once, in row-major order, with the new characters |
| RenderProperties.DiffEmptyPrevious | pkg/video/update.go:9-22 | an empty previous frame gives a nil diff |
| RenderProperties.DiffNilOnShape | pkg/video/update.go:5-22 | no previous frame, or one whose row count or first-row length differs, gives a nil diff |
| RenderProperties.DiffNilIffEqual | pkg/video/update.go:24-37 | for frames with rows of equal length, the diff is nil exactly when the frames are equal |
| RenderProperties.SomeChange | pkg/video/update.go:24-37 | frames with rows of equal length that differ have at least one update |
| RenderProperties.PositionsMembers | pkg/video/update.go:30-33 | a cell is written exactly when some update names it |
| RenderProperties.OrderedPositions | pkg/video/update.go:24-37 | updates in strict row-major order name as many cells as there are updates |
| RenderProperties.UpdateCount | pkg/video/update.go:24-37 | for frames with rows of equal length, there are as many updates as changed cells |
| RenderProperties.ShowPaints | pkg/video/frame.go:60-63 | clearing and printing leaves exactly the frame on screen, whatever was there |
| RenderProperties.PaintAppend | pkg/video/update.go:40-44 | painting two traces one after the other is painting their concatenation |
| RenderProperties.Apply | pkg/video/ansi.go:21-28 | a write lands on the printed cell one row up and one column left of its cursor position, and cursor 0 counts as 1 |
| RenderProperties.MisplacedWrite | pkg/video/ansi.go:21-28 | as written, a change in the bottom-right cell of a 2 × 2 frame is written over its top-left cell, so the screen does not show the new frame |
| RenderProperties.RowPaints | pkg/video/update.go:26-35 | with the corrected cursor positions, writing a row's updates over the old row leaves the new row's cells |
| RenderProperties.ChangesPaint | pkg/video/update.go:24-44 | with the corrected cursor positions, writing all updates over the old frame leaves the new frame on screen |
| RenderProperties.DisplayPaints | pkg/video/frame.go:49-58 | with the corrected cursor positions, whichever branch runs, the screen ends up showing the new frame, if it showed the previous one and the rows have equal lengths or the shapes differ |
| RenderProperties.RectangularDisplayPaints | pkg/video/frame.go:49-58 | for rectangular frames, as the webcam produces them, the corrected display always ends showing the new frame over the previous one |
| RenderProperties.DisplayRedrawsIffNil | pkg/video/frame.go:49-58 | the screen is cleared and printed exactly when the diff is nil; otherwise it is not cleared, and there is one write per update, each to a changed cell |
| RenderProperties.DisplaySameFrame | pkg/video/frame.go:49-58 | showing the same frame again redraws it in full |
| Room.Other | cmd/server/bro.go:28-35 | the chosen peer is stored under a key other than the address, and none exists exactly when every key is the address |
| Room.Full | cmd/server/bro.go:16-26 | a room full for an address holds at least two peers under other addresses |
| Room.OtherOfPair | cmd/server/bro.go:28-35 | in a room of exactly the peers a and b, the other peer of a is b and that of b is a |
| Room.OneOther | cmd/server/bro.go:16-35 | a room of at most two that is not full for the address has at most one other peer |
| Room.Bros.constructor | cmd/server/bro.go:12-14 | a new room is empty |
| Room.Bros.IsRoomFull | cmd/server/bro.go:16-26 | the room is full for an address exactly when it has two or more peers and the address is not a key |
| Room.Bros.OtherBro | cmd/server/bro.go:28-35 | returns the address of some peer under another key, and none exactly when no other key exists; in a room of at most two that is not full, that peer is the only one |
| Room.Bros.Remove | cmd/server/bro.go:37-39 | only the address's key is deleted; an absent key leaves the room unchanged |
| Room.Bros.Add | cmd/server/bro.go:41-43 | only the address's key is set, to the address and name, replacing any entry there |
| Relay.Server.constructor | cmd/server/main.go:66-70 | the loop starts with an empty room and no bytes counted |
| Relay.Server.Handle | cmd/server/main.go:82-115 | one pass leaves the room, the count and the sends of the specified relay step, and keeps the room at two or fewer |
| Relay.Relaying | cmd/server/main.go:82-115 | a pass adds no address except the sender's, sends at most one datagram and counts no more bytes than it received |
| Relay.Forward | cmd/server/main.go:94-111 | forwarding leaves the room as it is, counts the bytes and sends one datagram, to the sender or to a peer under another address |
| Relay.RoomGrowsToTwo | cmd/server/main.go:82-93 | adding a sender the room is not full for keeps it at two or fewer |
| Relay.Refused | cmd/server/main.go:82-86 | a third address gets `[99,'f','u','l','l']`, whatever it sent, and the room is unchanged |
| Relay.Registers | cmd/server/main.go:89-93 | Info stores the sender with the payload as name and replies `[0,'o','k']` to it |
| Relay.Forwards | cmd/server/main.go:94-111 | Frame and Audio reach the other peer as the very datagram received, only it, with the room unchanged and the datagram's length counted |
| Relay.NoPeer | cmd/server/main.go:94-111 | Frame and Audio with no other peer reply `[99,'e','m','p','t','y']` to the sender and leave the room unchanged |
| Relay.Leaves | cmd/server/main.go:112-113 | Error removes the sender and sends nothing |
| Relay.Ignores | cmd/server/main.go:114-115 | an unknown tag changes nothing and sends nothing |
| Relay.EmptyDatagramPanics | cmd/server/main.go:88 | an empty datagram from a sender the room is not full for panics in `Parse` |
| Relay.NewcomerForwarded | cmd/server/main.go:82-111 | a sender that never registered has its Frame and Audio forwarded while the room holds exactly one peer |
| Relay.StepAdmissible | cmd/server/main.go:82-115 | a pass keeps the room at two or fewer peers, each under its own address |
| Relay.Serve | cmd/server/main.go:74-117 | after any sequence of datagrams, every address in the room was there at the start or sent one of them |
| Relay.RoomStaysSmall | cmd/server/main.go:74-117 | over any sequence of datagrams, the room never holds more than two peers |

## Left out

- Audio: PortAudio and oto calls, float samples, the blocking audio reader.
- The client program: dialing, goroutines, `select`, signals, flag clamping.
- Webcam capture and the image-to-ASCII mapping: foreign gocv calls and floating point.
- Terminal output: the exec'd `clear`, ANSI escapes and `fmt.Print` become the abstract effects `ClearScreen`, `PrintFrame` and `MoveAndWrite`. `Paint` gives them meaning on a grid: printing shows the frame row by row from the top-left, at cursor position (1, 1), and a write goes to the cell under the 1-based cursor. A write off the printed frame is not tracked. `PrintFrame(f)` stands for `fmt.Print(f)`, which prints `Frame.String` (pkg/video/ascii.go:47-55): each row's runes as UTF-8, each row followed by a newline, so row r is on line r + 1.
- Statistics: the clock, the KB/s rate, the mutex and the ticker. The relay keeps only `fed`, the bytes given to `ProcessBytes`.
- Server plumbing: argument parsing, `ListenUDP`, `ReadFrom` and `WriteTo`, and read-error logging. A pass takes the bytes one `ReadFrom` delivered and returns the writes as sends. The 2048-byte receive buffer, and UDP's truncation of longer datagrams to it, are not modelled.
- Relay.Server.Handle: an address is its `String()` form, so two `net.Addr` values with the same text are the same peer. A panic stops the server; the model returns it and leaves the state as it was.
- Room.Bros.OtherBro: Go's map order is arbitrary, so the result is pinned down only in rooms of at most two that are not full for the address. Those are the only rooms the relay reaches (`Relay.RoomStaysSmall`).
- Catcher.SortBySeq: `sort.Slice` is not stable; the model sorts with a stable insertion sort. The results agree whenever sequence numbers are distinct (`Catcher.SortedUnique`), which is the case for the chunks of a frame of at most 256 chunks. Beyond 256 chunks sequence numbers wrap (`Chunk.SequenceWraps`), and chunks sharing a sequence number, like duplicates, may come out in another order in Go.
- Catcher.FrameChunkCatcher.Catch: the print on a decoding error is left out.
- Relay.Server.Handle: the print on an unknown message tag is left out; the pass sends nothing and changes nothing there. The received slice is shared with the chunk in Go (`bs[6:]`); the model copies values, so that aliasing is not modelled.
- Chunk.Decode: Go assigns the receiver's fields and returns an error; the model returns the chunk or the error as one value.
- Chunk.ChunkFrameData: a `size` of 0 or less is excluded by its precondition. Go divides by `size`, so 0 panics, and a negative size is not a meaningful input.
- Render.Diff: Go's `diff` only reads its frames. In the model, frames are values, so there is nothing for it to change.
- `Start` and the frame channel are webcam plumbing.

## Findings

| source | as written | input that shows it | evidently intended | confidence | as-written member | corrected member |
|---|---|---|---|---|---|---|
| pkg/video/update.go:40-44 | `do` passes an update's 0-based row and column to `moveAndWrite`, whose escape (pkg/video/ansi.go:21-23) counts from 1, while `show` prints cell (0, 0) at (1, 1) | previous frame [[a, b], [c, d]], new frame [[a, b], [c, X]]: the one update (1, 1, X) is written over cell (0, 0) | each update written at cursor (row + 1, column + 1); with that, the screen shows the new frame (`RenderProperties.DisplayPaints`) | not executed | RenderProperties.MisplacedWrite | Render.CursorDisplaying |
