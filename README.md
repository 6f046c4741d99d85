# Thermometer download handshake, verified in Dafny

This project models the host side of the download protocol that `main.go` in
pointlander/dyna speaks to a two-channel digital thermometer over a serial line.
It proves properties of that model. The host runs these steps:

1. It writes the count query `QD 0\r\n`.
2. It reads a 5-byte acknowledgement and panics unless the bytes are `0`, `\r`, `Q`, `D`, `,`.
3. It reads a 7-byte header:
   - a 16-bit little-endian record count, which it then increments;
   - a 32-bit little-endian elapsed time;
   - a clock-set byte.
4. It writes the data query `QD 1\r\n`.
5. It reads exactly `count` record frames of 8 bytes each. For each frame it takes the record-kind bit: byte 7 masked with `1 << 7`.

Every short read makes `io.ReadFull` return an error, and the host panics on it. So a
session either completes or aborts.

The serial link is abstract:
- What the instrument sends is a finite sequence of bytes, read through a cursor.
- What the host writes is a log of bytes.
- `io.ReadFull` copies into the buffer the host reuses (`Session.ReadFull`). Like Go's `io.ReadAtLeast`, it reports `EOF` when no byte arrived and `ErrUnexpectedEOF` when only some did.

The model has three layers:
- Go's `uint64` `|`, `&` and `<<` are written out on naturals (`Bits.Or`, `Bits.And`, `Bits.Shl`). Lemmas show that or-ing into cleared bit positions is addition, and that and-ing with `1 << k` keeps bit `k`.
- The imperative session `Session.Acquire` / `Session.ReadRecords` is proved equal to `Session.Run`. `Session.Run` states the session on the whole stream: which prefix decides each step, what has been written, how many bytes were consumed, and the outcome.
- `SessionProperties` holds the lemmas about `Run`. Three of them use `Frames.EncodeHeader` and `SessionProperties.Script`, which are the instrument's side of the protocol. They serve as the inverse against which decoding is proved.

Modules: `Bits` (Bits.dfy), `Frames` (Frames.dfy), `Session` (Session.dfy),
`SessionProperties` (Properties.dfy).

## Model

| member | source | states |
|---|---|---|
| `Frames.Ascii` | main.go:66 | the bytes written for an ASCII string are its characters' codes, one per character; `CountQuery` and `DataQuery` are these bytes for "QD 0\r\n" and "QD 1\r\n" |
| `Frames.IsAck` | main.go:75-77 | the byte-by-byte acknowledgement check accepts exactly when the 5 bytes equal "0\rQD," (both directions) |
| `Frames.HeaderOf` | main.go:84-96 | count = b0 + 256*b1 + 1, so 1 <= count <= 65536; time = b2 + 256*b3 + 65536*b4 + 16777216*b5 < 2^32; clockSet = b6 < 256 |
| `Frames.DecodeHeader` | main.go:84-95 | the shift-and-or decode on uint64, with the increment, yields exactly the numbers of `HeaderOf` and never wraps |
| `Frames.HeaderRoundTrip` | main.go:84-95 | decoding the 7 bytes that announce any count in [1, 65536], time below 2^32 and clock byte gives back that header |
| `Frames.HeaderBytesRoundTrip` | main.go:84-95 | every 7-byte header decodes to a valid header that re-encodes to the same 7 bytes, so decoding loses nothing |
| `Frames.Discriminator` | main.go:108 | the discriminator is 128 if byte 7 has its high bit set and 0 otherwise; it depends on byte 7 alone |
| `Bits.Or` | main.go:85-86 | or of two naturals is at least each operand and at most their sum |
| `Bits.And` | main.go:108 | and of two naturals is at most each operand |
| `Bits.Shl` | main.go:86 | a uint64 left shift that loses no bits multiplies by 2^k |
| `Bits.OrDisjoint` | main.go:85-93 | or-ing `b << k` into an accumulator below 2^k adds `b * 2^k` |
| `Bits.AndPow2` | main.go:108 | and-ing with 2^k leaves 2^k when bit k is set and 0 otherwise |
| `Bits.LittleEndianBound` | main.go:84-93 | an n-byte little-endian number is below 2^(8n) |
| `Bits.LittleEndianRoundTrip` | main.go:84-93 | the n little-endian bytes of any v below 2^(8n) denote v |
| `Bits.ToLittleEndianRoundTrip` | main.go:84-93 | any byte sequence is the little-endian encoding of the number it denotes |
| `Session.ReadFull` | main.go:69-73 | a read into the reused buffer copies min(length, remaining) bytes from the cursor and leaves the rest of the buffer as it was; the status is filled, EOF when nothing arrived, unexpected EOF when some bytes did |
| `Session.Run` | main.go:66-111 | the session writes "QD 0" first, always; it writes "QD 1" after it exactly when the acknowledgement was right and the full header was read; it never consumes more than the stream holds |
| `Session.Acquire` | main.go:66-112 | the host's step-by-step session produces the outcome, the written bytes and the consumed byte count of `Run` on every input |
| `Session.ReadRecords` | main.go:100-111 | the frame loop, with i <= count throughout, reads count frames and collects their discriminators in order; a short read in frame i aborts with frame stage i and the read's error |
| `SessionProperties.AckDecides` | main.go:75-77 | with 5 bytes available, the session aborts with an invalid response exactly when they are not the acknowledgement literal; it then has written only "QD 0" and consumed 5 bytes |
| `SessionProperties.CompleteReading` | main.go:84-111 | a completed session consumed 5 + 7 + 8*count bytes with 1 <= count <= 65536, holds count discriminators, and the i-th is 128 or 0 by the high bit of byte 7 of frame i |
| `SessionProperties.CompleteIff` | main.go:69-111 | a session completes exactly when the acknowledgement is right and the stream holds the header and all announced frames; otherwise it aborts |
| `SessionProperties.StopsAtCount` | main.go:100-111 | bytes after the last announced frame change nothing: the host stops at count, not at the end of the stream |
| `SessionProperties.TruncationAborts` | main.go:70-107 | any strict prefix of a stream that completes aborts on a short read (never an invalid response), so no partial result is produced |
| `SessionProperties.FlattenFrames` | main.go:100-107 | frames sent back to back put frame i at bytes 8i..8i+8 |
| `SessionProperties.ScriptedSession` | main.go:66-111 | every stream the instrument can send (ack, the header for any valid count/time/clock, count frames) completes with that header and the sent frames' discriminators in order, after writing both queries |

## Left out

- Opening and configuring the serial port (9600 baud, 8N1), `bufio` buffering, `Flush` and closing the port: transport I/O. Writes cannot fail in the model because main.go ignores the results of `WriteString` and `Flush`.
- The `fmt.Println` diagnostics and the 100 ms sleep between frames: logging and pacing, with no effect on what is read. The model collects the discriminators into the result. main.go only prints them.
- Writing README.md from the `ReadMe` constant (main.go:27-42, 114-122): file output of a literal string.
- `process()`: CSV reading, `strconv.ParseFloat`, and the float64 statistics (mean absolute difference, population standard deviation, Pearson correlation with `math.Sqrt`). This is floating-point numerics over library parsing. Plot construction and image saving through gonum/plot is rendering.
- The per-field decoding of data and init records, unit conversion and log persistence. main.go does none of these. It looks only at the discriminator bit of each frame.
- Some descriptions of this protocol mention firmware variants: one re-reads an acknowledgement and filler bytes after "QD 1", and one does not increment the count. main.go has neither variant, and the model follows main.go: no extra read after "QD 1", and the count is always incremented. A count field of 0 therefore still reads one frame.
- Go's `int` loop counter and the `uint64` conversions cannot overflow here, because count is at most 65536. The model uses unbounded naturals for them.
