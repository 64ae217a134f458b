# ESP32 QSPI display bus — a verified model

This project models the QSPI transport of the Arduino_GFX display library
(`Arduino_ESP32QSPI`). The transport turns display commands and pixel data
into SPI transaction records and brackets every write with the chip-select
line.

The driver is an object whose methods change its fields, so the model is the
class `Qspi.QspiBus`:

- its fields are the resolved speed and mode, the chip-select mask and bank,
  the two GPIO output registers, the device handle and the send buffer (an
  `array<bv16>`);
- a ghost `trace` records everything the bus sees: chip select going low
  (`CsDown`), going high (`CsUp`), and each submitted transaction
  (`Sent(txn)`).

Every writer is a method whose `ensures` gives the new trace as a function of
its arguments. The loops of the chunked writers are modelled as loops. Each
is proved against a function with the same shape as the loop
(`RepeatFrom`, `PixelsFrom`, `BytesFrom`).

Those functions are shown equal to an independent reference definition: the
payload is cut into `Chunks` and turned into a `Stream` of transactions. The
properties the driver promises are proved about that reference:

- the number of transactions;
- the size of each piece;
- framing only on the first transaction;
- the exact bytes on the wire;
- the total bit length.

Modules:

- `ByteOrder` (byte_order.dfy): the 16-bit byte swap, and the big- and
  little-endian serialisations of word sequences.
- `Chunking` (chunking.dfy): cutting a payload into pieces of at most `cap`
  elements, and its arithmetic.
- `Frames` (frames.dfy): the transaction record, the scalar transactions, the
  transactions of each chunked writer, the trace events, and the property
  lemmas.
- `Qspi` (qspi.dfy): the driver class, `begin`, chip select, the writers, and
  the `uint8_t` fill counter.

Platform calls are parameters of `Begin`:

- the results of `spi_bus_initialize`, `spi_bus_add_device` and
  `heap_caps_malloc`;
- the pin mask from `digitalPinToBitMask`.

`spi_device_polling_transmit` is the method `Transmit`, which appends the
record to the trace. Build-time constants are fields of `BuildConfig` and are
not given values: `SEND_BUF_SIZE`, `QSPI_FREQUENCY`, `QSPI_SPI_MODE` and
`GFX_NOT_DEFINED`. The chunk capacity of the pixel writers is
`Cap() = SEND_BUF_SIZE / 2` words; `writeBytes` uses `SEND_BUF_SIZE` bytes.

## Model

| member | source | states |
|---|---|---|
| ByteOrder.Swap16 | src/databus/Arduino_ESP32QSPI.cpp:168 | the pixel swap exchanges the high and low bytes of the word |
| ByteOrder.Swap16Involutive | src/databus/Arduino_ESP32QSPI.cpp:244 | swapping a word twice gives it back |
| ByteOrder.SwapAllInvolutive | src/databus/Arduino_ESP32QSPI.cpp:241-245 | swapping a whole pixel sequence twice gives it back |
| ByteOrder.Word | src/databus/Arduino_ESP32QSPI.cpp:130 | the word built from two bytes has exactly those bytes as its high and low byte |
| ByteOrder.BeRoundTrip | src/databus/Arduino_ESP32QSPI.cpp:159 | decoding the big-endian bytes of a word sequence gives the words back |
| ByteOrder.BeRoundTripBytes | src/databus/Arduino_ESP32QSPI.cpp:159 | encoding the decoded words of an even-length byte string gives the bytes back |
| ByteOrder.LeBytesOfSwapped | src/databus/Arduino_ESP32QSPI.cpp:244-248 | swapped words stored in the little-endian send buffer reach the bus high byte first |
| Chunking.ChunksFlatten | src/databus/Arduino_ESP32QSPI.cpp:177-205 | the pieces a chunked writer sends, put back together, are the whole payload in order |
| Chunking.ChunksCount | src/databus/Arduino_ESP32QSPI.cpp:170-205 | there are ceil(len / cap) pieces, and none exactly when len is 0 |
| Chunking.ChunksSizes | src/databus/Arduino_ESP32QSPI.cpp:179-182 | every piece holds 1 to cap elements, and every piece but the last holds exactly cap |
| Chunking.ChunkAt | src/databus/Arduino_ESP32QSPI.cpp:290-295 | piece i starts i * cap elements into the payload and runs for min(cap, remaining) elements |
| Chunking.LastChunk | src/databus/Arduino_ESP32QSPI.cpp:218-252 | the last piece is the tail of the payload from the start of the last piece |
| Frames.CommandTxn | src/databus/Arduino_ESP32QSPI.cpp:80-92 | writeCommand: flags MULTILINE_CMD and MULTILINE_ADDR, opcode 0x02, address bytes [0, c, 0], 8 and 24 bit phases, no data |
| Frames.Command16Txn | src/databus/Arduino_ESP32QSPI.cpp:94-106 | writeCommand16: opcode 0x02, address bytes [0, hi(c), lo(c)], no data |
| Frames.Write8Txn | src/databus/Arduino_ESP32QSPI.cpp:108-120 | write: flag MODE_QIO, opcode 0x32, address 0x002C00, the one byte d in 8 bits |
| Frames.Write16Txn | src/databus/Arduino_ESP32QSPI.cpp:122-135 | write16: opcode 0x32, address 0x002C00, two bytes in 16 bits that decode big-endian to d |
| Frames.C8D8Txn | src/databus/Arduino_ESP32QSPI.cpp:137-149 | writeC8D8: opcode 0x02, address bytes [0, c, 0], the one byte d in 8 bits |
| Frames.C8D16D16Txn | src/databus/Arduino_ESP32QSPI.cpp:151-164 | writeC8D16D16: opcode 0x02, address bytes [0, c, 0], four bytes in 32 bits that decode big-endian to [d1, d2] |
| Frames.ChunkTxn | src/databus/Arduino_ESP32QSPI.cpp:184-201 | a piece that opens a write gets MODE_QIO, opcode 0x32, address 0x003C00 and the device's 8/24-bit phases; any other piece gets the three VARIABLE flags and zero-width command and address phases |
| Frames.OpensNotContinues | src/databus/Arduino_ESP32QSPI.cpp:186-199 | no record both opens a write and continues one |
| Frames.Stream | src/databus/Arduino_ESP32QSPI.cpp:184-203 | the reference stream has one well-formed record per payload, carrying that payload |
| Frames.StreamFraming | src/databus/Arduino_ESP32QSPI.cpp:186-199 | in a stream that opens a write, record i opens exactly when i is 0 and continues exactly when i is positive |
| Frames.RepeatFromChunks | src/databus/Arduino_ESP32QSPI.cpp:166-207 | the writeRepeat loop sends the stream of the pieces of len copies of the swapped colour |
| Frames.PixelsFromChunks | src/databus/Arduino_ESP32QSPI.cpp:209-254 | the writePixels loop sends the stream of the pieces of the swapped pixels |
| Frames.BytesFromChunks | src/databus/Arduino_ESP32QSPI.cpp:256-298 | the writeBytes loop sends the stream of the pieces of the caller's bytes, piece i pointing i * cap bytes in |
| Frames.BufferAfterKeeps | src/databus/Arduino_ESP32QSPI.cpp:241-245 | writePixels leaves the buffer beyond its first min(len, cap) words unchanged |
| Frames.BufferAfterLast | src/databus/Arduino_ESP32QSPI.cpp:218-252 | after writePixels the buffer starts with the swapped last piece of the pixels |
| Frames.PixelsLastInBuffer | src/databus/Arduino_ESP32QSPI.cpp:241-250 | after writePixels the buffer starts with exactly the words of the last transaction sent |
| Frames.TotalBitsOfWellFormed | src/databus/Arduino_ESP32QSPI.cpp:201 | when every record's bit length covers its payload, the bit lengths add up to 8 times the bytes on the wire |
| Frames.SentOfBuffered | src/databus/Arduino_ESP32QSPI.cpp:247-248 | records that each send a piece of the send buffer put the pieces' words on the wire in order |
| Frames.WireOfCaller | src/databus/Arduino_ESP32QSPI.cpp:290-295 | records that each point at a piece of the caller's bytes put the pieces on the wire in order |
| Frames.RepeatCount | src/databus/Arduino_ESP32QSPI.cpp:170-205 | writeRepeat sends ceil(len / cap) transactions, and none exactly when len is 0 |
| Frames.RepeatSizes | src/databus/Arduino_ESP32QSPI.cpp:177-205 | every writeRepeat transaction sends 1 to cap words from the send buffer, all but the last exactly cap; only the first carries the framing |
| Frames.RepeatContents | src/databus/Arduino_ESP32QSPI.cpp:168-205 | writeRepeat sends len copies of the swapped colour, so the wire carries len big-endian copies of the colour in 16 * len bits |
| Frames.PixelCount | src/databus/Arduino_ESP32QSPI.cpp:214-252 | writePixels sends ceil(len / cap) transactions, and none exactly when len is 0 |
| Frames.PixelSizes | src/databus/Arduino_ESP32QSPI.cpp:218-252 | every writePixels transaction sends 1 to cap buffer words, all but the last exactly cap; only the first carries the framing |
| Frames.PixelContents | src/databus/Arduino_ESP32QSPI.cpp:241-248 | the words writePixels sends are the swapped pixels in order; the wire carries the pixels big-endian in 16 * len bits |
| Frames.BytesCount | src/databus/Arduino_ESP32QSPI.cpp:259-296 | writeBytes sends ceil(len / SEND_BUF_SIZE) transactions, and none exactly when len is 0 |
| Frames.BytesSlices | src/databus/Arduino_ESP32QSPI.cpp:262-295 | writeBytes transaction i points i * cap bytes into the caller's data and sends the next min(cap, remaining) bytes unchanged; only the first carries the framing |
| Frames.BytesContents | src/databus/Arduino_ESP32QSPI.cpp:285-295 | the bytes writeBytes sends are the caller's bytes in order, in 8 * len bits |
| Frames.BracketCounts | src/databus/Arduino_ESP32QSPI.cpp:82-91 | a public write drives chip select low exactly once, first, and high exactly once, last, with all its transactions between |
| Frames.RepeatedCount | src/databus/Arduino_ESP32QSPI.cpp:302-305 | repeat back-to-back writes contain repeat times the events of one |
| Frames.RepeatedAt | src/databus/Arduino_ESP32QSPI.cpp:302-305 | event i of repetition j sits at position j * (length of one write) + i |
| Frames.PatternCounts | src/databus/Arduino_ESP32QSPI.cpp:300-306 | writePattern makes repeat chip-select pulses and repeat * ceil(len / SEND_BUF_SIZE) transactions |
| Frames.PatternFraming | src/databus/Arduino_ESP32QSPI.cpp:300-306 | every repetition of writePattern starts with chip select low and, when there is data, a framed transaction: framing restarts each time |
| Qspi.BankOf | src/databus/Arduino_ESP32QSPI.cpp:19-30 | the chip-select pin uses the out1 bank exactly when its number is 32 or more |
| Qspi.Resolve | src/databus/Arduino_ESP32QSPI.cpp:14-15 | the not-defined sentinel becomes the build default; any other value is kept |
| Qspi.SetBits | src/databus/Arduino_ESP32QSPI.cpp:310-313 | a write to a set register raises the mask's bits and leaves every other bit as it was |
| Qspi.ClearBits | src/databus/Arduino_ESP32QSPI.cpp:315-318 | a write to a clear register lowers the mask's bits and leaves every other bit as it was |
| Qspi.ClearThenSet | src/databus/Arduino_ESP32QSPI.cpp:310-318 | a chip-select pulse ends with the register as if only set, whatever the line's level before |
| Qspi.SetTwice | src/databus/Arduino_ESP32QSPI.cpp:310-313 | raising chip select twice is raising it once |
| Qspi.QspiBus.constructor | src/databus/Arduino_ESP32QSPI.cpp:5-9 | the pins are stored; there is no device, no buffer and an empty trace |
| Qspi.QspiBus.Begin | src/databus/Arduino_ESP32QSPI.cpp:11-70 | speed and mode are resolved; chip select is driven high in its bank; the mask and bank are stored. The result is true exactly when bus init, device registration and allocation all succeed, and the first failure stops the sequence. On success the device is registered, the buffer holds Cap() words, and the writers' preconditions hold for the build's SEND_BUF_SIZE |
| Qspi.QspiBus.CsLow | src/databus/Arduino_ESP32QSPI.cpp:315-318 | the mask's bits are cleared in the chip-select bank; the other bank is unchanged; the trace gains CsDown |
| Qspi.QspiBus.CsHigh | src/databus/Arduino_ESP32QSPI.cpp:310-313 | the mask's bits are set in the chip-select bank; the other bank is unchanged; the trace gains CsUp |
| Qspi.QspiBus.Transmit | src/databus/Arduino_ESP32QSPI.cpp:90 | the bus sees the record and nothing else changes |
| Qspi.QspiBus.WriteCommand | src/databus/Arduino_ESP32QSPI.cpp:80-92 | the trace gains chip select low, the writeCommand transaction, chip select high; the line ends high |
| Qspi.QspiBus.WriteCommand16 | src/databus/Arduino_ESP32QSPI.cpp:94-106 | the same bracket around the writeCommand16 transaction |
| Qspi.QspiBus.Write | src/databus/Arduino_ESP32QSPI.cpp:108-120 | the same bracket around the write transaction |
| Qspi.QspiBus.Write16 | src/databus/Arduino_ESP32QSPI.cpp:122-135 | the same bracket around the write16 transaction |
| Qspi.QspiBus.WriteC8D8 | src/databus/Arduino_ESP32QSPI.cpp:137-149 | the same bracket around the writeC8D8 transaction |
| Qspi.QspiBus.WriteC8D16D16 | src/databus/Arduino_ESP32QSPI.cpp:151-164 | the same bracket around the writeC8D16D16 transaction |
| Qspi.QspiBus.SendPiece | src/databus/Arduino_ESP32QSPI.cpp:184-203 | one loop iteration submits the opening or continuation record for the piece |
| Qspi.QspiBus.WriteRepeat | src/databus/Arduino_ESP32QSPI.cpp:166-207 | the trace gains the bracketed writeRepeat transactions; the buffer's first min(len, cap) words are the swapped colour and the rest are unchanged; the line ends high |
| Qspi.QspiBus.FillRepeat | src/databus/Arduino_ESP32QSPI.cpp:171-174 | the first l buffer words become the swapped colour and the rest are unchanged |
| Qspi.QspiBus.SendRepeated | src/databus/Arduino_ESP32QSPI.cpp:177-205 | the send loop submits the writeRepeat transactions from the buffer filled once, and does not touch the buffer |
| Qspi.QspiBus.WritePixels | src/databus/Arduino_ESP32QSPI.cpp:209-254 | the trace gains the bracketed writePixels transactions; the buffer ends as the successive fills leave it; the line ends high. It uses the corrected fill `FillPixels`; see ## Findings |
| Qspi.QspiBus.SendPixels | src/databus/Arduino_ESP32QSPI.cpp:218-252 | the send loop submits the writePixels transactions and leaves the buffer as the successive fills do |
| Qspi.QspiBus.SendPixelPiece | src/databus/Arduino_ESP32QSPI.cpp:225-250 | one iteration swaps the next piece into the start of the buffer and submits it from there |
| Qspi.QspiBus.FillPixels | src/databus/Arduino_ESP32QSPI.cpp:241-245 | the first l buffer words become the next l pixels swapped, and the rest are unchanged (counter as wide as l) |
| Qspi.QspiBus.FillPixelsByteCounter | src/databus/Arduino_ESP32QSPI.cpp:241-245 | with the uint8_t counter as written, the same fill, for l below 256 only |
| Qspi.QspiBus.WriteBytes | src/databus/Arduino_ESP32QSPI.cpp:256-298 | the trace gains the bracketed writeBytes transactions, which point into the caller's data; the line ends high |
| Qspi.QspiBus.SendBytes | src/databus/Arduino_ESP32QSPI.cpp:262-296 | the send loop submits the writeBytes transactions, advancing through the caller's data |
| Qspi.QspiBus.WritePattern | src/databus/Arduino_ESP32QSPI.cpp:300-306 | the trace gains repeat complete writeBytes brackets; chip select ends high, and nothing happens when repeat is 0 |
| Qspi.Counter8Value | src/databus/Arduino_ESP32QSPI.cpp:241 | a uint8_t counter incremented k times from 0 holds k mod 256 |
| Qspi.ByteCounterCycles | src/databus/Arduino_ESP32QSPI.cpp:241 | for l of 256 or more the uint8_t counter never reaches l, and it repeats every 256 increments |

## Left out

- `pinMode`, `log_e`, and the platform calls: their outcomes are parameters of `Qspi.QspiBus.Begin`. This covers `spi_bus_initialize`, `spi_bus_add_device`, `heap_caps_malloc` and `digitalPinToBitMask`.
- Qspi.QspiBus.Begin: does not model `ESP_ERROR_CHECK` aborting the program (src/databus/Arduino_ESP32QSPI.cpp:43,58), because an abort depends on the platform's build configuration; the model returns false there, as the code after it does.
- The bus and device configuration records (`max_transfer_sz`, DMA channel, queue depth, half-duplex flag, clock and mode): they are handed to the platform and have no behaviour here. The resolved `speed` and `dataMode` are stored but, as in the code, never passed on.
- `beginWrite` and `endWrite`: empty in the source (src/databus/Arduino_ESP32QSPI.cpp:72-78).
- The status returned by `spi_device_polling_transmit`: every writer ignores it, so no write has an error path.
- `MSB_16_SET` is not part of this model; it is taken to be the 16-bit byte swap (`Swap16`). The send buffer is laid out little-endian, as on the ESP32.
- GPIO registers are modelled as sets of bit positions, and the mask as the set of the pin's bits; the register addresses are not modelled.
- Caller buffers (`data`) are immutable sequences; `writeBytes` transactions record an offset into them instead of a pointer.
- Integer widths: `len` of `writeRepeat`, `writePixels` and `writeBytes` is at most 2^32 - 1, and `len` of `writePattern` below 256 (`uint8_t`).
- Timing and concurrency: the driver is single-threaded and blocking.
- `begin` does not reject a negative chip-select pin; a negative pin selects the `out` bank.
- Transaction failures are not propagated, and they do not abort the remaining chunks.
- Qspi.QspiBus.Ready: `writeRepeat` and `writePixels` are modelled only for SEND_BUF_SIZE of 2 or more, because below that the piece length `l` is 0 (src/databus/Arduino_ESP32QSPI.cpp:170,214), so `len -= l` (:204, :251) never changes `len` and both writers never return for `len > 0`. `writeBytes` and `writePattern` need only SEND_BUF_SIZE of 1 or more (`Qspi.QspiBus.BytesReady`); with SEND_BUF_SIZE of 0 `writeBytes` hangs the same way (:259, :294). The scalar writers need only the registered device.

## Findings

| source | as written | input that shows it | evidently intended | confidence | as-written member | corrected member |
|---|---|---|---|---|---|---|
| src/databus/Arduino_ESP32QSPI.cpp:241 | the `writePixels` fill loop counts with a `uint8_t i` up to `l`, which can be as large as `SEND_BUF_SIZE / 2` | SEND_BUF_SIZE of 512 or more and len of 256 or more: l = 256, so `i < l` holds forever while `i` wraps 255 to 0 | a counter as wide as `l`, so that every chunk of up to `SEND_BUF_SIZE / 2` pixels is filled once | not executed | Qspi.ByteCounterCycles | Qspi.QspiBus.FillPixels |
