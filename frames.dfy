/** The transactions the QSPI driver hands to the bus: their framing
    (command opcode, 24-bit address, phase widths), their payloads, and the
    transaction lists each writer produces, stated as functions of the
    writer's arguments. */
module Frames {
  import opened ByteOrder
  import opened Chunking

  /** Opcode of the command phase for register writes. */
  const CommandOpcode: nat := 0x02
  /** Opcode of the command phase for pixel/data writes. */
  const DataOpcode: nat := 0x32
  /** Address of single data writes (`write`, `write16`). */
  const PixelAddress: bv32 := 0x002C00
  /** Address of the opening transaction of a streamed write. */
  const StreamAddress: bv32 := 0x003C00
  /** Phase widths the device is registered with (`command_bits`, `address_bits`). */
  const DeviceCommandBits: nat := 8
  const DeviceAddressBits: nat := 24
  /** One past the largest value of the 24-bit address phase. */
  const AddressSpace: bv32 := 0x100_0000

  /** The transaction flags the driver uses (`SPI_TRANS_*`). */
  datatype Flag = MultilineCmd | MultilineAddr | ModeQio | VariableCmd | VariableAddr | VariableDummy

  const CommandFlags: set<Flag> := {MultilineCmd, MultilineAddr}
  const DataFlags: set<Flag> := {ModeQio}
  const ContinuationFlags: set<Flag> := {ModeQio, VariableCmd, VariableAddr, VariableDummy}

  /** What `tx_buffer` points at. */
  datatype Payload =
    | NoData                                  // NULL
    | Inline(bytes: seq<bv8>)                 // a local of the writer
    | SendBuf(words: seq<bv16>)               // the first words of the send buffer
    | Caller(offset: nat, chunk: seq<bv8>)    // the caller's bytes, `offset` past the start

  /** One `spi_transaction_t` / `spi_transaction_ext_t` record.
      `commandBits` and `addressBits` are the extended record's fields; they
      take effect only under the matching VARIABLE flag. */
  datatype Txn = Txn(flags: set<Flag>, cmd: nat, addr: bv32, commandBits: nat, addressBits: nat,
                     payload: Payload, bitLength: nat)

  /** A zeroed record (`memset(&t, 0, sizeof(t))`). */
  const Blank: Txn := Txn({}, 0, 0, 0, 0, NoData, 0)

  /** Width of the command phase the bus actually clocks out. */
  function CommandPhaseBits(t: Txn): nat
  {
    if VariableCmd in t.flags then t.commandBits else DeviceCommandBits
  }

  /** Width of the address phase the bus actually clocks out. */
  function AddressPhaseBits(t: Txn): nat
  {
    if VariableAddr in t.flags then t.addressBits else DeviceAddressBits
  }

  /** The bytes of the data phase, in the order they leave the host. The
      send buffer is an array of 16-bit words in little-endian memory. */
  function WireBytes(p: Payload): seq<bv8>
  {
    match p
    case NoData => []
    case Inline(bs) => bs
    case SendBuf(ws) => LeBytes(ws)
    case Caller(_, bs) => bs
  }

  /** The record's bit length covers exactly its payload. */
  predicate WellFormed(t: Txn)
  {
    t.bitLength == 8 * |WireBytes(t.payload)|
  }

  /** The three bytes of the 24-bit address phase, most significant first. */
  function AddressBytes(addr: bv32): (r: seq<bv8>)
    requires addr < AddressSpace
    ensures |r| == 3
  {
    [((addr >> 16) & 0xFF) as bv8, ((addr >> 8) & 0xFF) as bv8, (addr & 0xFF) as bv8]
  }

  // ---------------------------------------------------------------------
  // Scalar writers: one transaction each.

  /** `writeCommand(c)`: register opcode, `c` in the middle address byte, no data. */
  function CommandTxn(c: bv8): (t: Txn)
    ensures WellFormed(t) && WireBytes(t.payload) == []
    ensures t.flags == CommandFlags && t.cmd == CommandOpcode
    ensures CommandPhaseBits(t) == DeviceCommandBits && AddressPhaseBits(t) == DeviceAddressBits
    ensures t.addr < AddressSpace && AddressBytes(t.addr) == [0, c, 0]
  {
    Blank.(flags := CommandFlags, cmd := CommandOpcode, addr := (c as bv32) << 8)
  }

  /** `writeCommand16(c)`: register opcode, `c` in the low two address bytes, no data. */
  function Command16Txn(c: bv16): (t: Txn)
    ensures WellFormed(t) && WireBytes(t.payload) == []
    ensures t.flags == CommandFlags && t.cmd == CommandOpcode
    ensures CommandPhaseBits(t) == DeviceCommandBits && AddressPhaseBits(t) == DeviceAddressBits
    ensures t.addr < AddressSpace && AddressBytes(t.addr) == [0, Hi(c), Lo(c)]
  {
    Blank.(flags := CommandFlags, cmd := CommandOpcode, addr := c as bv32)
  }

  /** `write(d)`: data opcode, single-write address, one data byte. */
  function Write8Txn(d: bv8): (t: Txn)
    ensures WellFormed(t) && WireBytes(t.payload) == [d]
    ensures t.flags == DataFlags && t.cmd == DataOpcode
    ensures CommandPhaseBits(t) == DeviceCommandBits && AddressPhaseBits(t) == DeviceAddressBits
    ensures t.addr < AddressSpace && AddressBytes(t.addr) == [0x00, 0x2C, 0x00]
  {
    Blank.(flags := DataFlags, cmd := DataOpcode, addr := PixelAddress, payload := Inline([d]), bitLength := 8)
  }

  /** `write16(d)`: like `write`, with `d` sent big-endian. */
  function Write16Txn(d: bv16): (t: Txn)
    ensures WellFormed(t) && |WireBytes(t.payload)| == 2 && BeWords(WireBytes(t.payload)) == [d]
    ensures t.flags == DataFlags && t.cmd == DataOpcode
    ensures CommandPhaseBits(t) == DeviceCommandBits && AddressPhaseBits(t) == DeviceAddressBits
    ensures t.addr < AddressSpace && AddressBytes(t.addr) == [0x00, 0x2C, 0x00]
  {
    WordOfBytes(d);
    Blank.(flags := DataFlags, cmd := DataOpcode, addr := PixelAddress,
           payload := Inline([Hi(d), Lo(d)]), bitLength := 16)
  }

  /** `writeC8D8(c, d)`: register command `c` followed by one data byte, in one transaction. */
  function C8D8Txn(c: bv8, d: bv8): (t: Txn)
    ensures WellFormed(t) && WireBytes(t.payload) == [d]
    ensures t.flags == CommandFlags && t.cmd == CommandOpcode
    ensures CommandPhaseBits(t) == DeviceCommandBits && AddressPhaseBits(t) == DeviceAddressBits
    ensures t.addr < AddressSpace && AddressBytes(t.addr) == [0, c, 0]
  {
    Blank.(flags := CommandFlags, cmd := CommandOpcode, addr := (c as bv32) << 8,
           payload := Inline([d]), bitLength := 8)
  }

  /** `writeC8D16D16(c, d1, d2)`: register command `c` followed by two words, big-endian. */
  function C8D16D16Txn(c: bv8, d1: bv16, d2: bv16): (t: Txn)
    ensures WellFormed(t) && |WireBytes(t.payload)| == 4 && BeWords(WireBytes(t.payload)) == [d1, d2]
    ensures t.flags == CommandFlags && t.cmd == CommandOpcode
    ensures CommandPhaseBits(t) == DeviceCommandBits && AddressPhaseBits(t) == DeviceAddressBits
    ensures t.addr < AddressSpace && AddressBytes(t.addr) == [0, c, 0]
  {
    WordOfBytes(d1);
    WordOfBytes(d2);
    var bs := [Hi(d1), Lo(d1), Hi(d2), Lo(d2)];
    assert bs[2..] == [Hi(d2), Lo(d2)];
    Blank.(flags := CommandFlags, cmd := CommandOpcode, addr := (c as bv32) << 8,
           payload := Inline(bs), bitLength := 32)
  }

  // ---------------------------------------------------------------------
  // Streamed writers: the first transaction is framed, the rest continue it.

  /** Full framing: data opcode, stream address, the device's phase widths. */
  predicate Opens(t: Txn)
  {
    t.flags == DataFlags && t.cmd == DataOpcode && t.addr == StreamAddress
    && CommandPhaseBits(t) == DeviceCommandBits && AddressPhaseBits(t) == DeviceAddressBits
  }

  /** No framing: VARIABLE flags with zero-width command and address phases. */
  predicate Continues(t: Txn)
  {
    t.flags == ContinuationFlags && t.cmd == 0 && t.addr == 0
    && CommandPhaseBits(t) == 0 && AddressPhaseBits(t) == 0
  }

  /** The record for one piece of a streamed write, `bits` long: framed when
      it opens the write, a continuation otherwise. */
  function ChunkTxn(opening: bool, p: Payload, bits: nat): (t: Txn)
    ensures t.payload == p && t.bitLength == bits
    ensures opening ==> Opens(t)
    ensures !opening ==> Continues(t)
  {
    var t := if opening then Blank.(flags := DataFlags, cmd := DataOpcode, addr := StreamAddress)
             else Blank.(flags := ContinuationFlags, commandBits := 0, addressBits := 0);
    t.(payload := p, bitLength := bits)
  }

  lemma OpensNotContinues(t: Txn)
    ensures !(Opens(t) && Continues(t))
  {
    assert Opens(t) ==> ModeQio in t.flags && VariableCmd !in t.flags;
  }

  // The transactions of each streamed writer, in the shape of its loop:
  // one piece of at most `cap` elements, then the rest, no longer framed.

  /** `writeRepeat`: `rem` more copies of the (already swapped) word `w`. */
  function RepeatFrom(w: bv16, rem: nat, cap: nat, opening: bool): seq<Txn>
    requires cap > 0
    decreases rem
  {
    if rem == 0 then []
    else
      var l := Min(rem, cap);
      [ChunkTxn(opening, SendBuf(Repeat(w, l)), l * 16)] + RepeatFrom(w, rem - l, cap, false)
  }

  /** `writePixels`: the pixels of `ws` from `pos` on, swapped into the buffer. */
  function PixelsFrom(ws: seq<bv16>, pos: nat, cap: nat, opening: bool): seq<Txn>
    requires cap > 0
    decreases |ws| - pos
  {
    if pos >= |ws| then []
    else
      var l := Min(|ws| - pos, cap);
      [ChunkTxn(opening, SendBuf(SwapAll(ws[pos..pos + l])), l * 16)]
      + PixelsFrom(ws, pos + l, cap, false)
  }

  /** One fill of the send buffer: the swapped piece over its first words. */
  function Overlay(buf: seq<bv16>, piece: seq<bv16>): (r: seq<bv16>)
    requires |piece| <= |buf|
    ensures |r| == |buf|
  {
    SwapAll(piece) + buf[|piece|..]
  }

  /** The send buffer after `writePixels` has sent the pixels of `ws` from
      `pos` on, starting from `buf`. */
  function BufferAfter(buf: seq<bv16>, ws: seq<bv16>, pos: nat, cap: nat): seq<bv16>
    requires 0 < cap <= |buf|
    decreases |ws| - pos
  {
    if pos >= |ws| then buf
    else
      var l := Min(|ws| - pos, cap);
      BufferAfter(Overlay(buf, ws[pos..pos + l]), ws, pos + l, cap)
  }

  /** `writePixels` leaves the buffer beyond its first `min(len, cap)` words
      as it was. */
  lemma {:induction false} BufferAfterKeeps(buf: seq<bv16>, ws: seq<bv16>, pos: nat, cap: nat, m: nat)
    requires 0 < cap <= |buf| && pos <= |ws| && Min(|ws| - pos, cap) <= m <= |buf|
    ensures |BufferAfter(buf, ws, pos, cap)| == |buf|
    ensures BufferAfter(buf, ws, pos, cap)[m..] == buf[m..]
    decreases |ws| - pos
  {
    if pos < |ws| {
      var l := Min(|ws| - pos, cap);
      var next := Overlay(buf, ws[pos..pos + l]);
      BufferAfterKeeps(next, ws, pos + l, cap, m);
      assert next[m..] == buf[m..];
    }
  }

  /** `writePixels` leaves the last piece, swapped, at the start of the
      buffer. */
  lemma {:induction false} BufferAfterLast(buf: seq<bv16>, ws: seq<bv16>, pos: nat, cap: nat)
    requires 0 < cap <= |buf| && pos < |ws|
    ensures var k := pos + LastPieceStart(|ws| - pos, cap);
      |ws| - k <= |BufferAfter(buf, ws, pos, cap)|
      && BufferAfter(buf, ws, pos, cap)[..|ws| - k] == SwapAll(ws[k..])
    decreases |ws| - pos
  {
    var l := Min(|ws| - pos, cap);
    var next := Overlay(buf, ws[pos..pos + l]);
    if |ws| - pos <= cap {
      assert ws[pos..pos + l] == ws[pos..];
    } else {
      BufferAfterLast(next, ws, pos + l, cap);
    }
  }

  lemma BufferStep(buf: seq<bv16>, ws: seq<bv16>, pos: nat, cap: nat, l: nat, next: nat,
                    after: seq<bv16>, total: seq<bv16>)
    requires 0 < cap <= |buf| && pos < |ws| && l == Min(|ws| - pos, cap) && next == pos + l
    requires BufferAfter(buf, ws, pos, cap) == total
    requires after == Overlay(buf, ws[pos..pos + l])
    ensures BufferAfter(after, ws, next, cap) == total
  {
  }

  /** `writeBytes`: the bytes of `bs` from `pos` on, pointed at in place. */
  function BytesFrom(bs: seq<bv8>, pos: nat, cap: nat, opening: bool): seq<Txn>
    requires cap > 0
    decreases |bs| - pos
  {
    if pos >= |bs| then []
    else
      var l := Min(|bs| - pos, cap);
      [ChunkTxn(opening, Caller(pos, bs[pos..pos + l]), l * 8)]
      + BytesFrom(bs, pos + l, cap, false)
  }

  /** `writeRepeat(p, len)`: `len` copies of the swapped colour. */
  function RepeatTxns(p: bv16, len: nat, cap: nat): seq<Txn>
    requires cap > 0
  {
    RepeatFrom(Swap16(p), len, cap, true)
  }

  /** `writePixels(data, len)`: the pixels, swapped. */
  function PixelTxns(data: seq<bv16>, cap: nat): seq<Txn>
    requires cap > 0
  {
    PixelsFrom(data, 0, cap, true)
  }

  /** `writeBytes(data, len)`: the caller's bytes in place. */
  function BytesTxns(data: seq<bv8>, cap: nat): seq<Txn>
    requires cap > 0
  {
    BytesFrom(data, 0, cap, true)
  }

  // The same transactions stated declaratively: the payload cut into
  // chunks, one well-formed record per chunk.

  /** One record per payload, each as long as its payload; only the first
      (and only when `opening`) carries the framing. */
  function Stream(ps: seq<Payload>, opening: bool): (ts: seq<Txn>)
    ensures |ts| == |ps|
    ensures forall i :: 0 <= i < |ts| ==> ts[i].payload == ps[i] && WellFormed(ts[i])
  {
    seq(|ps|, i requires 0 <= i < |ps| => ChunkTxn(opening && i == 0, ps[i], 8 * |WireBytes(ps[i])|))
  }

  /** In a stream that opens a write only the first transaction carries the
      framing; every later one has the VARIABLE flags and no command or address. */
  lemma StreamFraming(ps: seq<Payload>)
    ensures forall i :: 0 <= i < |Stream(ps, true)| ==>
      (Opens(Stream(ps, true)[i]) <==> i == 0) && (Continues(Stream(ps, true)[i]) <==> i > 0)
  {
    forall i | 0 <= i < |ps| {
      OpensNotContinues(Stream(ps, true)[i]);
    }
  }

  lemma StreamCons(p: Payload, ps: seq<Payload>, opening: bool)
    ensures Stream([p] + ps, opening)
      == [ChunkTxn(opening, p, 8 * |WireBytes(p)|)] + Stream(ps, false)
  {
    assert forall i :: 0 < i <= |ps| ==> ([p] + ps)[i] == ps[i - 1];
  }

  /** Pieces of the send buffer as payloads. */
  function Buffered(cs: seq<seq<bv16>>): (ps: seq<Payload>)
  {
    seq(|cs|, i requires 0 <= i < |cs| => SendBuf(cs[i]))
  }

  /** Pieces of the caller's bytes as payloads; piece `i` starts
      `base + i * cap` in. */
  function FromCaller(cs: seq<seq<bv8>>, base: nat, cap: nat): (ps: seq<Payload>)
  {
    seq(|cs|, i requires 0 <= i < |cs| => Caller(base + i * cap, cs[i]))
  }

  lemma BufferedCons(c: seq<bv16>, cs: seq<seq<bv16>>)
    ensures Buffered([c] + cs) == [SendBuf(c)] + Buffered(cs)
  {
  }

  /** The next piece starts where this one ends: every piece but the last
      is `cap` long. */
  lemma FromCallerCons(c: seq<bv8>, cs: seq<seq<bv8>>, base: nat, cap: nat)
    requires |c| == cap || cs == []
    ensures FromCaller([c] + cs, base, cap) == [Caller(base, c)] + FromCaller(cs, base + |c|, cap)
  {
    forall i | 0 < i <= |cs|
      ensures FromCaller([c] + cs, base, cap)[i] == FromCaller(cs, base + |c|, cap)[i - 1]
    {
      assert base + i * cap == base + cap + (i - 1) * cap;
    }
  }

  /** The loop-shaped `writeRepeat` transactions are the stream of the chunks
      of the `rem` words. */
  lemma {:induction false} RepeatFromChunks(w: bv16, rem: nat, cap: nat, opening: bool)
    requires cap > 0
    ensures RepeatFrom(w, rem, cap, opening) == Stream(Buffered(Chunks(Repeat(w, rem), cap)), opening)
    decreases rem
  {
    var r := Repeat(w, rem);
    if rem > 0 {
      var l := Min(rem, cap);
      assert r[..l] == Repeat(w, l);
      assert r[l..] == Repeat(w, rem - l);
      RepeatFromChunks(w, rem - l, cap, false);
      BufferedCons(Repeat(w, l), Chunks(Repeat(w, rem - l), cap));
      StreamCons(SendBuf(Repeat(w, l)), Buffered(Chunks(Repeat(w, rem - l), cap)), opening);
    } else {
      assert r == [];
    }
  }

  /** The loop-shaped `writePixels` transactions are the stream of the chunks
      of the swapped pixels. */
  lemma {:induction false} PixelsFromChunks(ws: seq<bv16>, pos: nat, cap: nat, opening: bool)
    requires cap > 0 && pos <= |ws|
    ensures PixelsFrom(ws, pos, cap, opening) == Stream(Buffered(Chunks(SwapAll(ws[pos..]), cap)), opening)
    decreases |ws| - pos
  {
    var r := SwapAll(ws[pos..]);
    if pos < |ws| {
      var l := Min(|ws| - pos, cap);
      assert r[..l] == SwapAll(ws[pos..pos + l]);
      assert r[l..] == SwapAll(ws[pos + l..]);
      PixelsFromChunks(ws, pos + l, cap, false);
      BufferedCons(SwapAll(ws[pos..pos + l]), Chunks(SwapAll(ws[pos + l..]), cap));
      StreamCons(SendBuf(SwapAll(ws[pos..pos + l])), Buffered(Chunks(SwapAll(ws[pos + l..]), cap)), opening);
    } else {
      assert r == [];
    }
  }

  /** The loop-shaped `writeBytes` transactions are the stream of the chunks
      of the bytes, each pointing at its place in the data. */
  lemma {:induction false} BytesFromChunks(bs: seq<bv8>, pos: nat, cap: nat, opening: bool)
    requires cap > 0 && pos <= |bs|
    ensures BytesFrom(bs, pos, cap, opening) == Stream(FromCaller(Chunks(bs[pos..], cap), pos, cap), opening)
    decreases |bs| - pos
  {
    var r := bs[pos..];
    if pos < |bs| {
      var l := Min(|bs| - pos, cap);
      var c := bs[pos..pos + l];
      var rest := Chunks(bs[pos + l..], cap);
      assert r[..l] == c;
      assert r[l..] == bs[pos + l..];
      if l < cap {
        assert bs[pos + l..] == [];
      }
      calc {
        BytesFrom(bs, pos, cap, opening);
        [ChunkTxn(opening, Caller(pos, c), l * 8)] + BytesFrom(bs, pos + l, cap, false);
        { BytesFromChunks(bs, pos + l, cap, false); }
        [ChunkTxn(opening, Caller(pos, c), 8 * |WireBytes(Caller(pos, c))|)]
          + Stream(FromCaller(rest, pos + l, cap), false);
        { StreamCons(Caller(pos, c), FromCaller(rest, pos + l, cap), opening); }
        Stream([Caller(pos, c)] + FromCaller(rest, pos + l, cap), opening);
        { FromCallerCons(c, rest, pos, cap); }
        Stream(FromCaller([c] + rest, pos, cap), opening);
        Stream(FromCaller(Chunks(r, cap), pos, cap), opening);
      }
    }
  }

  // ---------------------------------------------------------------------
  // What a list of transactions puts on the bus.

  /** All data-phase bytes, in order. */
  function WireOf(ts: seq<Txn>): seq<bv8>
  {
    if ts == [] then [] else WireBytes(ts[0].payload) + WireOf(ts[1..])
  }

  /** The sum of the records' bit lengths. */
  function TotalBits(ts: seq<Txn>): nat
  {
    if ts == [] then 0 else ts[0].bitLength + TotalBits(ts[1..])
  }

  /** The send-buffer words handed to the bus, in order. */
  function SentWords(ts: seq<Txn>): seq<bv16>
  {
    if ts == [] then []
    else (if ts[0].payload.SendBuf? then ts[0].payload.words else []) + SentWords(ts[1..])
  }

  /** Bit lengths add up to the wire bytes when every record is well formed. */
  lemma {:induction false} TotalBitsOfWellFormed(ts: seq<Txn>)
    requires forall i :: 0 <= i < |ts| ==> WellFormed(ts[i])
    ensures TotalBits(ts) == 8 * |WireOf(ts)|
  {
    if ts != [] {
      TotalBitsOfWellFormed(ts[1..]);
    }
  }

  /** Transactions that each carry one piece of the send buffer send the
      pieces' words, in order. */
  lemma {:induction false} SentOfBuffered(ts: seq<Txn>, cs: seq<seq<bv16>>)
    requires |ts| == |cs|
    requires forall i :: 0 <= i < |ts| ==> ts[i].payload == SendBuf(cs[i])
    ensures SentWords(ts) == Flatten(cs)
    ensures WireOf(ts) == LeBytes(Flatten(cs))
  {
    if ts != [] {
      SentOfBuffered(ts[1..], cs[1..]);
      LeBytesAppend(cs[0], Flatten(cs[1..]));
    }
  }

  /** Transactions that each carry one piece of the caller's bytes send the
      pieces, in order. */
  lemma {:induction false} WireOfCaller(ts: seq<Txn>, cs: seq<seq<bv8>>, base: nat, cap: nat)
    requires |ts| == |cs|
    requires forall i :: 0 <= i < |ts| ==> ts[i].payload == Caller(base + i * cap, cs[i])
    ensures WireOf(ts) == Flatten(cs)
  {
    if ts != [] {
      forall i | 0 <= i < |ts| - 1
        ensures ts[1..][i].payload == Caller((base + cap) + i * cap, cs[1..][i])
      {
        assert base + (i + 1) * cap == (base + cap) + i * cap;
      }
      WireOfCaller(ts[1..], cs[1..], base + cap, cap);
    }
  }

  // ---------------------------------------------------------------------
  // The properties of each streamed writer.

  /** writeRepeat: ceil(len / cap) transactions, none when `len` is 0. */
  lemma RepeatCount(p: bv16, len: nat, cap: nat)
    requires cap > 0
    ensures |RepeatTxns(p, len, cap)| == CeilDiv(len, cap)
    ensures len == 0 <==> RepeatTxns(p, len, cap) == []
  {
    RepeatFromChunks(Swap16(p), len, cap, true);
    ChunksCount(Repeat(Swap16(p), len), cap);
  }

  /** writeRepeat: every transaction sends from the start of the send buffer
      at most `cap` words, only the last may send fewer, and only the first
      carries the framing. */
  lemma RepeatSizes(p: bv16, len: nat, cap: nat)
    requires cap > 0
    ensures var ts := RepeatTxns(p, len, cap);
      forall i :: 0 <= i < |ts| ==>
        (ts[i].payload.SendBuf? && 0 < |ts[i].payload.words| <= cap
         && (i < |ts| - 1 ==> |ts[i].payload.words| == cap)
         && (Opens(ts[i]) <==> i == 0) && (Continues(ts[i]) <==> i > 0))
  {
    RepeatFromChunks(Swap16(p), len, cap, true);
    StreamFraming(Buffered(Chunks(Repeat(Swap16(p), len), cap)));
    ChunksSizes(Repeat(Swap16(p), len), cap);
  }

  /** writeRepeat: the words sent are `len` copies of the swapped colour, so
      the bus carries `len` big-endian copies of the colour, and the bit
      lengths add up to `16 * len`. */
  lemma RepeatContents(p: bv16, len: nat, cap: nat)
    requires cap > 0
    ensures SentWords(RepeatTxns(p, len, cap)) == Repeat(Swap16(p), len)
    ensures WireOf(RepeatTxns(p, len, cap)) == BeBytes(Repeat(p, len))
    ensures TotalBits(RepeatTxns(p, len, cap)) == 16 * len
  {
    var ws := Repeat(Swap16(p), len);
    var ts := RepeatTxns(p, len, cap);
    RepeatFromChunks(Swap16(p), len, cap, true);
    SentOfBuffered(ts, Chunks(ws, cap));
    ChunksFlatten(ws, cap);
    assert ws == SwapAll(Repeat(p, len));
    LeBytesOfSwapped(Repeat(p, len));
    TotalBitsOfWellFormed(ts);
  }

  /** writePixels: ceil(len / cap) transactions, none when `len` is 0. */
  lemma PixelCount(data: seq<bv16>, cap: nat)
    requires cap > 0
    ensures |PixelTxns(data, cap)| == CeilDiv(|data|, cap)
    ensures data == [] <==> PixelTxns(data, cap) == []
  {
    PixelsFromChunks(data, 0, cap, true);
    assert data[0..] == data;
    ChunksCount(SwapAll(data), cap);
  }

  /** writePixels: every transaction sends at most `cap` words of the send
      buffer, only the last may send fewer, and only the first carries the
      framing. */
  lemma PixelSizes(data: seq<bv16>, cap: nat)
    requires cap > 0
    ensures var ts := PixelTxns(data, cap);
      forall i :: 0 <= i < |ts| ==>
        (ts[i].payload.SendBuf? && 0 < |ts[i].payload.words| <= cap
         && (i < |ts| - 1 ==> |ts[i].payload.words| == cap)
         && (Opens(ts[i]) <==> i == 0) && (Continues(ts[i]) <==> i > 0))
  {
    PixelsFromChunks(data, 0, cap, true);
    assert data[0..] == data;
    StreamFraming(Buffered(Chunks(SwapAll(data), cap)));
    ChunksSizes(SwapAll(data), cap);
  }

  /** writePixels: the words sent are the swapped pixels in order, so every
      pixel reaches the bus high byte first, and the bit lengths add up to
      `16 * len`. */
  lemma PixelContents(data: seq<bv16>, cap: nat)
    requires cap > 0
    ensures SentWords(PixelTxns(data, cap)) == SwapAll(data)
    ensures WireOf(PixelTxns(data, cap)) == BeBytes(data)
    ensures TotalBits(PixelTxns(data, cap)) == 16 * |data|
  {
    var ts := PixelTxns(data, cap);
    PixelsFromChunks(data, 0, cap, true);
    assert data[0..] == data;
    SentOfBuffered(ts, Chunks(SwapAll(data), cap));
    ChunksFlatten(SwapAll(data), cap);
    LeBytesOfSwapped(data);
    TotalBitsOfWellFormed(ts);
  }

  /** writePixels leaves at the start of the buffer exactly the words of the
      last transaction it sent. */
  lemma PixelsLastInBuffer(buf: seq<bv16>, data: seq<bv16>, cap: nat)
    requires 0 < cap <= |buf| && data != []
    ensures var ts := PixelTxns(data, cap);
      ts != [] && ts[|ts| - 1].payload.SendBuf?
      && |ts[|ts| - 1].payload.words| <= |BufferAfter(buf, data, 0, cap)|
      && BufferAfter(buf, data, 0, cap)[..|ts[|ts| - 1].payload.words|] == ts[|ts| - 1].payload.words
  {
    var sw := SwapAll(data);
    var cs := Chunks(sw, cap);
    var ts := PixelTxns(data, cap);
    var k := LastPieceStart(|data|, cap);
    PixelsFromChunks(data, 0, cap, true);
    assert data[0..] == data;
    assert ts == Stream(Buffered(cs), true);
    LastChunk(sw, cap);
    var n := |cs| - 1;
    assert ts[n].payload == SendBuf(cs[n]);
    SwapAllSlice(data, k, |data|);
    assert data[k..|data|] == data[k..];
    assert cs[n] == SwapAll(data[k..]);
    BufferAfterLast(buf, data, 0, cap);
  }

  /** writeBytes: ceil(len / cap) transactions, none when `len` is 0. */
  lemma BytesCount(data: seq<bv8>, cap: nat)
    requires cap > 0
    ensures |BytesTxns(data, cap)| == CeilDiv(|data|, cap)
    ensures data == [] <==> BytesTxns(data, cap) == []
  {
    BytesFromChunks(data, 0, cap, true);
    assert data[0..] == data;
    ChunksCount(data, cap);
  }

  /** writeBytes: transaction `i` points `i * cap` bytes into the caller's
      data and sends the next `min(cap, remaining)` bytes unchanged; only the
      first carries the framing. */
  lemma BytesSlices(data: seq<bv8>, cap: nat)
    requires cap > 0
    ensures var ts := BytesTxns(data, cap);
      forall i :: 0 <= i < |ts| ==>
        i * cap < |data|
        && ts[i].payload == Caller(i * cap, data[i * cap .. Min(i * cap + cap, |data|)])
        && (Opens(ts[i]) <==> i == 0) && (Continues(ts[i]) <==> i > 0)
  {
    var ts := BytesTxns(data, cap);
    BytesFromChunks(data, 0, cap, true);
    assert data[0..] == data;
    StreamFraming(FromCaller(Chunks(data, cap), 0, cap));
    forall i | 0 <= i < |ts|
      ensures i * cap < |data|
      ensures ts[i].payload == Caller(i * cap, data[i * cap .. Min(i * cap + cap, |data|)])
    {
      ChunkAt(data, cap, i);
    }
  }

  /** writeBytes: the bytes sent are the caller's bytes, in order, and the
      bit lengths add up to `8 * len`. */
  lemma BytesContents(data: seq<bv8>, cap: nat)
    requires cap > 0
    ensures WireOf(BytesTxns(data, cap)) == data
    ensures TotalBits(BytesTxns(data, cap)) == 8 * |data|
  {
    var ts := BytesTxns(data, cap);
    BytesFromChunks(data, 0, cap, true);
    assert data[0..] == data;
    WireOfCaller(ts, Chunks(data, cap), 0, cap);
    ChunksFlatten(data, cap);
    TotalBitsOfWellFormed(ts);
  }

  // ---------------------------------------------------------------------
  // The bus trace: chip-select edges and transactions.

  datatype Event = CsDown | CsUp | Sent(txn: Txn)

  datatype Kind = Down | Up | Transfer

  function KindOf(e: Event): Kind
  {
    match e
    case CsDown => Down
    case CsUp => Up
    case Sent(_) => Transfer
  }

  function Sends(ts: seq<Txn>): (es: seq<Event>)
  {
    seq(|ts|, i requires 0 <= i < |ts| => Sent(ts[i]))
  }

  /** A public write: chip select low, the transactions, chip select high. */
  function Bracket(ts: seq<Txn>): seq<Event>
  {
    [CsDown] + Sends(ts) + [CsUp]
  }

  /** `n` writes one after the other. */
  function Repeated(es: seq<Event>, n: nat): (r: seq<Event>)
  {
    if n == 0 then [] else Repeated(es, n - 1) + es
  }

  /** Number of events of kind `k`. */
  function Count(es: seq<Event>, k: Kind): nat
  {
    if es == [] then 0 else (if KindOf(es[0]) == k then 1 else 0) + Count(es[1..], k)
  }

  lemma {:induction false} CountAppend(a: seq<Event>, b: seq<Event>, k: Kind)
    ensures Count(a + b, k) == Count(a, k) + Count(b, k)
  {
    if a == [] {
      assert a + b == b;
    } else {
      assert (a + b)[1..] == a[1..] + b;
      CountAppend(a[1..], b, k);
    }
  }

  lemma {:induction false} SendsCount(ts: seq<Txn>)
    ensures Count(Sends(ts), Transfer) == |ts|
    ensures Count(Sends(ts), Down) == 0 && Count(Sends(ts), Up) == 0
  {
    if ts != [] {
      assert Sends(ts)[1..] == Sends(ts[1..]);
      SendsCount(ts[1..]);
    }
  }

  lemma SendsCons(t: Txn, ts: seq<Txn>)
    ensures Sends([t] + ts) == [Sent(t)] + Sends(ts)
  {
  }

  // One iteration of each streamed writer's loop: the next transaction moves
  // from what is left to send onto the trace.

  lemma RepeatStep(w: bv16, rem: nat, cap: nat, opening: bool, l: nat, next: nat,
                    before: seq<Event>, after: seq<Event>, total: seq<Event>)
    requires cap > 0 && rem > 0 && l == Min(rem, cap) && next == rem - l
    requires before + Sends(RepeatFrom(w, rem, cap, opening)) == total
    requires after == before + [Sent(ChunkTxn(opening, SendBuf(Repeat(w, l)), l * 16))]
    ensures after + Sends(RepeatFrom(w, next, cap, false)) == total
  {
    SendsCons(ChunkTxn(opening, SendBuf(Repeat(w, l)), l * 16), RepeatFrom(w, rem - l, cap, false));
  }

  lemma PixelsStep(ws: seq<bv16>, pos: nat, cap: nat, opening: bool, l: nat, next: nat,
                    before: seq<Event>, after: seq<Event>, total: seq<Event>)
    requires cap > 0 && pos < |ws| && l == Min(|ws| - pos, cap) && next == pos + l
    requires before + Sends(PixelsFrom(ws, pos, cap, opening)) == total
    requires after == before + [Sent(ChunkTxn(opening, SendBuf(SwapAll(ws[pos..pos + l])), l * 16))]
    ensures after + Sends(PixelsFrom(ws, next, cap, false)) == total
  {
    SendsCons(ChunkTxn(opening, SendBuf(SwapAll(ws[pos..pos + l])), l * 16), PixelsFrom(ws, pos + l, cap, false));
  }

  lemma BytesStep(bs: seq<bv8>, pos: nat, cap: nat, opening: bool, l: nat, next: nat,
                   before: seq<Event>, after: seq<Event>, total: seq<Event>)
    requires cap > 0 && pos < |bs| && l == Min(|bs| - pos, cap) && next == pos + l
    requires before + Sends(BytesFrom(bs, pos, cap, opening)) == total
    requires after == before + [Sent(ChunkTxn(opening, Caller(pos, bs[pos..pos + l]), l * 8))]
    ensures after + Sends(BytesFrom(bs, next, cap, false)) == total
  {
    SendsCons(ChunkTxn(opening, Caller(pos, bs[pos..pos + l]), l * 8), BytesFrom(bs, pos + l, cap, false));
  }


  /** A bracketed write drives chip select low exactly once, first, and high
      exactly once, last, with all its transactions between. */
  lemma BracketCounts(ts: seq<Txn>)
    ensures var es := Bracket(ts);
      && es[0] == CsDown && es[|es| - 1] == CsUp
      && Count(es, Down) == 1 && Count(es, Up) == 1 && Count(es, Transfer) == |ts|
  {
    SendsCount(ts);
    CountAppend([CsDown], Sends(ts), Down);
    CountAppend([CsDown], Sends(ts), Up);
    CountAppend([CsDown], Sends(ts), Transfer);
    CountAppend([CsDown] + Sends(ts), [CsUp], Down);
    CountAppend([CsDown] + Sends(ts), [CsUp], Up);
    CountAppend([CsDown] + Sends(ts), [CsUp], Transfer);
  }

  lemma {:induction false} RepeatedCount(es: seq<Event>, n: nat, k: Kind)
    ensures Count(Repeated(es, n), k) == n * Count(es, k)
  {
    if n > 0 {
      RepeatedCount(es, n - 1, k);
      CountAppend(Repeated(es, n - 1), es, k);
      assert n * Count(es, k) == (n - 1) * Count(es, k) + Count(es, k);
    }
  }

  lemma {:induction false} RepeatedAt(es: seq<Event>, n: nat, j: nat, i: nat)
    requires j < n && i < |es|
    ensures |Repeated(es, n)| == n * |es|
    ensures j * |es| + i < n * |es|
    ensures Repeated(es, n)[j * |es| + i] == es[i]
  {
    if j < n - 1 {
      RepeatedAt(es, n - 1, j, i);
    } else {
      if n > 1 {
        RepeatedAt(es, n - 1, 0, 0);
      }
    }
    assert n * |es| == (n - 1) * |es| + |es|;
  }

  /** writePattern: `repeat` bracketed writeBytes calls make `repeat` chip
      select pulses and `repeat * ceil(len / cap)` transactions, and each
      pulse opens with a framed transaction when there is data: framing
      restarts at every repetition. */
  lemma PatternCounts(data: seq<bv8>, cap: nat, repeat: nat)
    requires cap > 0
    ensures var es := Repeated(Bracket(BytesTxns(data, cap)), repeat);
      && Count(es, Transfer) == repeat * CeilDiv(|data|, cap)
      && Count(es, Down) == repeat && Count(es, Up) == repeat
  {
    var b := Bracket(BytesTxns(data, cap));
    BracketCounts(BytesTxns(data, cap));
    BytesCount(data, cap);
    RepeatedCount(b, repeat, Transfer);
    RepeatedCount(b, repeat, Down);
    RepeatedCount(b, repeat, Up);
  }

  lemma PatternFraming(data: seq<bv8>, cap: nat, repeat: nat, j: nat)
    requires cap > 0 && j < repeat
    ensures var b := Bracket(BytesTxns(data, cap));
      var es := Repeated(b, repeat);
      && j * |b| < |es| && es[j * |b|] == CsDown
      && (data != [] ==> j * |b| + 1 < |es| && es[j * |b| + 1].Sent? && Opens(es[j * |b| + 1].txn))
  {
    var ts := BytesTxns(data, cap);
    var b := Bracket(ts);
    RepeatedAt(b, repeat, j, 0);
    if data != [] {
      BytesSlices(data, cap);
      BytesCount(data, cap);
      RepeatedAt(b, repeat, j, 1);
    }
  }
}
