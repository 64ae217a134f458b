/** The ESP32 QSPI display bus: the driver object, its initialisation, the
    chip-select line and the writers that turn commands and pixels into bus
    transactions. The bus itself is represented by the trace of events it
    sees; a transaction submission appends to it. */
module Qspi {
  import opened ByteOrder
  import opened Chunking
  import opened Frames

  /** Largest value of a `uint32_t` length. */
  const MaxU32: nat := 0xFFFF_FFFF

  /** Build-time constants of the driver's header (SEND_BUF_SIZE in bytes,
      QSPI_FREQUENCY, QSPI_SPI_MODE, GFX_NOT_DEFINED); their values are not
      part of this model. */
  datatype BuildConfig = BuildConfig(sendBufSize: nat, frequency: int, spiMode: int, notDefined: int)

  /** The two GPIO output banks: `GPIO.out` for pins 0-31, `GPIO.out1` above. */
  datatype Bank = Out | Out1

  /** The bank that holds a pin's output bit. */
  function BankOf(pin: int): (b: Bank)
    ensures b == Out1 <==> pin >= 32
  {
    if pin >= 32 then Out1 else Out
  }

  /** A configuration argument, with the "not defined" sentinel replaced by
      the build-time default. */
  function Resolve(requested: int, sentinel: int, fallback: int): (r: int)
    ensures requested == sentinel ==> r == fallback
    ensures requested != sentinel ==> r == requested
  {
    if requested == sentinel then fallback else requested
  }

  /** An output register or a pin mask, as the set of its bits that are 1. */
  type Bits = set<nat>

  /** Writing a mask to a bank's set register (`out_w1ts`): the mask's bits
      become 1, the others keep their level. */
  function SetBits(reg: Bits, mask: Bits): (r: Bits)
    ensures mask <= r && forall b :: b !in mask ==> (b in r <==> b in reg)
  {
    reg + mask
  }

  /** Writing a mask to a bank's clear register (`out_w1tc`): the mask's
      bits become 0, the others keep their level. */
  function ClearBits(reg: Bits, mask: Bits): (r: Bits)
    ensures r !! mask && forall b :: b !in mask ==> (b in r <==> b in reg)
  {
    reg - mask
  }

  /** Clearing the chip-select bits and setting them again leaves the
      register as if they had only been set: a pulse ends with the line high
      whatever its level before. */
  lemma ClearThenSet(reg: Bits, mask: Bits)
    ensures SetBits(ClearBits(reg, mask), mask) == SetBits(reg, mask)
  {
    assert (reg - mask) + mask == reg + mask;
  }

  /** Setting the same bits twice is setting them once. */
  lemma SetTwice(reg: Bits, mask: Bits)
    ensures SetBits(SetBits(reg, mask), mask) == SetBits(reg, mask)
  {
    assert (reg + mask) + mask == reg + mask;
  }

  class QspiBus {
    // Pins, as given to the constructor.
    const cs: int
    const sck: int
    const mosi: int
    const miso: int
    const quadwp: int
    const quadhd: int
    const config: BuildConfig

    var speed: int
    var dataMode: int
    /** The chip-select fast path: a bit mask and the bank whose set/clear
        registers it is written to. */
    var csPinMask: Bits
    var csBank: Bank
    /** The two GPIO output registers the set/clear registers act on. */
    var outReg: Bits
    var out1Reg: Bits
    /** Whether the device was registered on the bus (`_handle`). */
    var hasDevice: bool
    /** The DMA send buffer of SEND_BUF_SIZE bytes, null until allocated. */
    var sendBuf: array?<bv16>
    /** Everything the bus has seen: chip-select edges and transactions. */
    ghost var trace: seq<Event>

    /** Words per chunk for the pixel writers (SEND_BUF_SIZE / 2). */
    function Cap(): nat
    {
      config.sendBufSize / 2
    }

    /** `begin` succeeded, as the pixel writers need it: the device is
        registered and the buffer allocated with room for at least one word.
        With SEND_BUF_SIZE below 2 a piece holds no word, and `writeRepeat`
        and `writePixels` would loop forever on any non-empty write. */
    ghost predicate Ready()
      reads this`hasDevice, this`sendBuf
    {
      config.sendBufSize >= 2 && hasDevice && sendBuf != null && sendBuf.Length == Cap()
    }

    /** What `writeBytes` needs: the device is registered and a piece holds
        at least one byte. With SEND_BUF_SIZE of 0 its loop would send empty
        pieces and never end; it does not use the send buffer. */
    predicate BytesReady()
      reads this`hasDevice
    {
      hasDevice && config.sendBufSize > 0
    }

    /** The output register holding the chip-select pin. */
    function CsRegister(): Bits
      reads this`csBank, this`outReg, this`out1Reg
    {
      if csBank == Out then outReg else out1Reg
    }

    /** The other output register. */
    function OtherRegister(): Bits
      reads this`csBank, this`outReg, this`out1Reg
    {
      if csBank == Out then out1Reg else outReg
    }

    constructor(cs: int, sck: int, mosi: int, miso: int, quadwp: int, quadhd: int, config: BuildConfig)
      requires -128 <= cs < 128 && -128 <= sck < 128 && -128 <= mosi < 128
      requires -128 <= miso < 128 && -128 <= quadwp < 128 && -128 <= quadhd < 128
      ensures this.cs == cs && this.sck == sck && this.mosi == mosi && this.miso == miso
      ensures this.quadwp == quadwp && this.quadhd == quadhd && this.config == config
      ensures !hasDevice && sendBuf == null && trace == []
    {
      this.cs, this.sck, this.mosi, this.miso := cs, sck, mosi, miso;
      this.quadwp, this.quadhd, this.config := quadwp, quadhd, config;
      hasDevice := false;
      sendBuf := null;
      trace := [];
    }

    /** `begin`: resolves speed and mode, drives chip select high, computes
        the chip-select fast path, then initialises the bus, registers the
        device and allocates the send buffer, returning false at the first
        step that fails. The outcomes of the three platform calls and the
        pin's bit mask are parameters. */
    method Begin(speedArg: int, dataModeArg: int, mask: Bits,
                 busInitOk: bool, addDeviceOk: bool, allocOk: bool) returns (ok: bool)
      modifies this`speed, this`dataMode, this`csPinMask, this`csBank, this`outReg, this`out1Reg
      modifies this`hasDevice, this`sendBuf
      ensures speed == Resolve(speedArg, config.notDefined, config.frequency)
      ensures dataMode == Resolve(dataModeArg, config.notDefined, config.spiMode)
      ensures csPinMask == mask && csBank == BankOf(cs)
      ensures cs >= 32 ==> out1Reg == SetBits(old(out1Reg), mask) && outReg == old(outReg)
      ensures cs < 32 ==> outReg == SetBits(old(outReg), mask) && out1Reg == old(out1Reg)
      ensures ok <==> busInitOk && addDeviceOk && allocOk
      ensures hasDevice == if busInitOk then addDeviceOk else old(hasDevice)
      ensures !(busInitOk && addDeviceOk) ==> sendBuf == old(sendBuf)
      ensures busInitOk && addDeviceOk && !allocOk ==> sendBuf == null
      ensures ok ==> fresh(sendBuf) && hasDevice && sendBuf != null && sendBuf.Length == Cap()
      ensures ok && config.sendBufSize >= 2 ==> Ready()
      ensures ok && config.sendBufSize > 0 ==> BytesReady()
    {
      speed := Resolve(speedArg, config.notDefined, config.frequency);
      dataMode := Resolve(dataModeArg, config.notDefined, config.spiMode);
      if cs >= 32 {
        out1Reg := SetBits(out1Reg, mask);
        csPinMask := mask;
        csBank := Out1;
      } else {
        outReg := SetBits(outReg, mask);
        csPinMask := mask;
        csBank := Out;
      }
      if !busInitOk {
        return false;
      }
      hasDevice := addDeviceOk;
      if !addDeviceOk {
        return false;
      }
      if !allocOk {
        sendBuf := null;
        return false;
      }
      sendBuf := new bv16[Cap()];
      return true;
    }

    /** `CS_LOW`: write the mask to the bank's clear register. */
    method CsLow()
      modifies this`outReg, this`out1Reg, this`trace
      ensures CsRegister() == ClearBits(old(CsRegister()), csPinMask)
      ensures OtherRegister() == old(OtherRegister())
      ensures trace == old(trace) + [CsDown]
    {
      if csBank == Out {
        outReg := ClearBits(outReg, csPinMask);
      } else {
        out1Reg := ClearBits(out1Reg, csPinMask);
      }
      trace := trace + [CsDown];
    }

    /** `CS_HIGH`: write the mask to the bank's set register. */
    method CsHigh()
      modifies this`outReg, this`out1Reg, this`trace
      ensures CsRegister() == SetBits(old(CsRegister()), csPinMask)
      ensures OtherRegister() == old(OtherRegister())
      ensures trace == old(trace) + [CsUp]
    {
      if csBank == Out {
        outReg := SetBits(outReg, csPinMask);
      } else {
        out1Reg := SetBits(out1Reg, csPinMask);
      }
      trace := trace + [CsUp];
    }

    /** `spi_device_polling_transmit`: the bus sees the transaction. Its
        status is ignored by every caller. */
    method Transmit(t: Txn)
      modifies this`trace
      ensures trace == old(trace) + [Sent(t)]
    {
      trace := trace + [Sent(t)];
    }

    method WriteCommand(c: bv8)
      requires hasDevice
      modifies this`outReg, this`out1Reg, this`trace
      ensures trace == old(trace) + Bracket([CommandTxn(c)])
      ensures CsRegister() == SetBits(old(CsRegister()), csPinMask) && OtherRegister() == old(OtherRegister())
    {
      CsLow();
      var t := Blank.(flags := {MultilineCmd, MultilineAddr}, cmd := 0x02, addr := (c as bv32) << 8,
                      payload := NoData, bitLength := 0);
      Transmit(t);
      CsHigh();
      ClearThenSet(old(CsRegister()), csPinMask);
    }

    method WriteCommand16(c: bv16)
      requires hasDevice
      modifies this`outReg, this`out1Reg, this`trace
      ensures trace == old(trace) + Bracket([Command16Txn(c)])
      ensures CsRegister() == SetBits(old(CsRegister()), csPinMask) && OtherRegister() == old(OtherRegister())
    {
      CsLow();
      var t := Blank.(flags := {MultilineCmd, MultilineAddr}, cmd := 0x02, addr := c as bv32,
                      payload := NoData, bitLength := 0);
      Transmit(t);
      CsHigh();
      ClearThenSet(old(CsRegister()), csPinMask);
    }

    method Write(d: bv8)
      requires hasDevice
      modifies this`outReg, this`out1Reg, this`trace
      ensures trace == old(trace) + Bracket([Write8Txn(d)])
      ensures CsRegister() == SetBits(old(CsRegister()), csPinMask) && OtherRegister() == old(OtherRegister())
    {
      CsLow();
      var t := Blank.(flags := {ModeQio}, cmd := 0x32, addr := 0x002C00, payload := Inline([d]), bitLength := 8);
      Transmit(t);
      CsHigh();
      ClearThenSet(old(CsRegister()), csPinMask);
    }

    method Write16(d: bv16)
      requires hasDevice
      modifies this`outReg, this`out1Reg, this`trace
      ensures trace == old(trace) + Bracket([Write16Txn(d)])
      ensures CsRegister() == SetBits(old(CsRegister()), csPinMask) && OtherRegister() == old(OtherRegister())
    {
      CsLow();
      var buf := [Hi(d), Lo(d)];
      var t := Blank.(flags := {ModeQio}, cmd := 0x32, addr := 0x002C00, payload := Inline(buf), bitLength := 16);
      Transmit(t);
      CsHigh();
      ClearThenSet(old(CsRegister()), csPinMask);
    }

    method WriteC8D8(c: bv8, d: bv8)
      requires hasDevice
      modifies this`outReg, this`out1Reg, this`trace
      ensures trace == old(trace) + Bracket([C8D8Txn(c, d)])
      ensures CsRegister() == SetBits(old(CsRegister()), csPinMask) && OtherRegister() == old(OtherRegister())
    {
      CsLow();
      var t := Blank.(flags := {MultilineCmd, MultilineAddr}, cmd := 0x02, addr := (c as bv32) << 8,
                      payload := Inline([d]), bitLength := 8);
      Transmit(t);
      CsHigh();
      ClearThenSet(old(CsRegister()), csPinMask);
    }

    method WriteC8D16D16(c: bv8, d1: bv16, d2: bv16)
      requires hasDevice
      modifies this`outReg, this`out1Reg, this`trace
      ensures trace == old(trace) + Bracket([C8D16D16Txn(c, d1, d2)])
      ensures CsRegister() == SetBits(old(CsRegister()), csPinMask) && OtherRegister() == old(OtherRegister())
    {
      CsLow();
      var buf := [Hi(d1), Lo(d1), Hi(d2), Lo(d2)];
      var t := Blank.(flags := {MultilineCmd, MultilineAddr}, cmd := 0x02, addr := (c as bv32) << 8,
                      payload := Inline(buf), bitLength := 32);
      Transmit(t);
      CsHigh();
      ClearThenSet(old(CsRegister()), csPinMask);
    }

    /** One piece of a streamed write: the zeroed record is given the
        framing when it opens the write and the VARIABLE flags with
        zero-width phases otherwise, then the payload and its bit length,
        and is transmitted. */
    method SendPiece(opening: bool, p: Payload, bits: nat)
      modifies this`trace
      ensures trace == old(trace) + [Sent(ChunkTxn(opening, p, bits))]
    {
      var t := Blank;
      if opening {
        t := t.(flags := {ModeQio}, cmd := 0x32, addr := 0x003C00);
      } else {
        t := t.(flags := {ModeQio, VariableCmd, VariableAddr, VariableDummy}, commandBits := 0, addressBits := 0);
      }
      t := t.(payload := p, bitLength := bits);
      Transmit(t);
    }

    /** `writeRepeat(p, len)`: fills the buffer once with up to `Cap()` swapped
        copies of `p`, then, with chip select low, sends `len` words from it. */
    method WriteRepeat(p: bv16, len: nat)
      requires Ready() && len <= MaxU32
      modifies this`outReg, this`out1Reg, this`trace, sendBuf
      ensures trace == old(trace) + Bracket(RepeatTxns(p, len, Cap()))
      ensures sendBuf[..Min(len, Cap())] == Repeat(Swap16(p), Min(len, Cap()))
      ensures sendBuf[Min(len, Cap())..] == old(sendBuf[Min(len, Cap())..])
      ensures CsRegister() == SetBits(old(CsRegister()), csPinMask) && OtherRegister() == old(OtherRegister())
    {
      var w := Swap16(p);
      var l := if len > Cap() then Cap() else len;
      FillRepeat(w, l);
      CsLow();
      SendRepeated(w, len, l);
      CsHigh();
      ClearThenSet(old(CsRegister()), csPinMask);
    }

    /** The fill loop of `writeRepeat`: the first `l` words become `w`. */
    method FillRepeat(w: bv16, l: nat)
      requires sendBuf != null && l <= sendBuf.Length
      modifies sendBuf
      ensures sendBuf[..l] == Repeat(w, l)
      ensures sendBuf[l..] == old(sendBuf[l..])
    {
      var i := 0;
      while i < l
        invariant 0 <= i <= l
        invariant forall k :: 0 <= k < i ==> sendBuf[k] == w
        invariant sendBuf[l..] == old(sendBuf[l..])
      {
        sendBuf[i] := w;
        i := i + 1;
      }
    }

    /** The send loop of `writeRepeat`: the first `fill` words of the buffer
        hold the colour, and `len` copies of it go out, `fill` at a time. */
    method SendRepeated(w: bv16, len: nat, fill: nat)
      requires Ready() && fill == Min(len, Cap())
      requires sendBuf[..fill] == Repeat(w, fill)
      modifies this`trace
      ensures trace == old(trace) + Sends(RepeatFrom(w, len, Cap(), true))
    {
      var first := true;
      var l := fill;
      var rem: nat := len;
      while rem > 0
        invariant rem <= len
        invariant rem > 0 ==> l == fill
        invariant trace + Sends(RepeatFrom(w, rem, Cap(), first)) == old(trace) + Sends(RepeatFrom(w, len, Cap(), true))
      {
        if rem < l {
          l := rem;
        }
        RepeatSlice(w, fill, 0, l);
        assert sendBuf[..l] == sendBuf[..fill][..l];
        ghost var before, wasFirst, was := trace, first, rem;
        SendPiece(first, SendBuf(sendBuf[..l]), l * 16);
        first := false;
        rem := rem - l;
        RepeatStep(w, was, Cap(), wasFirst, l, rem, before, trace, old(trace) + Sends(RepeatFrom(w, len, Cap(), true)));
      }
      assert trace + Sends([]) == trace;
    }

    /** `writePixels(data, len)`: with chip select low, sends the swapped
        pixels through the buffer, `Cap()` at a time; the buffer ends as
        `BufferAfter` says (see `BufferAfterKeeps`, `BufferAfterLast`).
        It uses the corrected fill `FillPixels`, whose counter is as wide as
        `l`; the `uint8_t` counter as written hangs once `Cap()` and `len`
        are both 256 or more (see `ByteCounterCycles`). */
    method WritePixels(data: seq<bv16>, len: nat)
      requires Ready() && len <= |data| && len <= MaxU32
      modifies this`outReg, this`out1Reg, this`trace, sendBuf
      ensures trace == old(trace) + Bracket(PixelTxns(data[..len], Cap()))
      ensures sendBuf[..] == BufferAfter(old(sendBuf[..]), data[..len], 0, Cap())
      ensures CsRegister() == SetBits(old(CsRegister()), csPinMask) && OtherRegister() == old(OtherRegister())
    {
      CsLow();
      SendPixels(data, len);
      CsHigh();
      ClearThenSet(old(CsRegister()), csPinMask);
    }

    /** The send loop of `writePixels`: each piece is swapped into the start
        of the buffer and sent from there. */
    method SendPixels(data: seq<bv16>, len: nat)
      requires Ready() && len <= |data|
      modifies this`trace, sendBuf
      ensures trace == old(trace) + Sends(PixelsFrom(data[..len], 0, Cap(), true))
      ensures sendBuf[..] == BufferAfter(old(sendBuf[..]), data[..len], 0, Cap())
    {
      var ws := data[..len];
      var first := true;
      var l := if len > Cap() then Cap() else len;
      var rem: nat := len;
      var pos: nat := 0;
      while rem > 0
        invariant pos + rem == len
        invariant rem > 0 ==> l == Min(len, Cap())
        invariant trace + Sends(PixelsFrom(ws, pos, Cap(), first)) == old(trace) + Sends(PixelsFrom(ws, 0, Cap(), true))
        invariant BufferAfter(sendBuf[..], ws, pos, Cap()) == BufferAfter(old(sendBuf[..]), ws, 0, Cap())
      {
        if rem < l {
          l := rem;
        }
        ghost var before, buf, wasFirst, was := trace, sendBuf[..], first, pos;
        SendPixelPiece(ws, pos, l, first);
        first := false;
        rem := rem - l;
        pos := pos + l;
        PixelsStep(ws, was, Cap(), wasFirst, l, pos, before, trace, old(trace) + Sends(PixelsFrom(ws, 0, Cap(), true)));
        BufferStep(buf, ws, was, Cap(), l, pos, sendBuf[..], BufferAfter(old(sendBuf[..]), ws, 0, Cap()));
      }
      assert trace + Sends([]) == trace;
    }

    /** One iteration of the `writePixels` loop: the `l` pixels at `pos` are
        swapped into the start of the buffer and sent from there. */
    method SendPixelPiece(ws: seq<bv16>, pos: nat, l: nat, opening: bool)
      requires sendBuf != null && pos + l <= |ws| && l <= sendBuf.Length
      modifies this`trace, sendBuf
      ensures trace == old(trace) + [Sent(ChunkTxn(opening, SendBuf(SwapAll(ws[pos..pos + l])), l * 16))]
      ensures sendBuf[..] == Overlay(old(sendBuf[..]), ws[pos..pos + l])
    {
      FillPixels(ws, pos, l);
      assert sendBuf[..] == sendBuf[..l] + sendBuf[l..];
      SendPiece(opening, SendBuf(sendBuf[..l]), l * 16);
    }

    /** The fill loop of `writePixels`, with a counter as wide as `l`. */
    method FillPixels(data: seq<bv16>, pos: nat, l: nat)
      requires sendBuf != null && pos + l <= |data| && l <= sendBuf.Length
      modifies sendBuf
      ensures sendBuf[..l] == SwapAll(data[pos..pos + l])
      ensures sendBuf[l..] == old(sendBuf[l..])
    {
      var i := 0;
      while i < l
        invariant 0 <= i <= l
        invariant forall k :: 0 <= k < i ==> sendBuf[k] == Swap16(data[pos + k])
        invariant sendBuf[l..] == old(sendBuf[l..])
      {
        sendBuf[i] := Swap16(data[pos + i]);
        i := i + 1;
      }
    }

    /** The fill loop of `writePixels` as written, with a `uint8_t` counter:
        it fills the buffer correctly only while `l` is below 256; from 256 on
        the counter wraps before reaching `l` (see `ByteCounterCycles`). */
    method FillPixelsByteCounter(data: seq<bv16>, pos: nat, l: nat)
      requires sendBuf != null && pos + l <= |data| && l <= sendBuf.Length
      requires l < 256
      modifies sendBuf
      ensures sendBuf[..l] == SwapAll(data[pos..pos + l])
      ensures sendBuf[l..] == old(sendBuf[l..])
    {
      var i: bv8 := 0;
      ghost var n: nat := 0;
      while (i as int) < l
        invariant i as int == n <= l
        invariant forall k :: 0 <= k < n ==> sendBuf[k] == Swap16(data[pos + k])
        invariant sendBuf[l..] == old(sendBuf[l..])
        decreases l - n
      {
        var j := i as int;
        sendBuf[j] := Swap16(data[pos + j]);
        Bv8Successor(i);
        i := i + 1;
        n := n + 1;
      }
    }

    /** `writeBytes(data, len)`: with chip select low, sends the caller's
        bytes in place, SEND_BUF_SIZE at a time. */
    method WriteBytes(data: seq<bv8>, len: nat)
      requires BytesReady() && len <= |data| && len <= MaxU32
      modifies this`outReg, this`out1Reg, this`trace
      ensures trace == old(trace) + Bracket(BytesTxns(data[..len], config.sendBufSize))
      ensures CsRegister() == SetBits(old(CsRegister()), csPinMask) && OtherRegister() == old(OtherRegister())
    {
      CsLow();
      SendBytes(data, len);
      CsHigh();
      ClearThenSet(old(CsRegister()), csPinMask);
    }

    /** The send loop of `writeBytes`: each piece points into the caller's
        data, and the pointer advances past it. */
    method SendBytes(data: seq<bv8>, len: nat)
      requires BytesReady() && len <= |data|
      modifies this`trace
      ensures trace == old(trace) + Sends(BytesFrom(data[..len], 0, config.sendBufSize, true))
    {
      var bs := data[..len];
      var size := config.sendBufSize;
      var first := true;
      var l := if len > size then size else len;
      var rem: nat := len;
      var pos: nat := 0;
      while rem > 0
        invariant pos + rem == len
        invariant rem > 0 ==> l == Min(len, size)
        invariant trace + Sends(BytesFrom(bs, pos, size, first)) == old(trace) + Sends(BytesFrom(bs, 0, size, true))
      {
        if rem < l {
          l := rem;
        }
        ghost var before, wasFirst, was := trace, first, pos;
        SendPiece(first, Caller(pos, bs[pos..pos + l]), l * 8);
        first := false;
        rem := rem - l;
        pos := pos + l;
        BytesStep(bs, was, size, wasFirst, l, pos, before, trace, old(trace) + Sends(BytesFrom(bs, 0, size, true)));
      }
      assert trace + Sends([]) == trace;
    }

    /** `writePattern(data, len, repeat)`: `repeat` independent `writeBytes`
        calls, each with its own chip-select pulse and opening transaction. */
    method WritePattern(data: seq<bv8>, len: nat, repeat: nat)
      requires BytesReady() && len < 256 && len <= |data| && repeat <= MaxU32
      modifies this`outReg, this`out1Reg, this`trace
      ensures trace == old(trace) + Repeated(Bracket(BytesTxns(data[..len], config.sendBufSize)), repeat)
      ensures repeat > 0 ==> CsRegister() == SetBits(old(CsRegister()), csPinMask)
      ensures repeat == 0 ==> outReg == old(outReg) && out1Reg == old(out1Reg)
      ensures OtherRegister() == old(OtherRegister())
    {
      var r: nat := repeat;
      while r > 0
        invariant r <= repeat
        invariant trace == old(trace) + Repeated(Bracket(BytesTxns(data[..len], config.sendBufSize)), repeat - r)
        invariant r < repeat ==> CsRegister() == SetBits(old(CsRegister()), csPinMask)
        invariant r == repeat ==> outReg == old(outReg) && out1Reg == old(out1Reg)
        invariant OtherRegister() == old(OtherRegister())
      {
        WriteBytes(data, len);
        if r < repeat {
          SetTwice(old(CsRegister()), csPinMask);
        }
        r := r - 1;
      }
    }
  }

  /** Below 255, incrementing a `uint8_t` does not wrap. */
  lemma Bv8Successor(i: bv8)
    requires i as int < 255
    ensures (i + 1) as int == i as int + 1
  {
  }

  // -----------------------------------------------------------------------
  // The `uint8_t` counter of the `writePixels` fill loop.

  /** The counter's value after `k` increments from 0, wrapping at 256. */
  function Counter8(k: nat): bv8
  {
    if k == 0 then 0 else Counter8(k - 1) + 1
  }

  /** The next count modulo 256: one more, or back to 0 after 255. */
  lemma ModSucc(k: nat)
    requires k > 0
    ensures (k - 1) % 256 == 255 ==> k % 256 == 0
    ensures (k - 1) % 256 < 255 ==> k % 256 == (k - 1) % 256 + 1
  {
    var q, r := (k - 1) / 256, (k - 1) % 256;
    assert k == 256 * q + r + 1;
    if r == 255 {
      DivUnique(k, 256, q + 1, 0);
    } else {
      DivUnique(k, 256, q, r + 1);
    }
  }

  lemma {:induction false} Counter8Value(k: nat)
    ensures Counter8(k) as int == k % 256
  {
    if k > 0 {
      Counter8Value(k - 1);
      ModSucc(k);
      var c := Counter8(k - 1);
      if c == 255 {
        assert Counter8(k) == 0;
      } else {
        Bv8Successor(c);
      }
    }
  }

  /** As written, the fill loop `for (uint8_t i = 0; i < l; ++i)` cannot end
      once `l` is 256 or more: the counter stays below `l` after any number
      of increments, and returns to the same value every 256 increments. */
  lemma ByteCounterCycles(l: nat, k: nat)
    requires l >= 256
    ensures Counter8(k) as int < l
    ensures Counter8(k + 256) == Counter8(k)
  {
    Counter8Value(k);
    Counter8Value(k + 256);
  }
}
