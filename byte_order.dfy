/** Byte order of 16-bit pixel words: the byte swap applied while filling the
    send buffer, and the big- and little-endian serialisations of word
    sequences that tie that swap to what appears on the bus. */
module ByteOrder {

  /** Most significant byte of a word. */
  function Hi(w: bv16): bv8 { (w >> 8) as bv8 }

  /** Least significant byte of a word (the C truncation `(uint8_t)w`). */
  function Lo(w: bv16): bv8 { (w & 0xFF) as bv8 }

  /** The word whose bytes are `hi` and `lo`. */
  function Word(hi: bv8, lo: bv8): (w: bv16)
    ensures Hi(w) == hi && Lo(w) == lo
  {
    (hi as bv16 << 8) | lo as bv16
  }

  /** The 16-bit byte swap used for the pixel words (`MSB_16_SET`). */
  function Swap16(v: bv16): (r: bv16)
    ensures Hi(r) == Lo(v) && Lo(r) == Hi(v)
  {
    (v >> 8) | ((v & 0xFF) << 8)
  }

  /** A word is determined by its two bytes. */
  lemma WordOfBytes(w: bv16)
    ensures Word(Hi(w), Lo(w)) == w
  {
  }

  /** The swap is its own inverse. */
  lemma Swap16Involutive(v: bv16)
    ensures Swap16(Swap16(v)) == v
  {
    WordOfBytes(v);
    WordOfBytes(Swap16(Swap16(v)));
  }

  /** Every word of a sequence swapped, in order. */
  function SwapAll(ws: seq<bv16>): seq<bv16>
  {
    seq(|ws|, i requires 0 <= i < |ws| => Swap16(ws[i]))
  }

  /** Swapping commutes with taking a stretch of the sequence. */
  lemma SwapAllSlice(ws: seq<bv16>, i: nat, j: nat)
    requires i <= j <= |ws|
    ensures SwapAll(ws)[i..j] == SwapAll(ws[i..j])
  {
  }

  /** Swapping a sequence twice gives the sequence back. */
  lemma SwapAllInvolutive(ws: seq<bv16>)
    ensures SwapAll(SwapAll(ws)) == ws
  {
    forall i | 0 <= i < |ws|
      ensures SwapAll(SwapAll(ws))[i] == ws[i]
    {
      Swap16Involutive(ws[i]);
    }
  }

  /** Big-endian serialisation: high byte first. */
  function BeBytes(ws: seq<bv16>): (r: seq<bv8>)
    ensures |r| == 2 * |ws|
  {
    if ws == [] then [] else [Hi(ws[0]), Lo(ws[0])] + BeBytes(ws[1..])
  }

  /** Little-endian serialisation: the memory layout of a `uint16_t` array on
      the ESP32, which is how the bus reads the send buffer. */
  function LeBytes(ws: seq<bv16>): (r: seq<bv8>)
    ensures |r| == 2 * |ws|
  {
    if ws == [] then [] else [Lo(ws[0]), Hi(ws[0])] + LeBytes(ws[1..])
  }

  /** Big-endian decoding of an even number of bytes. */
  function BeWords(bs: seq<bv8>): (r: seq<bv16>)
    requires |bs| % 2 == 0
    ensures 2 * |r| == |bs|
  {
    if bs == [] then [] else [Word(bs[0], bs[1])] + BeWords(bs[2..])
  }

  /** Decoding what was encoded big-endian gives the words back. */
  lemma {:induction false} BeRoundTrip(ws: seq<bv16>)
    ensures BeWords(BeBytes(ws)) == ws
  {
    if ws != [] {
      var bs := BeBytes(ws);
      assert bs[2..] == BeBytes(ws[1..]);
      BeRoundTrip(ws[1..]);
      WordOfBytes(ws[0]);
      assert ws == [ws[0]] + ws[1..];
    }
  }

  /** Encoding a decoded even-length byte string gives the bytes back. */
  lemma {:induction false} BeRoundTripBytes(bs: seq<bv8>)
    requires |bs| % 2 == 0
    ensures BeBytes(BeWords(bs)) == bs
  {
    if bs != [] {
      var ws := BeWords(bs);
      assert ws[1..] == BeWords(bs[2..]);
      BeRoundTripBytes(bs[2..]);
      assert bs == [bs[0], bs[1]] + bs[2..];
    }
  }

  lemma {:induction false} BeBytesAppend(a: seq<bv16>, b: seq<bv16>)
    ensures BeBytes(a + b) == BeBytes(a) + BeBytes(b)
  {
    if a != [] {
      assert (a + b)[1..] == a[1..] + b;
      BeBytesAppend(a[1..], b);
    } else {
      assert a + b == b;
    }
  }

  lemma {:induction false} LeBytesAppend(a: seq<bv16>, b: seq<bv16>)
    ensures LeBytes(a + b) == LeBytes(a) + LeBytes(b)
  {
    if a != [] {
      assert (a + b)[1..] == a[1..] + b;
      LeBytesAppend(a[1..], b);
    } else {
      assert a + b == b;
    }
  }

  /** Storing swapped words in a little-endian buffer puts every word on the
      bus high byte first: the point of the swap. */
  lemma {:induction false} LeBytesOfSwapped(ws: seq<bv16>)
    ensures LeBytes(SwapAll(ws)) == BeBytes(ws)
  {
    if ws != [] {
      assert SwapAll(ws)[1..] == SwapAll(ws[1..]);
      LeBytesOfSwapped(ws[1..]);
    }
  }
}
