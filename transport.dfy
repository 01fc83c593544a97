/**
 * The bytes the driver puts on the two-wire bus, as values.
 *
 * Every change of the display buffer is sent as two framed transactions: the
 * data command alone, then the address command for grid 1 followed by one byte
 * per digit (automatic address increment). Brightness travels in a third kind
 * of transaction, the display command, which only setBrightness sends.
 */
module Transport {
  import opened Segments

  /** CmdSetData: write to the display registers, automatic address increment. */
  const CmdSetData: bv8 := 0x40
  /** CmdSetAddress: start writing at grid 1 (the leftmost digit). */
  const CmdSetAddress: bv8 := 0xC0
  /** CmdDisplay: its low nibble carries the brightness and the on/off bit. */
  const CmdDisplay: bv8 := 0x80

  /** The bytes written between one start condition and the next stop condition. */
  type Transaction = seq<bv8>

  /**
   * The bits writeByte puts on the data line when it clocks out `count` bits of
   * `data`: the lowest bit, then the rest of the byte shifted right by one.
   */
  function ShiftOut(data: bv8, count: nat): (bits: seq<bool>)
    ensures |bits| == count
  {
    if count == 0 then [] else [data & 1 == 1] + ShiftOut(data >> 1, count - 1)
  }

  /** Sending one more bit: the bit goes after those already sent, the rest follow. */
  lemma ShiftOutStep(sent: seq<bool>, data: bv8, count: nat)
    requires count > 0
    ensures sent + ShiftOut(data, count) == (sent + [data & 1 == 1]) + ShiftOut(data >> 1, count - 1)
  {
  }

  /** The eight bits of one byte in wire order: least significant first. */
  function LsbFirst(b: bv8): (bits: seq<bool>)
    ensures |bits| == 8
  {
    ShiftOut(b, 8)
  }

  /** What a receiver shifting bits in least-significant first assembles. */
  function Reassemble(bits: seq<bool>): bv8
  {
    if |bits| == 0 then 0
    else (if bits[0] then 1 else 0) | (Reassemble(bits[1..]) << 1)
  }

  /** The mask of the lowest k bits. */
  function LowMask(k: nat): bv8
  {
    if k == 0 then 0 else (LowMask(k - 1) << 1) | 1
  }

  /** Reassembling the first k bits shifted out recovers the lowest k bits. */
  lemma {:induction false} ReassembleShiftOut(data: bv8, k: nat)
    ensures Reassemble(ShiftOut(data, k)) == data & LowMask(k)
  {
    if k > 0 {
      ReassembleStep(data, k);
      ReassembleShiftOut(data >> 1, k - 1);
      LowBitStep(data, LowMask(k - 1));
    }
  }

  lemma ReassembleStep(data: bv8, k: nat)
    requires k > 0
    ensures Reassemble(ShiftOut(data, k)) ==
      (if data & 1 == 1 then 1 else 0) | (Reassemble(ShiftOut(data >> 1, k - 1)) << 1)
  {
    assert ShiftOut(data, k)[1..] == ShiftOut(data >> 1, k - 1);
  }

  lemma LowBitStep(data: bv8, m: bv8)
    ensures (if data & 1 == 1 then 1 else 0) | (((data >> 1) & m) << 1) == data & ((m << 1) | 1)
  {
  }

  /** The device recovers every byte from the eight bits on the wire. */
  lemma SerialRoundTrip(b: bv8)
    ensures Reassemble(LsbFirst(b)) == b
  {
    ReassembleShiftOut(b, 8);
    assert LowMask(1) == 0x01;
    assert LowMask(2) == 0x03;
    assert LowMask(3) == 0x07;
    assert LowMask(4) == 0x0F;
    assert LowMask(5) == 0x1F;
    assert LowMask(6) == 0x3F;
    assert LowMask(7) == 0x7F;
    assert LowMask(8) == 0xFF;
  }

  /** The data-line bits of a byte stream, byte after byte. */
  function WireBits(bytes: seq<bv8>): (bits: seq<bool>)
    ensures |bits| == 8 * |bytes|
  {
    if |bytes| == 0 then [] else WireBits(bytes[..|bytes| - 1]) + LsbFirst(bytes[|bytes| - 1])
  }

  lemma WireBitsAppend(bytes: seq<bv8>, b: bv8)
    ensures WireBits(bytes + [b]) == WireBits(bytes) + LsbFirst(b)
  {
    assert (bytes + [b])[..|bytes|] == bytes;
  }

  /** All bytes of a sequence of transactions, in order. */
  function Flatten(ts: seq<Transaction>): seq<bv8>
  {
    if |ts| == 0 then [] else Flatten(ts[..|ts| - 1]) + ts[|ts| - 1]
  }

  lemma FlattenAppend(ts: seq<Transaction>, t: Transaction)
    ensures Flatten(ts + [t]) == Flatten(ts) + t
  {
    assert (ts + [t])[..|ts|] == ts;
  }

  /**
   * The byte sent to output position k when the display is flipped: the digit
   * at the mirrored position N-1-k turned upside down, with the dot of digit
   * N-k-2 (none for the last position).
   */
  function FlippedAt(buf: seq<SegmentCode>, k: nat): SegmentCode
    requires k < |buf|
  {
    var dot: bv8 := if |buf| - k - 2 >= 0 then buf[|buf| - k - 2] & SegDP else 0;
    MirrorSegments(buf[|buf| - 1 - k]) | dot
  }

  /** The data bytes writeBuffer sends for a buffer, in grid order. */
  function OutputBytes(buf: seq<SegmentCode>, flip: bool): (out: seq<SegmentCode>)
    ensures |out| == |buf|
    ensures !flip ==> out == buf
  {
    if flip then seq(|buf|, k requires 0 <= k < |buf| => FlippedAt(buf, k)) else buf
  }

  /**
   * Under flip, segment j of output k is lit iff the opposite segment of digit
   * N-1-k is, and the dot of output k is the dot of digit N-k-2.
   */
  lemma FlipLayout(buf: seq<SegmentCode>, k: nat)
    requires k < |buf|
    ensures forall j :: 0 <= j < 7 ==>
      (Lit(OutputBytes(buf, true)[k], j) <==> Lit(buf[|buf| - 1 - k], Opposite(j)))
    ensures Lit(OutputBytes(buf, true)[k], 7) <==> k + 2 <= |buf| && Lit(buf[|buf| - k - 2], 7)
  {
    var orig := buf[|buf| - 1 - k];
    var dot: bv8 := if |buf| - k - 2 >= 0 then buf[|buf| - k - 2] & SegDP else 0;
    assert OutputBytes(buf, true)[k] == FlippedAt(buf, k) == MirrorSegments(orig) | dot;
    MirrorLayout(orig);
    GlyphWithDot(MirrorSegments(orig), dot);
    if |buf| - k - 2 >= 0 {
      DotOf(buf[|buf| - k - 2]);
    }
  }

  /** A glyph with a dot byte OR'd on keeps its segments and lights its dot exactly when the byte is the dot. */
  lemma GlyphWithDot(g: Glyph, dot: bv8)
    requires dot == 0 || dot == SegDP
    ensures forall j :: 0 <= j < 7 ==> (Lit(g | dot, j) <==> Lit(g, j))
    ensures Lit(g | dot, 7) <==> dot == SegDP
  {
  }

  lemma DotOf(x: SegmentCode)
    ensures x & SegDP == 0 || x & SegDP == SegDP
    ensures Lit(x, 7) <==> x & SegDP == SegDP
  {
  }

  /** Turning a digit upside down does not look at its dot. */
  lemma MirrorIgnoresDot(x: SegmentCode, d: SegmentCode)
    ensures MirrorSegments(x | (d & SegDP)) == MirrorSegments(x)
  {
  }

  /** The flipped digit sent to position N-1-k turns back into digit k's segments. */
  lemma MirrorBack(buf: seq<SegmentCode>, k: nat)
    requires k < |buf|
    ensures MirrorSegments(OutputBytes(buf, true)[|buf| - 1 - k]) == buf[k] & 0x7F
  {
    var prev: bv8 := if k >= 1 then buf[k - 1] else 0;
    assert OutputBytes(buf, true)[|buf| - 1 - k] == MirrorSegments(buf[k]) | (prev & SegDP);
    MirrorIgnoresDot(MirrorSegments(buf[k]), prev);
    MirrorTwice(buf[k]);
  }

  /** The flipped byte at position N-k-2 carries digit k's dot. */
  lemma DotBack(buf: seq<SegmentCode>, k: nat)
    requires k + 1 < |buf|
    ensures OutputBytes(buf, true)[|buf| - k - 2] & SegDP == buf[k] & SegDP
  {
    var g := MirrorSegments(buf[k + 1]);
    assert OutputBytes(buf, true)[|buf| - k - 2] == g | (buf[k] & SegDP);
    GlyphDot(g, buf[k]);
  }

  lemma GlyphDot(g: Glyph, m: SegmentCode)
    ensures (g | (m & SegDP)) & SegDP == m & SegDP
  {
  }

  lemma SplitAtDot(m: SegmentCode)
    ensures (m & 0x7F) | (m & SegDP) == m
  {
  }

  /** Output k under flip, from the mirror of digit N-1-k and the dot taken from digit N-k-2. */
  lemma FlippedFrom(buf: seq<SegmentCode>, k: nat, mirror: Glyph, dot: bv8)
    requires k < |buf| && MirrorSegments(buf[|buf| - 1 - k]) == mirror
    requires dot == if |buf| - k - 2 >= 0 then buf[|buf| - k - 2] & SegDP else 0
    ensures OutputBytes(buf, true)[k] == mirror | dot
  {
  }

  lemma FlipTwiceAt(buf: seq<SegmentCode>, k: nat)
    requires k < |buf|
    ensures OutputBytes(OutputBytes(buf, true), true)[k] ==
      if k + 1 < |buf| then buf[k] else buf[k] & 0x7F
  {
    var once := OutputBytes(buf, true);
    MirrorBack(buf, k);
    if k + 1 < |buf| {
      DotBack(buf, k);
      FlippedFrom(once, k, buf[k] & 0x7F, buf[k] & SegDP);
      SplitAtDot(buf[k]);
    } else {
      FlippedFrom(once, k, buf[k] & 0x7F, 0);
    }
  }

  /**
   * Flipping twice restores every digit except the dot of the last one: it is
   * never sent while flipped, because dots are taken from digits 0..N-2.
   */
  lemma FlipTwice(buf: seq<SegmentCode>)
    requires |buf| > 0
    ensures OutputBytes(OutputBytes(buf, true), true) == buf[..|buf| - 1] + [buf[|buf| - 1] & 0x7F]
  {
    var n := |buf|;
    var twice := OutputBytes(OutputBytes(buf, true), true);
    var expected := buf[..n - 1] + [buf[n - 1] & 0x7F];
    forall k | 0 <= k < n
      ensures twice[k] == expected[k]
    {
      FlipTwiceAt(buf, k);
    }
  }

  /** The two transactions writeBuffer sends for a buffer. */
  function BufferWrite(buf: seq<SegmentCode>, flip: bool): seq<Transaction>
  {
    [[CmdSetData], [CmdSetAddress] + OutputBytes(buf, flip)]
  }

  /** The transactions for a sequence of committed buffers, one BufferWrite each. */
  function Transmit(bufs: seq<seq<SegmentCode>>, flip: bool): seq<Transaction>
  {
    if |bufs| == 0 then [] else Transmit(bufs[..|bufs| - 1], flip) + BufferWrite(bufs[|bufs| - 1], flip)
  }

  lemma TransmitAppend(bufs: seq<seq<SegmentCode>>, buf: seq<SegmentCode>, flip: bool)
    ensures Transmit(bufs + [buf], flip) == Transmit(bufs, flip) + BufferWrite(buf, flip)
  {
    assert (bufs + [buf])[..|bufs|] == bufs;
  }

  /**
   * Every committed buffer costs exactly two transactions: the data command,
   * then the grid-1 address with all N digit bytes. The display command is
   * never among them.
   */
  lemma {:induction false} TransmitShape(bufs: seq<seq<SegmentCode>>, flip: bool)
    ensures |Transmit(bufs, flip)| == 2 * |bufs|
    ensures forall t :: 0 <= t < |bufs| ==>
      Transmit(bufs, flip)[2 * t] == [CmdSetData] &&
      Transmit(bufs, flip)[2 * t + 1] == [CmdSetAddress] + OutputBytes(bufs[t], flip)
  {
    if |bufs| > 0 {
      var init := bufs[..|bufs| - 1];
      TransmitShape(init, flip);
      assert forall t :: 0 <= t < |init| ==> init[t] == bufs[t];
    }
  }

  /** A buffer with `seg` written over the entries from `pos` on; no other entry changes. */
  function Overlay(buf: seq<SegmentCode>, seg: seq<SegmentCode>, pos: nat): (r: seq<SegmentCode>)
    requires pos + |seg| <= |buf|
    ensures |r| == |buf|
    ensures forall i :: 0 <= i < |buf| ==>
      r[i] == if pos <= i < pos + |seg| then seg[i - pos] else buf[i]
  {
    buf[..pos] + seg + buf[pos + |seg|..]
  }

  /** Writing the same span twice leaves only the second write. */
  lemma OverlayTwice(buf: seq<SegmentCode>, a: seq<SegmentCode>, b: seq<SegmentCode>, pos: nat)
    requires pos + |a| <= |buf| && |b| == |a|
    ensures Overlay(Overlay(buf, a, pos), b, pos) == Overlay(buf, b, pos)
  {
  }

  /**
   * The buffers left by committing each frame in turn into the span
   * pos..pos+length-1 (the first `length` cells of each frame).
   */
  function Commits(buf: seq<SegmentCode>, frames: seq<seq<SegmentCode>>, length: nat, pos: nat): (r: seq<seq<SegmentCode>>)
    requires pos + length <= |buf|
    requires forall t :: 0 <= t < |frames| ==> length <= |frames[t]|
    ensures |r| == |frames|
  {
    seq(|frames|, t requires 0 <= t < |frames| => Overlay(buf, frames[t][..length], pos))
  }

  /**
   * The source adds the three moved segment groups and the dot instead of
   * OR-ing them; the fields do not overlap, so the sum is the flipped byte.
   */
  lemma FlipByteSum(orig: bv8, prev: bv8)
    ensures ((orig >> 3) & 0x07) + ((orig << 3) & 0x38) + (orig & 0x40) + (prev & SegDP) ==
      MirrorSegments(orig) | (prev & SegDP)
  {
  }

  /** The flipped byte for position k, computed as writeBuffer computes it. */
  lemma FlipByteAt(buf: seq<SegmentCode>, k: nat)
    requires k < |buf|
    ensures var orig := buf[|buf| - k - 1];
      var dot: bv8 := if |buf| - k - 2 >= 0 then buf[|buf| - k - 2] & 0x80 else 0;
      FlippedAt(buf, k) == ((orig >> 3) & 0x07) + ((orig << 3) & 0x38) + (orig & 0x40) + dot
  {
    FlipByteSum(buf[|buf| - k - 1], if |buf| - k - 2 >= 0 then buf[|buf| - k - 2] else 0);
  }

  /** The flipped byte the loop of writeBuffer computes for grid k extends the bytes already sent by one. */
  lemma FlipStep(buf: seq<SegmentCode>, k: nat, orig: bv8, dot: bv8, flip: bv8)
    requires k < |buf| && orig == buf[|buf| - k - 1]
    requires dot == if |buf| - k - 2 >= 0 then buf[|buf| - k - 2] & 0x80 else 0
    requires flip == ((orig >> 3) & 0x07) + ((orig << 3) & 0x38) + (orig & 0x40) + dot
    ensures OutputBytes(buf, true)[..k + 1] == OutputBytes(buf, true)[..k] + [flip]
  {
    FlipByteAt(buf, k);
    var out := OutputBytes(buf, true);
    assert out[..k + 1] == out[..k] + [out[k]];
  }

  /** A setting of at most four bits rides in the low nibble of the display command. */
  lemma DisplayCommandByte(setting: bv8)
    requires setting <= 0x0f
    ensures CmdDisplay + (setting & 0x0f) == CmdDisplay | setting
  {
  }

  /** Committing one more frame appends its buffer's two transactions. */
  lemma CommitStep(buf: seq<SegmentCode>, frames: seq<seq<SegmentCode>>, t: nat, length: nat, pos: nat, flip: bool)
    requires pos + length <= |buf| && t < |frames|
    requires forall u :: 0 <= u < |frames| ==> length <= |frames[u]|
    ensures Transmit(Commits(buf, frames[..t + 1], length, pos), flip) ==
      Transmit(Commits(buf, frames[..t], length, pos), flip) + BufferWrite(Overlay(buf, frames[t][..length], pos), flip)
  {
    var before := Commits(buf, frames[..t], length, pos);
    var after := Commits(buf, frames[..t + 1], length, pos);
    assert after == before + [Overlay(buf, frames[t][..length], pos)];
    TransmitAppend(before, Overlay(buf, frames[t][..length], pos), flip);
  }

  /** A single committed frame costs one BufferWrite of the overlaid buffer. */
  lemma SingleCommit(buf: seq<SegmentCode>, frame: seq<SegmentCode>, length: nat, pos: nat, flip: bool)
    requires pos + length <= |buf| && length <= |frame|
    ensures Transmit(Commits(buf, [frame], length, pos), flip) == BufferWrite(Overlay(buf, frame[..length], pos), flip)
  {
    assert Commits(buf, [frame], length, pos) == [] + [Overlay(buf, frame[..length], pos)];
    TransmitAppend([], Overlay(buf, frame[..length], pos), flip);
  }

  /**
   * A trace that holds the transactions of the first t committed frames, extended
   * by frame t's buffer write, holds those of the first t+1.
   */
  lemma TraceStep(before: seq<Transaction>, trace: seq<Transaction>, buf: seq<SegmentCode>,
                  frames: seq<seq<SegmentCode>>, t: nat, length: nat, pos: nat, flip: bool)
    requires pos + length <= |buf| && t < |frames|
    requires forall u :: 0 <= u < |frames| ==> length <= |frames[u]|
    requires trace == before + Transmit(Commits(buf, frames[..t], length, pos), flip)
    ensures trace + BufferWrite(Overlay(buf, frames[t][..length], pos), flip) ==
      before + Transmit(Commits(buf, frames[..t + 1], length, pos), flip)
  {
    CommitStep(buf, frames, t, length, pos, flip);
  }
}
