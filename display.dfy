/**
 * The driver object TM1637TinyDisplay: its settings, the scratch array
 * `digits` the formatters render into, the buffer `digitsbuf` that mirrors
 * the display, the animation fields, and the bytes it puts on the bus.
 *
 * The bus is recorded as ghost state: the transactions completed so far
 * (`trace`), the bytes of the one in progress (`pending`) and every data bit
 * clocked out (`wire`). Every method that changes the display is proved to
 * append exactly the transactions of the buffers it commits.
 */
module Driver {
  import opened Segments
  import opened Transport
  import opened Formatting
  import opened Scheduler

  /** MAXDIGITS: the number of digits of the display. */
  const MaxDigits: nat := 4

  /** BRIGHT_HIGH: the brightness begin selects. */
  const BrightHigh: bv8 := 0x0f

  /** The text "----" shown when a number does not fit. */
  const Dashes: seq<Byte> := [45, 45, 45, 45]

  /** The glyphs of the four dashes: a minus sign on every digit. */
  const DashCells: seq<SegmentCode> := [MinusSegments, MinusSegments, MinusSegments, MinusSegments]

  /** The overflow display of showNumber: a minus sign on every digit. */
  lemma DashesFrame()
    ensures StringFrames(Dashes, 0, MaxDigits) == [DashCells]
  {
    assert EncodeString(Dashes) + Blanks(0) == DashCells;
    NoDots(EncodeString(Dashes) + Blanks(0));
  }

  /** The setting setBrightness keeps: the level in bits 0-2, display on in bit 3. */
  function BrightnessSetting(brightness: bv8, on: bool): (r: bv8)
    ensures r <= 0x0f
    ensures r & 0x07 == brightness & 0x07
    ensures (r & 0x08 == 0x08) <==> on
  {
    (brightness & 0x07) | (if on then 0x08 else 0x00)
  }

  /** The buffer after scroll frames 1..t over glyphs g have been committed in turn into pos.. of buf. */
  function ScrollBuffer(buf: seq<SegmentCode>, g: seq<SegmentCode>, n: nat, t: nat, length: nat, pos: nat):
    (r: seq<SegmentCode>)
    requires pos + length <= |buf| && length <= n
    ensures |r| == |buf|
  {
    if t == 0 then buf else Overlay(buf, ScrollWindow(g, n, t)[..length], pos)
  }

  /** The transactions of committing scroll frames 1..t over glyphs g in turn into pos.. of buf. */
  function ScrollTrace(buf: seq<SegmentCode>, g: seq<SegmentCode>, n: nat, t: nat, length: nat, pos: nat, flip: bool):
    seq<Transaction>
    requires pos + length <= |buf| && length <= n
  {
    if t == 0 then []
    else ScrollTrace(buf, g, n, t - 1, length, pos, flip) + BufferWrite(Overlay(buf, ScrollWindow(g, n, t)[..length], pos), flip)
  }

  /** Committing frame t+1 over the buffer of frame t leaves the buffer of frame t+1. */
  lemma ScrollBufferStep(buf: seq<SegmentCode>, g: seq<SegmentCode>, n: nat, t: nat, length: nat, pos: nat)
    requires pos + length <= |buf| && length <= n
    ensures Overlay(ScrollBuffer(buf, g, n, t, length, pos), ScrollWindow(g, n, t + 1)[..length], pos) ==
      ScrollBuffer(buf, g, n, t + 1, length, pos)
  {
    if t > 0 {
      OverlayTwice(buf, ScrollWindow(g, n, t)[..length], ScrollWindow(g, n, t + 1)[..length], pos);
    }
  }

  /** The scroll's transactions are those of committing the first t frames of the scroll over g. */
  lemma {:induction false} ScrollTraceAgrees(buf: seq<SegmentCode>, g: seq<SegmentCode>, n: nat, t: nat,
                                             length: nat, pos: nat, flip: bool)
    requires pos + length <= |buf| && length <= n && t <= |g| + n
    ensures ScrollTrace(buf, g, n, t, length, pos, flip) ==
      Transmit(Commits(buf, ScrollSequence(g, n)[..t], length, pos), flip)
  {
    if t > 0 {
      var frames := ScrollSequence(g, n);
      var step := BufferWrite(Overlay(buf, ScrollWindow(g, n, t)[..length], pos), flip);
      assert ScrollTrace(buf, g, n, t, length, pos, flip) == ScrollTrace(buf, g, n, t - 1, length, pos, flip) + step;
      ScrollTraceAgrees(buf, g, n, t - 1, length, pos, flip);
      assert frames[t - 1] == ScrollWindow(g, n, t);
      CommitStep(buf, frames, t - 1, length, pos, flip);
    }
  }

  /** After all |g|+n frames, the scroll has sent the transactions of every one of its frames. */
  lemma ScrollComplete(buf: seq<SegmentCode>, g: seq<SegmentCode>, n: nat, length: nat, pos: nat, flip: bool)
    requires pos + length <= |buf| && length <= n
    ensures ScrollTrace(buf, g, n, |g| + n, length, pos, flip) ==
      Transmit(Commits(buf, ScrollSequence(g, n), length, pos), flip)
  {
    var frames := ScrollSequence(g, n);
    ScrollTraceAgrees(buf, g, n, |g| + n, length, pos, flip);
    assert frames[..|g| + n] == frames;
  }

  class TM1637TinyDisplay {
    var pinClk: bv8
    var pinDIO: bv8
    var brightness: bv8
    var bitDelay: nat
    var scrollDelay: nat
    var flipDisplay: bool
    /** The array the formatters render into before committing it. */
    const digits: array<SegmentCode>
    /** The driver's copy of the display, in digit order (before any flip). */
    const digitsbuf: array<SegmentCode>

    var animStart: nat
    var animFrames: nat
    var animLastFrame: nat
    var animFrameMs: nat
    var animSequence: seq<seq<SegmentCode>>
    var animString: seq<Byte>
    var animType: Kind

    /** The transactions completed on the bus, oldest first. */
    ghost var trace: seq<Transaction>
    /** The bytes written since the last start condition. */
    ghost var pending: seq<bv8>
    /** A start condition has been sent and no stop yet. */
    ghost var inFrame: bool
    /** Every bit put on the data line, in order; writeByte appends each byte's eight bits. */
    ghost var wire: seq<bool>

    /** The animation fields as a value. */
    ghost function Anim(): Animation
      reads this`animType, this`animStart, this`animFrames, this`animLastFrame, this`animFrameMs
      reads this`animSequence, this`animString
    {
      Animation(animType, animStart, animFrames, animLastFrame, animFrameMs, animSequence, animString)
    }

    /** Between transactions nothing is pending. */
    ghost predicate BusConsistent()
      reads this`pending, this`inFrame
    {
      !inFrame ==> pending == []
    }

    /** The arrays have a cell per digit, the delays and the animation fields fit their C types. */
    ghost predicate Settled()
      reads this`bitDelay, this`scrollDelay
      reads this`animType, this`animStart, this`animFrames, this`animLastFrame, this`animFrameMs
      reads this`animSequence, this`animString
    {
      digits.Length == MaxDigits && digitsbuf.Length == MaxDigits && digits != digitsbuf &&
      bitDelay < UIntRange && scrollDelay < UIntRange &&
      WellFormed(Anim(), MaxDigits)
    }

    /** Between calls: settled, and no transaction is open. */
    ghost predicate Valid()
      reads this
    {
      Settled() && BusConsistent() && !inFrame
    }

    /**
     * The frames were committed in turn into digits pos..pos+length-1 of the
     * buffer: each one's two transactions were sent, the buffer holds the last
     * one's span and the scratch array holds the last frame.
     */
    twostate predicate ShowedFrames(frames: seq<seq<SegmentCode>>, length: nat, pos: nat)
      reads this, digits, digitsbuf
      requires pos + length <= digitsbuf.Length
      requires 0 < |frames| && Rows(frames, digits.Length) && length <= digits.Length
    {
      Committed(frames, old(digitsbuf[..]), old(trace), length, pos)
    }

    /**
     * The frames were committed in turn over the buffer contents buf after
     * the transactions `before`, as ShowedFrames states from the old state.
     */
    ghost predicate Committed(frames: seq<seq<SegmentCode>>, buf: seq<SegmentCode>, before: seq<Transaction>,
                              length: nat, pos: nat)
      reads this, digits, digitsbuf
      requires pos + length <= |buf|
      requires 0 < |frames| && Rows(frames, digits.Length) && length <= digits.Length
    {
      digits[..] == frames[|frames| - 1] &&
      digitsbuf[..] == Overlay(buf, frames[|frames| - 1][..length], pos) &&
      trace == before + Transmit(Commits(buf, frames, length, pos), flipDisplay)
    }

    /**
     * The constructor stores the pins, delays and flip setting. The object is
     * taken to be statically allocated, so everything else starts at zero.
     */
    constructor (pinClk: bv8, pinDIO: bv8, bitDelay: nat, scrollDelay: nat, flip: bool)
      requires bitDelay < UIntRange && scrollDelay < UIntRange
      ensures Valid()
      ensures this.pinClk == pinClk && this.pinDIO == pinDIO && this.flipDisplay == flip
      ensures this.bitDelay == bitDelay && this.scrollDelay == scrollDelay && brightness == 0
      ensures digits[..] == Blanks(MaxDigits) && digitsbuf[..] == Blanks(MaxDigits)
      ensures Anim() == Animation(Idle, 0, 0, 0, 0, [], [])
      ensures trace == [] && wire == []
      ensures fresh(digits) && fresh(digitsbuf)
    {
      this.pinClk := pinClk;
      this.pinDIO := pinDIO;
      this.bitDelay := bitDelay;
      this.scrollDelay := scrollDelay;
      flipDisplay := flip;
      brightness := 0;
      digits := new SegmentCode[MaxDigits](_ => 0);
      digitsbuf := new SegmentCode[MaxDigits](_ => 0);
      animStart, animFrames, animLastFrame, animFrameMs := 0, 0, 0, 0;
      animSequence, animString, animType := [], [], Idle;
      trace, pending, inFrame, wire := [], [], false, [];
    }

    // -------------------------------------------------------------------
    // The bus
    // -------------------------------------------------------------------

    /** start: the start condition opens a transaction. */
    method Start()
      requires BusConsistent() && !inFrame
      modifies this`inFrame
      ensures BusConsistent() && inFrame && pending == []
    {
      inFrame := true;
    }

    /** stop: the stop condition closes the transaction and records it. */
    method Stop()
      requires BusConsistent() && inFrame
      modifies this`inFrame, this`pending, this`trace
      ensures BusConsistent() && !inFrame
      ensures trace == old(trace) + [old(pending)]
    {
      trace := trace + [pending];
      pending := [];
      inFrame := false;
    }

    /**
     * writeByte: the eight bits of b go out least significant first, one per
     * clock pulse. The acknowledge bit is not modelled.
     */
    method WriteByte(b: bv8)
      requires BusConsistent() && inFrame
      modifies this`pending, this`wire
      ensures BusConsistent()
      ensures pending == old(pending) + [b]
      ensures wire == old(wire) + LsbFirst(b)
    {
      var data := b;
      for i := 0 to 8
        modifies this`wire
        invariant wire + ShiftOut(data, 8 - i) == old(wire) + LsbFirst(b)
      {
        ShiftOutStep(wire, data, 8 - i);
        wire := wire + [data & 0x01 == 0x01];
        data := data >> 1;
      }
      pending := pending + [b];
    }

    /**
     * writeBuffer: the data command, then the address of grid 1 followed by
     * the bytes of the buffer.
     */
    method WriteBuffer()
      requires Valid()
      modifies this`trace, this`pending, this`inFrame, this`wire
      ensures Valid()
      ensures trace == old(trace) + BufferWrite(digitsbuf[..], flipDisplay)
    {
      SendCommand(CmdSetData);
      SendDigits();
    }

    /** A transaction of one command byte: the data command, or the display command. */
    method SendCommand(cmd: bv8)
      requires BusConsistent() && !inFrame
      modifies this`trace, this`pending, this`inFrame, this`wire
      ensures BusConsistent() && !inFrame
      ensures trace == old(trace) + [[cmd]]
    {
      Start();
      WriteByte(cmd);
      assert pending == [cmd];
      Stop();
    }

    /** The second transaction of writeBuffer: the address of grid 1, then the data bytes. */
    method SendDigits()
      requires BusConsistent() && !inFrame && digitsbuf.Length == MaxDigits
      modifies this`trace, this`pending, this`inFrame, this`wire
      ensures BusConsistent() && !inFrame
      ensures trace == old(trace) + [[CmdSetAddress] + OutputBytes(digitsbuf[..], flipDisplay)]
    {
      Start();
      WriteByte(CmdSetAddress + (0 & 0x07));
      assert pending == [CmdSetAddress];
      WriteDigitBytes();
      Stop();
    }

    /**
     * The data bytes of writeBuffer: the digits in order, or, when the display
     * is flipped, each digit turned upside down in reverse order, carrying the
     * dot of the digit to its left.
     */
    method WriteDigitBytes()
      requires BusConsistent() && inFrame && digitsbuf.Length == MaxDigits
      modifies this`pending, this`wire
      ensures BusConsistent()
      ensures pending == old(pending) + OutputBytes(digitsbuf[..], flipDisplay)
    {
      if flipDisplay {
        WriteFlippedBytes();
      } else {
        WritePlainBytes();
      }
    }

    /** The digits as they are, left to right. */
    method WritePlainBytes()
      requires BusConsistent() && inFrame && digitsbuf.Length == MaxDigits
      modifies this`pending, this`wire
      ensures BusConsistent()
      ensures pending == old(pending) + OutputBytes(digitsbuf[..], false)
    {
      ghost var out := OutputBytes(digitsbuf[..], false);
      for k := 0 to MaxDigits
        invariant BusConsistent()
        invariant pending == old(pending) + out[..k]
      {
        WriteByte(digitsbuf[k]);
        assert out[..k + 1] == out[..k] + [out[k]];
      }
      assert out[..MaxDigits] == out;
    }

    /** Each digit turned upside down, right to left, with the dot of the digit to its left. */
    method WriteFlippedBytes()
      requires BusConsistent() && inFrame && digitsbuf.Length == MaxDigits
      modifies this`pending, this`wire
      ensures BusConsistent()
      ensures pending == old(pending) + OutputBytes(digitsbuf[..], true)
    {
      ghost var out := OutputBytes(digitsbuf[..], true);
      for k := 0 to MaxDigits
        invariant BusConsistent()
        invariant pending == old(pending) + out[..k]
      {
        var dot: bv8 := 0;
        if MaxDigits - k - 2 >= 0 {
          dot := digitsbuf[MaxDigits - k - 2] & 0x80;
        }
        var orig := digitsbuf[MaxDigits - k - 1];
        var flip := ((orig >> 3) & 0x07) + ((orig << 3) & 0x38) + (orig & 0x40) + dot;
        FlipStep(digitsbuf[..], k, orig, dot, flip);
        WriteByte(flip);
      }
      assert out[..MaxDigits] == out;
    }

    /** setSegments: segments[0..length-1] go into the buffer from digit pos on, then the buffer is sent. */
    method SetSegments(segments: array<SegmentCode>, length: nat, pos: nat)
      requires Valid() && segments != digitsbuf
      requires length <= segments.Length && pos + length <= MaxDigits
      modifies digitsbuf, this`trace, this`pending, this`inFrame, this`wire
      ensures Valid()
      ensures digitsbuf[..] == Overlay(old(digitsbuf[..]), segments[..length], pos)
      ensures trace == old(trace) + BufferWrite(digitsbuf[..], flipDisplay)
    {
      var i := pos;
      for k := 0 to length
        modifies digitsbuf
        invariant i == pos + k
        invariant digitsbuf[..] == Overlay(old(digitsbuf[..]), segments[..k], pos)
      {
        digitsbuf[i] := segments[k];
        i := i + 1;
        assert segments[..k + 1] == segments[..k] + [segments[k]];
      }
      WriteBuffer();
    }

    /** setSegments for one digit: the code goes into digit pos of the buffer, then the buffer is sent. */
    method SetSegment(a: SegmentCode, pos: nat)
      requires Valid() && pos < MaxDigits
      modifies digitsbuf, this`trace, this`pending, this`inFrame, this`wire
      ensures Valid()
      ensures digitsbuf[..] == old(digitsbuf[..])[pos := a]
      ensures trace == old(trace) + BufferWrite(digitsbuf[..], flipDisplay)
    {
      digitsbuf[pos] := a;
      WriteBuffer();
    }

    /** readBuffer: a copy of the buffer, which stays as it is. */
    method ReadBuffer(copy: array<SegmentCode>)
      requires Valid() && copy.Length >= MaxDigits && copy != digitsbuf
      modifies copy
      ensures copy[..MaxDigits] == digitsbuf[..]
      ensures copy[MaxDigits..] == old(copy[MaxDigits..])
    {
      for k := 0 to MaxDigits
        modifies copy
        invariant copy[..k] == digitsbuf[..k]
        invariant copy[MaxDigits..] == old(copy[MaxDigits..])
      {
        copy[k] := digitsbuf[k];
      }
    }

    /** memset(digits, 0, sizeof(digits)). */
    method ClearDigits()
      requires Valid()
      modifies digits
      ensures digits[..] == Blanks(MaxDigits)
    {
      forall i | 0 <= i < digits.Length {
        digits[i] := 0;
      }
    }

    /** setSegments(digits, length, pos) as the formatters end: the rendered frame is committed. */
    method CommitDigits(length: nat, pos: nat)
      requires Valid() && pos + length <= MaxDigits
      modifies digitsbuf, this`trace, this`pending, this`inFrame, this`wire
      ensures Valid() && Committed([digits[..]], old(digitsbuf[..]), old(trace), length, pos)
    {
      SetSegments(digits, length, pos);
      SingleCommit(old(digitsbuf[..]), digits[..], length, pos, flipDisplay);
    }

    /** clear: blank the scratch array and commit all of it. */
    method Clear()
      requires Valid()
      modifies digits, digitsbuf, this`trace, this`pending, this`inFrame, this`wire
      ensures Valid() && ShowedFrames([Blanks(MaxDigits)], MaxDigits, 0)
      ensures digitsbuf[..] == Blanks(MaxDigits)
      ensures trace == old(trace) + BufferWrite(Blanks(MaxDigits), flipDisplay)
    {
      ClearDigits();
      SetSegments(digits, MaxDigits, 0);
      SingleCommit(old(digitsbuf[..]), Blanks(MaxDigits), MaxDigits, 0, flipDisplay);
    }

    // -------------------------------------------------------------------
    // Settings
    // -------------------------------------------------------------------

    /** flipDisplay: record the orientation and resend the buffer in it. */
    method FlipDisplay(flip: bool)
      requires Valid()
      modifies this`flipDisplay, this`trace, this`pending, this`inFrame, this`wire
      ensures Valid() && flipDisplay == flip
      ensures trace == old(trace) + BufferWrite(digitsbuf[..], flip)
    {
      flipDisplay := flip;
      WriteBuffer();
    }

    /** isflipDisplay. */
    method IsFlipDisplay() returns (flip: bool)
      ensures flip == flipDisplay
    {
      flip := flipDisplay;
    }

    /**
     * setBrightness: keep the setting and send it in the display command; the
     * buffer is not resent.
     */
    method SetBrightness(level: bv8, on: bool)
      requires Valid()
      modifies this`brightness, this`trace, this`pending, this`inFrame, this`wire
      ensures Valid() && brightness == BrightnessSetting(level, on)
      ensures trace == old(trace) + [[CmdDisplay | brightness]]
    {
      brightness := (level & 0x07) | (if on then 0x08 else 0x00);
      DisplayCommandByte(brightness);
      SendCommand(CmdDisplay + (brightness & 0x0f));
    }

    /** setScrolldelay. */
    method SetScrollDelay(scrollDelay: nat)
      requires Valid() && scrollDelay < UIntRange
      modifies this`scrollDelay
      ensures Valid() && this.scrollDelay == scrollDelay
    {
      this.scrollDelay := scrollDelay;
    }

    /**
     * begin: the pin set-up is not modelled; when asked, the display is
     * cleared and switched on at full brightness.
     */
    method Begin(clearDisplay: bool)
      requires Valid()
      modifies digits, digitsbuf, this`brightness, this`trace, this`pending, this`inFrame, this`wire
      ensures Valid()
      ensures clearDisplay ==>
        digits[..] == Blanks(MaxDigits) && digitsbuf[..] == Blanks(MaxDigits) &&
        brightness == BrightHigh | 0x08 &&
        trace == old(trace) + BufferWrite(Blanks(MaxDigits), flipDisplay) + [[CmdDisplay | brightness]]
      ensures !clearDisplay ==>
        digits[..] == old(digits[..]) && digitsbuf[..] == old(digitsbuf[..]) &&
        brightness == old(brightness) && trace == old(trace)
    {
      if clearDisplay {
        Clear();
        SetBrightness(BrightHigh, true);
        assert brightness == BrightHigh | 0x08;
      }
    }

    // -------------------------------------------------------------------
    // Formatters
    // -------------------------------------------------------------------

    /** showDots: bit 7-i of the mask is OR'd onto digit i as its dot; no dot is cleared. */
    method ShowDots(dots: bv8, cells: array<SegmentCode>)
      requires cells.Length == MaxDigits
      modifies cells
      ensures cells[..] == WithDots(old(cells[..]), dots)
    {
      ghost var plain := cells[..];
      var mask := dots;
      for i := 0 to MaxDigits
        invariant mask == dots << i
        invariant cells[..] == WithDots(plain[..i], dots) + plain[i..]
      {
        AddDot(cells, i, mask, dots, plain);
        ShiftOnce(dots, i);
        mask := mask << 1;
      }
      assert plain[..MaxDigits] == plain;
    }

    /** One step of showDots: the top bit of the shifted mask becomes the dot of digit i. */
    static method AddDot(cells: array<SegmentCode>, i: nat, mask: bv8, ghost dots: bv8, ghost plain: seq<SegmentCode>)
      requires i < cells.Length == |plain| && i < 8 && mask == dots << i
      requires cells[..] == WithDots(plain[..i], dots) + plain[i..]
      modifies cells
      ensures cells[..] == WithDots(plain[..i + 1], dots) + plain[i + 1..]
    {
      DotBit(dots, i);
      ghost var before := cells[..];
      cells[i] := cells[i] | (mask & 0x80);
      WithDotsNext(plain, i, dots, before, cells[..]);
    }

    /** What showNumberBaseEx leaves: the field and the dots in digits, committed to pos..pos+length-1. */
    twostate predicate ShowedBase(b: nat, negative: bool, num: nat, dots: bv8, leadingZero: bool, length: nat, pos: nat)
      reads this, digits, digitsbuf
      requires 1 <= b <= 127 && (num == 0 && !leadingZero ==> length >= 1)
      requires digits.Length == MaxDigits && digitsbuf.Length == MaxDigits && pos + length <= MaxDigits
    {
      ShowedFrames([WithDots(BaseCells(b, negative, num, leadingZero, length) + old(digits[..])[length..], dots)],
        length, pos)
    }

    /**
     * showNumberBaseEx: num in base |base| right-aligned in the first `length`
     * digits, a minus sign before it for a negative base, then the dots, then
     * the first `length` digits committed from pos on.
     */
    method ShowNumberBaseEx(base: int, num: nat, dots: bv8, leadingZero: bool, length: nat, pos: nat)
      requires Valid()
      requires -128 < base < 128 && base != 0 && num < UIntRange
      requires pos + length <= MaxDigits
      requires num == 0 && !leadingZero ==> length >= 1
      modifies digits, digitsbuf, this`trace, this`pending, this`inFrame, this`wire
      ensures Valid()
      ensures ShowedBase(IntAbs(base), base < 0, num, dots, leadingZero, length, pos)
    {
      var negative := false;
      var b := base;
      if b < 0 {
        b := -b;
        negative := true;
      }
      ghost var frame := WithDots(BaseCells(b, negative, num, leadingZero, length) + old(digits[..])[length..], dots);
      RenderBase(b, negative, num, leadingZero, length);
      if dots != 0 {
        ShowDots(dots, digits);
      } else {
        NoDots(digits[..]);
      }
      assert digits[..] == frame;
      CommitDigits(length, pos);
      assert IntAbs(base) == b && (base < 0) == negative;
    }

    /**
     * The digit loop of showNumberBaseEx, after the sign is taken off the
     * base: the field goes into digits[0..length-1], the rest stays.
     */
    method RenderBase(b: nat, negative: bool, num: nat, leadingZero: bool, length: nat)
      requires 1 <= b <= 127 && length <= MaxDigits && digits.Length == MaxDigits
      requires num == 0 && !leadingZero ==> length >= 1
      modifies digits
      ensures digits[..] == BaseCells(b, negative, num, leadingZero, length) + old(digits[..])[length..]
    {
      if num == 0 && !leadingZero {
        RenderZero(length);
      } else {
        RenderDigits(b, negative, num, leadingZero, length);
      }
    }

    /** Zero without leading zeros: blanks, then a lone 0 in the last digit of the field. */
    method RenderZero(length: nat)
      requires 1 <= length <= MaxDigits && digits.Length == MaxDigits
      modifies digits
      ensures digits[..] == Blanks(length - 1) + [EncodeDigit(0)] + old(digits[..])[length..]
    {
      for i := 0 to length - 1
        invariant forall j :: 0 <= j < i ==> digits[j] == 0
        invariant forall j :: i <= j < MaxDigits ==> digits[j] == old(digits[j])
      {
        digits[i] := 0;
      }
      digits[length - 1] := EncodeDigit(0);
      assert digits[..] == Blanks(length - 1) + [EncodeDigit(0)] + old(digits[..])[length..];
    }

    /** The digits from the right, each cell as BaseCell gives it, the minus sign in the first blank. */
    method RenderDigits(b: nat, negative: bool, num: nat, leadingZero: bool, length: nat)
      requires 1 <= b <= 127 && length <= MaxDigits && digits.Length == MaxDigits
      requires num != 0 || leadingZero
      modifies digits
      ensures digits[..] == BaseCells(b, negative, num, leadingZero, length) + old(digits[..])[length..]
    {
      ghost var cells := BaseCells(b, negative, num, leadingZero, length);
      var neg := negative;
      var n := num;
      var i: int := length - 1;
      while i >= 0
        invariant -1 <= i < length
        invariant n == Shifted(num, b, length - 1 - i)
        invariant neg == (negative && (i == length - 1 || Shifted(num, b, length - 2 - i) != 0))
        invariant forall j :: i < j < length ==> digits[j] == cells[j]
        invariant forall j :: 0 <= j <= i || length <= j < MaxDigits ==> digits[j] == old(digits[j])
      {
        BaseCellsAt(b, negative, num, leadingZero, length, i);
        n, neg := RenderCell(b, negative, num, leadingZero, length, i, n, neg);
        i := i - 1;
      }
      assert digits[..] == cells + old(digits[..])[length..];
    }

    /**
     * One pass of the digit loop: the digit of n (a blank or the pending minus
     * sign once n is used up) goes to digit i; n loses that digit.
     */
    method RenderCell(b: nat, negative: bool, ghost num: nat, leadingZero: bool, ghost length: nat, i: nat,
                      n: nat, neg: bool) returns (n': nat, neg': bool)
      requires 1 <= b <= 127 && i < length && digits.Length == MaxDigits && i < MaxDigits
      requires n == Shifted(num, b, length - 1 - i)
      requires neg == (negative && (i == length - 1 || Shifted(num, b, length - 2 - i) != 0))
      modifies digits
      ensures digits[..] == old(digits[..])[i := BaseCell(b, negative, num, leadingZero, length, i)]
      ensures n' == Shifted(num, b, length - i) && neg' == (negative && n != 0)
    {
      BaseCellStep(b, negative, num, leadingZero, length, i, n, neg);
      neg' := neg;
      var digit := n % b;
      if digit == 0 && n == 0 && !leadingZero {
        digits[i] := 0;
      } else {
        digits[i] := EncodeDigit(digit);
      }
      if digit == 0 && n == 0 && neg {
        digits[i] := MinusSegments;
        neg' := false;
      }
      n' := n / b;
    }

    /**
     * showNumberDec: a 16-bit signed number in decimal. When it fits, the
     * committed digits read back as num.
     */
    method ShowNumberDec(num: int, dots: bv8, leadingZero: bool, length: nat, pos: nat)
      requires Valid() && -0x8000 <= num < 0x8000
      requires pos + length <= MaxDigits
      requires num == 0 && !leadingZero ==> length >= 1
      modifies digits, digitsbuf, this`trace, this`pending, this`inFrame, this`wire
      ensures Valid()
      ensures ShowedBase(10, num < 0, IntAbs(num), dots, leadingZero, length, pos)
      ensures NumDigits(IntAbs(num), 10) + (if num < 0 then 1 else 0) <= length ==>
        ReadSigned(digitsbuf[pos..pos + length], 10) == num
    {
      ShowNumberBaseEx(if num < 0 then -10 else 10, if num < 0 then -num else num, dots, leadingZero, length, pos);
      ghost var cells := BaseCells(10, num < 0, IntAbs(num), leadingZero, length);
      WithDotsPrefix(cells, old(digits[..])[length..], dots);
      assert digitsbuf[pos..pos + length] == WithDots(cells, dots);
      if NumDigits(IntAbs(num), 10) + (if num < 0 then 1 else 0) <= length {
        DecimalReadsBack(num, dots, leadingZero, length);
      }
    }

    /** showNumberHex: a 16-bit unsigned number in hexadecimal; when it fits, it reads back as num. */
    method ShowNumberHex(num: nat, dots: bv8, leadingZero: bool, length: nat, pos: nat)
      requires Valid() && num < UIntRange
      requires pos + length <= MaxDigits
      requires num == 0 && !leadingZero ==> length >= 1
      modifies digits, digitsbuf, this`trace, this`pending, this`inFrame, this`wire
      ensures Valid()
      ensures ShowedBase(16, false, num, dots, leadingZero, length, pos)
      ensures NumDigits(num, 16) <= length ==> ReadSigned(digitsbuf[pos..pos + length], 16) == num
    {
      ShowNumberBaseEx(16, num, dots, leadingZero, length, pos);
      ghost var cells := BaseCells(16, false, num, leadingZero, length);
      WithDotsPrefix(cells, old(digits[..])[length..], dots);
      assert digitsbuf[pos..pos + length] == WithDots(cells, dots);
      if NumDigits(num, 16) <= length {
        HexReadsBack(num, dots, leadingZero, length);
      }
    }

    /** What showNumber leaves for a double: the dashes shown as a string, or the field committed. */
    twostate predicate ShowedReal(num: real, decimalLength: nat, length: nat, pos: nat)
      reads this, digits, digitsbuf
      requires digits.Length == MaxDigits && digitsbuf.Length == MaxDigits && pos + length <= MaxDigits
    {
      match NumberRendering(num, decimalLength, length)
      case Overflow => ShowedFrames(StringFrames(Dashes, 0, MaxDigits), length, pos)
      case Field(cells) => ShowedFrames([cells + Blanks(MaxDigits - length)], length, pos)
    }

    /**
     * showNumber for a double: the number right-aligned in the first `length`
     * digits with up to decimalLength decimals, rounded half away from zero,
     * the dot after the last whole digit; dashes when the whole part and its
     * sign do not fit. The conversion to long needs |num| below 2^31.
     */
    method ShowNumberReal(num: real, decimalLength: nat, length: nat, pos: nat)
      requires Valid() && pos + length <= MaxDigits
      requires -0x8000_0000 as real < num < 0x8000_0000 as real
      modifies digits, digitsbuf, this`trace, this`pending, this`inFrame, this`wire
      ensures Valid() && ShowedReal(num, decimalLength, length, pos)
      ensures NumLen(num) > length ==>
        digits[..] == DashCells && digitsbuf[..] == Overlay(old(digitsbuf[..]), DashCells[..length], pos)
    {
      ClearDigits();
      var numLen, negative, belowOne := NumberLength(num);
      if numLen > length {
        ShowString(Dashes, length, pos, 0);
        DashesFrame();
        return;
      }
      RenderNumber(num, decimalLength, length, numLen, negative, belowOne);
      CommitDigits(length, pos);
    }

    /**
     * The positions showNumber needs before any decimals: the digits of the
     * whole part, one for a minus sign, one for the 0 of a value below one.
     */
    static method NumberLength(num: real) returns (numLen: nat, negative: bool, belowOne: bool)
      ensures numLen == NumLen(num) && negative == (num < 0.0) && belowOne == (Magnitude(num) == 0)
    {
      numLen := CountDigits(Magnitude(num));
      negative := false;
      belowOne := false;
      if num < 0.0 {
        numLen := numLen + 1;
        negative := true;
      }
      if Magnitude(num) < 1 {
        numLen := numLen + 1;
        belowOne := true;
      }
    }

    /** The field of a number that fits: the decimals that fit, the scaled and rounded value, its cells. */
    method RenderNumber(num: real, decimalLength: nat, length: nat, numLen: nat, negative: bool, belowOne: bool)
      requires numLen == NumLen(num) && negative == (num < 0.0) && belowOne == (Magnitude(num) == 0)
      requires numLen <= length <= MaxDigits && digits.Length == MaxDigits && digits[..] == Blanks(MaxDigits)
      modifies digits
      ensures NumberRendering(num, decimalLength, length) == Field(digits[..length])
      ensures digits[..] == digits[..length] + Blanks(MaxDigits - length)
    {
      NumLenPositive(num);
      var places := length - numLen;
      if places > decimalLength {
        places := decimalLength;
      }
      assert places == Places(num, decimalLength, length);
      var inum := RoundScaled(num, places);
      ghost var cells := DecimalCells(inum, negative, belowOne, places, decimalLength, length);
      if inum == 0 && !belowOne {
        digits[length - 1] := EncodeDigit(0);
        assert digits[..] == cells + Blanks(MaxDigits - length);
      } else {
        RenderDecimal(inum, negative, belowOne, places, decimalLength, length);
      }
      assert digits[..length] == cells;
    }

    /** num scaled by 10^places, moved half a unit away from zero and cut to its whole magnitude. */
    static method RoundScaled(num: real, places: nat) returns (inum: nat)
      ensures inum == Rounded(num, places)
    {
      var value := ScaleUp(num, places);
      ghost var v := value;
      if num > 0.0 {
        value := value + 0.5;
      }
      if num < 0.0 {
        value := value - 0.5;
      }
      assert value == (if num > 0.0 then v + 0.5 else if num < 0.0 then v - 0.5 else v);
      assert value == HalfAway(num, Pow(10, places) as real);
      inum := Magnitude(value);
    }

    /** The first loop of showNumber for a double: the number of decimal digits of m. */
    static method CountDigits(m: nat) returns (count: nat)
      ensures count == NumDigits(m, 10)
    {
      var left := m;
      count := 0;
      while left != 0
        invariant count + NumDigits(left, 10) == NumDigits(m, 10)
      {
        NumDigitsStep(left, 10);
        left := left / 10;
        count := count + 1;
      }
    }

    /** The scaling loop of showNumber for a double: num times ten, `places` times. */
    static method ScaleUp(num: real, places: nat) returns (value: real)
      ensures value == num * (Pow(10, places) as real)
    {
      value := num;
      for x := 0 to places
        invariant value == num * (Pow(10, x) as real)
      {
        ScaleStep(num, x);
        value := value * 10.0;
      }
    }

    /**
     * The digit loop of showNumber for a double: the field of the rounded
     * integer inum goes into digits[0..length-1], the rest stays.
     */
    method RenderDecimal(inum: nat, negative: bool, belowOne: bool, places: nat, decimalLength: nat, length: nat)
      requires places < length <= MaxDigits && digits.Length == MaxDigits
      requires inum != 0 || belowOne
      modifies digits
      ensures digits[..] == DecimalCells(inum, negative, belowOne, places, decimalLength, length) +
        old(digits[..])[length..]
    {
      ghost var cells := DecimalCells(inum, negative, belowOne, places, decimalLength, length);
      var point := length - 1 - places;
      var neg := negative;
      var n := inum;
      var i: int := length - 1;
      while i >= 0
        invariant -1 <= i < length
        invariant n == Shifted(inum, 10, length - 1 - i)
        invariant neg == (negative && (i + 1 == length || !DecimalBlank(inum, belowOne, point, length, i + 1)))
        invariant forall j :: i < j < length ==> digits[j] == cells[j]
        invariant forall j :: 0 <= j <= i || length <= j < MaxDigits ==> digits[j] == old(digits[j])
      {
        DecimalCellsAt(inum, negative, belowOne, places, decimalLength, length, i);
        n, neg := RenderDecimalCell(inum, negative, belowOne, places, decimalLength, length, i, n, neg);
        i := i - 1;
      }
      assert digits[..] == cells + old(digits[..])[length..];
    }

    /**
     * One pass of showNumber's digit loop: the digit of n, or a blank and the
     * pending minus sign once n is used up left of the point, goes to digit i,
     * with the dot added at the point; n loses that digit.
     */
    method RenderDecimalCell(ghost inum: nat, negative: bool, belowOne: bool, places: nat, decimalLength: nat,
                             length: nat, i: nat, n: nat, neg: bool) returns (n': nat, neg': bool)
      requires places < length && i < length && digits.Length == MaxDigits && i < MaxDigits
      requires n == Shifted(inum, 10, length - 1 - i)
      requires neg == (negative &&
        (i + 1 == length || !DecimalBlank(inum, belowOne, length - 1 - places, length, i + 1)))
      modifies digits
      ensures digits[..] ==
        old(digits[..])[i := DecimalCell(inum, negative, belowOne, places, decimalLength, length, i)]
      ensures n' == Shifted(inum, 10, length - i)
      ensures neg' == (negative && !DecimalBlank(inum, belowOne, length - 1 - places, length, i))
    {
      var point := length - 1 - places;
      var glyph;
      glyph, neg' := DecimalCellGlyph(inum, negative, belowOne, point, length, i, n, neg);
      if i == point && decimalLength > 0 {
        GlyphPlusDot(glyph);
        digits[i] := glyph + SegDP;
      } else {
        digits[i] := glyph;
      }
      n' := n / 10;
    }

    /** The glyph of one pass of showNumber's digit loop, before the dot, and the pending minus sign after it. */
    static method DecimalCellGlyph(ghost inum: nat, negative: bool, belowOne: bool, point: int, length: nat, i: nat,
                                   n: nat, neg: bool) returns (glyph: Glyph, neg': bool)
      requires i < length
      requires n == Shifted(inum, 10, length - 1 - i)
      requires neg == (negative && (i + 1 == length || !DecimalBlank(inum, belowOne, point, length, i + 1)))
      ensures glyph == DecimalGlyph(inum, negative, belowOne, point, length, i)
      ensures neg' == (negative && !DecimalBlank(inum, belowOne, point, length, i))
    {
      DecimalCellStep(inum, negative, belowOne, point, length, i, n, neg);
      neg' := neg;
      var digit := n % 10;
      if digit == 0 && n == 0 && (!belowOne || i < point) {
        glyph := 0;
        if neg' {
          glyph := MinusSegments;
          neg' := false;
        }
      } else {
        glyph := EncodeDigit(digit);
      }
    }

    /**
     * showNumber for a long: with leading zeros, showNumberDec of the value
     * cut to a 16-bit int; otherwise showNumber of the value as a double,
     * with no decimals.
     */
    method ShowNumberLong(num: int, leadingZero: bool, length: nat, pos: nat)
      requires Valid() && -0x8000_0000 < num < 0x8000_0000
      requires pos + length <= MaxDigits
      modifies digits, digitsbuf, this`trace, this`pending, this`inFrame, this`wire
      ensures Valid()
      ensures leadingZero ==> ShowedBase(10, ToInt16(num) < 0, IntAbs(ToInt16(num)), 0, true, length, pos)
      ensures !leadingZero ==> ShowedReal(num as real, 0, length, pos)
    {
      if leadingZero {
        ShowNumberDec(ToInt16(num), 0, leadingZero, length, pos);
      } else {
        ShowNumberReal(num as real, 0, length, pos);
      }
    }

    /** showNumber for an int: showNumber for the same value as a long. */
    method ShowNumberInt(num: int, leadingZero: bool, length: nat, pos: nat)
      requires Valid() && -0x8000 <= num < 0x8000
      requires pos + length <= MaxDigits
      modifies digits, digitsbuf, this`trace, this`pending, this`inFrame, this`wire
      ensures Valid()
      ensures leadingZero ==> ShowedBase(10, num < 0, IntAbs(num), 0, true, length, pos)
      ensures !leadingZero ==> ShowedReal(num as real, 0, length, pos)
    {
      ToInt16Keeps(num);
      ShowNumberLong(num, leadingZero, length, pos);
    }

    /**
     * The inner shift loop of showString's scroll: every digit takes its right
     * neighbour's code and the last digit gets c.
     */
    method ShiftIn(c: SegmentCode)
      requires digits.Length == MaxDigits
      modifies digits
      ensures digits[..] == old(digits[..])[1..] + [c]
    {
      var y := 0;
      while y < MaxDigits - 1
        invariant 0 <= y <= MaxDigits - 1
        invariant forall j :: 0 <= j < y ==> digits[j] == old(digits[j + 1])
        invariant forall j :: y <= j < MaxDigits ==> digits[j] == old(digits[j])
      {
        digits[y] := digits[y + 1];
        y := y + 1;
      }
      digits[y] := c;
    }

    /**
     * showString (and showString_P): a string of at most MaxDigits characters
     * is shown at once with its dots; a longer one scrolls in from the right
     * and out to the left, one committed frame per step, ending blank.
     */
    method ShowString(s: seq<Byte>, length: nat, pos: nat, dots: bv8)
      requires Valid() && pos + length <= MaxDigits
      modifies digits, digitsbuf, this`trace, this`pending, this`inFrame, this`wire
      ensures Valid() && ShowedFrames(StringFrames(s, dots, MaxDigits), length, pos)
    {
      ClearDigits();
      if |s| <= MaxDigits {
        ShowShortString(s, length, pos, dots);
      }
      if |s| > MaxDigits {
        ScrollString(s, length, pos, dots);
      }
    }

    /** The basic display of showString: the characters from digit 0 on, then the dots. */
    method ShowShortString(s: seq<Byte>, length: nat, pos: nat, dots: bv8)
      requires Valid() && pos + length <= MaxDigits && |s| <= MaxDigits
      requires digits[..] == Blanks(MaxDigits)
      modifies digits, digitsbuf, this`trace, this`pending, this`inFrame, this`wire
      ensures Valid() && ShowedFrames([ShortString(s, dots, MaxDigits)], length, pos)
    {
      RenderShortString(s, dots);
      CommitDigits(length, pos);
    }

    /** The characters from digit 0 on, blanks after them, then the dots of the mask. */
    method RenderShortString(s: seq<Byte>, dots: bv8)
      requires digits.Length == MaxDigits && |s| <= MaxDigits && digits[..] == Blanks(MaxDigits)
      modifies digits
      ensures digits[..] == ShortString(s, dots, MaxDigits)
    {
      EncodeCharacters(s);
      if dots != 0 {
        ShowDots(dots, digits);
      } else {
        NoDots(digits[..]);
      }
    }

    /** The character loop of showString: the glyph of character x goes to digit x. */
    method EncodeCharacters(s: seq<Byte>)
      requires digits.Length == MaxDigits && |s| <= MaxDigits && digits[..] == Blanks(MaxDigits)
      modifies digits
      ensures digits[..] == EncodeString(s) + Blanks(MaxDigits - |s|)
    {
      for x := 0 to |s|
        invariant forall j :: 0 <= j < x ==> digits[j] == EncodeASCII(s[j])
        invariant forall j :: x <= j < MaxDigits ==> digits[j] == 0
      {
        digits[x] := EncodeASCII(s[x]);
      }
      assert digits[..] == EncodeString(s) + Blanks(MaxDigits - |s|);
    }

    /**
     * The scrolling display of showString: MaxDigits-1 frames bring the first
     * characters in, one frame per further character, MaxDigits frames clear
     * the display again; each frame is committed.
     */
    method ScrollString(s: seq<Byte>, length: nat, pos: nat, dots: bv8)
      requires Valid() && pos + length <= MaxDigits && |s| > MaxDigits
      requires digits[..] == Blanks(MaxDigits)
      modifies digits, digitsbuf, this`trace, this`pending, this`inFrame, this`wire
      ensures Valid() && ShowedFrames(ScrollSequence(EncodeString(s), MaxDigits), length, pos)
    {
      ghost var buf := digitsbuf[..];
      ghost var g := EncodeString(s);
      assert ScrollWindow(g, MaxDigits, 0) == Blanks(MaxDigits);
      ScrollOn(s, length, pos, g, buf, old(trace));
      ScrollThrough(s, length, pos, g, buf, old(trace));
      ScrollOff(|s|, length, pos, g, buf, old(trace));
    }

    /** The first loop of the scroll: the first MaxDigits-1 characters move on from the right. */
    method ScrollOn(s: seq<Byte>, length: nat, pos: nat,
                    ghost g: seq<SegmentCode>, ghost buf: seq<SegmentCode>, ghost before: seq<Transaction>)
      requires Valid() && pos + length <= MaxDigits && |s| > MaxDigits && |buf| == MaxDigits
      requires g == EncodeString(s) && Scrolled(g, 0, buf, before, length, pos)
      modifies digits, digitsbuf, this`trace, this`pending, this`inFrame, this`wire
      ensures Valid() && Scrolled(g, MaxDigits - 1, buf, before, length, pos)
    {
      for x := 0 to MaxDigits - 1
        invariant Valid() && Scrolled(g, x, buf, before, length, pos)
      {
        ScrollFrame(EncodeASCII(s[x]), length, pos, g, x, buf, before);
      }
    }

    /** The second loop of the scroll: the remaining characters move through. */
    method ScrollThrough(s: seq<Byte>, length: nat, pos: nat,
                         ghost g: seq<SegmentCode>, ghost buf: seq<SegmentCode>, ghost before: seq<Transaction>)
      requires Valid() && pos + length <= MaxDigits && |s| > MaxDigits && |buf| == MaxDigits
      requires g == EncodeString(s) && Scrolled(g, MaxDigits - 1, buf, before, length, pos)
      modifies digits, digitsbuf, this`trace, this`pending, this`inFrame, this`wire
      ensures Valid() && Scrolled(g, |s|, buf, before, length, pos)
    {
      for x := MaxDigits - 1 to |s|
        invariant Valid() && Scrolled(g, x, buf, before, length, pos)
      {
        ScrollFrame(EncodeASCII(s[x]), length, pos, g, x, buf, before);
      }
    }

    /**
     * The third loop of the scroll: MaxDigits blanks move in until the string
     * is gone. The source counts these steps from 0; counting the frames from
     * `count`, the string's length, instead does not change them.
     */
    method ScrollOff(count: nat, length: nat, pos: nat,
                     ghost g: seq<SegmentCode>, ghost buf: seq<SegmentCode>, ghost before: seq<Transaction>)
      requires Valid() && pos + length <= MaxDigits && |buf| == MaxDigits
      requires count == |g| && Scrolled(g, count, buf, before, length, pos)
      modifies digits, digitsbuf, this`trace, this`pending, this`inFrame, this`wire
      ensures Valid() && Committed(ScrollSequence(g, MaxDigits), buf, before, length, pos)
    {
      for t := count to count + MaxDigits
        invariant Valid() && Scrolled(g, t, buf, before, length, pos)
      {
        ScrollFrame(0, length, pos, g, t, buf, before);
      }
      ScrollComplete(buf, g, MaxDigits, length, pos, flipDisplay);
    }

    /**
     * The scroll over glyphs g has reached frame t: the digits hold window t,
     * the buffer holds its span and frames 1..t were committed after `before`.
     */
    ghost predicate Scrolled(g: seq<SegmentCode>, t: nat, buf: seq<SegmentCode>, before: seq<Transaction>,
                             length: nat, pos: nat)
      reads this, digits, digitsbuf
      requires pos + length <= |buf| && length <= MaxDigits
    {
      digits[..] == ScrollWindow(g, MaxDigits, t) &&
      digitsbuf[..] == ScrollBuffer(buf, g, MaxDigits, t, length, pos) &&
      trace == before + ScrollTrace(buf, g, MaxDigits, t, length, pos, flipDisplay)
    }

    /**
     * The body of the scroll loops: shift the digits left, put c (the next
     * glyph, or blank once the string is through) on the last one, and
     * commit; this advances the scroll by one frame.
     */
    method ScrollFrame(c: SegmentCode, length: nat, pos: nat, ghost g: seq<SegmentCode>, ghost t: nat,
                       ghost buf: seq<SegmentCode>, ghost before: seq<Transaction>)
      requires Valid() && pos + length <= MaxDigits && |buf| == MaxDigits
      requires Scrolled(g, t, buf, before, length, pos)
      requires c == if t < |g| then g[t] else 0
      modifies digits, digitsbuf, this`trace, this`pending, this`inFrame, this`wire
      ensures Valid() && Scrolled(g, t + 1, buf, before, length, pos)
    {
      ScrollShift(g, MaxDigits, t);
      ShiftIn(c);
      SetSegments(digits, length, pos);
      ScrollBufferStep(buf, g, MaxDigits, t, length, pos);
    }

    /**
     * showLevel: a level of 0-100 (larger levels count as 100) as bars on
     * every digit (horizontal) or filling the digits from the left (vertical),
     * committed to the whole display.
     */
    method ShowLevel(level: nat, horizontal: bool)
      requires Valid() && level < UIntRange
      modifies digits, digitsbuf, this`trace, this`pending, this`inFrame, this`wire
      ensures Valid() && ShowedFrames([LevelCells(level, horizontal, MaxDigits)], MaxDigits, 0)
    {
      ClearDigits();
      var l := level;
      if l > 100 {
        l := 100;
      }
      assert LevelCells(l, horizontal, MaxDigits) == LevelCells(level, horizontal, MaxDigits);
      if horizontal {
        HorizontalLevel(l);
      } else {
        VerticalLevel(l);
      }
      CommitDigits(MaxDigits, 0);
    }

    /** The horizontal branch of showLevel: up to three bars, the same on every digit. */
    method HorizontalLevel(level: nat)
      requires level <= 100 && digits.Length == MaxDigits
      modifies digits
      ensures digits[..] == LevelCells(level, true, MaxDigits)
    {
      var bars := level * 3 / 100;
      if bars == 0 && level > 0 {
        bars := 1;
      }
      var digit: SegmentCode := 0;
      if bars == 1 {
        digit := 0x08;
      } else if bars == 2 {
        digit := 0x48;
      } else if bars == 3 {
        digit := 0x49;
      }
      assert digit == HorizontalGlyph(Bars(level, 3));
      for x := 0 to MaxDigits
        invariant forall j :: 0 <= j < x ==> digits[j] == digit
      {
        digits[x] := digit;
      }
      assert digits[..] == LevelCells(level, true, MaxDigits);
    }

    /** The vertical branch of showLevel: up to two bars per digit, filled from the left. */
    method VerticalLevel(level: nat)
      requires level <= 100 && digits.Length == MaxDigits && digits[..] == Blanks(MaxDigits)
      modifies digits
      ensures digits[..] == LevelCells(level, false, MaxDigits)
    {
      var bars := level * (MaxDigits * 2) / 100;
      if bars == 0 && level > 0 {
        bars := 1;
      }
      assert bars == Bars(level, 2 * MaxDigits);
      for x := 0 to MaxDigits
        invariant forall j :: 0 <= j < x ==> digits[j] == VerticalGlyph(bars, j)
        invariant forall j :: x <= j < MaxDigits ==> digits[j] == 0
      {
        var left := bars - x * 2;
        if left > 1 {
          digits[x] := 0x36;
        }
        if left == 1 {
          digits[x] := 0x30;
        }
      }
      assert digits[..] == LevelCells(level, false, MaxDigits);
    }

    // -------------------------------------------------------------------
    // The animation scheduler
    // -------------------------------------------------------------------

    /**
     * Animate, called at time `now`: one step of Poll on the animation fields;
     * the frame Poll draws, if any, is committed to the whole display, and
     * otherwise nothing is sent.
     */
    method Animate(now: nat, loop: bool) returns (running: bool)
      requires Valid() && now < ULongRange
      modifies this`animType, this`animStart, this`animLastFrame
      modifies digits, digitsbuf, this`trace, this`pending, this`inFrame, this`wire
      ensures Valid()
      ensures var r := Poll(old(Anim()), now, loop, MaxDigits);
        running == r.running && Anim() == r.next &&
        (r.shown.Some? ==> ShowedFrames([r.shown.value], MaxDigits, 0)) &&
        (r.shown.None? ==> digits[..] == old(digits[..]) && digitsbuf[..] == old(digitsbuf[..]) && trace == old(trace))
    {
      var draw, frameNum;
      running, draw, frameNum := NextFrame(now, loop);
      if draw {
        DrawFrame(frameNum);
      }
    }

    /**
     * The bookkeeping of Animate: the frame due at now (restarting the clock
     * when looping past the end, stopping otherwise) and whether it is new.
     */
    method NextFrame(now: nat, loop: bool) returns (running: bool, draw: bool, frameNum: nat)
      requires Valid() && now < ULongRange
      modifies this`animType, this`animStart, this`animLastFrame
      ensures Valid()
      ensures var r := Poll(old(Anim()), now, loop, MaxDigits);
        running == r.running && Anim() == r.next && (draw <==> r.shown.Some?) &&
        (draw ==> animType != Idle && (frameNum < animFrames || frameNum == 0) &&
                  r.shown.value == FrameCells(Anim(), frameNum, MaxDigits))
    {
      draw := false;
      frameNum := 0;
      if animType == Idle {
        running := false;
        return;
      }
      frameNum := (now - animStart) % ULongRange / animFrameMs % UIntRange;
      if frameNum >= animFrames {
        if loop {
          animStart := now;
          frameNum := 0;
        } else {
          animType := Idle;
          running := false;
          return;
        }
      }
      running := true;
      if frameNum == animLastFrame {
        return;
      }
      animLastFrame := frameNum;
      draw := true;
    }

    /** The drawing part of Animate: frame f of the table or of the scroll, committed. */
    method DrawFrame(f: nat)
      requires Valid() && animType != Idle && (f < animFrames || f == 0)
      modifies digits, digitsbuf, this`trace, this`pending, this`inFrame, this`wire
      ensures Valid() && ShowedFrames([FrameCells(Anim(), f, MaxDigits)], MaxDigits, 0)
    {
      ClearDigits();
      if animType == FrameTable {
        CopyFrame(animSequence[f]);
      } else {
        ScrollCells(f);
      }
      CommitDigits(MaxDigits, 0);
    }

    /** The copy loop of Animate for a frame table: row f, digit by digit. */
    method CopyFrame(row: seq<SegmentCode>)
      requires digits.Length == MaxDigits && |row| == MaxDigits
      modifies digits
      ensures digits[..] == row
    {
      for a := 0 to MaxDigits
        invariant digits[..a] == row[..a]
      {
        digits[a] := row[a];
      }
    }

    /**
     * The scroll loop of Animate: digit x shows character f-MaxDigits+x of the
     * text while that is within the first frames-2*MaxDigits characters. The
     * offset is an unsigned int stored in an int, so from 32768 on it is negative.
     */
    method ScrollCells(f: nat)
      requires Settled() && animType == TextScroll && (f < animFrames || f == 0)
      modifies digits
      ensures digits[..] == FrameCells(Anim(), f, MaxDigits)
    {
      ghost var cells := FrameCells(Anim(), f, MaxDigits);
      var bound := (animFrames - 2 * MaxDigits) % UIntRange;
      for x := 0 to MaxDigits
        invariant forall j :: 0 <= j < x ==> digits[j] == cells[j]
      {
        var offset := ToInt16(f - MaxDigits + x);
        if offset >= 0 && offset < bound {
          digits[x] := EncodeASCII(animString[offset]);
        } else {
          digits[x] := 0;
        }
      }
      assert digits[..] == cells;
    }

    /**
     * startAnimation (and startAnimation_P): a table of frames, each ms
     * milliseconds, from time now on; the last drawn frame is kept.
     */
    method StartAnimation(table: seq<seq<SegmentCode>>, frames: nat, ms: nat, now: nat)
      requires Valid() && now < ULongRange
      requires 0 < |table| && frames <= |table| && Rows(table, MaxDigits)
      requires 0 < ms < UIntRange && frames < UIntRange
      modifies this`animType, this`animStart, this`animFrames, this`animFrameMs, this`animSequence, this`animString
      ensures Valid() && Anim() == StartTable(old(Anim()), table, frames, ms, now)
    {
      animType := FrameTable;
      animStart := now;
      animFrames := frames;
      animFrameMs := ms;
      animSequence := table;
      animString := [];
    }

    /** stopAnimation: nothing runs any more. */
    method StopAnimation()
      requires Valid()
      modifies this`animType
      ensures Valid() && Anim() == Stopped(old(Anim()))
    {
      animType := Idle;
    }

    /**
     * startStringScroll (and startStringScroll_P): a string longer than the
     * display starts a scroll of |s|+2*MaxDigits frames at now; a shorter one
     * is shown at once on its own length of digits, and only the frame count
     * of the animation fields changes.
     */
    method StartStringScroll(s: seq<Byte>, ms: nat, now: nat)
      requires Valid() && now < ULongRange && ms < UIntRange
      requires |s| > MaxDigits ==> 0 < ms && |s| + 2 * MaxDigits < UIntRange
      requires |s| <= MaxDigits && animType == FrameTable ==> |s| <= |animSequence|
      modifies this`animType, this`animStart, this`animFrames, this`animFrameMs, this`animSequence, this`animString
      modifies digits, digitsbuf, this`trace, this`pending, this`inFrame, this`wire
      ensures Valid() && Anim() == StartScroll(old(Anim()), s, ms, now, MaxDigits)
      ensures |s| <= MaxDigits ==> ShowedFrames(StringFrames(s, 0, MaxDigits), |s|, 0)
      ensures |s| > MaxDigits ==>
        digits[..] == old(digits[..]) && digitsbuf[..] == old(digitsbuf[..]) && trace == old(trace)
    {
      if |s| <= MaxDigits {
        animFrames := |s|;
        ShowString(s, animFrames, 0, 0);
        return;
      }
      BeginScroll(s, ms, now);
    }

    /** The scroll branch of startStringScroll: the text, its frame count, the start time and frame time. */
    method BeginScroll(s: seq<Byte>, ms: nat, now: nat)
      requires Valid() && now < ULongRange && 0 < ms < UIntRange
      requires MaxDigits < |s| && |s| + 2 * MaxDigits < UIntRange
      modifies this`animType, this`animStart, this`animFrames, this`animFrameMs, this`animSequence, this`animString
      ensures Valid() && Anim() == Animation(TextScroll, now, |s| + 2 * MaxDigits, old(animLastFrame), ms, [], s)
    {
      animFrames := |s|;
      animType := TextScroll;
      animFrames := animFrames + 2 * MaxDigits;
      animStart := now;
      animFrameMs := ms;
      animSequence := [];
      animString := s;
    }
  }
}
