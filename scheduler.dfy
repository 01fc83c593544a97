/**
 * The non-blocking animation state machine, as values: the animation fields
 * of the driver, what one call of Animate does with them at time `now`, and
 * what the start functions set. The display class keeps these fields and is
 * proved to follow Poll step by step.
 *
 * Widths follow the AVR build: millis() and the start time are unsigned long
 * (32 bits), the frame counters and the frame time unsigned int (16 bits).
 */
module Scheduler {
  import opened Segments
  import opened Formatting

  const ULongRange: nat := 0x1_0000_0000
  const UIntRange: nat := 0x1_0000

  datatype Option<T> = None | Some(value: T)

  /**
   * What is running: nothing (type 0), a table of frames (types 1 and 2, RAM
   * or flash) or a text scroll (types 3 and 4).
   */
  datatype Kind = Idle | FrameTable | TextScroll

  datatype Animation = Animation(
    kind: Kind,
    start: nat,
    frames: nat,
    lastFrame: nat,
    frameMs: nat,
    table: seq<seq<SegmentCode>>,
    text: seq<Byte>)

  /**
   * The fields fit their C types; a running animation has a frame time; a
   * table has a row of n digits for every frame; a scroll's text is longer
   * than the display and its frame count is the text plus 2n, or at most n
   * after a short string replaced it.
   */
  predicate WellFormed(a: Animation, n: nat)
  {
    a.start < ULongRange && a.frames < UIntRange && a.lastFrame < UIntRange && a.frameMs < UIntRange &&
    (a.kind != Idle ==> a.frameMs > 0) &&
    (a.kind == FrameTable ==>
      0 < |a.table| && a.frames <= |a.table| && forall r :: 0 <= r < |a.table| ==> |a.table[r]| == n) &&
    (a.kind == TextScroll ==> n < |a.text| && (a.frames == |a.text| + 2 * n || a.frames <= n))
  }

  /**
   * The frame due at time now: the milliseconds since the start (modulo 2^32,
   * as millis() wraps) divided by the frame time, kept to 16 bits.
   */
  function FrameDue(a: Animation, now: nat): (f: nat)
    requires a.frameMs > 0
    ensures f < UIntRange
  {
    ((now - a.start) % ULongRange / a.frameMs) % UIntRange
  }

  /**
   * The digits of frame f: row f of the table, or for a scroll the
   * characters at f-n+x, blank outside 0 .. frames-2n (a 16-bit difference).
   * The offset f-n+x is computed in 16 bits and kept in a signed int, so an
   * offset of 32768 or more reads as negative and shows a blank.
   */
  function FrameCells(a: Animation, f: nat, n: nat): (cells: seq<SegmentCode>)
    requires WellFormed(a, n) && a.kind != Idle
    requires f < a.frames || f == 0
    ensures |cells| == n
  {
    if a.kind == FrameTable then a.table[f]
    else
      var bound := (a.frames - 2 * n) % UIntRange;
      seq(n, x requires 0 <= x < n =>
        var off := ToInt16(f + x - n);
        if 0 <= off < bound then EncodeASCII(a.text[off]) else 0)
  }

  /** The outcome of one Animate call: its result, the new fields and the frame committed, if any. */
  datatype Step = Step(running: bool, next: Animation, shown: Option<seq<SegmentCode>>)

  /**
   * One call of Animate: nothing runs; or the last frame is past and the
   * animation stops (or restarts from frame 0 at `now` when looping); or the
   * due frame is the one last drawn; or the due frame is drawn and recorded.
   */
  function Poll(a: Animation, now: nat, loop: bool, n: nat): (r: Step)
    requires WellFormed(a, n) && now < ULongRange
    ensures WellFormed(r.next, n)
    ensures r.running <==> r.next.kind != Idle
    ensures r.shown.Some? ==> |r.shown.value| == n && r.next.lastFrame != a.lastFrame
  {
    if a.kind == Idle then Step(false, a, None)
    else
      var due := FrameDue(a, now);
      if due >= a.frames && !loop then Step(false, a.(kind := Idle), None)
      else
        var b := if due >= a.frames then a.(start := now) else a;
        var f := if due >= a.frames then 0 else due;
        if f == a.lastFrame then Step(true, b, None)
        else Step(true, b.(lastFrame := f), Some(FrameCells(b, f, n)))
  }

  /** Nothing running: Animate returns false and draws nothing. */
  lemma PollIdle(a: Animation, now: nat, loop: bool, n: nat)
    requires WellFormed(a, n) && now < ULongRange
    requires a.kind == Idle
    ensures Poll(a, now, loop, n) == Step(false, a, None)
  {
  }

  /** Past the last frame without looping: the animation stops, nothing is drawn, Animate returns false. */
  lemma PollEnds(a: Animation, now: nat, n: nat)
    requires WellFormed(a, n) && now < ULongRange
    requires a.kind != Idle && FrameDue(a, now) >= a.frames
    ensures Poll(a, now, false, n) == Step(false, a.(kind := Idle), None)
  {
  }

  /** Past the last frame while looping: restart at now, drawing frame 0 unless it was the last drawn. */
  lemma PollRestarts(a: Animation, now: nat, n: nat)
    requires WellFormed(a, n) && now < ULongRange
    requires a.kind != Idle && FrameDue(a, now) >= a.frames
    ensures var r := Poll(a, now, true, n);
      r.running && r.next.start == now && r.next.lastFrame == 0 &&
      (r.shown.Some? <==> a.lastFrame != 0)
  {
  }

  /** Within the animation, the due frame is drawn unless it is the one last drawn. */
  lemma PollDraws(a: Animation, now: nat, loop: bool, n: nat)
    requires WellFormed(a, n) && now < ULongRange
    requires a.kind != Idle && FrameDue(a, now) < a.frames
    ensures var f := FrameDue(a, now);
      var r := Poll(a, now, loop, n);
      r.running &&
      (f == a.lastFrame ==> r.next == a && r.shown == None) &&
      (f != a.lastFrame ==> r.next == a.(lastFrame := f) && r.shown == Some(FrameCells(a, f, n)))
  {
  }

  /** Calling Animate twice at the same moment never draws twice. */
  lemma PollTwiceSameTime(a: Animation, now: nat, loop: bool, n: nat)
    requires WellFormed(a, n) && now < ULongRange
    ensures Poll(Poll(a, now, loop, n).next, now, loop, n).shown == None
  {
    var r := Poll(a, now, loop, n);
    if a.kind != Idle && r.next.kind != Idle {
      if FrameDue(a, now) >= a.frames {
        RestartDue(r.next, now);
      } else {
        assert r.next.start == a.start && r.next.frameMs == a.frameMs;
      }
    }
  }

  /** At the moment the clock was restarted, frame 0 is due. */
  lemma RestartDue(b: Animation, now: nat)
    requires b.frameMs > 0 && b.start == now
    ensures FrameDue(b, now) == 0
  {
  }

  lemma SmallMod(x: int)
    requires 0 <= x < UIntRange
    ensures x % UIntRange == x
  {
  }

  /**
   * Before frames times the frame time has elapsed, the frame due never goes
   * back as the clock advances, and it is always a frame of the animation.
   */
  lemma FrameDueMonotone(a: Animation, now1: nat, now2: nat, n: nat)
    requires WellFormed(a, n) && a.kind != Idle
    requires a.start <= now1 <= now2 && now2 - a.start < a.frameMs * a.frames
    ensures FrameDue(a, now2) < a.frames && FrameDue(a, now1) <= FrameDue(a, now2)
  {
    var e1, e2, ms := now1 - a.start, now2 - a.start, a.frameMs;
    SpanFits(a, n);
    DivMonotone(e1, e2, ms);
    DivBelow(e2, ms, a.frames);
    DueOfElapsed(a, now1);
    DueOfElapsed(a, now2);
  }

  /**
   * Two successive Animate calls inside the animation both keep it running,
   * and the frame recorded by the second is never before the first's.
   */
  lemma PollFramesAdvance(a: Animation, now1: nat, now2: nat, loop: bool, n: nat)
    requires WellFormed(a, n) && a.kind != Idle && now2 < ULongRange
    requires a.start <= now1 <= now2 && now2 - a.start < a.frameMs * a.frames
    ensures var r1 := Poll(a, now1, loop, n);
      var r2 := Poll(r1.next, now2, loop, n);
      r1.running && r2.running && r1.next.lastFrame == FrameDue(a, now1) &&
      r1.next.lastFrame <= r2.next.lastFrame && r2.next.lastFrame == FrameDue(a, now2)
  {
    FrameDueMonotone(a, now1, now2, n);
    FrameDueMonotone(a, now1, now1, n);
    var r1 := Poll(a, now1, loop, n);
    PollDraws(a, now1, loop, n);
    assert r1.next.start == a.start && r1.next.frameMs == a.frameMs && r1.next.frames == a.frames;
    PollDraws(r1.next, now2, loop, n);
  }

  /** Without a wrap of either counter, the frame due is the whole frame times elapsed. */
  lemma DueOfElapsed(a: Animation, now: nat)
    requires a.frameMs > 0 && a.start <= now && now - a.start < ULongRange
    requires (now - a.start) / a.frameMs < UIntRange
    ensures FrameDue(a, now) == (now - a.start) / a.frameMs
  {
  }

  /**
   * Frame f is due throughout the f-th frame time after the start, even when
   * millis() has wrapped past 2^32 in between.
   */
  lemma FrameDueAt(a: Animation, now: nat, f: nat, k: nat, n: nat)
    requires WellFormed(a, n) && a.kind != Idle
    requires f < a.frames && k < a.frameMs && now == (a.start + f * a.frameMs + k) % ULongRange
    ensures FrameDue(a, now) == f
  {
    var ms := a.frameMs;
    var e := f * ms + k;
    MulMonotone(f + 1, a.frames, ms);
    assert (f + 1) * ms == f * ms + ms;
    SpanFits(a, n);
    Elapsed(a.start, e, now);
    DivExact(e, f, k, ms);
  }

  /** e milliseconds after start, millis() minus start, modulo 2^32, is e again. */
  lemma Elapsed(start: nat, e: nat, now: nat)
    requires start < ULongRange && e < ULongRange && now == (start + e) % ULongRange
    ensures (now - start) % ULongRange == e
  {
    if start + e < ULongRange {
      assert now == start + e;
    } else {
      assert now == start + e - ULongRange;
    }
  }

  /** frames times the frame time fits in an unsigned long. */
  lemma SpanFits(a: Animation, n: nat)
    requires WellFormed(a, n)
    ensures a.frameMs * a.frames < ULongRange
  {
    MulMonotone(a.frames, UIntRange - 1, a.frameMs);
    MulMonotone(a.frameMs, UIntRange - 1, UIntRange - 1);
  }

  /** Below q whole periods of d, fewer than q periods have passed. */
  lemma DivBelow(e: nat, d: nat, q: nat)
    requires d > 0 && e < d * q
    ensures e / d < q
  {
    assert (e / d) * d <= e;
    MulStrict(e / d, q, d);
  }

  /** f periods of d and a remainder k below d make f whole periods. */
  lemma DivExact(e: nat, f: nat, k: nat, d: nat)
    requires d > 0 && k < d && e == f * d + k
    ensures e / d == f
  {
    var q := e / d;
    assert e == q * d + e % d;
    assert (q + 1) * d == q * d + d && (f + 1) * d == f * d + d;
    MulStrict(f, q + 1, d);
    MulStrict(q, f + 1, d);
  }

  /**
   * The characters a scroll can show: the signed 16-bit offset of Animate
   * never reaches a character at 32768 or beyond.
   */
  function Reachable(s: seq<Byte>): (r: seq<Byte>)
    ensures |r| <= 0x8000 && |r| <= |s| && r == s[..|r|]
    ensures |s| <= 0x8000 ==> r == s
    ensures |s| > 0x8000 ==> |r| == 0x8000
  {
    if |s| <= 0x8000 then s else s[..0x8000]
  }

  /**
   * A scroll with its full frame count shows frame f as window f of the
   * scroll over its reachable characters (all of them for a text of at most
   * 32768 characters).
   */
  lemma ScrollFrameIsWindow(a: Animation, f: nat, n: nat)
    requires WellFormed(a, n) && a.kind == TextScroll
    requires a.frames == |a.text| + 2 * n && f < a.frames
    ensures FrameCells(a, f, n) == ScrollWindow(EncodeString(Reachable(a.text)), n, f)
  {
    var g := EncodeString(Reachable(a.text));
    var cells := FrameCells(a, f, n);
    var w := ScrollWindow(g, n, f);
    forall x | 0 <= x < n
      ensures cells[x] == w[x]
    {
      ScrollCellIsGlyph(a, f, n, x);
    }
  }

  /** Digit x of scroll frame f is the glyph at f-n+x if that is a reachable character, else blank. */
  lemma ScrollCellIsGlyph(a: Animation, f: nat, n: nat, x: nat)
    requires WellFormed(a, n) && a.kind == TextScroll
    requires a.frames == |a.text| + 2 * n && f < a.frames && x < n
    ensures FrameCells(a, f, n)[x] == ScrollCell(EncodeString(Reachable(a.text)), n, f, x)
  {
    var off := f + x - n;
    var r := Reachable(a.text);
    SmallMod(a.frames - 2 * n);
    ScrollOffset(off);
    assert FrameCells(a, f, n)[x] == if 0 <= ToInt16(off) < |a.text| then EncodeASCII(a.text[ToInt16(off)]) else 0;
    if 0 <= off < |r| {
      assert EncodeString(r)[off] == EncodeASCII(a.text[off]);
    }
  }

  /** Below 32768 the 16-bit offset is the offset itself; from there to 2^16 it is negative. */
  lemma ScrollOffset(off: int)
    requires -0x8000 <= off < 0x1_0000
    ensures off < 0x8000 ==> ToInt16(off) == off
    ensures off >= 0x8000 ==> ToInt16(off) < 0
  {
    if off >= 0x8000 {
      assert ToInt16(off) == off - 0x1_0000;
    }
  }

  /** startAnimation: a table of frames from now on; the last drawn frame is kept. */
  function StartTable(a: Animation, table: seq<seq<SegmentCode>>, frames: nat, ms: nat, now: nat): (r: Animation)
  {
    Animation(FrameTable, now, frames, a.lastFrame, ms, table, [])
  }

  /**
   * startStringScroll: a string longer than the display starts a scroll of
   * |s|+2n frames; a shorter one only replaces the frame count.
   */
  function StartScroll(a: Animation, s: seq<Byte>, ms: nat, now: nat, n: nat): (r: Animation)
  {
    if |s| <= n then a.(frames := |s|)
    else Animation(TextScroll, now, |s| + 2 * n, a.lastFrame, ms, [], s)
  }

  /** stopAnimation. */
  function Stopped(a: Animation): (r: Animation)
  {
    a.(kind := Idle)
  }

  /**
   * Once started, a table animation is well formed, and because the last
   * drawn frame is not reset, an Animate call at the start time draws
   * nothing when frame 0 was the last one drawn before (as for the first
   * animation of all).
   */
  lemma StartTableFirstFrame(a: Animation, table: seq<seq<SegmentCode>>, frames: nat, ms: nat, now: nat,
                             loop: bool, n: nat)
    requires WellFormed(a, n) && now < ULongRange
    requires 0 < |table| && frames <= |table| && forall r :: 0 <= r < |table| ==> |table[r]| == n
    requires 0 < ms < UIntRange && frames < UIntRange
    ensures WellFormed(StartTable(a, table, frames, ms, now), n)
    ensures var r := Poll(StartTable(a, table, frames, ms, now), now, loop, n);
      (r.shown.Some? <==> (0 < frames || loop) && a.lastFrame != 0) &&
      (r.shown.Some? ==> r.shown.value == table[0])
  {
    var b := StartTable(a, table, frames, ms, now);
    assert FrameDue(b, now) == 0;
  }

  /**
   * A scroll started at time t0 shows, at every later call, window f of the
   * scroll over the reachable characters of s for the frame f due, unless f
   * was the last frame drawn.
   */
  lemma ScrollShowsWindows(a: Animation, s: seq<Byte>, ms: nat, t0: nat, now: nat, n: nat)
    requires WellFormed(a, n) && t0 < ULongRange && now < ULongRange
    requires n < |s| && |s| + 2 * n < UIntRange && 0 < ms < UIntRange
    ensures var b := StartScroll(a, s, ms, t0, n);
      var f := FrameDue(b, now);
      WellFormed(b, n) && b.frames == |s| + 2 * n &&
      (f < b.frames && f != a.lastFrame ==> Poll(b, now, false, n).shown == Some(ScrollWindow(EncodeString(Reachable(s)), n, f)))
  {
    var b := StartScroll(a, s, ms, t0, n);
    var f := FrameDue(b, now);
    if f < b.frames && f != a.lastFrame {
      ScrollFrameIsWindow(b, f, n);
    }
  }

  /** After stopAnimation, Animate returns false and draws nothing. */
  lemma StopThenPoll(a: Animation, now: nat, loop: bool, n: nat)
    requires WellFormed(a, n) && now < ULongRange
    ensures WellFormed(Stopped(a), n)
    ensures Poll(Stopped(a), now, loop, n) == Step(false, Stopped(a), None)
  {
  }
}
