# TM1637TinyDisplay in Dafny

This project models the 4-digit TM1637TinyDisplay Arduino driver for seven-segment LED displays built on the TM1637 controller, and proves properties of the model.

The driver is one object. It holds:
- the pin numbers and delays;
- a brightness setting and an orientation flag;
- a scratch array `digits`, which the formatters render into;
- the buffer `digitsbuf`, the driver's copy of what the display shows;
- the fields of a non-blocking animation.

Each call that changes the display:
1. writes the buffer;
2. sends the data command as one bus transaction;
3. sends the grid-1 address followed by one byte per digit as a second transaction.

When the display is flipped, each digit goes out upside down, in reverse order, carrying the dot of its left neighbour.

Only `setBrightness` sends the display command. It carries the brightness and on/off bit.

The model has five modules:

- **`Segments`** (`segments.dfy`) covers:
  - the segment bits and the two encoding tables;
  - `encodeDigit` and `encodeASCII`;
  - the upside-down segment map;
  - the `showDots` mask.
- **`Transport`** (`transport.dfy`) describes the bus as values:
  - writeByte's least-significant-first bit order and the receiver's reassembly;
  - the two transactions of writeBuffer;
  - the flip transform and the overlay `setSegments` makes;
  - the transaction trace of a run of committed frames.
- **`Formatting`** (`formatting.dfy`) gives, as functions, the cells each formatter renders:
  - showNumberBaseEx;
  - showNumber for a double, with exact reals in place of doubles;
  - showString, both at once and scrolled;
  - showLevel.

  It also gives a read-back function. The function reads digit glyphs as a number again. Lemmas prove that what is rendered reads back as the number whenever it fits.
- **`Scheduler`** (`scheduler.dfy`) models the animation state machine:
  - `Poll` is one call of `Animate` at time `now`;
  - `StartTable`, `StartScroll` and `Stopped` are the start and stop functions.
- **`Driver`** (`display.dfy`) holds the class `TM1637TinyDisplay` with the driver's fields. Its methods:
  - fill the arrays in loops like the ones in the source;
  - keep a ghost trace of completed transactions, the pending bytes and every bit clocked onto the data line;
  - are proved against the functions above.

  Each display method states:
  - the frames it committed, through `ShowedFrames`;
  - the buffer it leaves;
  - the exact transactions it appended.

Timekeeping (`millis()`) is the parameter `now` of `Animate` and of the start functions. Widths follow the AVR build:
- `int` and `unsigned int` are 16 bits;
- `long` and `unsigned long` are 32 bits.

The digit count `MAXDIGITS` is the constant `Driver.MaxDigits` (4). The value functions take the digit count as a parameter `n`.

Some behaviour is modelled as written:
- The dot is lit at the decimal position even when no decimals fit.
- The overflow dashes respect `length`.
- A short string given to `startStringScroll` changes only the frame count.
- The start functions leave the last drawn frame alone.
- Rounding in showNumber can carry into a digit the field has no room for. `Formatting.NumberExampleCarry` shows that 999.99 with one decimal shows `000.0`. `Formatting.NumberReadBack` states its read-back only when there is no such carry.

## Model

| member | source | states |
|---|---|---|
| Segments.EncodeDigit | TM1637TinyDisplay.cpp:797-801 | the glyph of the low four bits of the value; never blank and never the minus sign; the dot bit is clear (type Glyph) |
| Segments.EncodeASCII | TM1637TinyDisplay.cpp:803-809 | 176 gives the degree mark 0x63; codes below 32 and above 127 (other than 176) are blank; the dot bit is always clear |
| Segments.DecimalCharactersMatchDigits | TM1637TinyDisplay.cpp:42-160 | the characters '0'-'9' of the ASCII table render exactly as the digit values 0-9 |
| Segments.HexLettersMatchDigits | TM1637TinyDisplay.cpp:42-160 | the characters 'A'-'F' render exactly as the digit values 10-15 |
| Segments.MirrorLayout | TM1637TinyDisplay.cpp:233-244 | segment j of the upside-down digit is lit iff the opposite segment (A-D, B-E, C-F, G-G) of the digit is |
| Segments.MirrorTwice | TM1637TinyDisplay.cpp:240-241 | turning a digit upside down twice restores segments A-G |
| Segments.WithDotsLayout | TM1637TinyDisplay.cpp:788-795 | adding dots keeps segments A-G of every cell and lights the dot of cell i iff it was lit or bit 7-i of the mask is set |
| Segments.WithDotsIdempotent | TM1637TinyDisplay.cpp:788-795 | adding the same dots twice equals adding them once |
| Segments.NoDots | TM1637TinyDisplay.cpp:422-424 | a zero mask changes nothing, so skipping showDots for dots == 0 is the same as calling it |
| Segments.GlyphPlusDot | TM1637TinyDisplay.cpp:367-369 | adding 0x80 to a glyph is the same as OR-ing the dot on |
| Transport.SerialRoundTrip | TM1637TinyDisplay.cpp:744-766 | the eight bits writeByte clocks out, least significant first, reassemble into the byte |
| Transport.ReassembleShiftOut | TM1637TinyDisplay.cpp:749-766 | the first k bits shifted out reassemble into the low k bits of the byte |
| Transport.OutputBytes | TM1637TinyDisplay.cpp:219-252 | writeBuffer's data bytes have one byte per digit, and unflipped they are the buffer itself |
| Transport.FlipLayout | TM1637TinyDisplay.cpp:233-244 | flipped output k shows the opposite segments of digit N-1-k and the dot of digit N-k-2, with no dot for the last position |
| Transport.MirrorBack | TM1637TinyDisplay.cpp:233-244 | the flipped byte of digit k, turned upside down again, gives back digit k's segments |
| Transport.DotBack | TM1637TinyDisplay.cpp:233-244 | digit k's dot travels in flipped output N-k-2 |
| Transport.FlipTwice | TM1637TinyDisplay.cpp:233-244 | flipping twice restores every digit except the dot of the last one, which the flip never sends |
| Transport.FlipStep | TM1637TinyDisplay.cpp:236-241 | the byte the flip loop computes by adding the moved groups and the dot is output k of the flip |
| Transport.TransmitShape | TM1637TinyDisplay.cpp:219-252 | each committed buffer costs exactly two transactions: [0x40], then 0xC0 and all N digit bytes; the display command never appears |
| Transport.OverlayTwice | TM1637TinyDisplay.cpp:261-272 | writing the same span twice leaves only the second write |
| Transport.Overlay | TM1637TinyDisplay.cpp:261-272 | setSegments changes digits pos..pos+length-1 to the segments given, and no other digit |
| Transport.DisplayCommandByte | TM1637TinyDisplay.cpp:209-211 | a setting of at most four bits rides in the low nibble of the display command |
| Transport.CommitStep | TM1637TinyDisplay.cpp:261-272 | committing one more frame appends exactly that frame's two transactions |
| Formatting.ShiftedZeroIff | TM1637TinyDisplay.cpp:405-420 | the digit loop's remaining value is zero exactly after as many divisions as the number has digits |
| Formatting.HornerDigits | TM1637TinyDisplay.cpp:405-420 | the low k digits of n, read back most significant first, give n less what is left above them |
| Formatting.DigitOfEncodeDigit | TM1637TinyDisplay.cpp:797-801 | reading a digit's glyph gives the digit back, for all 16 digit values |
| Formatting.DotsKeepReading | TM1637TinyDisplay.cpp:788-795 | dots change neither the digits the cells read as nor whether a minus sign shows |
| Formatting.BaseCellsLayout | TM1637TinyDisplay.cpp:404-420 | the number's digits fill the right of the field; the minus sign is just left of them when negative; other positions are blank, or 0 with leading zeros |
| Formatting.BaseCellStep | TM1637TinyDisplay.cpp:405-419 | one pass of the digit loop writes BaseCell at position i and computes the next value and pending sign |
| Formatting.BaseCellDigits | TM1637TinyDisplay.cpp:397-420 | every cell of the field reads as the digit of num of its weight |
| Formatting.BaseCellsSign | TM1637TinyDisplay.cpp:414-417 | the minus sign shows iff the number is negative and leaves a position free; it shows at most once |
| Formatting.BaseCellsReadBack | TM1637TinyDisplay.cpp:388-426 | whenever num fits, the cells read back as num in its base (2-16), for either sign and either leading-zero choice |
| Formatting.ToInt16 | TM1637TinyDisplay.cpp:295 | the conversion of a long to a 16-bit int gives a value in -32768..32767 that equals x modulo 2^16 |
| Formatting.ToInt16Keeps | TM1637TinyDisplay.cpp:295 | a value within 16 bits passes through unchanged |
| Formatting.DecimalReadsBack | TM1637TinyDisplay.cpp:376-380 | showNumberDec's cells, with or without dots, read back as num whenever its digits and sign fit |
| Formatting.HexReadsBack | TM1637TinyDisplay.cpp:382-386 | showNumberHex's cells read back as num in base 16 whenever its digits fit; no minus sign shows |
| Formatting.Magnitude | TM1637TinyDisplay.cpp:305 | labs((long)x) is the whole part of the magnitude: m <= abs(x) < m+1 |
| Formatting.Places | TM1637TinyDisplay.cpp:332-335 | the decimals shown are at most those asked for, fit in the room left, and are all the room left when fewer than asked |
| Formatting.NumberRendering | TM1637TinyDisplay.cpp:314-330 | showNumber overflows exactly when the whole-part digits, the sign and the 0 of a value below one do not fit in length |
| Formatting.RoundingAccuracy | TM1637TinyDisplay.cpp:337-343 | the scaled and rounded integer is within half a unit of abs(num)*10^places (half away from zero) |
| Formatting.RoundedNonZero | TM1637TinyDisplay.cpp:337-346 | a number of magnitude one or more never rounds to zero, so the lone-zero branch serves only values below one |
| Formatting.DecimalCellsLayout | TM1637TinyDisplay.cpp:346-371 | the fixed-point field is leading blanks, the minus sign in the last of them, then the digits; the dot is lit only at the point, and there whenever decimals were asked for |
| Formatting.DecimalCellStep | TM1637TinyDisplay.cpp:351-370 | one pass of the digit loop: its blank test, its glyph and the next value and pending sign match the field |
| Formatting.DecimalCellDigits | TM1637TinyDisplay.cpp:346-371 | every cell of the fixed-point field reads as the digit of inum of its weight |
| Formatting.DecimalCellsSign | TM1637TinyDisplay.cpp:354-363 | the minus sign shows iff the number is negative and a leading blank leaves room for it |
| Formatting.NumberReadBack | TM1637TinyDisplay.cpp:302-374 | without a rounding carry, showNumber's field reads back as abs(num)*10^places rounded, with the minus sign exactly when num < 0 |
| Formatting.NumberDecimalPoint | TM1637TinyDisplay.cpp:367-369 | the dot is lit at length-1-places, and only there, whenever decimal_length > 0, even when no decimals fit |
| Formatting.NumberExampleForcedPoint | TM1637TinyDisplay.cpp:332-369 | 1234.5 with one decimal on four digits shows 1235 with the dot after the last digit |
| Formatting.NumberExampleOverflow | TM1637TinyDisplay.cpp:327-330 | 12345.0 on four digits is the overflow case |
| Formatting.NumberExampleBelowOne | TM1637TinyDisplay.cpp:318-369 | -0.5 with three decimals on four digits shows -0.50 |
| Formatting.NumberExampleCarry | TM1637TinyDisplay.cpp:337-371 | 999.99 with one decimal on four digits rounds to 10000 and shows 000.0 |
| Formatting.IntegerPathsAgree | TM1637TinyDisplay.cpp:292-300 | for a whole number that fits, showNumber as a double with no decimals renders the same cells as showNumberDec without leading zeros |
| Formatting.EncodeString | TM1637TinyDisplay.cpp:434-436 | one glyph per character, in order, each that character's encodeASCII |
| Formatting.ShortString | TM1637TinyDisplay.cpp:433-441 | a string that fits shows character x on digit x, blanks after it, and the mask's dots on top |
| Formatting.ScrollSequence | TM1637TinyDisplay.cpp:443-475 | the scroll has strlen+N frames, frame t being window t+1 of the string entering from the right |
| Formatting.ScrollShift | TM1637TinyDisplay.cpp:446-475 | each scroll frame is the previous one shifted left, with the next glyph (or a blank once the string is through) on the right |
| Formatting.ScrollFrames | TM1637TinyDisplay.cpp:443-475 | a long string commits strlen+N frames, starts from blank, brings character x in on the right in frame x+1, and ends blank |
| Formatting.BarsRange | TM1637TinyDisplay.cpp:538-564 | never more bars than the scale, and none exactly for level 0 |
| Formatting.BarsMonotone | TM1637TinyDisplay.cpp:538-564 | a higher level never shows fewer bars |
| Formatting.VerticalShowsBars | TM1637TinyDisplay.cpp:561-569 | a vertical level shows exactly its number of bars across the digits, filling from the left |
| Formatting.HorizontalShowsBars | TM1637TinyDisplay.cpp:540-559 | every digit of a horizontal level lights as many segments as there are bars |
| Scheduler.FrameDue | TM1637TinyDisplay.cpp:579 | the frame due is the 32-bit elapsed time divided by the frame time, kept to 16 bits |
| Scheduler.FrameCells | TM1637TinyDisplay.cpp:600-634 | a drawn frame has a cell for every digit; a scroll offset is read as a signed 16-bit int, so one of 32768 or more blanks its digit |
| Scheduler.Poll | TM1637TinyDisplay.cpp:574-638 | one Animate call keeps the fields well formed, returns true iff an animation is still running, and draws only a frame other than the last drawn |
| Scheduler.PollIdle | TM1637TinyDisplay.cpp:577 | with nothing running, Animate returns false and changes nothing |
| Scheduler.PollEnds | TM1637TinyDisplay.cpp:582-590 | past the last frame without looping, the animation stops, nothing is drawn and Animate returns false |
| Scheduler.PollRestarts | TM1637TinyDisplay.cpp:582-587 | past the last frame while looping, the clock restarts at now and frame 0 is drawn unless it was the last drawn |
| Scheduler.PollDraws | TM1637TinyDisplay.cpp:592-634 | within the animation, the due frame is drawn and recorded unless it was the last drawn, in which case nothing changes |
| Scheduler.PollTwiceSameTime | TM1637TinyDisplay.cpp:574-598 | a second Animate call at the same moment never draws |
| Scheduler.ScrollFrameIsWindow | TM1637TinyDisplay.cpp:614-633 | a scroll animation's frame f is window f of the scroll over its reachable text: all of it up to 32768 characters, its first 32768 beyond |
| Scheduler.ScrollCellIsGlyph | TM1637TinyDisplay.cpp:626-632 | digit x of scroll frame f shows the character at f-N+x when that offset is a reachable character, and a blank otherwise |
| Scheduler.ScrollOffset | TM1637TinyDisplay.cpp:627 | the 16-bit int offset equals f-N+x below 32768 and is negative from 32768 to 65535 |
| Scheduler.Reachable | TM1637TinyDisplay.cpp:627-629 | the characters the signed offset can index: a prefix of the text of at most 32768 characters, the whole text when it is no longer |
| Scheduler.FrameDueMonotone | TM1637TinyDisplay.cpp:579-598 | before frames times the frame time has elapsed, the due frame is a frame of the animation and never decreases as the clock advances |
| Scheduler.FrameDueAt | TM1637TinyDisplay.cpp:579 | frame f is due throughout the f-th frame time after the start, also across a wrap of millis() |
| Scheduler.PollFramesAdvance | TM1637TinyDisplay.cpp:574-637 | two successive Animate calls within the animation both keep it running and record the due frames, the second never before the first |
| Scheduler.StartTableFirstFrame | TM1637TinyDisplay.cpp:645-657 | a started table is well formed, and because the last drawn frame is kept, Animate at the start time draws row 0 only if the last drawn frame was not 0 |
| Scheduler.ScrollShowsWindows | TM1637TinyDisplay.cpp:669-696 | a started scroll has strlen+2N frames and Animate draws window f of the reachable text for each new due frame f |
| Scheduler.StopThenPoll | TM1637TinyDisplay.cpp:659-662 | after stopAnimation, Animate returns false and draws nothing |
| Driver.DashesFrame | TM1637TinyDisplay.cpp:328 | the overflow string "----" is one frame with a minus sign on every digit |
| Driver.BrightnessSetting | TM1637TinyDisplay.cpp:206 | the stored brightness is at most 0x0f, keeps bits 0-2 of the level, and has bit 3 set iff on |
| Driver.ScrollTraceAgrees | TM1637TinyDisplay.cpp:443-475 | frame by frame, the scroll's transactions are those of committing the scroll frames in turn |
| Driver.ScrollComplete | TM1637TinyDisplay.cpp:443-475 | the whole scroll sends the transactions of every one of its frames |
| Driver.TM1637TinyDisplay.constructor | TM1637TinyDisplay.cpp:165-176 | stores pins, delays and orientation; everything else starts at zero and nothing runs |
| Driver.TM1637TinyDisplay.Start | TM1637TinyDisplay.cpp:728-732 | the start condition opens a transaction with no bytes |
| Driver.TM1637TinyDisplay.Stop | TM1637TinyDisplay.cpp:734-742 | the stop condition appends the open transaction's bytes to the trace |
| Driver.TM1637TinyDisplay.WriteByte | TM1637TinyDisplay.cpp:744-786 | the byte joins the open transaction and its eight bits go onto the wire least significant first |
| Driver.TM1637TinyDisplay.WriteBuffer | TM1637TinyDisplay.cpp:219-252 | appends exactly the data command and the address-plus-digits transaction of the current buffer, flipped or not |
| Driver.TM1637TinyDisplay.WriteFlippedBytes | TM1637TinyDisplay.cpp:233-244 | the flip loop sends exactly the flipped bytes of the buffer, without changing the buffer |
| Driver.TM1637TinyDisplay.WritePlainBytes | TM1637TinyDisplay.cpp:246-248 | the plain loop sends the buffer's digits left to right |
| Driver.TM1637TinyDisplay.SetSegments | TM1637TinyDisplay.cpp:261-272 | the buffer gets segments[0..length-1] at pos.. and nothing else changes; then exactly one writeBuffer of the new buffer |
| Driver.TM1637TinyDisplay.SetSegment | TM1637TinyDisplay.cpp:274-278 | only digit pos of the buffer changes, then one writeBuffer |
| Driver.TM1637TinyDisplay.ReadBuffer | TM1637TinyDisplay.cpp:254-259 | the first MAXDIGITS cells of the copy are the buffer; the rest of the copy and the buffer are unchanged |
| Driver.TM1637TinyDisplay.Clear | TM1637TinyDisplay.cpp:280-285 | scratch and buffer become blank and exactly one writeBuffer of the blank buffer is sent |
| Driver.TM1637TinyDisplay.FlipDisplay | TM1637TinyDisplay.cpp:193-197 | the orientation is recorded and the unchanged buffer is resent in it |
| Driver.TM1637TinyDisplay.IsFlipDisplay | TM1637TinyDisplay.cpp:199-202 | returns the orientation |
| Driver.TM1637TinyDisplay.SetBrightness | TM1637TinyDisplay.cpp:204-212 | the setting is stored and sent as the display command, and the buffer is not resent |
| Driver.TM1637TinyDisplay.SetScrollDelay | TM1637TinyDisplay.cpp:214-217 | the scroll delay is stored |
| Driver.TM1637TinyDisplay.Begin | TM1637TinyDisplay.cpp:178-191 | when asked, clears the display and switches it on at full brightness; otherwise nothing changes |
| Driver.TM1637TinyDisplay.ShowDots | TM1637TinyDisplay.cpp:788-795 | the cells become WithDots of the old cells: dots are added by the mask, never cleared |
| Driver.TM1637TinyDisplay.ShowNumberBaseEx | TM1637TinyDisplay.cpp:388-426 | the field of num in base abs(base), with a minus sign for a negative base and the dots on top, is committed to pos..pos+length-1 |
| Driver.TM1637TinyDisplay.RenderDigits | TM1637TinyDisplay.cpp:404-420 | the right-to-left digit loop leaves exactly the cells BaseCells gives, and the rest of the scratch array unchanged |
| Driver.TM1637TinyDisplay.RenderZero | TM1637TinyDisplay.cpp:397-402 | zero without leading zeros gives length-1 blanks and a 0 |
| Driver.TM1637TinyDisplay.ShowNumberDec | TM1637TinyDisplay.cpp:376-380 | showNumberBaseEx with base -10 for a negative num; when it fits, the committed digits read back as num |
| Driver.TM1637TinyDisplay.ShowNumberHex | TM1637TinyDisplay.cpp:382-386 | showNumberBaseEx in base 16; when it fits, the committed digits read back as num |
| Driver.TM1637TinyDisplay.ShowNumberReal | TM1637TinyDisplay.cpp:302-374 | the dashes via showString when the number does not fit, leaving a minus sign on every digit and on pos..pos+length-1 of the buffer; otherwise the rendered field committed to pos..pos+length-1 |
| Driver.TM1637TinyDisplay.NumberLength | TM1637TinyDisplay.cpp:304-325 | the counting loop and the two flags compute num_len, the sign and the below-one flag |
| Driver.TM1637TinyDisplay.CountDigits | TM1637TinyDisplay.cpp:314-317 | the counting loop returns the number of decimal digits of the magnitude |
| Driver.TM1637TinyDisplay.ScaleUp | TM1637TinyDisplay.cpp:338-340 | the scaling loop computes num times 10^places |
| Driver.TM1637TinyDisplay.RoundScaled | TM1637TinyDisplay.cpp:337-343 | the scaled value moved half a unit away from zero and truncated is Rounded(num, places) |
| Driver.TM1637TinyDisplay.RenderDecimal | TM1637TinyDisplay.cpp:349-371 | the right-to-left loop of showNumber leaves exactly the cells DecimalCells gives |
| Driver.TM1637TinyDisplay.RenderNumber | TM1637TinyDisplay.cpp:332-371 | the scratch array holds the field NumberRendering gives, followed by blanks |
| Driver.TM1637TinyDisplay.ShowNumberLong | TM1637TinyDisplay.cpp:292-300 | with leading zeros, showNumberDec of the value cut to 16 bits; otherwise showNumber of the value as a double with no decimals |
| Driver.TM1637TinyDisplay.ShowNumberInt | TM1637TinyDisplay.cpp:287-290 | showNumber for the same value as a long; with leading zeros, showNumberDec of the value itself, which fits in 16 bits |
| Driver.TM1637TinyDisplay.ShiftIn | TM1637TinyDisplay.cpp:447-452 | every digit takes its right neighbour's code and the last digit gets the new code |
| Driver.TM1637TinyDisplay.ShowString | TM1637TinyDisplay.cpp:428-477 | commits exactly StringFrames: one frame for a short string, otherwise the strlen+N scroll frames in turn |
| Driver.TM1637TinyDisplay.RenderShortString | TM1637TinyDisplay.cpp:432-440 | the scratch array holds the characters' glyphs, then blanks, with the dots on top |
| Driver.TM1637TinyDisplay.ScrollString | TM1637TinyDisplay.cpp:443-475 | the three scroll loops commit the scroll frames in turn, each with its own writeBuffer |
| Driver.TM1637TinyDisplay.ScrollFrame | TM1637TinyDisplay.cpp:447-453 | one scroll step advances the display and the trace by exactly one frame |
| Driver.TM1637TinyDisplay.ShowLevel | TM1637TinyDisplay.cpp:531-572 | the level, clamped to 100, is committed to the whole display as LevelCells, horizontal or vertical |
| Driver.TM1637TinyDisplay.HorizontalLevel | TM1637TinyDisplay.cpp:540-559 | every digit gets the pattern of the bar count (0, 0x08, 0x48, 0x49) |
| Driver.TM1637TinyDisplay.VerticalLevel | TM1637TinyDisplay.cpp:561-569 | digit x is 0x36, 0x30 or blank as the bars left at x are two or more, one or none |
| Driver.TM1637TinyDisplay.Animate | TM1637TinyDisplay.cpp:574-638 | the fields and the result follow Poll; the frame Poll draws is committed to the whole display, and otherwise nothing is sent |
| Driver.TM1637TinyDisplay.NextFrame | TM1637TinyDisplay.cpp:577-598 | the bookkeeping of Animate follows Poll: due frame, restart or stop, and whether the frame is new |
| Driver.TM1637TinyDisplay.ScrollCells | TM1637TinyDisplay.cpp:614-633 | the scroll loop of Animate renders FrameCells of the due frame |
| Driver.TM1637TinyDisplay.CopyFrame | TM1637TinyDisplay.cpp:602-613 | the copy loop renders row f of the table |
| Driver.TM1637TinyDisplay.StartAnimation | TM1637TinyDisplay.cpp:640-657 | the fields become StartTable: a table from now on, with the last drawn frame kept |
| Driver.TM1637TinyDisplay.StopAnimation | TM1637TinyDisplay.cpp:659-662 | only the animation type changes, to idle |
| Driver.TM1637TinyDisplay.StartStringScroll | TM1637TinyDisplay.cpp:664-696 | a short string is shown at once on its own length and only the frame count changes; a long one starts a scroll of strlen+2N frames without touching the display |

## Left out

- Pins, `pinMode`/`digitalWrite`/`digitalRead`, `bitDelay` and `delay` are foreign Arduino calls; the bus is a ghost trace of transactions and wire bits instead, and no pin level or timing is modelled.
- WriteByte: the acknowledge bit writeByte reads back is not modelled and nothing is returned, because every caller ignores it.
- `millis()` is the parameter `now` of Animate and the start functions.
- The PROGMEM variants (`showString_P`, `startAnimation_P`, `startStringScroll_P`, animation types 2 and 4) are collapsed into their RAM twins: program memory is a storage detail with the same semantics. This includes the call to `showString_P` on a RAM string in startStringScroll.
- Doubles are exact reals in showNumber; IEEE rounding of the scaling loop is not modelled.
- ShowNumberReal: requires -2^31 < num < 2^31, because the `(long)` conversion is undefined outside the range of long, and labs of the smallest long is undefined.
- ShowNumberLong: requires -2^31 < num < 2^31 for the same reason; with leading zeros the value is cut to 16 bits (ToInt16), as the call into showNumberDec does on AVR.
- ShowNumberBaseEx: requires a base other than 0 and -128, because base 0 divides by zero and negating -128 overflows an int8_t; num is required to fit in 16 bits.
- StartAnimation: requires a table with at least one row and frames <= rows, and ms > 0, because Animate divides by the frame time and reads row f.
- StartStringScroll: requires ms > 0 and strlen + 2N < 2^16 for a scroll, because Animate divides by the frame time and the 16-bit frame count strlen+2N would otherwise wrap; for a short string while a table runs, it requires the string to be no longer than the table, because the source would then index the table past its end on the next Animate.
- The animation table and string are held as values rather than pointers, so later changes to the caller's memory are not modelled.
- The constructor assumes static allocation (fields start at zero) for the fields it does not set, animation type included.
- C strings are sequences of the bytes before the terminating NUL.
- ScrollOff: the third scroll loop counts its steps from strlen instead of from 0; the frames committed are the same.
- Several loop bodies are split into helper methods (RenderCell, RenderDecimalCell, DecimalCellGlyph, AddDot, ScrollFrame, NextFrame, DrawFrame, BeginScroll) so each proof stays small; each keeps the source's statements and order.
- `showAnimation` and `showAnimation_P` are left out: they are blocking loops of setSegments and delay, adding nothing beyond SetSegments.
- TM1637TinyDisplay6.h is not part of this model: it holds declarations only, and the digit count stays a parameter of the value functions.
- The wire bits are tied to the trace only through WriteByte's contract on each byte; no class invariant relates the whole wire to the whole trace.
