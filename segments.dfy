/**
 * Segment codes and the two encoding tables of the TM1637 driver.
 *
 *        A
 *       ---
 *    F |   | B
 *       -G-
 *    E |   | C
 *       ---
 *        D
 *
 * A segment code is one byte: bit 0 is segment A, ..., bit 6 is segment G and
 * bit 7 is the decimal point (or colon) after the digit.
 */
module Segments {

  /** A raw segment code as sent to one digit. */
  type SegmentCode = bv8

  /** A segment code whose dot bit is clear: what the encoding tables hold. */
  type Glyph = g: bv8 | g & 0x80 == 0

  /** An unsigned 8-bit value used as a number: a digit value or a character code. */
  type Byte = x: int | 0 <= x < 256

  const SegA: bv8 := 0x01
  const SegB: bv8 := 0x02
  const SegC: bv8 := 0x04
  const SegD: bv8 := 0x08
  const SegE: bv8 := 0x10
  const SegF: bv8 := 0x20
  const SegG: bv8 := 0x40
  const SegDP: bv8 := 0x80

  const MinusSegments: Glyph := 0x40
  const DegreeSegments: Glyph := 0x63

  /** Glyphs of the digit values 0-9 and the hexadecimal digits A, b, C, d, E, F. */
  const DigitToSegment: seq<Glyph> := [
    0x3F, 0x06, 0x5B, 0x4F, 0x66, 0x6D, 0x7D, 0x07,
    0x7F, 0x6F, 0x77, 0x7C, 0x39, 0x5E, 0x79, 0x71
  ]

  /** Glyphs of the printable ASCII characters 32 (space) to 127, indexed from 32. */
  const AsciiToSegment: seq<Glyph> :=
    [0x00, 0x06, 0x22, 0x41, 0x6D, 0x52, 0x7C, 0x02] +  //   ! " # $ % & '
    [0x39, 0x0F, 0x21, 0x70, 0x08, 0x40, 0x08, 0x52] +  // ( ) * + , - . /
    [0x3F, 0x06, 0x5B, 0x4F, 0x66, 0x6D, 0x7D, 0x07] +  // 0 1 2 3 4 5 6 7
    [0x7F, 0x6F, 0x48, 0x48, 0x61, 0x48, 0x43, 0x53] +  // 8 9 : ; < = > ?
    [0x7B, 0x77, 0x7C, 0x39, 0x5E, 0x79, 0x71, 0x3D] +  // @ A B C D E F G
    [0x76, 0x06, 0x1E, 0x72, 0x38, 0x33, 0x37, 0x3F] +  // H I J K L M N O
    [0x73, 0x67, 0x31, 0x6D, 0x78, 0x3E, 0x3E, 0x3C] +  // P Q R S T U V W
    [0x76, 0x6E, 0x5B, 0x39, 0x64, 0x0F, 0x23, 0x08] +  // X Y Z [ \ ] ^ _
    [0x20, 0x5F, 0x7C, 0x58, 0x5E, 0x7B, 0x71, 0x6F] +  // ` a b c d e f g
    [0x74, 0x04, 0x0E, 0x70, 0x18, 0x27, 0x54, 0x5C] +  // h i j k l m n o
    [0x73, 0x67, 0x50, 0x6D, 0x78, 0x1C, 0x1C, 0x1E] +  // p q r s t u v w
    [0x76, 0x6E, 0x5B, 0x46, 0x30, 0x70, 0x40, 0x00]    // x y z { | } ~ DEL

  /** Every frame in the list has a code for each of n digits. */
  predicate Rows(frames: seq<seq<SegmentCode>>, n: nat)
  {
    forall t :: 0 <= t < |frames| ==> |frames[t]| == n
  }

  /** Segment j (0 = A, ..., 6 = G, 7 = dot) is lit in the code. */
  predicate Lit(code: SegmentCode, j: nat)
    requires j < 8
  {
    code & Bit(j) != 0
  }

  /** The bit of segment j: 1 << j. */
  function Bit(j: nat): bv8
    requires j < 8
  {
    if j == 0 then SegA else if j == 1 then SegB else if j == 2 then SegC else if j == 3 then SegD
    else if j == 4 then SegE else if j == 5 then SegF else if j == 6 then SegG else SegDP
  }

  /**
   * The glyph of a digit value; only the low four bits of the value are used,
   * so every byte has a glyph, and no glyph is blank or the minus sign.
   */
  function EncodeDigit(digit: Byte): (r: Glyph)
    ensures r != 0 && r != MinusSegments
  {
    DigitToSegment[digit % 16]
  }

  /**
   * The glyph of a character code: the degree mark for 176, blank for the
   * control codes and every other code above 127, the ASCII table otherwise.
   */
  function EncodeASCII(chr: Byte): (r: Glyph)
    ensures chr == 176 ==> r == DegreeSegments
    ensures (chr < 32 || chr > 127) && chr != 176 ==> r == 0
  {
    if chr == 176 then DegreeSegments
    else if chr > 127 || chr < 32 then 0
    else AsciiToSegment[chr - 32]
  }

  /** Entries 16-25 of the ASCII table ('0'-'9') repeat the digit table. */
  lemma DecimalRowAgrees(d: int)
    requires 0 <= d < 10
    ensures AsciiToSegment[16 + d] == DigitToSegment[d]
  {
    assert AsciiToSegment[16..26] == DigitToSegment[..10];
  }

  /** Entries 33-38 of the ASCII table ('A'-'F') repeat the digit table. */
  lemma HexRowAgrees(d: int)
    requires 10 <= d < 16
    ensures AsciiToSegment[23 + d] == DigitToSegment[d]
  {
    assert AsciiToSegment[33..39] == DigitToSegment[10..];
  }

  /** The characters '0'-'9' render exactly as the digit values 0-9. */
  lemma DecimalCharactersMatchDigits(d: Byte)
    requires d < 10
    ensures EncodeASCII(48 + d) == EncodeDigit(d)
  {
    assert d % 16 == d && EncodeASCII(48 + d) == AsciiToSegment[16 + d];
    DecimalRowAgrees(d);
  }

  /** The characters 'A'-'F' render exactly as the digit values 10-15. */
  lemma HexLettersMatchDigits(d: Byte)
    requires 10 <= d < 16
    ensures EncodeASCII(55 + d) == EncodeDigit(d)
  {
    assert d % 16 == d && EncodeASCII(55 + d) == AsciiToSegment[23 + d];
    HexRowAgrees(d);
  }

  /** The segment that lands on segment j when a digit is turned upside down. */
  function Opposite(j: nat): (k: nat)
    requires j < 7
    ensures k < 7
  {
    if j < 3 then j + 3 else if j < 6 then j - 3 else 6
  }

  /**
   * The segments of a digit turned upside down: A, B, C trade places with
   * D, E, F, G stays, and the dot is dropped.
   */
  function MirrorSegments(code: SegmentCode): (r: Glyph)
  {
    ((code >> 3) & 0x07) | ((code << 3) & 0x38) | (code & 0x40)
  }

  /** Segment j of the upside-down digit is lit exactly when the opposite segment of the digit is. */
  lemma MirrorLayout(code: SegmentCode)
    ensures forall j :: 0 <= j < 7 ==> (Lit(MirrorSegments(code), j) <==> Lit(code, Opposite(j)))
  {
  }

  /** Turning a digit upside down twice gives back its segments A-G. */
  lemma MirrorTwice(code: SegmentCode)
    ensures MirrorSegments(MirrorSegments(code)) == code & 0x7F
  {
  }

  /** Bit (7 - i) of a dots mask controls the dot of digit i: the mask's MSB is the leftmost digit. */
  predicate DotOn(dots: bv8, i: nat)
  {
    i < 8 && Lit(dots, 7 - i)
  }

  /** The dot bit a mask adds to digit i. */
  function DotMask(dots: bv8, i: nat): bv8
  {
    if DotOn(dots, i) then SegDP else 0
  }

  /** Cell i with the dot of the mask OR'd on. */
  function Dotted(c: SegmentCode, dots: bv8, i: nat): SegmentCode
  {
    c | DotMask(dots, i)
  }

  /** Cells with the dots of a mask OR'd on: dots are only ever added, never cleared. */
  function WithDots(cells: seq<SegmentCode>, dots: bv8): (r: seq<SegmentCode>)
    ensures |r| == |cells|
  {
    seq(|cells|, i requires 0 <= i < |cells| => Dotted(cells[i], dots, i))
  }

  /** Adding dots keeps segments A-G of every cell and lights the dot of the cells the mask names. */
  lemma WithDotsLayout(cells: seq<SegmentCode>, dots: bv8)
    ensures forall i :: 0 <= i < |cells| ==>
      WithDots(cells, dots)[i] & 0x7F == cells[i] & 0x7F &&
      (Lit(WithDots(cells, dots)[i], 7) <==> Lit(cells[i], 7) || DotOn(dots, i))
  {
  }

  /** A mask of zero leaves the cells as they are. */
  lemma NoDots(cells: seq<SegmentCode>)
    ensures WithDots(cells, 0) == cells
  {
  }

  /** Adding the same dots twice is the same as adding them once. */
  lemma WithDotsIdempotent(cells: seq<SegmentCode>, dots: bv8)
    ensures WithDots(WithDots(cells, dots), dots) == WithDots(cells, dots)
  {
  }

  /** The dot of the next digit is added on its own. */
  lemma WithDotsStep(a: seq<SegmentCode>, c: SegmentCode, dots: bv8)
    ensures WithDots(a + [c], dots) == WithDots(a, dots) + [Dotted(c, dots, |a|)]
  {
    WithDotsPrefix(a, [c], dots);
  }

  /** Adding the dot of digit i to cells whose first i dots are already on. */
  lemma WithDotsNext(plain: seq<SegmentCode>, i: nat, dots: bv8, before: seq<SegmentCode>, after: seq<SegmentCode>)
    requires i < |plain|
    requires before == WithDots(plain[..i], dots) + plain[i..]
    requires after == before[i := Dotted(before[i], dots, i)]
    ensures after == WithDots(plain[..i + 1], dots) + plain[i + 1..]
  {
    assert before[i] == plain[i];
    assert after == WithDots(plain[..i], dots) + [Dotted(plain[i], dots, i)] + plain[i + 1..];
    WithDotsStep(plain[..i], plain[i], dots);
    assert plain[..i + 1] == plain[..i] + [plain[i]];
  }

  /** After i left shifts of the mask, its top bit is the dot of digit i. */
  lemma DotBit(dots: bv8, i: nat)
    requires i < 8
    ensures (dots << i) & SegDP == DotMask(dots, i)
  {
  }

  lemma ShiftOnce(dots: bv8, i: nat)
    requires i < 8
    ensures (dots << i) << 1 == dots << (i + 1)
  {
  }

  /** The dots of the first |a| cells do not depend on what follows them. */
  lemma WithDotsPrefix(a: seq<SegmentCode>, b: seq<SegmentCode>, dots: bv8)
    ensures WithDots(a + b, dots)[..|a|] == WithDots(a, dots)
  {
  }

  /** OR-ing the dot onto a glyph keeps its segments A-G and lights only the dot. */
  lemma DotOnGlyph(g: Glyph)
    ensures (g | SegDP) & 0x7F == g && Lit(g | SegDP, 7) && !Lit(g, 7)
  {
  }

  /** The source adds the dot to a glyph; a glyph has no dot, so this is the same as OR-ing it on. */
  lemma GlyphPlusDot(g: Glyph)
    ensures g + SegDP == g | SegDP
  {
  }
}
