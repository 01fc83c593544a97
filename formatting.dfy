/**
 * What the formatters put into the scratch digit array, as values: numbers
 * in a base (showNumberBaseEx), fixed-point numbers (showNumber for a
 * double), strings (showString, short and scrolled) and level bars
 * (showLevel). The display methods fill the array in loops and are proved to
 * produce exactly these cells.
 */
module Formatting {
  import opened Segments

  // ---------------------------------------------------------------------
  // Positional digits
  // ---------------------------------------------------------------------

  function Pow(b: nat, k: nat): nat
  {
    if k == 0 then 1 else b * Pow(b, k - 1)
  }

  /** What is left of n after dividing it k times by b, as the digit loops do. */
  function Shifted(n: nat, b: nat, k: nat): nat
    requires b >= 1
  {
    if k == 0 then n else Shifted(n, b, k - 1) / b
  }

  /** The base-b digit of n whose weight is b^k. */
  function DigitAt(n: nat, b: nat, k: nat): (d: nat)
    requires b >= 1
    ensures d < b
  {
    Shifted(n, b, k) % b
  }

  /** The number of base-b digits of n; zero has none. */
  function NumDigits(n: nat, b: nat): nat
    requires b >= 2
  {
    if n == 0 then 0 else 1 + NumDigits(n / b, b)
  }

  /** Dividing k+1 times is dividing once, then k times. */
  lemma {:induction false} ShiftedHead(n: nat, b: nat, k: nat)
    requires b >= 1
    ensures Shifted(n, b, k + 1) == Shifted(n / b, b, k)
  {
    if k > 0 {
      ShiftedHead(n, b, k - 1);
    }
  }

  /** Only zero has no digits; otherwise the count is one more than that of n / b. */
  lemma NumDigitsStep(n: nat, b: nat)
    requires b >= 2
    ensures n == 0 ==> NumDigits(n, b) == 0 && n / b == 0
    ensures n > 0 ==> NumDigits(n, b) == 1 + NumDigits(n / b, b) >= 1
  {
  }

  /** A number is used up after exactly as many divisions as it has digits. */
  lemma {:induction false} ShiftedZeroIff(n: nat, b: nat, k: nat)
    requires b >= 2
    ensures Shifted(n, b, k) == 0 <==> k >= NumDigits(n, b)
    decreases k
  {
    if k == 0 {
      NumDigitsStep(n, b);
    } else {
      var q: nat := n / b;
      ShiftedHead(n, b, k - 1);
      ShiftedZeroIff(q, b, k - 1);
      ShiftedZeroStep(n, b, k);
    }
  }

  /** One induction step of ShiftedZeroIff, on the quotient n / b. */
  lemma ShiftedZeroStep(n: nat, b: nat, k: nat)
    requires b >= 2 && k > 0
    requires Shifted(n, b, k) == Shifted(n / b, b, k - 1)
    requires Shifted(n / b, b, k - 1) == 0 <==> k - 1 >= NumDigits(n / b, b)
    ensures Shifted(n, b, k) == 0 <==> k >= NumDigits(n, b)
  {
    NumDigitsStep(n, b);
    if n == 0 {
      NumDigitsStep(n / b, b);
    }
  }

  /** The value of a digit sequence, most significant digit first. */
  function Horner(ds: seq<nat>, b: nat): nat
  {
    if |ds| == 0 then 0 else Horner(ds[..|ds| - 1], b) * b + ds[|ds| - 1]
  }

  /**
   * The low |ds| digits of n, read back most significant first, give n up to
   * what is left above them.
   */
  lemma {:induction false} HornerDigits(n: nat, b: nat, ds: seq<nat>)
    requires b >= 1
    requires forall i :: 0 <= i < |ds| ==> ds[i] == DigitAt(n, b, |ds| - 1 - i)
    ensures Horner(ds, b) + Shifted(n, b, |ds|) * Pow(b, |ds|) == n
    decreases |ds|
  {
    if |ds| > 0 {
      var L := |ds|;
      var init := ds[..L - 1];
      forall i | 0 <= i < L - 1
        ensures init[i] == DigitAt(n / b, b, L - 2 - i)
      {
        ShiftedHead(n, b, L - 2 - i);
      }
      HornerDigits(n / b, b, init);
      ShiftedHead(n, b, L - 1);
      var S := Shifted(n / b, b, L - 1);
      var P := Pow(b, L - 1);
      assert Horner(ds, b) == Horner(init, b) * b + n % b;
      assert Shifted(n, b, L) * Pow(b, L) == S * (b * P);
      HornerStepArith(Horner(init, b), S, P, b, n);
    }
  }

  lemma HornerStepArith(h: nat, s: nat, p: nat, b: nat, n: nat)
    requires b >= 1
    requires h + s * p == n / b
    ensures h * b + n % b + s * (b * p) == n
  {
    calc {
      h * b + n % b + s * (b * p);
      (h + s * p) * b + n % b;
      (n / b) * b + n % b;
      n;
    }
  }

  // ---------------------------------------------------------------------
  // Reading cells back
  // ---------------------------------------------------------------------

  /**
   * The digit a cell shows: the position of its segments (dot ignored) in
   * the digit table. A blank, the minus sign and any other pattern read as 0.
   */
  function DigitOf(cell: SegmentCode): (d: nat)
    ensures d < 16
  {
    var g := cell & 0x7F;
    if g == 0x06 then 1 else if g == 0x5B then 2 else if g == 0x4F then 3
    else if g == 0x66 then 4 else if g == 0x6D then 5 else if g == 0x7D then 6
    else if g == 0x07 then 7 else if g == 0x7F then 8 else if g == 0x6F then 9
    else if g == 0x77 then 10 else if g == 0x7C then 11 else if g == 0x39 then 12
    else if g == 0x5E then 13 else if g == 0x79 then 14 else if g == 0x71 then 15
    else 0
  }

  lemma DigitOfGlyph(d: nat)
    requires d < 16
    ensures DigitOf(DigitToSegment[d]) == d
  {
  }

  /** Reading a digit's glyph gives the digit back: the digit table is one-to-one. */
  lemma DigitOfEncodeDigit(d: Byte)
    requires d < 16
    ensures DigitOf(EncodeDigit(d)) == d
  {
    assert d % 16 == d;
    DigitOfGlyph(d);
  }

  /** The digits the cells show, left to right. */
  function CellDigits(cells: seq<SegmentCode>): (ds: seq<nat>)
    ensures |ds| == |cells|
    ensures forall i :: 0 <= i < |cells| ==> ds[i] == DigitOf(cells[i])
  {
    seq(|cells|, i requires 0 <= i < |cells| => DigitOf(cells[i]))
  }

  /** Some cell shows the minus sign (with or without its dot). */
  predicate ShowsMinus(cells: seq<SegmentCode>)
  {
    exists i :: 0 <= i < |cells| && cells[i] & 0x7F == MinusSegments
  }

  /** Dots change neither the digits the cells show nor the sign. */
  lemma DotsKeepReading(cells: seq<SegmentCode>, dots: bv8)
    ensures CellDigits(WithDots(cells, dots)) == CellDigits(cells)
    ensures ShowsMinus(WithDots(cells, dots)) <==> ShowsMinus(cells)
  {
    WithDotsLayout(cells, dots);
  }

  function Blanks(n: nat): (r: seq<SegmentCode>)
    ensures |r| == n && forall i :: 0 <= i < n ==> r[i] == 0
  {
    seq(n, _ => 0)
  }

  // ---------------------------------------------------------------------
  // showNumberBaseEx
  // ---------------------------------------------------------------------

  /**
   * Cell i of a `length`-digit field showing num in base b: the digit of
   * weight b^(length-1-i); once num is used up, a blank (or a 0 with leading
   * zeros); and the minus sign in the first used-up position met from the
   * right, if the number is negative.
   */
  function BaseCell(b: nat, negative: bool, num: nat, leadingZero: bool, length: nat, i: nat): SegmentCode
    requires 1 <= b <= 127 && i < length
  {
    var k := length - 1 - i;
    if Shifted(num, b, k) == 0 && negative && (k == 0 || Shifted(num, b, k - 1) != 0) then MinusSegments
    else if Shifted(num, b, k) == 0 && !leadingZero then 0
    else EncodeDigit(DigitAt(num, b, k))
  }

  /** The cells showNumberBaseEx renders before the dots; zero without leading zeros is a lone 0. */
  function BaseCells(b: nat, negative: bool, num: nat, leadingZero: bool, length: nat): (cells: seq<SegmentCode>)
    requires 1 <= b <= 127
    requires num == 0 && !leadingZero ==> length >= 1
    ensures |cells| == length
  {
    if num == 0 && !leadingZero then Blanks(length - 1) + [EncodeDigit(0)]
    else seq(length, i requires 0 <= i < length => BaseCell(b, negative, num, leadingZero, length, i))
  }

  /**
   * With d digits in num, the field is: its positions from length-d on show
   * the digits; the position just left of them shows the minus sign when
   * negative; every other position is blank, or 0 with leading zeros.
   */
  lemma BaseCellsLayout(b: nat, negative: bool, num: nat, leadingZero: bool, length: nat, i: nat)
    requires 2 <= b <= 127
    requires num != 0 || leadingZero
    requires i < length
    ensures var e := length - NumDigits(num, b);
      BaseCells(b, negative, num, leadingZero, length)[i] ==
        if i >= e then EncodeDigit(DigitAt(num, b, length - 1 - i))
        else if negative && i == e - 1 then MinusSegments
        else if leadingZero then EncodeDigit(0)
        else 0
  {
    assert BaseCells(b, negative, num, leadingZero, length)[i] == BaseCell(b, negative, num, leadingZero, length, i);
    BaseCellLayout(b, negative, num, leadingZero, length, i);
  }

  /**
   * What one pass of showNumberBaseEx's digit loop writes at position i,
   * from the remaining value n and the pending minus sign neg, is BaseCell.
   */
  lemma BaseCellStep(b: nat, negative: bool, num: nat, leadingZero: bool, length: nat, i: nat, n: nat, neg: bool)
    requires 1 <= b <= 127 && i < length
    requires n == Shifted(num, b, length - 1 - i)
    requires neg == (negative && (i == length - 1 || Shifted(num, b, length - 2 - i) != 0))
    ensures n == 0 ==> n % b == 0
    ensures Shifted(num, b, length - i) == n / b
    ensures (if n == 0 && neg then false else neg) == (negative && n != 0)
    ensures BaseCell(b, negative, num, leadingZero, length, i) ==
      (if n == 0 && neg then MinusSegments
       else if n == 0 && !leadingZero then 0
       else EncodeDigit(n % b))
  {
    var k := length - 1 - i;
    if k > 0 {
      assert k - 1 == length - 2 - i;
      ShiftedStep(num, b, k - 1);
    }
    ShiftedStep(num, b, k);
    assert DigitAt(num, b, k) == n % b;
  }

  /** One more division: from n, the next value of the digit loop. */
  lemma ShiftedStep(num: nat, b: nat, k: nat)
    requires b >= 1
    ensures Shifted(num, b, k + 1) == Shifted(num, b, k) / b
    ensures Shifted(num, b, k) == 0 ==> Shifted(num, b, k + 1) == 0 && Shifted(num, b, k) % b == 0
  {
  }

  lemma BaseCellsAt(b: nat, negative: bool, num: nat, leadingZero: bool, length: nat, i: nat)
    requires 1 <= b <= 127 && i < length
    requires num != 0 || leadingZero
    ensures BaseCells(b, negative, num, leadingZero, length)[i] == BaseCell(b, negative, num, leadingZero, length, i)
  {
  }

  /** BaseCellsLayout for one cell. */
  lemma BaseCellLayout(b: nat, negative: bool, num: nat, leadingZero: bool, length: nat, i: nat)
    requires 2 <= b <= 127
    requires i < length
    ensures var e := length - NumDigits(num, b);
      BaseCell(b, negative, num, leadingZero, length, i) ==
        if i >= e then EncodeDigit(DigitAt(num, b, length - 1 - i))
        else if negative && i == e - 1 then MinusSegments
        else if leadingZero then EncodeDigit(0)
        else 0
  {
    var k := length - 1 - i;
    ShiftedZeroIff(num, b, k);
    if k > 0 {
      ShiftedZeroIff(num, b, k - 1);
    }
  }

  /** Every cell shows the digit of its weight; used-up positions read as 0. */
  lemma BaseCellDigits(b: nat, negative: bool, num: nat, leadingZero: bool, length: nat)
    requires 2 <= b <= 16
    requires num == 0 && !leadingZero ==> length >= 1
    ensures forall i :: 0 <= i < length ==>
      CellDigits(BaseCells(b, negative, num, leadingZero, length))[i] == DigitAt(num, b, length - 1 - i)
  {
    var cells := BaseCells(b, negative, num, leadingZero, length);
    forall i | 0 <= i < length
      ensures DigitOf(cells[i]) == DigitAt(num, b, length - 1 - i)
    {
      if num == 0 && !leadingZero {
        ZeroDigit(b, length - 1 - i);
        DigitOfEncodeDigit(0);
      } else {
        assert cells[i] == BaseCell(b, negative, num, leadingZero, length, i);
        BaseCellDigit(b, negative, num, leadingZero, length, i);
      }
    }
  }

  /** Zero has no digit other than 0 in any position. */
  lemma ZeroDigit(b: nat, k: nat)
    requires b >= 2
    ensures DigitAt(0, b, k) == 0
  {
    ShiftedZeroIff(0, b, k);
  }

  /** One cell of BaseCellDigits. */
  lemma BaseCellDigit(b: nat, negative: bool, num: nat, leadingZero: bool, length: nat, i: nat)
    requires 2 <= b <= 16 && i < length
    ensures DigitOf(BaseCell(b, negative, num, leadingZero, length, i)) == DigitAt(num, b, length - 1 - i)
  {
    var k := length - 1 - i;
    if Shifted(num, b, k) == 0 {
      DigitOfEncodeDigit(0);
    } else {
      DigitOfEncodeDigit(DigitAt(num, b, k));
    }
  }

  /** The minus sign is shown exactly when the number is negative and leaves a position free. */
  lemma BaseCellsSign(b: nat, negative: bool, num: nat, leadingZero: bool, length: nat)
    requires 2 <= b <= 127
    requires num == 0 && !leadingZero ==> length >= 1
    ensures ShowsMinus(BaseCells(b, negative, num, leadingZero, length)) <==>
      negative && NumDigits(num, b) < length && (num != 0 || leadingZero)
  {
    var cells := BaseCells(b, negative, num, leadingZero, length);
    var e := length - NumDigits(num, b);
    if num != 0 || leadingZero {
      forall i | 0 <= i < length
        ensures cells[i] & 0x7F == MinusSegments <==> negative && i == e - 1
      {
        BaseCellsLayout(b, negative, num, leadingZero, length, i);
      }
      if negative && NumDigits(num, b) < length {
        assert cells[e - 1] & 0x7F == MinusSegments;
      }
    } else {
      assert forall i :: 0 <= i < length ==> cells[i] & 0x7F != MinusSegments;
    }
  }

  /**
   * Whenever num fits in the field, its cells read back as num, whatever the
   * base up to 16, the sign and the leading-zero choice.
   */
  lemma BaseCellsReadBack(b: nat, negative: bool, num: nat, leadingZero: bool, length: nat)
    requires 2 <= b <= 16
    requires NumDigits(num, b) <= length
    requires num == 0 && !leadingZero ==> length >= 1
    ensures Horner(CellDigits(BaseCells(b, negative, num, leadingZero, length)), b) == num
  {
    var ds := CellDigits(BaseCells(b, negative, num, leadingZero, length));
    BaseCellDigits(b, negative, num, leadingZero, length);
    assert |ds| == length;
    HornerDigits(num, b, ds);
    ShiftedZeroIff(num, b, length);
    ZeroTimes(Shifted(num, b, length), Pow(b, length));
  }

  lemma ZeroTimes(x: nat, y: nat)
    requires x == 0
    ensures x * y == 0
  {
  }

  /** What a field reads as: its digits, negated when a minus sign shows. */
  function ReadSigned(cells: seq<SegmentCode>, b: nat): int
  {
    var v: int := Horner(CellDigits(cells), b);
    if ShowsMinus(cells) then -v else v
  }

  function IntAbs(x: int): nat
  {
    if x < 0 then -x else x
  }

  /**
   * The conversion of a 32-bit long to a 16-bit int: the value modulo 2^16,
   * read as two's complement.
   */
  function ToInt16(x: int): (r: int)
    ensures -0x8000 <= r < 0x8000
    ensures (x - r) % 0x1_0000 == 0
  {
    (x + 0x8000) % 0x1_0000 - 0x8000
  }

  /** A value that fits in 16 bits passes through unchanged. */
  lemma ToInt16Keeps(x: int)
    requires -0x8000 <= x < 0x8000
    ensures ToInt16(x) == x
  {
  }

  /**
   * showNumberDec reads back as num, dots or not, whenever its digits and,
   * if negative, its sign fit in the field.
   */
  lemma DecimalReadsBack(num: int, dots: bv8, leadingZero: bool, length: nat)
    requires NumDigits(IntAbs(num), 10) + (if num < 0 then 1 else 0) <= length
    requires num == 0 && !leadingZero ==> length >= 1
    ensures ReadSigned(WithDots(BaseCells(10, num < 0, IntAbs(num), leadingZero, length), dots), 10) == num
  {
    var cells := BaseCells(10, num < 0, IntAbs(num), leadingZero, length);
    DotsKeepReading(cells, dots);
    BaseCellsReadBack(10, num < 0, IntAbs(num), leadingZero, length);
    BaseCellsSign(10, num < 0, IntAbs(num), leadingZero, length);
  }

  /** showNumberHex reads back as num (in base 16) whenever its digits fit; no minus sign ever shows. */
  lemma HexReadsBack(num: nat, dots: bv8, leadingZero: bool, length: nat)
    requires NumDigits(num, 16) <= length
    requires num == 0 && !leadingZero ==> length >= 1
    ensures ReadSigned(WithDots(BaseCells(16, false, num, leadingZero, length), dots), 16) == num
  {
    var cells := BaseCells(16, false, num, leadingZero, length);
    DotsKeepReading(cells, dots);
    BaseCellsReadBack(16, false, num, leadingZero, length);
    BaseCellsSign(16, false, num, leadingZero, length);
  }

  // ---------------------------------------------------------------------
  // showNumber for a double: the integer side
  // ---------------------------------------------------------------------

  /** C's conversion of a double to long: truncation toward zero. */
  function Trunc(x: real): int
  {
    if x >= 0.0 then x.Floor else -((-x).Floor)
  }

  function RealAbs(x: real): real
  {
    if x >= 0.0 then x else -x
  }

  /** labs((long)x): the whole part of the magnitude of x. */
  function Magnitude(x: real): (m: nat)
    ensures m as real <= RealAbs(x) < m as real + 1.0
  {
    var t := Trunc(x);
    if t < 0 then -t else t
  }

  /**
   * The positions the number takes before any decimals: the digits of its
   * whole part, one for the sign, one for the 0 of a value below one.
   */
  function NumLen(num: real): nat
  {
    NumDigits(Magnitude(num), 10) + (if num < 0.0 then 1 else 0) + (if Magnitude(num) == 0 then 1 else 0)
  }

  lemma NumLenPositive(num: real)
    ensures NumLen(num) >= 1
  {
    NumDigitsStep(Magnitude(num), 10);
  }

  /** The decimals shown: as many as asked for, but no more than the room left. */
  function Places(num: real, decimalLength: nat, length: nat): (p: nat)
    requires NumLen(num) <= length
    ensures p <= decimalLength && NumLen(num) + p <= length
    ensures p == decimalLength || NumLen(num) + p == length
  {
    var room := length - NumLen(num);
    if room > decimalLength then decimalLength else room
  }

  /** The magnitude of num times 10^places, rounded half away from zero. */
  function Rounded(num: real, places: nat): nat
  {
    Magnitude(HalfAway(num, Pow(10, places) as real))
  }

  /** num scaled by P, then moved half a unit away from zero (not at all for zero). */
  function HalfAway(num: real, P: real): real
  {
    var v := num * P;
    if num > 0.0 then v + 0.5 else if num < 0.0 then v - 0.5 else v
  }

  /**
   * Position i is among the leading blanks: the number is used up there and,
   * for a value below one, i is left of the 0 before the point.
   */
  predicate DecimalBlank(inum: nat, belowOne: bool, point: int, length: nat, i: nat)
    requires i < length
  {
    Shifted(inum, 10, length - 1 - i) == 0 && (!belowOne || i < point)
  }

  /**
   * The glyph of cell i of the fixed-point field: a digit of inum, or a
   * leading blank of which the rightmost takes the minus sign.
   */
  function DecimalGlyph(inum: nat, negative: bool, belowOne: bool, point: int, length: nat, i: nat): Glyph
    requires i < length
  {
    if DecimalBlank(inum, belowOne, point, length, i) then
      (if negative && (i + 1 == length || !DecimalBlank(inum, belowOne, point, length, i + 1))
       then MinusSegments else 0)
    else EncodeDigit(DigitAt(inum, 10, length - 1 - i))
  }

  /**
   * Cell i of the fixed-point field: its glyph, with the decimal point OR'd
   * on at position length-1-places whenever any decimals were asked for.
   */
  function DecimalCell(inum: nat, negative: bool, belowOne: bool, places: nat, decimalLength: nat,
                       length: nat, i: nat): SegmentCode
    requires places < length && i < length
  {
    var point := length - 1 - places;
    var glyph := DecimalGlyph(inum, negative, belowOne, point, length, i);
    if i == point && decimalLength > 0 then glyph | SegDP else glyph
  }

  /** The cells showNumber renders for the rounded integer inum. */
  function DecimalCells(inum: nat, negative: bool, belowOne: bool, places: nat, decimalLength: nat,
                        length: nat): (cells: seq<SegmentCode>)
    requires places < length
    ensures |cells| == length
  {
    if inum == 0 && !belowOne then Blanks(length - 1) + [EncodeDigit(0)]
    else seq(length, i requires 0 <= i < length => DecimalCell(inum, negative, belowOne, places, decimalLength, length, i))
  }

  /** What showNumber does with a double: the dashes, or the cells of the field. */
  datatype Rendering = Overflow | Field(cells: seq<SegmentCode>)

  function NumberRendering(num: real, decimalLength: nat, length: nat): (r: Rendering)
    ensures r.Overflow? <==> NumLen(num) > length
    ensures r.Field? ==> |r.cells| == length
  {
    if NumLen(num) > length then Overflow
    else
      NumLenPositive(num);
      var p := Places(num, decimalLength, length);
      Field(DecimalCells(Rounded(num, p), num < 0.0, Magnitude(num) == 0, p, decimalLength, length))
  }

  /** One more factor of ten, as the scaling loop applies it. */
  lemma ScaleStep(num: real, x: nat)
    ensures num * (Pow(10, x + 1) as real) == num * (Pow(10, x) as real) * 10.0
  {
    assert Pow(10, x + 1) as real == (Pow(10, x) as real) * 10.0;
  }

  lemma PowPositive(b: nat, k: nat)
    requires b >= 1
    ensures Pow(b, k) >= 1
  {
    if k > 0 {
      PowPositive(b, k - 1);
    }
  }

  /** Rounding a positive value up by a half and truncating lands within half a unit of it. */
  lemma RoundHalfUp(v: real)
    requires v >= 0.0
    ensures -0.5 < Magnitude(v + 0.5) as real - v <= 0.5
  {
  }

  lemma ScaleSign(num: real, p: real)
    requires p >= 1.0
    ensures num > 0.0 ==> num * p > 0.0 && RealAbs(num) * p == num * p
    ensures num < 0.0 ==> num * p < 0.0 && RealAbs(num) * p == -(num * p)
    ensures num == 0.0 ==> num * p == 0.0 && RealAbs(num) * p == 0.0
  {
  }

  /** Half away from zero, for a positive scale P: within half a unit of |num| * P. */
  lemma RoundWithin(num: real, P: real)
    requires P >= 1.0
    ensures -0.5 < Magnitude(HalfAway(num, P)) as real - RealAbs(num) * P <= 0.5
  {
    if num > 0.0 {
      RoundUpWithin(num, P);
    } else if num < 0.0 {
      RoundDownWithin(num, P);
    } else {
      assert HalfAway(num, P) == 0.0;
    }
  }

  lemma RoundUpWithin(num: real, P: real)
    requires P >= 1.0 && num > 0.0
    ensures -0.5 < Magnitude(HalfAway(num, P)) as real - RealAbs(num) * P <= 0.5
  {
    ScaleSign(num, P);
    var v := num * P;
    assert HalfAway(num, P) == v + 0.5;
    RoundHalfUp(v);
  }

  lemma RoundDownWithin(num: real, P: real)
    requires P >= 1.0 && num < 0.0
    ensures -0.5 < Magnitude(HalfAway(num, P)) as real - RealAbs(num) * P <= 0.5
  {
    ScaleSign(num, P);
    var v := num * P;
    assert HalfAway(num, P) == v - 0.5;
    MagnitudeNeg(v - 0.5);
    RoundHalfUp(-v);
  }

  lemma MagnitudeNeg(x: real)
    ensures Magnitude(-x) == Magnitude(x)
  {
  }

  /** The rounded integer is within half a unit of |num| * 10^places. */
  lemma RoundingAccuracy(num: real, places: nat)
    ensures -0.5 < Rounded(num, places) as real - RealAbs(num) * (Pow(10, places) as real) <= 0.5
  {
    PowPositive(10, places);
    var P := Pow(10, places) as real;
    assert Rounded(num, places) == Magnitude(HalfAway(num, P));
    RoundWithin(num, P);
  }

  /** A number of magnitude one or more never rounds to zero. */
  lemma RoundedNonZero(num: real, places: nat)
    requires Magnitude(num) != 0
    ensures Rounded(num, places) != 0
  {
    PowPositive(10, places);
    var P := Pow(10, places) as real;
    assert RealAbs(num) >= 1.0;
    assert RealAbs(num) * P >= 1.0;
    RoundingAccuracy(num, places);
  }

  /**
   * The leading blanks are the first E positions, where E is what the digits
   * of inum and, below one, the 0 before the point leave free. The minus sign
   * takes position E-1, the digits fill the rest, and the dot bit is set only
   * at the decimal point, and there whenever any decimals were asked for.
   */
  lemma DecimalCellsLayout(inum: nat, negative: bool, belowOne: bool, places: nat, decimalLength: nat,
                           length: nat, i: nat)
    requires places < length && i < length
    requires inum != 0 || belowOne
    ensures var point := length - 1 - places;
      var E := if belowOne && point < length - NumDigits(inum, 10) then point else length - NumDigits(inum, 10);
      var cell := DecimalCells(inum, negative, belowOne, places, decimalLength, length)[i];
      cell & 0x7F == (if i >= E then EncodeDigit(DigitAt(inum, 10, length - 1 - i))
                      else if negative && i == E - 1 then MinusSegments else 0) &&
      (Lit(cell, 7) <==> i == point && decimalLength > 0)
  {
    assert DecimalCells(inum, negative, belowOne, places, decimalLength, length)[i] ==
      DecimalCell(inum, negative, belowOne, places, decimalLength, length, i);
    DecimalCellLayout(inum, negative, belowOne, places, decimalLength, length, i);
  }

  /** The glyph of one cell: digits from E on, the minus sign (if any) at E-1, blanks before. */
  lemma DecimalGlyphLayout(inum: nat, negative: bool, belowOne: bool, point: int, length: nat, i: nat)
    requires i < length && point < length
    requires inum != 0 || belowOne
    ensures var E := if belowOne && point < length - NumDigits(inum, 10) then point else length - NumDigits(inum, 10);
      DecimalGlyph(inum, negative, belowOne, point, length, i) ==
        (if i >= E then EncodeDigit(DigitAt(inum, 10, length - 1 - i))
         else if negative && i == E - 1 then MinusSegments else 0)
  {
    ShiftedZeroIff(inum, 10, length - 1 - i);
    if i + 1 < length {
      ShiftedZeroIff(inum, 10, length - 2 - i);
    }
  }

  /** The layout of one cell (see DecimalCellsLayout). */
  lemma DecimalCellLayout(inum: nat, negative: bool, belowOne: bool, places: nat, decimalLength: nat,
                          length: nat, i: nat)
    requires places < length && i < length
    requires inum != 0 || belowOne
    ensures var point := length - 1 - places;
      var E := if belowOne && point < length - NumDigits(inum, 10) then point else length - NumDigits(inum, 10);
      var cell := DecimalCell(inum, negative, belowOne, places, decimalLength, length, i);
      cell & 0x7F == (if i >= E then EncodeDigit(DigitAt(inum, 10, length - 1 - i))
                      else if negative && i == E - 1 then MinusSegments else 0) &&
      (Lit(cell, 7) <==> i == point && decimalLength > 0)
  {
    var point := length - 1 - places;
    DecimalGlyphLayout(inum, negative, belowOne, point, length, i);
    DotOnGlyph(DecimalGlyph(inum, negative, belowOne, point, length, i));
  }

  /** Every cell of the fixed-point field shows the digit of inum of its weight. */
  lemma DecimalCellDigits(inum: nat, negative: bool, belowOne: bool, places: nat, decimalLength: nat,
                          length: nat)
    requires places < length
    ensures forall i :: 0 <= i < length ==>
      CellDigits(DecimalCells(inum, negative, belowOne, places, decimalLength, length))[i] ==
        DigitAt(inum, 10, length - 1 - i)
  {
    var cells := DecimalCells(inum, negative, belowOne, places, decimalLength, length);
    forall i | 0 <= i < length
      ensures DigitOf(cells[i]) == DigitAt(inum, 10, length - 1 - i)
    {
      if inum == 0 && !belowOne {
        ZeroDigit(10, length - 1 - i);
        DigitOfEncodeDigit(0);
      } else {
        assert cells[i] == DecimalCell(inum, negative, belowOne, places, decimalLength, length, i);
        DecimalCellDigit(inum, negative, belowOne, places, decimalLength, length, i);
      }
    }
  }

  /** A dot does not change the digit a glyph reads as. */
  lemma DigitOfDot(g: Glyph)
    ensures DigitOf(g | SegDP) == DigitOf(g)
  {
    assert (g | SegDP) & 0x7F == g & 0x7F;
  }

  /** One cell of DecimalCellDigits: the dot does not change the digit read. */
  lemma DecimalCellDigit(inum: nat, negative: bool, belowOne: bool, places: nat, decimalLength: nat,
                         length: nat, i: nat)
    requires places < length && i < length
    ensures DigitOf(DecimalCell(inum, negative, belowOne, places, decimalLength, length, i)) ==
      DigitAt(inum, 10, length - 1 - i)
  {
    var point := length - 1 - places;
    var glyph := DecimalGlyph(inum, negative, belowOne, point, length, i);
    DigitOfDot(glyph);
    assert DigitOf(DecimalCell(inum, negative, belowOne, places, decimalLength, length, i)) == DigitOf(glyph);
    var k := length - 1 - i;
    if DecimalBlank(inum, belowOne, point, length, i) {
      assert DigitAt(inum, 10, k) == 0;
    } else {
      DigitOfEncodeDigit(DigitAt(inum, 10, k));
    }
  }

  /** Leading blanks form a prefix: left of a blank there is only blank. */
  lemma DecimalBlankLeft(inum: nat, belowOne: bool, point: int, length: nat, i: nat)
    requires i + 1 < length && DecimalBlank(inum, belowOne, point, length, i + 1)
    ensures DecimalBlank(inum, belowOne, point, length, i)
  {
    ShiftedStep(inum, 10, length - 2 - i);
  }

  lemma DecimalCellsAt(inum: nat, negative: bool, belowOne: bool, places: nat, decimalLength: nat,
                       length: nat, i: nat)
    requires places < length && i < length
    requires inum != 0 || belowOne
    ensures DecimalCells(inum, negative, belowOne, places, decimalLength, length)[i] ==
      DecimalCell(inum, negative, belowOne, places, decimalLength, length, i)
  {
  }

  /**
   * What one pass of showNumber's digit loop computes at position i, from
   * the remaining value n and the pending minus sign neg: its blank test is
   * DecimalBlank, its glyph is DecimalGlyph, and the next n and neg are
   * those of position i-1.
   */
  lemma DecimalCellStep(inum: nat, negative: bool, belowOne: bool, point: int, length: nat, i: nat,
                        n: nat, neg: bool)
    requires i < length
    requires n == Shifted(inum, 10, length - 1 - i)
    requires neg == (negative && (i + 1 == length || !DecimalBlank(inum, belowOne, point, length, i + 1)))
    ensures Shifted(inum, 10, length - i) == n / 10
    ensures var blank := n % 10 == 0 && n == 0 && (!belowOne || i < point);
      blank == DecimalBlank(inum, belowOne, point, length, i) &&
      (if blank && neg then false else neg) == (negative && !blank) &&
      DecimalGlyph(inum, negative, belowOne, point, length, i) ==
        (if blank then (if neg then MinusSegments else 0) else EncodeDigit(n % 10))
  {
    ShiftedStep(inum, 10, length - 1 - i);
    if i + 1 < length && DecimalBlank(inum, belowOne, point, length, i + 1) {
      DecimalBlankLeft(inum, belowOne, point, length, i);
    }
  }

  /**
   * The minus sign appears exactly when the number is negative and the field
   * has a leading blank for it.
   */
  lemma DecimalCellsSign(inum: nat, negative: bool, belowOne: bool, places: nat, decimalLength: nat,
                         length: nat)
    requires places < length
    requires inum != 0 || belowOne
    ensures ShowsMinus(DecimalCells(inum, negative, belowOne, places, decimalLength, length)) <==>
      negative && NumDigits(inum, 10) < length && (!belowOne || places + 1 < length)
  {
    var cells := DecimalCells(inum, negative, belowOne, places, decimalLength, length);
    var point := length - 1 - places;
    var E := if belowOne && point < length - NumDigits(inum, 10) then point else length - NumDigits(inum, 10);
    forall i | 0 <= i < length
      ensures cells[i] & 0x7F == MinusSegments <==> negative && i == E - 1
    {
      DecimalCellsLayout(inum, negative, belowOne, places, decimalLength, length, i);
    }
    if negative && E >= 1 {
      assert cells[E - 1] & 0x7F == MinusSegments;
    }
  }

  /** The rounded value has no more digits than the whole part plus the decimals: no carry out. */
  predicate NoCarry(num: real, places: nat)
  {
    NumDigits(Rounded(num, places), 10) <= NumDigits(Magnitude(num), 10) + places
  }

  /**
   * When rounding does not carry into a new digit, showNumber's field reads
   * back as the rounded value num * 10^places, with the minus sign exactly
   * when num is negative.
   */
  lemma NumberReadBack(num: real, decimalLength: nat, length: nat)
    requires NumLen(num) <= length
    requires NoCarry(num, Places(num, decimalLength, length))
    ensures var p := Places(num, decimalLength, length);
      var cells := NumberRendering(num, decimalLength, length).cells;
      Horner(CellDigits(cells), 10) == Rounded(num, p) && (ShowsMinus(cells) <==> num < 0.0)
  {
    NumLenPositive(num);
    var p := Places(num, decimalLength, length);
    var R := Rounded(num, p);
    var belowOne := Magnitude(num) == 0;
    var cells := DecimalCells(R, num < 0.0, belowOne, p, decimalLength, length);
    assert NumberRendering(num, decimalLength, length).cells == cells;
    if !belowOne {
      RoundedNonZero(num, p);
    }
    RoundedFits(num, decimalLength, length);
    DecimalReadBack(R, num < 0.0, belowOne, p, decimalLength, length);
    DecimalCellsSign(R, num < 0.0, belowOne, p, decimalLength, length);
  }

  /** A fixed-point field whose integer fits reads back as that integer. */
  lemma DecimalReadBack(inum: nat, negative: bool, belowOne: bool, places: nat, decimalLength: nat,
                        length: nat)
    requires places < length && NumDigits(inum, 10) <= length
    ensures Horner(CellDigits(DecimalCells(inum, negative, belowOne, places, decimalLength, length)), 10) == inum
  {
    var ds := CellDigits(DecimalCells(inum, negative, belowOne, places, decimalLength, length));
    DecimalCellDigits(inum, negative, belowOne, places, decimalLength, length);
    HornerDigits(inum, 10, ds);
    ShiftedZeroIff(inum, 10, length);
  }

  /** Without a carry the rounded value fits, with room for the sign of a negative number. */
  lemma RoundedFits(num: real, decimalLength: nat, length: nat)
    requires NumLen(num) <= length
    requires NoCarry(num, Places(num, decimalLength, length))
    ensures var p := Places(num, decimalLength, length);
      var d := NumDigits(Rounded(num, p), 10);
      d <= length && (num < 0.0 ==> d < length && (Magnitude(num) == 0 ==> p + 1 < length))
  {
  }

  /**
   * The decimal point is lit at position length-1-places, and nowhere else,
   * whenever any decimals were asked for, even if none fit.
   */
  lemma NumberDecimalPoint(num: real, decimalLength: nat, length: nat, i: nat)
    requires NumLen(num) <= length && i < length
    ensures var p := Places(num, decimalLength, length);
      Lit(NumberRendering(num, decimalLength, length).cells[i], 7) <==> i == length - 1 - p && decimalLength > 0
  {
    NumLenPositive(num);
    var p := Places(num, decimalLength, length);
    if Magnitude(num) != 0 {
      RoundedNonZero(num, p);
    }
    DecimalCellsLayout(Rounded(num, p), num < 0.0, Magnitude(num) == 0, p, decimalLength, length, i);
  }

  /** 1234.5 with one decimal on four digits: no room for it, so 1235 shows, with the point still lit. */
  lemma NumberExampleForcedPoint()
    ensures NumberRendering(1234.5, 1, 4) == Field([0x06, 0x5B, 0x4F, 0xED])
  {
    assert Magnitude(1234.5) == 1234;
    assert NumDigits(1234, 10) == 4;
    assert Places(1234.5, 1, 4) == 0;
    assert Rounded(1234.5, 0) == 1235;
    ForcedPointCells();
  }

  lemma ForcedPointCells()
    ensures DecimalCells(1235, false, false, 0, 1, 4) == [0x06, 0x5B, 0x4F, 0xED]
  {
    ForcedPointDigits();
    var cells := DecimalCells(1235, false, false, 0, 1, 4);
    assert cells[0] == DecimalCell(1235, false, false, 0, 1, 4, 0) == 0x06;
    assert cells[1] == DecimalCell(1235, false, false, 0, 1, 4, 1) == 0x5B;
    assert cells[2] == DecimalCell(1235, false, false, 0, 1, 4, 2) == 0x4F;
    assert DecimalGlyph(1235, false, false, 3, 4, 3) == 0x6D;
    assert cells[3] == DecimalCell(1235, false, false, 0, 1, 4, 3) == 0x6D | SegDP == 0xED;
  }

  lemma ForcedPointDigits()
    ensures Shifted(1235, 10, 1) == 123 && Shifted(1235, 10, 2) == 12 && Shifted(1235, 10, 3) == 1
    ensures DigitAt(1235, 10, 3) == 1 && DigitAt(1235, 10, 2) == 2 && DigitAt(1235, 10, 1) == 3 && DigitAt(1235, 10, 0) == 5
    ensures EncodeDigit(1) == 0x06 && EncodeDigit(2) == 0x5B && EncodeDigit(3) == 0x4F && EncodeDigit(5) == 0x6D
  {
    assert Shifted(1235, 10, 1) == 123 && Shifted(1235, 10, 2) == 12;
  }

  /** Five whole digits do not fit in four: the dashes are shown instead. */
  lemma NumberExampleOverflow()
    ensures NumberRendering(12345.0, 0, 4) == Overflow
  {
    assert Magnitude(12345.0) == 12345;
    assert NumDigits(12345, 10) == 5;
  }

  /** -0.5 with three decimals on four digits shows -0.50: the sign, the 0 before the point, two decimals. */
  lemma NumberExampleBelowOne()
    ensures NumberRendering(-0.5, 3, 4) == Field([0x40, 0xBF, 0x6D, 0x3F])
  {
    assert Magnitude(-0.5) == 0;
    assert NumLen(-0.5) == 2;
    assert Places(-0.5, 3, 4) == 2;
    assert Rounded(-0.5, 2) == 50;
    BelowOneCells();
  }

  lemma BelowOneCells()
    ensures DecimalCells(50, true, true, 2, 3, 4) == [0x40, 0xBF, 0x6D, 0x3F]
  {
    BelowOneDigits();
    var cells := DecimalCells(50, true, true, 2, 3, 4);
    assert DecimalGlyph(50, true, true, 1, 4, 1) == 0x3F;
    assert cells[0] == DecimalCell(50, true, true, 2, 3, 4, 0) == 0x40;
    assert cells[1] == DecimalCell(50, true, true, 2, 3, 4, 1) == 0xBF;
    assert cells[2] == DecimalCell(50, true, true, 2, 3, 4, 2) == 0x6D;
    assert cells[3] == DecimalCell(50, true, true, 2, 3, 4, 3) == 0x3F;
  }

  lemma BelowOneDigits()
    ensures Shifted(50, 10, 1) == 5 && Shifted(50, 10, 2) == 0 && Shifted(50, 10, 3) == 0
    ensures DigitAt(50, 10, 2) == 0 && DigitAt(50, 10, 1) == 5 && DigitAt(50, 10, 0) == 0
    ensures EncodeDigit(0) == 0x3F && EncodeDigit(5) == 0x6D
  {
    assert Shifted(50, 10, 1) == 5;
  }

  /**
   * 999.99 with one decimal on four digits: rounding carries into a fifth
   * digit that the field has no room for, and 000.0 shows.
   */
  lemma NumberExampleCarry()
    ensures NumberRendering(999.99, 1, 4) == Field([0x3F, 0x3F, 0xBF, 0x3F])
  {
    assert Magnitude(999.99) == 999;
    assert NumDigits(999, 10) == 3;
    assert Places(999.99, 1, 4) == 1;
    assert Pow(10, 1) == 10;
    assert Rounded(999.99, 1) == 10000;
    CarryCells();
  }

  lemma CarryCells()
    ensures DecimalCells(10000, false, false, 1, 1, 4) == [0x3F, 0x3F, 0xBF, 0x3F]
  {
    CarryDigits();
    var cells := DecimalCells(10000, false, false, 1, 1, 4);
    assert cells[0] == DecimalCell(10000, false, false, 1, 1, 4, 0) == 0x3F;
    assert cells[1] == DecimalCell(10000, false, false, 1, 1, 4, 1) == 0x3F;
    assert DecimalGlyph(10000, false, false, 2, 4, 2) == 0x3F;
    assert cells[2] == DecimalCell(10000, false, false, 1, 1, 4, 2) == 0x3F | SegDP == 0xBF;
    assert cells[3] == DecimalCell(10000, false, false, 1, 1, 4, 3) == 0x3F;
  }

  lemma CarryDigits()
    ensures Shifted(10000, 10, 1) == 1000 && Shifted(10000, 10, 2) == 100 && Shifted(10000, 10, 3) == 10
    ensures DigitAt(10000, 10, 3) == 0 && DigitAt(10000, 10, 2) == 0 && DigitAt(10000, 10, 1) == 0
    ensures DigitAt(10000, 10, 0) == 0 && EncodeDigit(0) == 0x3F
  {
    assert Shifted(10000, 10, 1) == 1000 && Shifted(10000, 10, 2) == 100;
  }

  // ---------------------------------------------------------------------
  // showString
  // ---------------------------------------------------------------------

  /** The glyphs of a string's characters, in order. */
  function EncodeString(s: seq<Byte>): (r: seq<SegmentCode>)
    ensures |r| == |s| && forall i :: 0 <= i < |s| ==> r[i] == EncodeASCII(s[i])
  {
    seq(|s|, i requires 0 <= i < |s| => EncodeASCII(s[i]))
  }

  /**
   * A string that fits on n digits: character x on digit x, blank digits
   * after it, and the dots of the mask on top.
   */
  function ShortString(s: seq<Byte>, dots: bv8, n: nat): (cells: seq<SegmentCode>)
    requires |s| <= n
    ensures |cells| == n
    ensures forall x :: 0 <= x < n ==>
      cells[x] & 0x7F == (if x < |s| then EncodeASCII(s[x]) else 0) && (Lit(cells[x], 7) <==> DotOn(dots, x))
  {
    var plain := EncodeString(s) + Blanks(n - |s|);
    assert forall x :: 0 <= x < n ==> plain[x] & 0x7F == plain[x] && !Lit(plain[x], 7);
    WithDotsLayout(plain, dots);
    WithDots(plain, dots)
  }

  /** Digit x of scroll frame f over glyphs g: glyph f-n+x, blank before and after the string. */
  function ScrollCell(g: seq<SegmentCode>, n: nat, f: nat, x: nat): SegmentCode
  {
    var off := f + x - n;
    if 0 <= off < |g| then g[off] else 0
  }

  /** Frame f of a scroll over glyphs g: the string enters from the right one glyph per frame. */
  function ScrollWindow(g: seq<SegmentCode>, n: nat, f: nat): (w: seq<SegmentCode>)
    ensures |w| == n
  {
    seq(n, x requires 0 <= x < n => ScrollCell(g, n, f, x))
  }

  /**
   * The frames showString commits: one for a string of at most n characters,
   * otherwise the scroll frames 1 to |s|+n over its glyphs.
   */
  function StringFrames(s: seq<Byte>, dots: bv8, n: nat): (frames: seq<seq<SegmentCode>>)
    ensures Rows(frames, n)
  {
    if |s| <= n then [ShortString(s, dots, n)] else ScrollSequence(EncodeString(s), n)
  }

  /** The frames of a scroll over glyphs g: windows 1 to |g|+n, the last one blank again. */
  function ScrollSequence(g: seq<SegmentCode>, n: nat): (frames: seq<seq<SegmentCode>>)
    ensures |frames| == |g| + n
    ensures forall t :: 0 <= t < |frames| ==> frames[t] == ScrollWindow(g, n, t + 1)
    ensures Rows(frames, n)
  {
    seq(|g| + n, t requires 0 <= t < |g| + n => ScrollWindow(g, n, t + 1))
  }

  /**
   * Each scroll frame is the previous one shifted left by a digit, with the
   * next glyph, or a blank once the string is through, on the right.
   */
  lemma ScrollShift(g: seq<SegmentCode>, n: nat, f: nat)
    requires n >= 1
    ensures ScrollWindow(g, n, f + 1) == ScrollWindow(g, n, f)[1..] + [if f < |g| then g[f] else 0]
  {
    var w := ScrollWindow(g, n, f);
    var w1 := ScrollWindow(g, n, f + 1);
    var shifted := w[1..] + [if f < |g| then g[f] else 0];
    forall x | 0 <= x < n
      ensures w1[x] == shifted[x]
    {
      if x + 1 < n {
        assert w1[x] == ScrollCell(g, n, f, x + 1);
      }
    }
  }

  /**
   * A long string scrolls through |s|+n frames; the scroll starts from a blank
   * display, character x enters on the right in frame x+1, and the last frame
   * is blank again.
   */
  lemma ScrollFrames(s: seq<Byte>, dots: bv8, n: nat)
    requires 1 <= n < |s|
    ensures |StringFrames(s, dots, n)| == |s| + n
    ensures ScrollWindow(EncodeString(s), n, 0) == Blanks(n)
    ensures forall x :: 0 <= x < |s| ==> StringFrames(s, dots, n)[x][n - 1] == EncodeASCII(s[x])
    ensures StringFrames(s, dots, n)[|s| + n - 1] == Blanks(n)
  {
    var g := EncodeString(s);
    var frames := StringFrames(s, dots, n);
    assert frames[|s| + n - 1] == ScrollWindow(g, n, |s| + n);
    forall x | 0 <= x < |s|
      ensures frames[x][n - 1] == EncodeASCII(s[x])
    {
      assert frames[x][n - 1] == ScrollCell(g, n, x + 1, n - 1);
    }
  }

  // ---------------------------------------------------------------------
  // showLevel
  // ---------------------------------------------------------------------

  /** The level, clamped to 100, scaled to `scale` bars and rounded down, but one bar for any level above 0. */
  function Bars(level: nat, scale: nat): nat
  {
    var l := if level > 100 then 100 else level;
    var b := l * scale / 100;
    if b == 0 && l > 0 then 1 else b
  }

  /** Never more bars than the scale has, and none exactly for level 0. */
  lemma BarsRange(level: nat, scale: nat)
    requires scale >= 1
    ensures Bars(level, scale) <= scale
    ensures Bars(level, scale) == 0 <==> level == 0
  {
    var l := if level > 100 then 100 else level;
    assert l * scale <= 100 * scale;
  }

  /** A higher level never shows fewer bars. */
  lemma BarsMonotone(low: nat, high: nat, scale: nat)
    requires low <= high
    ensures Bars(low, scale) <= Bars(high, scale)
  {
    var l := if low > 100 then 100 else low;
    var h := if high > 100 then 100 else high;
    MulMonotone(l, h, scale);
    DivMonotone(l * scale, h * scale, 100);
  }

  lemma MulMonotone(x: nat, y: nat, k: nat)
    requires x <= y
    ensures x * k <= y * k
  {
  }

  lemma DivMonotone(x: nat, y: nat, d: nat)
    requires x <= y && d > 0
    ensures x / d <= y / d
  {
    var q1, q2 := x / d, y / d;
    assert x == q1 * d + x % d && y == q2 * d + y % d;
    assert (q2 + 1) * d == q2 * d + d;
    MulStrict(q1, q2 + 1, d);
  }

  lemma MulStrict(a: nat, c: nat, d: nat)
    requires a * d < c * d
    ensures a < c
  {
    if c <= a {
      MulMonotone(c, a, d);
    }
  }

  /** The pattern of every digit of a horizontal level: the bottom bar, then the middle, then the top. */
  function HorizontalGlyph(bars: nat): Glyph
  {
    if bars == 1 then SegD else if bars == 2 then SegG | SegD else if bars == 3 then SegA | SegG | SegD else 0
  }

  /** Digit x of a vertical level: two bars (segments E F and B C), one bar (E F) or none. */
  function VerticalGlyph(bars: nat, x: nat): Glyph
  {
    var left := bars - 2 * x;
    if left > 1 then 0x36 else if left == 1 then 0x30 else 0
  }

  /** The cells showLevel renders on n digits. */
  function LevelCells(level: nat, horizontal: bool, n: nat): (cells: seq<SegmentCode>)
    ensures |cells| == n
  {
    if horizontal then seq(n, _ => HorizontalGlyph(Bars(level, 3)))
    else seq(n, x requires 0 <= x < n => VerticalGlyph(Bars(level, 2 * n), x))
  }

  /** The number of vertical bars a cell shows. */
  function BarsIn(cell: SegmentCode): nat
  {
    if cell == 0x36 then 2 else if cell == 0x30 then 1 else 0
  }

  /** The vertical bars shown by a run of cells. */
  function BarTotal(cells: seq<SegmentCode>): nat
  {
    if |cells| == 0 then 0 else BarTotal(cells[..|cells| - 1]) + BarsIn(cells[|cells| - 1])
  }

  /** The number of lit segments among A-G. */
  function SegmentsLit(cell: SegmentCode): nat
  {
    (if Lit(cell, 0) then 1 else 0) + (if Lit(cell, 1) then 1 else 0) + (if Lit(cell, 2) then 1 else 0) +
    (if Lit(cell, 3) then 1 else 0) + (if Lit(cell, 4) then 1 else 0) + (if Lit(cell, 5) then 1 else 0) +
    (if Lit(cell, 6) then 1 else 0)
  }

  /** The first m vertical digits hold min(bars, 2m) bars, filling from the left. */
  lemma {:induction false} VerticalPrefix(bars: nat, m: nat)
    ensures BarTotal(seq(m, x requires 0 <= x < m => VerticalGlyph(bars, x))) ==
      if bars < 2 * m then bars else 2 * m
  {
    if m > 0 {
      var cells := seq(m, x requires 0 <= x < m => VerticalGlyph(bars, x));
      assert cells[..m - 1] == seq(m - 1, x requires 0 <= x < m - 1 => VerticalGlyph(bars, x));
      VerticalPrefix(bars, m - 1);
    }
  }

  /** A vertical level shows exactly its number of bars, up to two per digit. */
  lemma VerticalShowsBars(level: nat, n: nat)
    requires n >= 1
    ensures BarTotal(LevelCells(level, false, n)) == Bars(level, 2 * n)
  {
    BarsRange(level, 2 * n);
    VerticalPrefix(Bars(level, 2 * n), n);
  }

  /** Every digit of a horizontal level lights as many segments as there are bars. */
  lemma HorizontalShowsBars(level: nat, n: nat, x: nat)
    requires x < n
    ensures SegmentsLit(LevelCells(level, true, n)[x]) == Bars(level, 3)
  {
    BarsRange(level, 3);
    var b := Bars(level, 3);
    assert b == 0 || b == 1 || b == 2 || b == 3;
  }

  /**
   * For a whole number that fits, the double path of showNumber (no decimals)
   * renders the same cells as showNumberDec without leading zeros.
   */
  lemma IntegerPathsAgree(num: int, length: nat)
    requires NumLen(num as real) <= length
    ensures NumberRendering(num as real, 0, length) == Field(BaseCells(10, num < 0, IntAbs(num), false, length))
  {
    var x := num as real;
    assert Trunc(x) == num;
    assert Magnitude(x) == IntAbs(num);
    NumLenPositive(x);
    assert Places(x, 0, length) == 0;
    assert Pow(10, 0) == 1;
    assert Rounded(x, 0) == IntAbs(num);
    var d := DecimalCells(IntAbs(num), num < 0, num == 0, 0, 0, length);
    var e := BaseCells(10, num < 0, IntAbs(num), false, length);
    forall i | 0 <= i < length
      ensures d[i] == e[i]
    {
      if num == 0 {
        ShiftedZeroIff(0, 10, length - 1 - i);
      }
    }
  }
}
