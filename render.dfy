/** What `loop` draws (src/main.cpp): the text chosen by the screen mode,
    formatted as `sprintf` writes it, and the cursor position `drawCentered`
    computes from the panel size and the text's bounding box. */
module Render {
  import opened Machine
  import opened ArduinoString
  import opened Format

  /** An hour as the time client reports it. */
  type Hour = h: int | 0 <= h < 24

  /** A minute as the time client reports it. */
  type Minute = m: int | 0 <= m < 60

  /** `char buf[6]` of the clock screen. */
  const ClockBufferSize: nat := 6

  /** `char buf[8]` of the temperature screen, as `main.cpp` declares it. */
  const SourceTempBufferSize: nat := 8

  /** The size the temperature buffer needs for every 32-bit value: a sign,
      ten digits, `F` and the terminating NUL. */
  const TempBufferSize: nat := 13

  /** `sprintf` into `char buf[size]` is defined when the text and its
      terminating NUL fit. */
  predicate FitsBuffer(text: string, size: nat) {
    |text| + 1 <= size
  }

  /** `sprintf(buf, "%02d:%02d", hours, minutes)`. */
  function ClockText(hours: int, minutes: int): string {
    Pad2(hours) + ":" + Pad2(minutes)
  }

  /** `sprintf(buf, "%dF", tempValue)`. */
  function TempText(value: int): string {
    Decimal(value) + "F"
  }

  /** The text of one frame: the zero-padded `HH:MM` on the clock screen
      (mode 0), otherwise the value in decimal followed by `F`. The clock
      text is five characters; the temperature text reads back as the value
      and fits a 13-byte buffer for every 32-bit value. */
  function RenderText(mode: Int32, value: Int32, hours: Hour, minutes: Minute): (r: string)
    ensures mode == 0 ==>
      && |r| == 5 && r[2] == ':'
      && AllDigits(r[..2]) && DigitsValue(r[..2]) == hours
      && AllDigits(r[3..]) && DigitsValue(r[3..]) == minutes
    ensures mode != 0 ==>
      && |r| >= 2 && r[|r| - 1] == 'F'
      && (forall i :: 0 <= i < |r| - 1 ==> IsDigit(r[i]) || (i == 0 && r[i] == '-'))
      && ToInt(r) == value
      && AllDigits(r[(if value < 0 then 1 else 0)..|r| - 1])
      && DigitsValue(r[(if value < 0 then 1 else 0)..|r| - 1]) == (if value < 0 then -(value as int) else value as int)
      && (r[0] == '-' <==> value < 0)
      && (value == 0 ==> r == "0F")
      && (value != 0 ==> r[if value < 0 then 1 else 0] != '0')
    ensures FitsBuffer(r, if mode == 0 then ClockBufferSize else TempBufferSize)
  {
    if mode == 0 then
      var r := ClockText(hours, minutes);
      assert r[..2] == Pad2(hours) && r[3..] == Pad2(minutes);
      r
    else
      ToIntDecimal(value, "F");
      TempTextCanonical(value);
      DecimalInt32Length(value);
      TempText(value)
  }

  /** The temperature text is `%dF` of the value: a minus sign exactly for a
      negative value, digits without a leading zero, then `F`. */
  lemma TempTextCanonical(value: Int32)
    ensures |TempText(value)| >= 2 && TempText(value)[|TempText(value)| - 1] == 'F'
    ensures forall i :: 0 <= i < |TempText(value)| - 1 ==>
      IsDigit(TempText(value)[i]) || (i == 0 && TempText(value)[i] == '-')
    ensures AllDigits(TempText(value)[(if value < 0 then 1 else 0)..|TempText(value)| - 1])
    ensures DigitsValue(TempText(value)[(if value < 0 then 1 else 0)..|TempText(value)| - 1])
      == (if value < 0 then -(value as int) else value as int)
    ensures TempText(value)[0] == '-' <==> value < 0
    ensures value == 0 ==> TempText(value) == "0F"
    ensures value != 0 ==> TempText(value)[if value < 0 then 1 else 0] != '0'
  {
    var d := Decimal(value);
    var t := TempText(value);
    AppendUnit(d, t);
    if value < 0 {
      assert t[1..|t| - 1] == d[1..];
    } else {
      assert t[0..|t| - 1] == d;
    }
  }

  /** Appending the unit keeps the characters in front of it. */
  lemma AppendUnit(d: string, t: string)
    requires t == d + "F"
    ensures |t| == |d| + 1 && t[|d|] == 'F'
    ensures forall i :: 0 <= i < |d| ==> t[i] == d[i]
    ensures t[..|d|] == d
  {
  }

  /** The firmware's `char buf[8]` holds the temperature text exactly for the
      values from -99999 to 999999; a larger value such as 1000000 (a client
      only has to send `temp=1000000`) or a smaller one such as -100000
      overruns it. */
  lemma TempTextFitsSourceBuffer(value: Int32)
    ensures FitsBuffer(TempText(value), SourceTempBufferSize) <==> -99999 <= value <= 999999
  {
    assert Pow10(6) == 1_000_000 && Pow10(5) == 100_000;
    if value < 0 {
      NatDigitsFit(-(value as int), 5);
      assert Decimal(value) == "-" + NatDigits(-(value as int));
    } else {
      NatDigitsFit(value, 6);
    }
  }

  /** A text's bounding box as `getTextBounds` reports it: the offsets
      `x1`, `y1` of its top-left corner and its width and height. */
  datatype TextBox = TextBox(x1: Int16, y1: Int16, w: Uint16, h: Uint16)

  /** A cursor position. */
  datatype Point = Point(x: Int16, y: Int16)

  /** `origin` centers a run of `size` pixels in `extent` pixels: the margins
      either side differ by at most one, the right one being the larger when
      the text fits and the smaller when it does not (C division truncates
      toward zero). */
  predicate Centered(extent: int, size: int, origin: int) {
    var diff := (extent - size - origin) - origin;
    if size <= extent then 0 <= diff <= 1 else -1 <= diff <= 0
  }

  /** One coordinate of the cursor: `(extent - size) / 2` in C `int`
      arithmetic, passed on as an `int16_t`. It is centered whenever the
      conversion does not wrap, and it is negative exactly when the text is at
      least two pixels larger than the panel. */
  function CenterCoordinate(extent: Int16, size: Uint16): (c: Int16)
    ensures extent - size >= -0x1_0001 ==> Centered(extent, size, c)
    ensures extent - size >= -0x1_0001 ==> (c < 0 <==> size >= extent + 2)
  {
    ToInt16(CDiv2(extent - size))
  }

  /** The cursor `drawCentered` sets for a text of `w` by `h` pixels on a
      panel of `width` by `height` pixels. */
  function CenterOrigin(width: Int16, height: Int16, w: Uint16, h: Uint16): (p: Point)
    ensures width - w >= -0x1_0001 ==> Centered(width, w, p.x) && (p.x < 0 <==> w >= width + 2)
    ensures height - h >= -0x1_0001 ==> Centered(height, h, p.y) && (p.y < 0 <==> h >= height + 2)
  {
    Point(CenterCoordinate(width, w), CenterCoordinate(height, h))
  }

  /** What one frame shows: the text, printed at the cursor. */
  datatype Frame = Frame(text: string, cursor: Point)

  /** `drawCentered(txt)`: measure the text, set the cursor from its width
      and height, print it. `bounds` stands for the font metrics of
      `getTextBounds`. */
  function DrawCentered(txt: string, width: Int16, height: Int16, bounds: string -> TextBox): (f: Frame)
    ensures f.text == txt
    ensures width - bounds(txt).w >= -0x1_0001 ==> Centered(width, bounds(txt).w, f.cursor.x)
    ensures height - bounds(txt).h >= -0x1_0001 ==> Centered(height, bounds(txt).h, f.cursor.y)
  {
    var box := bounds(txt);
    Frame(txt, CenterOrigin(width, height, box.w, box.h))
  }

  /** The offsets of the bounding box play no part in the cursor: two
      boxes of the same size give the same frame. */
  lemma DrawCenteredIgnoresOffsets(txt: string, width: Int16, height: Int16,
                                   bounds1: string -> TextBox, bounds2: string -> TextBox)
    requires bounds1(txt).w == bounds2(txt).w && bounds1(txt).h == bounds2(txt).h
    ensures DrawCentered(txt, width, height, bounds1) == DrawCentered(txt, width, height, bounds2)
  {
  }
}
