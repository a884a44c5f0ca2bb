/** The conversion table: an ordered list of (RGB colour, palette index)
    pairs, read from a palette file and validated against the output mode,
    or one of the built-in tables. */
module Palette {

  import opened Types

  /** The output types the converter accepts. */
  datatype Mode =
    | Screen0 | Screen1 | Screen2 | Screen3 | Screen4 | Screen5 | Screen6
    | Screen7 | Screen8 | Sprite1 | Sprite2

  /** One palette line after its hex colour and decimal index are parsed. */
  datatype Entry = Entry(rgb: seq<Byte>, index: int)

  type Table = seq<Entry>

  /** The index test of the palette loader: the index must lie in 0..15, and
      screen 0 admits only 1, screen 1 only 0 and 1, screen 6 nothing above 4. */
  predicate IndexAccepted(mode: Mode, x: int)
  {
    !(x > 15 || x < 0
      || (mode == Screen0 && x != 1)
      || (mode == Screen1 && (x != 0 && x != 1))
      || (mode == Screen6 && x > 4))
  }

  /** The range of indices each mode admits, stated per mode. */
  lemma IndexAcceptedRanges(mode: Mode, x: int)
    ensures mode == Screen0 ==> (IndexAccepted(mode, x) <==> x == 1)
    ensures mode == Screen1 ==> (IndexAccepted(mode, x) <==> x == 0 || x == 1)
    ensures mode == Screen6 ==> (IndexAccepted(mode, x) <==> 0 <= x <= 4)
    ensures mode !in {Screen0, Screen1, Screen6} ==> (IndexAccepted(mode, x) <==> 0 <= x <= 15)
  {
  }

  /** A palette line that passes both checks of the loader. */
  predicate EntryAccepted(mode: Mode, e: Entry)
  {
    |e.rgb| == 3 && IndexAccepted(mode, e.index)
  }

  /** The check the loader applies to the error of a rejected line: the
      colour length is checked before the index. */
  function EntryError(e: Entry): Error
  {
    if |e.rgb| != 3 then InvalidPaletteEntry else InvalidPaletteIndex
  }

  /** Validation of a palette file, line by line in file order; the first
      bad line stops the load. An accepted table keeps the file's order. */
  function Validate(lines: seq<Entry>, mode: Mode): (r: Result<Table>)
    ensures r.Ok? <==> forall k | 0 <= k < |lines| :: EntryAccepted(mode, lines[k])
    ensures r.Ok? ==> r.value == lines
    ensures r.Err? ==>
      exists k | 0 <= k < |lines| ::
        && !EntryAccepted(mode, lines[k])
        && r.error == EntryError(lines[k])
        && forall k' | 0 <= k' < k :: EntryAccepted(mode, lines[k'])
  {
    if |lines| == 0 then Ok([])
    else if |lines[0].rgb| != 3 then Err(InvalidPaletteEntry)
    else if !IndexAccepted(mode, lines[0].index) then Err(InvalidPaletteIndex)
    else
      match Validate(lines[1..], mode)
      case Ok(t) => Ok([lines[0]] + t)
      case Err(e) =>
        ghost var k :| 0 <= k < |lines[1..]| && !EntryAccepted(mode, lines[1..][k])
          && e == EntryError(lines[1..][k])
          && forall k' | 0 <= k' < k :: EntryAccepted(mode, lines[1..][k']);
        assert !EntryAccepted(mode, lines[k + 1]) && e == EntryError(lines[k + 1]);
        assert forall k' | 0 <= k' < k + 1 :: EntryAccepted(mode, lines[k']);
        Err(e)
  }

  const ScreenZeroTable: Table := [
    Entry([0xFF, 0xFF, 0xFF], 1)      // text colour
  ]

  const ScreenOneTable: Table := [
    Entry([0x24, 0x24, 0xFF], 0),     // text colour 0
    Entry([0xFF, 0xFF, 0xFF], 1)      // text colour 1
  ]

  const ScreenSixTable: Table := [
    Entry([0x00, 0x00, 0x00], 0),     // transparent
    Entry([0x01, 0x01, 0x01], 1),     // black
    Entry([0x24, 0xDB, 0x24], 2),     // medium green
    Entry([0x6D, 0xFF, 0x6D], 3)      // light green
  ]

  const GraphicTable: Table := [
    Entry([0x00, 0x00, 0x00], 0),     // transparent
    Entry([0x01, 0x01, 0x01], 1),     // black
    Entry([0x24, 0xDB, 0x24], 2),     // medium green
    Entry([0x6D, 0xFF, 0x6D], 3),     // light green
    Entry([0x24, 0x24, 0xFF], 4),     // dark blue
    Entry([0x49, 0x6D, 0xFF], 5),     // light blue
    Entry([0xB6, 0x24, 0x24], 6),     // dark red
    Entry([0x49, 0xDB, 0xFF], 7),     // cyan
    Entry([0xFF, 0x24, 0x24], 8),     // medium red
    Entry([0xFF, 0x6D, 0x6D], 9),     // light red
    Entry([0xDB, 0xDB, 0x24], 10),    // dark yellow
    Entry([0xDB, 0xDB, 0x92], 11),    // light yellow
    Entry([0x24, 0x92, 0x24], 12),    // dark green
    Entry([0xDB, 0x49, 0xB6], 13),    // magenta
    Entry([0xB6, 0xB6, 0xB6], 14),    // gray
    Entry([0xFF, 0xFF, 0xFF], 15)     // white
  ]

  /** The built-in table of a mode, used when no palette file is given:
      white as text colour 1 in screen 0; blue and white as colours 0 and 1
      in screen 1; otherwise the MSX colours in index order, only the first
      four in screen 6. */
  function DefaultTable(mode: Mode): (t: Table)
    ensures mode == Screen0 ==> t == [Entry([0xFF, 0xFF, 0xFF], 1)]
    ensures mode == Screen1 ==> t == [Entry([0x24, 0x24, 0xFF], 0), Entry([0xFF, 0xFF, 0xFF], 1)]
    ensures mode == Screen6 ==> t == GraphicTable[..4]
    ensures mode !in {Screen0, Screen1} ==> forall k | 0 <= k < |t| :: t[k].index == k
    ensures mode !in {Screen0, Screen1, Screen6} ==> |t| == 16
  {
    GraphicTableShape();
    match mode
    case Screen0 => ScreenZeroTable
    case Screen1 => ScreenOneTable
    case Screen6 => ScreenSixTable
    case _ => GraphicTable
  }

  /** Every built-in table passes the same validation as a palette file for
      its mode. */
  lemma DefaultTableAccepted(mode: Mode)
    ensures Validate(DefaultTable(mode), mode) == Ok(DefaultTable(mode))
  {
    var t := DefaultTable(mode);
    match mode
    case Screen0 =>
      assert t == ScreenZeroTable;
      AllAccepted(ScreenZeroTable, mode);
    case Screen1 =>
      assert t == ScreenOneTable;
      AllAccepted(ScreenOneTable, mode);
    case Screen6 =>
      assert t == ScreenSixTable;
      ScreenSixAccepted();
    case _ =>
      assert t == GraphicTable;
      GraphicAccepted(mode);
  }

  /** No built-in table lists a colour twice, so the first matching entry
      is the only one. */
  lemma DefaultColorsDistinct(mode: Mode)
    ensures forall a, b | 0 <= a < b < |DefaultTable(mode)| :: DefaultTable(mode)[a].rgb != DefaultTable(mode)[b].rgb
  {
    GraphicColorsDistinct();
  }

  lemma GraphicColorsDistinct()
    ensures forall a, b | 0 <= a < b < 16 :: GraphicTable[a].rgb != GraphicTable[b].rgb
  {
    GraphicTableShape();
  }

  lemma ScreenSixAccepted()
    ensures Validate(ScreenSixTable, Screen6) == Ok(ScreenSixTable)
  {
    assert forall k | 0 <= k < 4 :: ScreenSixTable[k].index == k && |ScreenSixTable[k].rgb| == 3;
    AllAccepted(ScreenSixTable, Screen6);
  }

  lemma GraphicAccepted(mode: Mode)
    requires mode !in {Screen0, Screen1, Screen6}
    ensures Validate(GraphicTable, mode) == Ok(GraphicTable)
  {
    GraphicTableShape();
    forall k | 0 <= k < 16
      ensures EntryAccepted(mode, GraphicTable[k])
    {
      IndexAcceptedRanges(mode, GraphicTable[k].index);
    }
    AllAccepted(GraphicTable, mode);
  }

  lemma AllAccepted(t: Table, mode: Mode)
    requires forall k | 0 <= k < |t| :: EntryAccepted(mode, t[k])
    ensures Validate(t, mode) == Ok(t)
  {
  }

  lemma GraphicTableShape()
    ensures |GraphicTable| == 16
    ensures forall k | 0 <= k < 16 :: GraphicTable[k].index == k && |GraphicTable[k].rgb| == 3
  {
  }

  /** Every entry of the table is a 3-byte colour with an index in 0..15. */
  predicate WellFormed(t: Table)
  {
    forall k | 0 <= k < |t| :: |t[k].rgb| == 3 && 0 <= t[k].index < 16
  }

  /** The loader: a parsed palette file when one is given, the mode's
      built-in table otherwise. */
  function ConversionTable(palette: Option<seq<Entry>>, mode: Mode): (r: Result<Table>)
    ensures palette.None? ==> r == Ok(DefaultTable(mode))
    ensures palette.Some? ==> (r.Ok? <==> forall k | 0 <= k < |palette.value| :: EntryAccepted(mode, palette.value[k]))
    ensures r.Ok? ==> WellFormed(r.value)
    ensures r.Ok? ==> forall k | 0 <= k < |r.value| :: IndexAccepted(mode, r.value[k].index)
  {
    match palette
    case Some(lines) => Validate(lines, mode)
    case None =>
      DefaultTableAccepted(mode);
      Ok(DefaultTable(mode))
  }
}
