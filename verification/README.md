# MSX image converter core, modelled in Dafny

The converter reads a 24-bit BMP file. It maps every pixel's colour to an MSX
palette index through a conversion table: either the built-in table of the
output mode, or a palette file validated against the mode. It then packs the
indices into the byte layout of one of the MSX screen modes:

- screen 0 and screen 1 pattern bytes;
- screens 2 and 4: pattern and colour bytes;
- screen 3: colour nibbles;
- screen 5 and screen 6 linear bitmaps;
- hardware sprites, modes 1 and 2;
- a SIF file, which is a 7-byte header followed by screen 5 nibbles.

All of it is in `functions.py`. This project models those steps as pure
functions and short methods over sequences, and proves what each of them
computes:

- the palette check accepts exactly the lines whose colour is three bytes and
  whose index the mode admits, and every built-in table passes that check;
- the BMP header fields are little-endian, and decoding undoes encoding;
- the classifier reads each pixel's bytes from the right row for both row
  orders, takes the first matching table entry, and stops at the first
  unmapped colour (screen 0 maps it to 0 instead);
- the packers' bytes unpack back to the pixels they came from, within the
  limits of each layout: screens 0 and 1 for 0/1 pixels, screen 6 for
  indices up to 3 (an index of 4 spills out of its 2-bit slot), sprite
  patterns to the mask of coloured pixels, and screen 3 only to the four
  pixels of each block it samples.

Modules, one file each:

- `Types`: bytes, indices, errors with their exit codes.
- `Bits`: Python's `|` and `<<` on naturals, the one-bit-per-pixel shift
  register.
- `Palette`: `get_conversion_table`.
- `Bmp`: the header decode and size checks of `read_bmp`.
- `Classify`: `convert`.
- `Tiles`: screens 0, 1, 2/4 and 3.
- `Nibbles`: screens 5 and 6 and SIF.
- `Sprites`: sprite modes 1 and 2.

The writers produce byte values. The assembler text they format those values
into (labels, `db`, hex digits, commas) is not modelled.

The height is read from the file as an unsigned number, so it is never
negative in the program. `Classify.Convert` nonetheless models both of its row
orders, and `Sprites.Blocks` gives a negative height no blocks, as Python's
`range` does.

## Model

| member | source | states |
|---|---|---|
| Types.Error.ExitCode | functions.py:38-432 | each error ends the run with its own exit status (the `exit` calls at lines 38, 45, 110-121, 156, 242, 389 and 432): 0 for a bad palette colour, 1 for a bad palette index, 2 for bad dimensions, 3 for an unmapped colour, 4 for a third colour in a tile line, 5 for a second sprite colour, 6 for a second colour in a sprite line |
| Palette.IndexAcceptedRanges | functions.py:40-43 | the index test admits exactly 1 in screen 0, 0 and 1 in screen 1, 0..4 in screen 6 and 0..15 in every other mode |
| Palette.Validate | functions.py:34-45 | a palette file is accepted, unchanged and in file order, exactly when every line has a 3-byte colour and an admitted index; otherwise the first bad line gives the error, a bad colour taking precedence over a bad index |
| Palette.DefaultTable | functions.py:47-88 | the built-in tables: white as colour 1 in screen 0; blue and white as colours 0 and 1 in screen 1; the sixteen MSX colours with entry `k` as index `k` in the graphic modes, and their first four in screen 6 |
| Palette.DefaultColorsDistinct | functions.py:47-88 | no built-in table lists a colour twice, so the first matching entry is the only one |
| Palette.DefaultTableAccepted | functions.py:47-88 | each built-in table (screen 0, screen 1, screen 6, graphic modes) passes the same validation a palette file for that mode would |
| Palette.ConversionTable | functions.py:27-90 | without a palette file the mode's built-in table is used; with one, it is accepted exactly when all its lines are; an accepted table has 3-byte colours and indices in 0..15 that the mode admits |
| Bmp.ToLittleEndianRoundTrip | functions.py:100-105 | any byte string is the little-endian encoding of the number decoded from it |
| Bmp.LittleEndianRoundTrip | functions.py:100-105 | decoding the little-endian encoding of a number that fits gives the number back |
| Bmp.ReadHeader | functions.py:97-105 | the pixel offset, width and height are the unsigned little-endian values of bytes 10..13, 18..21 and 22..25, each below 2^32 |
| Bmp.HeaderRoundTrip | functions.py:97-105 | the reader recovers the three fields of any header written with them, whatever bytes follow |
| Bmp.ReadBmp | functions.py:92-132 | the reader fails, with the dimension error, exactly when screen 0 is not 6x8 or screens 1 and 2 are not 8x8; otherwise it returns the header's size and every byte from the pixel offset to the end of the file |
| Classify.Padding | functions.py:135 | the row padding is at most 3 bytes and brings a row of 3-byte pixels to a multiple of four |
| Classify.OffsetBottomUp | functions.py:138-141 | for a positive height the offset formula reads column `i % w` of stored row `h - 1 - i / w`, so the last stored row is the top image row |
| Classify.OffsetTopDown | functions.py:142-145 | for any other height the offset formula reads column `i % w` of stored row `i / w` |
| Classify.PixelRgb | functions.py:137-145 | a pixel's colour is the three bytes at column `i % w` of its stored row, each row `w * 3` bytes plus padding long, reordered from blue, green, red to red, green, blue |
| Classify.PixelRgbComplete | functions.py:137-145 | when the pixel data covers every row, each pixel's three bytes lie inside it, so the colour is always a full three-byte triple |
| Classify.Lookup | functions.py:146-148 | a colour maps to the index of the first table entry with that colour, and to nothing exactly when no entry has it |
| Classify.ReadColors | functions.py:137-145 | the classifier reads pixels in order up to the first one whose three bytes are not all in the pixel data; every pixel it reads has its colour bytes inside the data |
| Classify.VisitAll | functions.py:137-145 | the classifier reads every pixel exactly when the pixel data covers every row (all rows but the last in full, and the colour bytes of the last), and then it reads each pixel's colour |
| Classify.Convert | functions.py:134-159 | fails exactly when, outside screen 0, a colour read before the pixel data runs out is missing from the table, and names the first such colour; short pixel data is accepted only when that failure comes first, and a success means the data covers every row; on covering data it succeeds exactly in screen 0 or when every pixel's colour is in the table, with one index per pixel, top row first, unmapped screen 0 pixels becoming 0; with a validated table every index lies in 0..15 |
| Classify.ClassifyColors | functions.py:146-157 | the classifying loop: one index per colour in order, an unmapped colour becoming 0 in screen 0; it succeeds exactly in screen 0 or when every colour is in the table, and otherwise fails on the first unmapped colour; with a validated table every index lies in 0..15 |
| Bits.JoinNibbles | functions.py:251 | `hi` shifted left by four and or-ed with `lo` is a byte whose high nibble is `hi` and low nibble is `lo` |
| Bits.PackBitsRoundTrip | functions.py:209-215 | the or-then-shift register over 0/1 pixels holds the binary number they spell: below 2^n, and bit `n - 1 - j` is pixel `j` |
| Tiles.Screen0 | functions.py:184-191 | a 6x8 tile gives eight line values, each with its two low bits clear |
| Tiles.Screen0Bits | functions.py:184-191 | with 0/1 pixels each screen 0 value is a byte whose bits, from the top, are the line's six pixels and then two zeros |
| Tiles.Screen0AllOnes | functions.py:184-191 | a tile of all text colour gives 0xFC on every line |
| Tiles.Screen1 | functions.py:204-215 | eight values, one per 8-pixel line; a line of 0/1 pixels gives a byte whose bits, from the top, are its pixels |
| Tiles.Screen1Bits | functions.py:209-215 | with 0/1 pixels each screen 1 value is a byte whose bits, from the top, are the line's eight pixels |
| Tiles.ScanLine | functions.py:237-247 | the per-pixel colour scan either fails with the too-many-colours error, or yields the line's distinct colours in first-seen order (the first pixel's colour first) and a mask that marks exactly the pixels of the second colour |
| Tiles.ScanLineFails | functions.py:237-247 | the scan of a line fails exactly when the line holds three different colours |
| Tiles.ScanStopsAtThirdColor | functions.py:239-242 | the scan fails at the first pixel that makes three colours: before it two colours were seen, and it has neither |
| Tiles.LineBytes | functions.py:234-251 | a line's pattern and colour bytes exist exactly when it has at most two colours; otherwise the error is too many colours |
| Tiles.LineRoundTrip | functions.py:234-251 | every 8-pixel line with at most two colours gives two bytes that decode back to the line: a set bit takes the high-nibble colour, a clear bit the low-nibble one, and the first pixel's colour is the low nibble; a one-colour line gives pattern 0 and that colour as the whole colour byte |
| Tiles.Screens24 | functions.py:228-254 | a tile is accepted exactly when it has all 64 pixels and none of its lines has three colours; then line `i` is written as the pattern and colour byte `LineBytes` gives it, which decode back to the line; a tile with fewer pixels is accepted only when a line read before the data runs out has three colours, and then fails with that error |
| Tiles.NextLineWhole | functions.py:230-242 | in a tile that is full or has a line with three colours among its pixels in the data from line `i` on, a line `i` without a third colour among those pixels has all eight of them, and the third colour of a short tile is still further on |
| Tiles.ShortTileFails | functions.py:230-242 | a line with three colours among its pixels in the data makes a tile rejected whether or not the tile is full |
| Tiles.BlockByte | functions.py:272-273 | each screen 3 byte holds the pixel at the block corner (top or four lines down) in its high nibble and the pixel four columns to its right in its low nibble, both inside the image |
| Tiles.Screen3 | functions.py:270-280 | one output line per row of 8x8 blocks, two bytes per block; the block whose first pixel is `8j + 8iw` gives a top byte holding, as high and low nibble, its pixels at offsets 0 and 4, and a bottom byte its pixels at offsets `4w` and `4w + 4`, all inside the image |
| Nibbles.NibblesRoundTrip | functions.py:308-314 | two 4-bit pixels are the base-16 digits of their screen 5 byte, the first pixel high |
| Nibbles.CrumbsRoundTrip | functions.py:340-355 | four 2-bit pixels are the base-4 digits of their screen 6 byte, the first pixel highest |
| Nibbles.GroupRoundTrip | functions.py:308-314 | a full group of pixels that fit the depth packs to a byte that unpacks to the group |
| Nibbles.PackRowLength | functions.py:302-313 | an image line of `n` pixels takes `ceil(n / m)` bytes, `m` pixels per byte |
| Nibbles.RowRoundTrip | functions.py:302-355 | unpacking a packed line gives the line back, followed by the zero pixels that filled its last byte |
| Nibbles.Screen6IndexFour | functions.py:43 | the index 4 that the screen 6 palette check admits overflows its 2-bit slot: two different lines then give the same byte, and a leading 4 gives 256, which is not a byte |
| Nibbles.PairByte | functions.py:308-313 | at column `c` the screen 5 byte packs the pixel and, unless it ends the line, the next one, which then exists; the read stops at the end of the group |
| Nibbles.Screen5Step | functions.py:302-318 | one pass of the screen 5 loop: a new output line exactly at an image-line start, and the bytes written so far are the image lines before the pixel reached, each packed on its own |
| Nibbles.Screen5 | functions.py:291-321 | the screen 5 output lines are exactly the image lines packed on their own, two pixels per byte, an odd last pixel paired with 0 |
| Nibbles.QuadByte | functions.py:340-354 | at column `c` the screen 6 byte packs up to four pixels, stopping at the line end, missing pixels counting as 0 |
| Nibbles.Screen6Step | functions.py:336-359 | one pass of the screen 6 loop: a new output line exactly at an image-line start, and the bytes written so far are the image lines before the pixel reached, each packed on its own |
| Nibbles.Screen6 | functions.py:323-362 | the screen 6 output lines are exactly the image lines packed on their own, four pixels per byte |
| Nibbles.SifHeader | functions.py:471-473 | the header is "SIF", then the width rounded up to even and the absolute height, each decoding from two little-endian bytes |
| Nibbles.SifWidthMatchesRows | functions.py:472 | the header width is even and equals the number of nibbles in every full line of the body |
| Nibbles.SifPair | functions.py:477-483 | at the first pixel, or unless the pixel ends its line, the SIF byte also packs the next pixel; on images wider than one pixel this is the screen 5 byte |
| Nibbles.SifBody | functions.py:475-483 | the body is the screen 5 byte stream without line breaks for images at least two pixels wide; a one-pixel-wide image gets pixels 0 and 1 in its first byte and one pixel per byte after that |
| Nibbles.Sif | functions.py:463-486 | the file is the 7-byte header followed by the body |
| Nibbles.SifNarrowImage | functions.py:479 | on a one-pixel-wide image the first-pixel test makes the SIF bytes differ from screen 5: pixels 1 and 2 give 0x12 rather than 0x10 and 0x20 |
| Sprites.PixelOrder | functions.py:379-383 | the writers' three nested loops visit pixel `k` of line `j` of block `i` as visited pixel `64i + 8j + k` |
| Sprites.Sprite16Quarters | functions.py:383 | in a 16x16 sprite the four blocks are its top-left, bottom-left, top-right and bottom-right quarters |
| Sprites.Sprite8RowMajor | functions.py:383 | an 8x8 sprite is one block read row by row |
| Sprites.SquareSpritesReadable | functions.py:379-383 | every pixel the writers read in an 8x8 or 16x16 image exists |
| Sprites.Pixels | functions.py:379-383 | the visited pixels are eight lines of eight per block, `width * height // 64` blocks |
| Sprites.LinePatternBits | functions.py:382-392 | a sprite line's pattern is a byte whose bit `7 - k` is set exactly when pixel `k` is not colour 0 |
| Sprites.Patterns | functions.py:380-393 | one pattern byte per visited line, unpacking to that line's colour mask |
| Sprites.TrackAll | functions.py:384-390 | the colour check fails exactly when two visited pixels have different non-zero colours; otherwise it keeps the one colour shared by every coloured pixel, or none when no pixel is coloured |
| Sprites.Visited | functions.py:379-383 | the writers read visited pixels in order up to the first one past the end of the pixel data, each one the image pixel at its position |
| Sprites.ReadAll | functions.py:379-383 | the writers read every visited pixel exactly when all of them exist, and then they read exactly the sprite's visited pixels |
| Sprites.Sprite1 | functions.py:370-412 | sprite mode 1 fails exactly when two visited pixels read before the data runs out have different non-zero colours; a sprite whose blocks reach past the data is accepted only when that failure comes first; otherwise it gives the pattern of every line and the sprite's one colour, none for an empty sprite |
| Sprites.HasConflict | functions.py:425-432 | the line-by-line check fails exactly when some line has two different colours |
| Sprites.LineColors | functions.py:424-440 | each line's colour byte is 0 for a line without colour and otherwise the colour of every coloured pixel of the line |
| Sprites.ColorRows | functions.py:436-448 | the colour text's `db` lines, read one after the other, are exactly the line colours; every line holds the eight colours of one block, except an empty last line, which is there exactly when the image has no blocks or `width * height / 64` is not a whole number |
| Sprites.ColorMismatchBlocks | functions.py:447-451 | for more than one block the line comparison reads only existing lines exactly with four blocks or more, three blocks when the text ends with an empty line or block 2's colours differ from block 0's, and two blocks when the text ends with an empty line; where it reads, it finds a mismatch exactly when the right half's line colours do not repeat the left half's |
| Sprites.Sprite2 | functions.py:414-461 | sprite mode 2 fails exactly when some line, as far as it was read before the data runs out, has two colours; a sprite whose blocks reach past the data is accepted only when that failure comes first; otherwise it gives all patterns and the colours of the first one or two blocks, flagged consistent exactly when the sprite is one block or the line colours of its blocks 2 and 3 (the right half of a 16x16 sprite) repeat those of blocks 0 and 1 (the left half) |
| Sprites.Sprite1Sprite2 | functions.py:370-461 | every sprite mode 1 accepts, mode 2 accepts too, with the same patterns and every line colour either 0 or the sprite's colour |

## Left out

- Command-line parsing (`parse_input`) and the dispatch in `write`: the output
  mode is a parameter of every member.
- Palette file reading: the file's text, `bytearray.fromhex` and `int`, and
  line 30 opening `sys.argv[2]`. The model starts from parsed lines, each an
  `Entry` of colour bytes and index; a malformed hex string or number, which
  makes Python raise, is not modelled.
- File I/O, output file names, and the assembler text: labels, `db`, hex
  formatting, commas and line breaks. The writers return byte values. Screen 3,
  5 and 6 group them into the lines the text breaks at; the tile writers give
  one value per tile line; the sprite patterns and colours are flat sequences,
  eight per block, while the text breaks after each block.
- Printed messages and `exit`: every error is an `Error` value. `ExitCode`
  gives the exit status of each.
- The `hwsprite` size check at line 119 is dead code, because no output type
  has that name. `Sprites.SquareSpritesReadable` states what it would have
  ensured.
- `write_screen7` and `write_screen8` do nothing, so they have no model.
- Python exceptions on inputs too short for the indices read are excluded by
  preconditions rather than modelled as failures. Where the program's own
  error (exit 3, 4, 5 or 6) is raised before the first read past the end, the
  input is accepted and the model returns that error; only the inputs that
  reach the out-of-range read are excluded:
  - fewer than 48 or 64 pixels for screens 0 and 1, and for screens 2 and 4
    unless a line read before the data runs out has three colours (screen 4's
    size is not checked);
  - a screen 5 or 6 line whose last group would read past the data;
  - a sprite whose blocks reach past the data, unless the colour check fails
    on the pixels read before that;
  - a zero width;
  - SIF on a one-pixel image;
  - BMP pixel data shorter than the rows the classifier reads, unless a colour
    read before that is missing from the table outside screen 0.
- Sprites.Sprite2: for a sprite whose pixels all exist, with other than one
  block and without a two-colour line, requires the comparison of colour-text lines to read only lines the
  text has (`ColorCheckInRange`), because otherwise `color_lines[3]` or
  `color_lines[4]` raises `IndexError`: no blocks; two blocks covering the
  image exactly; three blocks covering it exactly whose block 2 repeats
  block 0's colours (`Sprites.ColorMismatchBlocks` lists the accepted cases).
- Sprites.ColorTableLines: `width * height / 64` is a float. The model compares
  exactly, and does not model the rounding of products above 2^53.
- Nibbles.SifHeader: requires the padded width and the height to fit in two
  bytes, because `to_bytes(2, ...)` raises `OverflowError` otherwise.
- Nibbles.Sif: requires the same as SifHeader and SifBody, for the same reasons.
- Nibbles.SifBody: the first-pixel test `i == 0 or` is modelled as written.
  For a zero width the source only avoids dividing by zero when the image has
  no pixels or exactly two.
- Python's unbounded integers are kept unbounded. The only values that can
  exceed a byte are a screen 6 index of 4 (see `Nibbles.Screen6IndexFour`) and
  palette indices above 1 in screens 0 and 1, which validation rejects.
