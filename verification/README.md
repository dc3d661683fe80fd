# FractionsOS: a verified model

FractionsOS is a small 32-bit kernel. This project models the parts of it that compute
rather than talk to devices, and proves what they promise:

- the VBE renderer (`drivers/x64/Video/vbe/vbe.c`): an alpha-blending pixel write, clipped
  blits, glyphs and text, and an overlapping scroll, all in one flat back buffer;
- the round-robin scheduler (`drivers/x64/Interrupt/scheduler.c`);
- the VGA text console and `printk` (`drivers/x64/Video/vga`);
- the image encoder (`encode.py`) whose arrays the renderer draws;
- the FAT32 layout and the ATA register writes that address a disk
  (`drivers/x64/Storage`). The cluster formula is the one of Microsoft's FAT32 File System
  Specification 1.03 (first data sector plus (N - 2) times sectors per cluster), and the
  registers follow the 28-bit form of READ SECTOR(S) in ATA/ATAPI-6.

## How it is built

The code that updates state is a class or a method with loops, and each such method is proved
to perform an operation of a specification that has no loops and no flat buffer. The laws are
lemmas about the specification.

| file | content |
|---|---|
| `Bits.dfy`, `Seqs.dfy`, `Grid.dfy`, `CStrings.dfy` | 32-bit wrap-around, bit operators defined bit by bit, rows of a flat buffer, NUL-terminated strings |
| `Pixel.dfy` | packing, channel extraction, the blend and its fixed points |
| `Picture.dfy` | pictures as rows of pixels; compositing a stamp, scrolling, and the laws between them |
| `Text.dfy` | the cursor, the grid of character cells, and the laws of drawn text |
| `Vbe.dfy` | the class `Display` with the loops of `vbe.c` |
| `Commands.dfy` | runs of drawing calls and the pixel format they keep |
| `Scheduler.dfy`, `SchedulerRuns.dfy` | the class `Kernel`; runs that mix creations and switches in any order |
| `Vga.dfy`, `Printk.dfy` | the class `Console`, its layout, and the formatter in front of it |
| `Encode.dfy` | the printing loops and a reader that inverts them |
| `Ata.dfy`, `Fat32.dfy` | register writes as a drive understands them; clusters and sectors |

Reading aids. The kernel is built with `gcc -m32` (`scripts/compile.sh:7`), so addresses,
`size_t` and `uintptr_t` have 32 bits. `U32(v)` is the value a `uint32_t` keeps; it is defined
by repeated wrapping and proved to be the remainder modulo 2^32. `Span(n, size)` is `n * size`,
counted up, and `SpanIsProduct` says so. Both are written this way to keep the proofs in linear
arithmetic. A `Stamp` is ink with a top left corner on the plane
of 2^32 by 2^32 coordinates that C's unsigned arithmetic wraps around; bitmaps and glyphs are
both stamps. `Column` counts the characters since the last newline, `Line` the newlines.

## Results worth knowing

- Text drawing has its closed form for every origin and every colour, translucent ones
  included: the only condition is that the grid of cells goes at most once around the plane,
  which every string of up to 2^28 characters meets.
- `vbe_scroll(a); vbe_scroll(b)` is not always `vbe_scroll(a + b)`: the product
  `lines * font_height` wraps. `ScrollsAddExactly` gives the exact condition, and
  `ScrollsAddFails` an input on a 640 by 480 screen: two scrolls by 2^27 lines clear it, the
  scroll by 2^28 lines moves nothing.
- The first `schedule()` saves the boot context into slot 0 and so overwrites the stack pointer
  of the frame that was built there. `SlotZeroNeverStartsFresh` proves that slot 0 is
  never entered with that frame, in any run, and `FirstEntryFindsFrame` that every other slot
  starts from its own. `kernel_main` reads as if its first task would
  start from it; the model follows the code.
- A stack of 27 bytes is always big enough for the frame of a new task, and 26 is not:
  `StackOkExactly` gives the exact condition.
- `printk` compares its position with 255 only between the pieces of the format, so a `%s`
  argument has to fit as a whole. `FormatInto` proves of the loop itself that it writes the
  positions 0 to `Ends` and no other, whatever the size of the memory under it; `SafeExactly`
  says when `Ends` stays inside the 256 bytes. `LongArgumentOverflows` exhibits the inputs that
  do not: `"%s"` with 256 characters already puts the final NUL at index 256.
- `ata.c` cuts the drive number to its low bit and the sector address to 28 bits;
  `SettingsDetermineAddress` says that nothing else is lost.

## Model

| member | source | states |
|---|---|---|
| Bits.U32IsRemainder | drivers/x64/Video/vbe/vbe.c:72-73 | what a `uint32_t` sum or difference keeps is its remainder modulo 2^32, negative intermediate values included |
| Bits.AndBit | drivers/x64/Video/vbe/vbe.c:85 | masking with one shifted bit is non-zero exactly when that bit is set |
| Grid.RowsUpdate | drivers/x64/Video/vbe/vbe.c:48-51 | a write at `y * width + x` changes column x of row y and no other pixel of any row |
| Grid.RowsShift | drivers/x64/Video/vbe/vbe.c:124-129 | moving the words from row k on to the front and filling the rest moves whole rows up by k |
| CStrings.EndsAtZero | drivers/x64/Video/vga/vga.c:23 | byte 0, and only it, ends a string |
| Pixel.Argb | drivers/x64/Video/vbe/vbe.h:15 | the OR of the shifted bytes is the base-256 number with these digits, so the fields do not mix |
| Pixel.Alpha | drivers/x64/Video/vbe/vbe.c:47 | shift and mask give the most significant byte |
| Pixel.PackExtract | drivers/x64/Video/vbe/vbe.h:15-16 | packing then extracting gives the channels back, and extracting then packing gives the colour back |
| Pixel.MixMoves | drivers/x64/Video/vbe/vbe.c:61-63 | a blended channel lies between foreground and background, so the narrowing to a byte loses nothing; it is the background moved by alpha/255 of the gap, rounded down |
| Pixel.MixMonotone | drivers/x64/Video/vbe/vbe.c:61-63 | the blend is monotone in foreground and background |
| Pixel.MixProgress | drivers/x64/Video/vbe/vbe.c:61-63 | a translucent draw moves a channel strictly towards the foreground unless the gap rounds to nothing, and says when it does |
| Pixel.BlendChannel | drivers/x64/Video/vbe/vbe.c:50-66 | a translucent draw leaves an opaque pixel whose extracted channels are the blended channels |
| Pixel.BlendEnds | drivers/x64/Video/vbe/vbe.c:47-66 | a colour below 0x100_0000 leaves a pixel as it is, one from 0xFF00_0000 on replaces it |
| Pixel.BlendInNumbers | drivers/x64/Video/vbe/vbe.c:47-66 | in between, the new pixel is 0xFF and, for each channel, (f * alpha + b * (255 - alpha)) / 255, as plain digits of the words |
| Pixel.BlendBetweenAndMonotone | drivers/x64/Video/vbe/vbe.c:47-66 | both bounds and monotonicity survive packing, for whole pixels |
| Pixel.BlendReachesFixedPoint | drivers/x64/Video/vbe/vbe.c:44-67 | after 255 or more draws of any one colour, another draw changes nothing |
| Pixel.ChannelSettles | drivers/x64/Video/vbe/vbe.c:47-66 | where it stops: exactly at the foreground from above, and from below at a value b not past f with alpha*(f-b) < 255 |
| Pixel.BlendFixedPoints | drivers/x64/Video/vbe/vbe.c:47-66 | a translucent draw leaves a pixel alone if and only if it is opaque and each channel is below the foreground by less than one rounding step |
| Picture.CompositeStep | drivers/x64/Video/vbe/vbe.c:70-78 | blending the next ink pixel at its wrapped position adds exactly that pixel to the part laid so far, on or off screen |
| Picture.TransparentPixel | drivers/x64/Video/vbe/vbe.c:44-67 | a pixel write with alpha 0 changes no picture, at any position |
| Picture.BitmapPixel | drivers/x64/Video/vbe/vbe.c:69-79 | under a bitmap at any wrapped position a colour below 0x100_0000 keeps the pixel and one from 0xFF00_0000 on replaces it; beside it nothing changes |
| Picture.LaidOnce | drivers/x64/Video/vbe/vbe.c:69-107 | a pixel covered by one of several stamps is blended once with that stamp's ink, a pixel covered by none stays |
| Picture.DisjointStampsCommute | drivers/x64/Video/vbe/vbe.c:69-79 | drawings that share no screen pixel can be done in either order |
| Picture.RepeatedStampSettles | drivers/x64/Video/vbe/vbe.c:44-79 | 255 draws of one bitmap in one place, with any mixture of alphas, exhaust it |
| Picture.ScrollComposes | drivers/x64/Video/vbe/vbe.c:115-130 | scrolling by a rows and then by b rows is scrolling by a+b rows, across the moving and the clearing branch |
| Picture.ScrollsAddWithoutOverflow | drivers/x64/Video/vbe/vbe.c:115-130 | the same for line counts, whenever (a+b) * font_height fits in 32 bits |
| Picture.ScrollsAddExactly | drivers/x64/Video/vbe/vbe.c:115-130 | two scrolls are the scroll by the sum on every picture if and only if their row counts do not overflow together or the wrapped sum still clears the screen |
| Picture.ScrollsAddFails | drivers/x64/Video/vbe/vbe.c:115-130 | an input where two scrolls clear the screen and the scroll by the sum moves nothing |
| Picture.ScrollCommutesWithStamp | drivers/x64/Video/vbe/vbe.c:69-130 | drawing a bitmap at y and scrolling by k, or scrolling and drawing at y-k modulo 2^32, agree on every row that the scroll does not blank |
| Picture.ScrolledPixel | drivers/x64/Video/vbe/vbe.c:115-130 | after a scroll, with n = lines * font_height mod 2^32, each pixel is the one n rows below, or 0 where there is none |
| Text.CursorOnGrid | drivers/x64/Video/vbe/vbe.c:92-106 | the cursor that wraps at every step is the grid line of the current column and line |
| Text.CellOnGrid | drivers/x64/Video/vbe/vbe.c:91-107 | each character's cell is placed by its line and column alone, and a newline has none |
| Text.CellShows | drivers/x64/Video/vbe/vbe.c:81-89 | a cell is exactly one glyph wide and high and shows the glyph's font bits |
| Text.CellsDisjoint | drivers/x64/Video/vbe/vbe.c:91-107 | no screen position lies in two cells |
| Text.TextClosedForm | drivers/x64/Video/vbe/vbe.c:81-107 | after drawing a string a pixel in the cell of character n is its old value blended once with that glyph's ink, and a pixel in no cell is unchanged |
| Text.OpaqueTextClosedForm | drivers/x64/Video/vbe/vbe.c:81-107 | with opaque colours it is foreground or background by the font bit |
| Text.UnwrappedTextFits | drivers/x64/Video/vbe/vbe.c:91-107 | the closed form applies to every string whose cells stay below coordinate 2^32 |
| Text.ShortTextFits | drivers/x64/Video/vbe/vbe.c:91-107 | it applies to every string of at most 2^28 characters at any origin |
| Text.TextSplits | drivers/x64/Video/vbe/vbe.c:91-107 | drawing s1, newline, s2 is drawing s1, then s2 at the left margin below, for all strings and colours |
| Text.PenBelowFormula | drivers/x64/Video/vbe/vbe.c:96-99 | "below" is font_height * (newlines of s1 + 1) further down, modulo 2^32 |
| Text.LineAdvances | drivers/x64/Video/vbe/vbe.c:92-106 | in a line without byte 10, each further character is the glyph drawn font_width times the characters before it to the right, modulo 2^32 |
| Text.ByteTenBreaks | drivers/x64/Video/vbe/vbe.c:96-100 | byte 10 draws nothing; the rest is drawn at the left margin one font_height lower, modulo 2^32 |
| Text.GlyphPixels | drivers/x64/Video/vbe/vbe.c:83-87 | column i of a glyph row shows bit 7 - i, foreground if it is set |
| Text.OpaqueRedraw | drivers/x64/Video/vbe/vbe.c:91-107 | redrawing an opaque string in place changes nothing, even where cells overlap |
| Text.ScrollCommutesWithText | drivers/x64/Video/vbe/vbe.c:91-130 | drawing a string and scrolling by k, or scrolling and drawing it k rows higher, agree on every row not blanked |
| Vbe.Display.Init | drivers/x64/Video/vbe/vbe.c:19-37 | a black picture of the given size and the 8 by 16 font |
| Vbe.Display.DrawPixel | drivers/x64/Video/vbe/vbe.c:44-67 | exactly one on-screen pixel is blended; an off-screen or transparent draw leaves every word of the buffer, an opaque one stores the colour |
| Vbe.Display.DrawBitmap | drivers/x64/Video/vbe/vbe.c:69-79 | every pixel under the bitmap, for any wrapping or clipped position, is blended exactly once with its bitmap pixel, and no other changes |
| Vbe.Display.DrawChar | drivers/x64/Video/vbe/vbe.c:81-89 | the glyph of the built-in font is composited at (x, y) |
| Vbe.Display.DrawString | drivers/x64/Video/vbe/vbe.c:91-107 | the loop draws the text up to the NUL as the specification of text drawing says |
| Vbe.Display.Clear | drivers/x64/Video/vbe/vbe.c:109-113 | every word of the buffer and every pixel of the picture is the given colour |
| Vbe.Display.MoveToFront | drivers/x64/Video/vbe/vbe.c:124-126 | the overlapping in-place copy delivers the old words |
| Vbe.Display.Scroll | drivers/x64/Video/vbe/vbe.c:115-130 | the copy and the fill are the out-of-place row shift, or the blank picture |
| Vbe.Display.SetFont | drivers/x64/Video/vbe/vbe.c:132-136 | only the glyph size changes for drawing |
| Commands.PowerOn | drivers/x64/Video/vbe/vbe.c:19-37 | runs begin with the display that initialisation leaves |
| Commands.Perform | drivers/x64/Video/vbe/vbe.c:44-136 | each call on the display has the effect that runs are built from |
| Commands.RunAppend | drivers/x64/Video/vbe/vbe.c:44-136 | a run of a concatenation is the run of its second part after the run of its first |
| Commands.PerformAll | drivers/x64/Video/vbe/vbe.c:44-136 | a whole run of calls on a display gives the picture that the laws about runs speak of |
| Commands.ClearFormatted | drivers/x64/Video/vbe/vbe.c:109-113 | clearing keeps the pixel format if and only if the colour is 0 or opaque, or there is no pixel |
| Commands.PixelFormatInvariant | drivers/x64/Video/vbe/vbe.c:19-136 | in every run that clears only to 0 or opaque colours each pixel is 0 or has alpha 0xFF |
| Scheduler.AlignDown | drivers/x64/Interrupt/scheduler.c:27 | the mask rounds down to the nearest multiple of 16 |
| Scheduler.Kernel.constructor | drivers/x64/Interrupt/scheduler.c:10-11 | an empty slot table at load time |
| Scheduler.Kernel.Schedule | drivers/x64/Interrupt/scheduler.c:13-17 | the given stack pointer is saved in the current slot, the next slot in the ring becomes current, and its stack pointer is returned |
| Scheduler.Kernel.CreateTask | drivers/x64/Interrupt/scheduler.c:24-34 | below 32 tasks: the words arg, 0, f at the aligned stack top minus 4, 8 and 12, no other word of memory changed, the pointer in a new slot and its id; with 32 tasks 2^32-1 and no change at all |
| SchedulerRuns.CurrentInUse | drivers/x64/Interrupt/scheduler.c:13-34 | in every run from load at most 32 slots exist and the current one is in use |
| SchedulerRuns.BoundedWaiting | drivers/x64/Interrupt/scheduler.c:13-34 | however creations and switches interleave, an existing slot is selected within Wait switches, at most 32 |
| SchedulerRuns.WaitIsExact | drivers/x64/Interrupt/scheduler.c:13-17 | in a full table one switch fewer leaves the slot unselected |
| SchedulerRuns.RoundRobin | drivers/x64/Interrupt/scheduler.c:13-17 | while the number of slots stays the same, n switches lead to slot (start + n) mod total |
| SchedulerRuns.WindowSelectsEachOnce | drivers/x64/Interrupt/scheduler.c:13-17 | any `total` consecutive switches select every slot exactly once |
| SchedulerRuns.SavedContextIntegrity | drivers/x64/Interrupt/scheduler.c:13-34 | each selection loads what was stored when the slot was last left, or at creation, and nothing in between stored into the slot |
| SchedulerRuns.FrameKeptUntilLeft | drivers/x64/Interrupt/scheduler.c:13-34 | on the table itself: a slot holds the pointer given when it was left until it is left again |
| SchedulerRuns.PerformAll | drivers/x64/Interrupt/scheduler.c:13-34 | a whole run of creations and switches on the kernel gives the table that the laws about runs speak of |
| SchedulerRuns.SlotZeroNeverStartsFresh | drivers/x64/Interrupt/scheduler.c:13-40 | slot 0 is only ever entered with a stack pointer saved when it was left |
| SchedulerRuns.FirstEntryIsFresh | drivers/x64/Interrupt/scheduler.c:13-34 | every slot j >= 1 is entered for the first time with the stack pointer stored at its creation |
| SchedulerRuns.FirstEntryFindsFrame | drivers/x64/Interrupt/scheduler.c:13-34 | on disjoint stacks the words f, 0, arg of that slot's creation lie at that stack pointer, intact |
| SchedulerRuns.StackOkExactly | drivers/x64/Interrupt/scheduler.c:27-31 | the frame fits the stack if and only if size >= 12 + (stack + size) mod 16; 27 bytes suffice, 26 may not |
| SchedulerRuns.FramesIntact | drivers/x64/Interrupt/scheduler.c:24-34 | on disjoint stacks every frame f, 0, arg stays inside its own stack and intact through any later steps |
| SchedulerRuns.IdsCountUp | drivers/x64/Interrupt/scheduler.c:24-34 | the n-th successful creation, counted from 0, happens with n slots in use, and so returns the id n |
| Vga.Cell | drivers/x64/Video/vga/vga.c:37 | colour and character are recoverable from the cell |
| Vga.Console.constructor | drivers/x64/Video/vga/vga.c:3-6 | cursor and colour at load time |
| Vga.Console.SetColor | drivers/x64/Video/vga/vga.c:8-10 | background in the high nibble, foreground in the low one |
| Vga.Console.Init | drivers/x64/Video/vga/vga.c:12-20 | all 2000 cells are light grey blanks, 0x720 |
| Vga.Console.WriteString | drivers/x64/Video/vga/vga.c:22-42 | cells and cursor are those of the text up to the NUL |
| Vga.CursorLayout | drivers/x64/Video/vga/vga.c:22-42 | the cursor with its late wrap in closed form: completed segments, then (n-1)/80 rows, column (n-1)%80 + 1 |
| Vga.GlyphLayout | drivers/x64/Video/vga/vga.c:31-36 | character m of a segment goes to row m/80, column m%80 of the segment |
| Vga.LineTakesRows | drivers/x64/Video/vga/vga.c:24-34 | after a line without byte 10, from any cursor, byte 10 writes no cell and moves to column 0 of the first row below; from column 0 a line of length L takes max(1, ceil(L/80)) rows |
| Vga.TargetsDistinct | drivers/x64/Video/vga/vga.c:22-42 | later characters go to later cells, so no two share one |
| Vga.TextLayout | drivers/x64/Video/vga/vga.c:22-42 | after a text that fits each character is in its cell and every other cell is as before |
| Vga.PlainTextCells | drivers/x64/Video/vga/vga.c:31-40 | a text without byte 10 fills consecutive cells from row * 80 + column on with colour * 256 + character, and no other cell |
| Vga.WriteAppend | drivers/x64/Video/vga/vga.c:22-42 | writing s and then t is writing s+t |
| Vga.FitsExactly | drivers/x64/Video/vga/vga.c:22-42 | a text stays on the screen if and only if every character's cell by the layout is one of the 2000 |
| Vga.FitsAppend | drivers/x64/Video/vga/vga.c:22-42 | s+t stays on the screen if and only if s does, and t does from where s ends |
| Vga.WriteTwice | drivers/x64/Video/vga/vga.c:22-42 | two calls leave cells and cursor as one call with the concatenation does |
| Printk.CopyString | drivers/x64/Video/vga/printk.c:16 | the argument is appended up to its NUL, and nothing behind it changes |
| Printk.FormatInto | drivers/x64/Video/vga/printk.c:10-23 | over memory of any size the loop stops at `Ends`, has written the expansion up to there and the NUL at `Ends`, and has touched nothing behind |
| Printk.Format | drivers/x64/Video/vga/printk.c:8-23 | the buffer holds the first 255 characters of the expansion, then NUL |
| Printk.Print | drivers/x64/Video/vga/printk.c:4-28 | that text is what the console shows, at the cursor |
| Printk.PrintsWhole | drivers/x64/Video/vga/printk.c:10-23 | a well-formed format that expands to at most 255 characters is safe and printed whole |
| Printk.PrintsTruncated | drivers/x64/Video/vga/printk.c:10-23 | one without `%s` is safe and cut after 255 expanded characters |
| Printk.EndsWithinExpansion | drivers/x64/Video/vga/printk.c:11-22 | the loop stops with the expansion used up, or not before position 255 |
| Printk.EndsInsideExactly | drivers/x64/Video/vga/printk.c:11-23 | for a well-formed format the position where the source's loop stops, and puts the NUL, is at most 255 if and only if every argument whose turn comes before position 255 ends by position 255 |
| Printk.SafeExactly | drivers/x64/Video/vga/printk.c:8-23 | the same from position 0, as what a caller of printk owes |
| Printk.LongArgumentOverflows | drivers/x64/Video/vga/printk.c:14-23 | `"%s"` with an argument of n characters stops at position n, and is safe if and only if n <= 255 |
| Printk.PiecesExpand | drivers/x64/Video/vga/printk.c:11-22 | the texts of the pieces that this condition speaks of, joined, are the expansion |
| Printk.ExpandByBytes | drivers/x64/Video/vga/printk.c:11-22 | bytes 37, 115 give the next argument, 37 and any other byte nothing, every other byte itself |
| Printk.WellFormedByBytes | drivers/x64/Video/vga/printk.c:11-22 | a format is well formed unless a 37 ends it or an argument is missing |
| Encode.WordRoundTrip | encode.py:35 | a 32-bit value prints as exactly eight upper-case digits that determine it |
| Encode.WordDigits | encode.py:35 | digit k of the eight is `0123456789ABCDEF` at n / 16^(7-k) mod 16 |
| Encode.PrintRow | encode.py:31-36 | one row: indentation, tokens in order, newline |
| Encode.PrintBody | encode.py:30-36 | the nested loops print the rows of the row-major pixel list |
| Encode.RowShape | encode.py:31-36 | a row is four spaces, twelve characters for each pixel in order, and a newline |
| Encode.BodyShape | encode.py:30-36 | the body is the rows back to back: row y begins at y * (12 * width + 5) |
| Encode.EncoderRoundTrip | encode.py:30-36 | reading the printed body gives width * height values, and the renderer's channel extraction gives back each pixel |
| Encode.TextDeterminesImage | encode.py:30-36 | equal bodies come from equal images |
| Ata.DeviceByte | drivers/x64/Storage/ATA/ata.c:37 | LBA mode, bit 0 of the drive, and the top four of 28 address bits, for every drive and address |
| Ata.Channel.ReadSectors | drivers/x64/Storage/ATA/ata.c:35-42 | the writes to 0x1F6 and 0x1F2 to 0x1F5 carry drive, count and address, and command 0x20 asks drive `drive % 2` to read at the low 28 bits of the address |
| Ata.Channel.WriteSectors | drivers/x64/Storage/ATA/ata.c:50-63 | command 0x30 at the same address, 256 words of the buffer in order for each sector to port 0x1F0, then command 0xE7 |
| Ata.AddressReadsBack | drivers/x64/Storage/ATA/ata.c:37-41 | drive and address are recoverable from the registers |
| Ata.SettingsDetermineAddress | drivers/x64/Storage/ATA/ata.c:37-41 | equal settings if and only if equal drive parity and equal low 28 bits |
| Fat32.Volume.Init | drivers/x64/Storage/FS/fat32.c:16-27 | the data area begins where the last FAT ends, modulo 2^32; on a volume of another type the layout stays |
| Fat32.ClusterToLbaFormula | drivers/x64/Storage/FS/fat32.c:12-14 | for every operand the sector is (data_begin + (cluster - 2) * sectors_per_cluster) mod 2^32 |
| Fat32.ClusterStart | drivers/x64/Storage/FS/fat32.c:12-14 | below the 28-bit limit the wrapping formula gives the exact sector |
| Fat32.ClustersTile | drivers/x64/Storage/FS/fat32.c:12-24 | clusters 2, 3, ... cover each sector of the data area, no other sector, and none twice |
| Fat32.ClusterStartsDistinct | drivers/x64/Storage/FS/fat32.c:12-22 | distinct clusters start at distinct sectors if and only if a cluster has a sector (or there is only one) |
| Fat32.SectorsHaveDistinctSettings | drivers/x64/Storage/FS/fat32.c:12-24 | drive, cluster and sector are told apart by the ATA register settings |

## Left out

- Vbe.Display.Init: a size with width * height * 4 of 2^32 or more is excluded, since the allocation size would wrap; allocation failure, the mode registers, `bpp`, `pitch` and the frame buffer address are not modelled.
- Vbe.Display.DrawBitmap: a bitmap that overlaps the back buffer is excluded.
- Vbe.Display.DrawChar: the font table is any 256 by 16 table of bytes, because its content is elided in the source; sizes beyond 8 by 16, which would read outside a glyph, are excluded.
- Vbe.Display.SetFont: the font bitmap it stores is never read by the source and has no field here.
- Vga.Console.WriteString: characters of 0x80 and above and text below row 24 are excluded; the source neither masks nor scrolls.
- Vga.TextLayout: the row counter must not pass 2^32, which would take that many newlines.
- Printk.Format: an argument list is a sequence of strings, and the format must be `Safe`; what lies behind the buffer on the stack is not modelled.
- Scheduler.Kernel.Schedule: a switch is one atomic step that returns the stack pointer it loads; what the processor does with it, and how a new frame starts to run, is not modelled. A switch with no slots in use divides by zero and is excluded.
- Scheduler.Kernel.CreateTask: memory is a map of aligned 32-bit words; the ignored priority has no parameter. What a running program writes to its stack is outside the model.
- Fat32.Volume.Init: the content of sector 0 is a parameter.
- Ata.Channel.ReadSectors: the words read, the waiting for status bits and the count register's meaning of 0 are not modelled.
- Ata.Channel.WriteSectors: `outsw` is not part of this model; it is given its usual meaning.
- Commands.PowerOn: the sizes excluded for Vbe.Display.Init.
- Printk.Print: the characters and rows excluded for Vga.Console.WriteString.
- `vbe_swap_buffers`: a plain copy of the whole buffer.
- `fat32_open` and file reading: the source breaks off inside the loop over the path.
- PIL image loading, header guards and file naming in `encode.py`, and the element width of the generated arrays (`uint64_t`) against the blit's `uint32_t`.
- Port and memory-mapped access, PIC, interrupts and NVMe, the boot code: device interaction only. `register_interrupt_handler` discards its handler, so no timer switch happens on its own.
- `memcpy`, `memmove` and `memset`: `string.h` and `memory.h` are not part of this model; the loops in `Vbe.Display` give them their usual meaning.
