# Verification of the algorithmic cores

This project models five components of the repository in Dafny and proves what they are for.
Operations that change state are methods on classes and arrays, in the loops and with the branches
of the C code; each is proved equal to a function of its input, and the lemmas are about those
functions.

**xxd** (`XxdFormat`, `XxdDump`, `XxdLayout`, `XxdRevert`, `XxdRoundTrip`, `XxdPatch`, `XxdPlain`).
The dump loops lay out lines in a character buffer by integer column arithmetic, `xxdline` holds
zero lines back, and `huntype` reads text back with a window of three characters. Reading a normal
dump with the same number of columns restores the bytes, on seekable files and on pipes, for every
group size and with or without suppressed lines. Printed lines in any order patch a file; a pipe
refuses them exactly when a line starts before the end of the one in front of it. Any PostScript
text is read as its digits alone, whatever blanks and line breaks stand between them, and two
garbage characters end the data of a line. What a dump looks like is stated column by column and
line by line.

**Atlas and font** (`Vectors`, `Skyline`, `TextureAtlas`, `TextureFont`). The node vector always
denotes a height for every column. `texture_atlas_get_region` searches node starts only, yet gives
the lowest row that has room anywhere; it fails exactly when there is no place inside the border
with all columns below it low enough, and then changes nothing. Regions are disjoint and inside the border, `used` is the sum of their areas and never
exceeds the inner area. Several fonts may load their glyphs into one atlas, as the sizes of a face
do: the bitmaps of all of them stay intact and stay separated by black pixels, until the atlas is
cleared.

**Distance transform** (`EdgeDistance`, `EdgeCoverage`, `DistanceSweep`, `DistanceMeaning`,
`DistanceField`). The edge estimate is the inverse of an area: the signed distance of the straight
edge that covers as much of the pixel as its value says. A distance is the length of the vector to
an object pixel plus that estimate across the vector. `edtaa3` ends, because every accepted test
uses up at least one epsilon of a finite energy; when it ends, no pixel can profit from any of its
neighbours, border and corner pixels included. All vectors lead to object
pixels inside the image, so no index leaves the arrays and rows never wrap. With one object pixel
every pixel gets a seed. A distance is positive exactly where the image is below one half, whatever
the gradients, so the map is on the side of one half that the image is not. `make_distance_mapd`
divides by zero exactly when the largest pixel is one half, `make_distance_mapb` exactly when the
largest byte is twice the smallest and not 0.

**HTTP responses** (`CText`, `CNumbers`, `HttpText`, `HttpConnection`, `HttpBody`, `HttpResponse`,
`HttpMessages`). The
transport delivers a fixed stream of bytes in arbitrary pieces. Every reader is proved equal to a
function of that stream, so results do not depend on the pieces. Chunked bodies are decoded to
exactly their data; on a truncated stream a prefix is delivered and success is not reported. Interim
responses are skipped and the body is framed as section 6.3 of RFC 9112 orders it. `HttpMessages`
says so of whole messages, from the digits of the status line to the last byte of the body.

**Log replication** (`LoggerTree`, `LogMeaning`, `LogRecord`, `LogReplay`, `Loggers`, `LogPeer`). A
logger is a tree of node objects that grows in place; its invariant says that tree and counter are what the messages handled
so far make of an empty logger, and that the bytes for the peer are the records of the messages
recorded so far. A peer that receives those bytes in any pieces replays the same messages in order,
each once, and shows the same messages at every node. A refused message can leave nodes behind that
the peer never hears of; when the nodes are the same, and when the children are in the same order as
well, is stated exactly, in terms of the node texts alone.

The stream of the HTTP transport, the answers of `recv`, the loaded glyph bitmaps and the square
root are parameters. `double` is `real`; the square root is any function with `sqrt(x) >= 0` and
`sqrt(x) * sqrt(x) == x` (`IsSqrt`).

Where code and comments disagree the code is followed: the comment on `xxdline` says that three or
more zero lines are replaced by a star, but the first of them is always shown and only the others
are replaced. `xxd -r` is documented to patch a file, but the code resets its column only behind a
full line: a line behind a partial one does not patch its place (`XxdPatch.PartialLineSpoils`), so
the patch theorem wants every line but the last to be full.

## Model

| member | source | states |
|---|---|---|
| XxdFormat.ColumnArithmetic | external/xxd/xxd.c:848 | the column formula (2g + 1) * p / g is 2p plus one blank per complete group |
| XxdFormat.BlanksBeforeAscii | external/xxd/xxd.c:842-874 | exactly two blanks between the last digit and the ASCII text of a full line, at least two more for each missing byte |
| XxdFormat.LinePrintable | external/xxd/xxd.c:842-874 | no CR, LF or NUL inside a line, so dropping the rest of a line is sound |
| XxdDump.ClosedShown | external/xxd/xxd.c:398-407 | what the flush with a negative nz adds to the text, by the number of zero lines that came last |
| XxdDump.LinePrinter.XxdLine | external/xxd/xxd.c:409-439 | its two variables and its output are those of the declarative account of what is shown of a sequence of lines, for all three signs of nz |
| XxdDump.DumpNormal | external/xxd/xxd.c:832-894 | the loop over the line buffer writes every row at its place, in bounds, and prints the normal dump of the bytes |
| XxdDump.DumpPostscript | external/xxd/xxd.c:801-822 | the loop prints pairs of digits with a line break behind every cols of them |
| XxdLayout.HexDigitIs | external/xxd/xxd.c:222 | the digits are '0' to '9' and the letters from 'a' or 'A' on, and they are read back as their values |
| XxdLayout.LineFrame | external/xxd/xxd.c:840-880 | eight lower case digits of the offset modulo 2^32, a colon, and a line break behind one cell for every byte |
| XxdLayout.LineDigits | external/xxd/xxd.c:848-849 | the digits of byte p stand at column 10 + 2p + p / g, high digit first |
| XxdLayout.LineCell | external/xxd/xxd.c:868-874 | its cell in the ASCII text is the byte itself from blank to tilde, and a dot otherwise |
| XxdLayout.LineBlank | external/xxd/xxd.c:844 | every other column between the colon and the ASCII text is blank |
| XxdLayout.ZeroRunShown | external/xxd/xxd.c:409-439 | a run of k zero lines in front of another line shows its first line, both if k is 2, and a star behind the first if k is 3 or more |
| XxdLayout.ZeroRunClosed | external/xxd/xxd.c:398-439 | at the end of the input the last line of the run is shown too, so only four and more are shortened |
| XxdLayout.NoAutoskip | external/xxd/xxd.c:832-894 | without autoskip the dump is one line for every cols bytes and one for the rest |
| XxdLayout.ZeroFile | external/xxd/xxd.c:832-894 | with autoskip four and more lines of zeros are dumped as the first, a star and the last |
| XxdLayout.PlainLines | external/xxd/xxd.c:801-822 | a PostScript dump has cols bytes on a line and the rest on a last one |
| XxdLayout.PairsAt | external/xxd/xxd.c:807-808 | two digits for every byte, high digit first |
| XxdRevert.SkipLine | external/xxd/xxd.c:361-382 | dropping the rest of a line stops right behind the next line break |
| XxdRevert.Huntype | external/xxd/xxd.c:280-394 | for every text, mode and file the loop leaves the file and the code of the character automaton, whose meaning SpacedTextRead, GarbageDropped, PatchesRead and CarriageReturnsIgnored give over the text alone |
| XxdRoundTrip.HiddenIsZero | external/xxd/xxd.c:409-439 | whatever lies between the last shown row and the current one is zero bytes |
| XxdRoundTrip.ReadLine | external/xxd/xxd.c:304-383 | reading one printed line writes exactly its row at its address, over what is there and behind zero bytes; only a full line leaves the reader ready for another address |
| XxdRoundTrip.ReadShown | external/xxd/xxd.c:280-394 | after reading the shown lines of the first n bytes the file holds them up to the last shown row |
| XxdRoundTrip.NormalRoundTrip | external/xxd/xxd.c:280-394 | reverting a normal dump of up to 2^32 bytes with the same columns gives the bytes back behind the base offset, suppressed lines included |
| XxdPatch.PatchesRead | external/xxd/xxd.c:336-383 | printed lines in any order patch the file, later over earlier; it fails exactly when an address is before the start of the file, or on a pipe before the end of the line in front |
| XxdPatch.CarriageReturnsIgnored | external/xxd/xxd.c:292-293 | a text is read like the text without its carriage returns, in every state of the reader |
| XxdPatch.PartialLineSpoils | external/xxd/xxd.c:361-382 | a line behind a partial one is not patched in: the first digits of its address are written as data |
| XxdPlain.PostscriptRoundTrip | external/xxd/xxd.c:298-371 | reverting a PostScript dump gives the bytes back for any two column settings |
| XxdPlain.SpacedTextRead | external/xxd/xxd.c:295-299 | any text of digits, blanks, tabs and line breaks gives the bytes its pairs of digits spell, behind the base offset; a single digit writes nothing, but moves a pipe |
| XxdPlain.GarbageDropped | external/xxd/xxd.c:373-383 | two adjacent garbage characters behind data drop the rest of their line, digits included, and nothing of the next |
| Vectors.Vector.constructor | external/freetype-gl/vector.c:15-32 | an empty vector |
| Vectors.Vector.Get | external/freetype-gl/vector.c:50-58 | the element at the index |
| Vectors.Vector.Reserve | external/freetype-gl/vector.c:125-136 | the capacity grows to at least the given one, the contents stay |
| Vectors.Vector.Clear | external/freetype-gl/vector.c:164-170 | no elements, same storage |
| Vectors.Vector.Set | external/freetype-gl/vector.c:174-185 | that element and no other changes |
| Vectors.Vector.Insert | external/freetype-gl/vector.c:189-209 | the item stands at the index, everything behind it moved up, storage doubled when full |
| Vectors.Vector.EraseRange | external/freetype-gl/vector.c:213-227 | exactly the range is gone |
| Vectors.Vector.Erase | external/freetype-gl/vector.c:231-239 | exactly that element is gone |
| Vectors.Vector.PushBack | external/freetype-gl/vector.c:243-248 | the item is the new last element |
| Skyline.SlideLeft | external/freetype-gl/texture-atlas.c:107-144 | sliding a fitting window left to the start of a node does not raise its row, so node starts suffice |
| Skyline.RoomIff | external/freetype-gl/texture-atlas.c:123-143 | the height of the window, if it crosses no border, is the least row with room at that column: room says that the region is inside the border and no column under it is higher |
| Skyline.Raised | external/freetype-gl/texture-atlas.c:221-251 | exactly the columns of the region end at its lower edge, the others stay |
| Skyline.PackedRaise | external/freetype-gl/texture-atlas.c:170-255 | a region put on the peak of its window is disjoint from all others, inside the border and below the new skyline |
| Skyline.FilledRaise | external/freetype-gl/texture-atlas.c:252-253 | the skyline gains at least the area of the region |
| Skyline.FilledFits | external/freetype-gl/texture-atlas.c:252-253 | the space below the skyline never exceeds (W - 2) * (H - 2) |
| TextureAtlas.JoinNodes | external/freetype-gl/texture-atlas.c:149-167 | joining two neighbours of equal height keeps every column's height |
| TextureAtlas.Replaced | external/freetype-gl/texture-atlas.c:221-251 | a node put over the columns it covers raises exactly those columns |
| TextureAtlas.EveryColumn | external/freetype-gl/texture-atlas.c:184-212 | the best node start gives the lowest row with room anywhere, and no node start fits only if there is no room anywhere |
| TextureAtlas.ChosenRun | external/freetype-gl/texture-atlas.c:184-212 | of the level runs of columns that have room in the lowest row the first of the narrowest is taken: the choice among nodes, said of the heights alone |
| TextureAtlas.RegionPlaced | external/freetype-gl/texture-atlas.c:214-255 | the node list stays valid, the packing gains the region, and the area sum stays below the skyline |
| TextureAtlas.Atlas.constructor | external/freetype-gl/texture-atlas.c:15-52 | a black image, nothing allocated, all inner columns at height 1 |
| TextureAtlas.Atlas.SetRegion | external/freetype-gl/texture-atlas.c:70-102 | exactly the covered bytes take the bitmap's values, all others stay, no write outside |
| TextureAtlas.Atlas.CopyRow | external/freetype-gl/texture-atlas.c:97-101 | one row of the bitmap lands at its place and changes nothing else |
| TextureAtlas.Atlas.Fit | external/freetype-gl/texture-atlas.c:106-144 | the maximum height of the window at the node's start, or -1 when it crosses a border; RoomIff says what that is for |
| TextureAtlas.Atlas.Merge | external/freetype-gl/texture-atlas.c:148-167 | no two neighbours of equal height are left, the heights are unchanged, and the loop ends in spite of --i at 0 |
| TextureAtlas.Atlas.FindNode | external/freetype-gl/texture-atlas.c:184-212 | the first of the narrowest nodes with the lowest row over all columns, -1 exactly when nothing fits |
| TextureAtlas.Atlas.ShrinkAt | external/freetype-gl/texture-atlas.c:229-245 | a node under the new one loses its covered columns, or disappears when none is left |
| TextureAtlas.Atlas.ShrinkFrom | external/freetype-gl/texture-atlas.c:227-251 | the list continues right behind the new node, and the loop ends |
| TextureAtlas.Atlas.InsertAndShrink | external/freetype-gl/texture-atlas.c:221-251 | the columns of the new node are raised to it and no others change |
| TextureAtlas.Atlas.GetRegion | external/freetype-gl/texture-atlas.c:170-255 | over the heights alone: fails if and only if no x, y with 1 <= x, x + w <= W - 1, 1 <= y, y + h <= H - 1 has all columns x..x+w-1 at most y high; otherwise the least such y, at the first of the narrowest level runs; exactly those columns are raised and `used` grows by the area; on failure nothing changes; all regions stay disjoint and inside the border |
| TextureAtlas.Atlas.Clear | external/freetype-gl/texture-atlas.c:259-275 | as after construction |
| TextureFont.Isolated | external/freetype-gl/texture-font.c:453-466 | after any sequence of uploads into disjoint padded regions each bitmap is intact and its extra column and row are black |
| TextureFont.Separated | external/freetype-gl/texture-font.c:453-466 | two bitmaps are at least one column or row apart |
| TextureFont.GlyphIntact | external/freetype-gl/texture-font.c:453-466 | in every valid state byte ((y + i) * W + x) * depth + j of the image is the glyph's own byte, and zero in the padding |
| TextureFont.FontIntact | src/lib/nh-gfx/Fonts/FontManager.c:147-181 | in every valid state of a shared atlas each glyph of each font is there byte for byte, with a black column and row |
| TextureFont.GlyphCoordinates | external/freetype-gl/texture-font.c:477-481 | the texture coordinates of a glyph, scaled to pixels, are the borders of its bitmap |
| TextureFont.BitmapShown | external/freetype-gl/texture-font.c:453-466 | byte k of row j of the buffer is byte ((y + j) * W + x) * depth + k of the atlas, for every glyph of every font; the column and the row behind it are black |
| TextureFont.FontsSeparated | src/lib/nh-gfx/Fonts/FontManager.c:147-181 | any two glyphs, of one font or of two, are at least one column or row apart |
| TextureFont.SharedAtlas.constructor | src/lib/nh-gfx/Fonts/FontManager.c:150-157 | a fresh atlas serves no font yet |
| TextureFont.SharedAtlas.Place | external/freetype-gl/texture-font.c:453-466 | the bitmap is in the atlas and the image shows all uploads, or there is no room; the glyphs of all fonts stay |
| TextureFont.SharedAtlas.Clear | src/lib/nh-gfx/Fonts/FontManager.c:202-212 | clearing an atlas in use leaves exactly the fonts without glyphs right about it |
| TextureFont.Font.constructor | external/freetype-gl/texture-font.c:195-225 | one more font for an atlas that others have used already keeps all their glyphs |
| TextureFont.Font.FindGlyph | external/freetype-gl/texture-font.c:253-275 | the first glyph with the codepoint and, unless that is (uint32_t) -1, with mode and thickness; none exactly when there is none |
| TextureFont.Font.Append | external/freetype-gl/texture-font.c:468-481 | the new glyph stands for the last upload, hides no other and is hidden by none; the other fonts keep theirs |
| TextureFont.Font.AddGlyph | external/freetype-gl/texture-font.c:453-481 | one more glyph, whose size and texture coordinates are those of its upload and whose offsets are left and top of the bitmap; when there is no room the glyphs stay |
| TextureFont.Font.LoadGlyph | external/freetype-gl/texture-font.c:453-486 | a request that FreeType delivers is added, or counts as missed when the atlas has no room at any column |
| TextureFont.Font.LoadGlyphs | external/freetype-gl/texture-font.c:326-495 | the exact result: the number of requests without room, the number that is left after an error while loading, 0 after one while stroking; every other request is found afterwards; this font keeps its glyphs and all other fonts theirs |
| EdgeDistance.EdgeBounds | external/freetype-gl/edtaa3func.c:99-132 | the edge estimate lies within 0.75 for every gradient and value |
| EdgeDistance.EdgeSign | external/freetype-gl/edtaa3func.c:99-132 | the edge estimate is positive, zero or negative as the value is below, at or above one half, for every gradient |
| EdgeCoverage.CoveredGrows | external/freetype-gl/edtaa3func.c:118-130 | the area that an edge covers of a pixel, a triangle, a trapezium or all but a triangle, grows with its distance from the corner |
| EdgeCoverage.OneEdge | external/freetype-gl/edtaa3func.c:118-130 | so one edge across a normal covers a given area |
| EdgeCoverage.EdgeCovers | external/freetype-gl/edtaa3func.c:99-132 | for every gradient that is not zero and every value in 0..1, edgedf is the signed distance from the centre of the edge across it that covers the value |
| EdgeDistance.SeedDistanceBounds | external/freetype-gl/edtaa3func.c:134-159 | background is "not set"; away from the seed the distance is at least 0.25; it never exceeds the city-block distance by more than 0.75 |
| DistanceSweep.SeedInside | external/freetype-gl/edtaa3func.c:139 | every vector leads to a pixel of the image, is shorter than its sides, and c - xc - yc * w is that pixel's number |
| DistanceSweep.DistBounds | external/freetype-gl/edtaa3func.c:184-198 | every distance lies between -0.75 and the "not set" value |
| DistanceSweep.EnergyDrops | external/freetype-gl/edtaa3func.c:224-231 | lowering one distance by more than epsilon lowers the energy |
| DistanceSweep.Adopt | external/freetype-gl/edtaa3func.c:224-231 | an accepted test keeps every pixel initial or at the metric of its own seed, and lowers the energy |
| DistanceSweep.Test | external/freetype-gl/edtaa3func.c:218-231 | one neighbour test: keeps the arrays sound; either energy is used up or the test would fail again |
| DistanceSweep.Visit | external/freetype-gl/edtaa3func.c:214-246 | the tests of one pixel in order; if nothing changed, none of them would succeed |
| DistanceSweep.SweepDown | external/freetype-gl/edtaa3func.c:205-388 | a row from the row above and from its right; if nothing changed, none of its pixels can profit from these neighbours |
| DistanceSweep.SweepUp | external/freetype-gl/edtaa3func.c:390-570 | a row from the row below and from its left, likewise |
| DistanceSweep.RowTestsSuffice | external/freetype-gl/edtaa3func.c:205-570 | the special first and last columns and the second inner loop together reach every neighbour in the row and on that side |
| DistanceSweep.RowsSuffice | external/freetype-gl/edtaa3func.c:201-572 | both sweeps together reach all eight neighbours of every pixel, corners included |
| DistanceSweep.Pass | external/freetype-gl/edtaa3func.c:201-572 | a pass that changes nothing leaves a fixed point, every other pass uses up energy |
| DistanceSweep.Edtaa3 | external/freetype-gl/edtaa3func.c:164-576 | ends, for all inputs, with sound arrays that are a fixed point for all neighbours of all pixels; what their distances measure is said by DistanceMeans, OwnDistance and NeighbourSeeds |
| DistanceSweep.AwayFromSeed | external/freetype-gl/edtaa3func.c:184-198 | background ends at 0.25 or more, full object pixels at 0 or less |
| DistanceSweep.PixelSign | external/freetype-gl/edtaa3func.c:164-576 | in every sound state, for all gradients, a distance is positive exactly below one half, and zero at one half |
| DistanceSweep.KnownSpreads | external/freetype-gl/edtaa3func.c:201-572 | in a fixed point a neighbour of a pixel with an object seed has an object seed |
| DistanceSweep.KnownEverywhere | external/freetype-gl/edtaa3func.c:201-572 | so one object pixel gives every pixel a seed |
| DistanceSweep.Completeness | external/freetype-gl/edtaa3func.c:201-572 | with an object pixel no distance is "not set" at the end, and background is at a positive distance |
| DistanceMeaning.DistanceMeans | external/freetype-gl/edtaa3func.c:134-159 | a distance along a vector (dx, dy) is e + f: e > 0 with e * e == dx * dx + dy * dy, and f the offset at which a straight edge across the vector covers the value of an object pixel, the one the vector leads to |
| DistanceMeaning.OwnDistance | external/freetype-gl/edtaa3func.c:184-198 | a pixel that is its own seed: "not set" on background, at most 0 on full pixels, and on grey ones the offset at which an edge across the gradient covers the value |
| DistanceMeaning.HalfSeed | external/freetype-gl/edtaa3func.c:150-158 | the distance of a half covered seed is the Euclidean length |
| DistanceMeaning.FullSeed | external/freetype-gl/edtaa3func.c:150-158 | that of a full one is e - (abs(dx) + abs(dy)) / (2e) |
| DistanceMeaning.NeighbourSeeds | external/freetype-gl/edtaa3func.c:201-572 | at the end no pixel with a positive distance gains more than 0.001 from the seed of any neighbour, measured in the same way |
| DistanceMeaning.SingleSeed | external/freetype-gl/edtaa3func.c:164-576 | with one object pixel the transform is exact: every other pixel has its own vector to it and the distance along it |
| DistanceField.ComputeGradient | external/freetype-gl/edtaa3func.c:65-88 | every grey pixel inside has the unit vector of its own neighbourhood; zero on the border and on pixels that are not grey |
| DistanceField.GradientWeights | external/freetype-gl/edtaa3func.c:74-75 | right column minus left, lower row minus upper, with the weights 1, 1.4142136, 1 |
| DistanceField.RampGradient | external/freetype-gl/edtaa3func.c:74-83 | where the image is a ramp the gradient is the unit vector along its slope |
| DistanceField.Distances | external/freetype-gl/distance-field.c:25-42 | exactly max(0, d) for the distances d of a sound fixed point of the image with the gradients of computegradient |
| DistanceField.CutOff | external/freetype-gl/distance-field.c:27-30 | so the result is positive exactly below one half, at least 0.25 on background, 0 on full pixels, and never "not set" when there is an object pixel |
| DistanceField.MakeDistanceMapD | external/freetype-gl/distance-field.c:13-68 | for every image: there are such fields outer for it and inner for its inverse; with b = max(0, outer) - max(0, inner) and v the absolute value of the least b, the map is (max(-v, min(v, b)) + v) / (2v); v is not 0 exactly when the largest pixel is not one half; all values are in [0, 1], below, at or above one half as the image is above, at or below it |
| DistanceField.FullPixelIffBlack | external/freetype-gl/distance-field.c:92-94 | the scaling gives a full object pixel if and only if an image that is not black has a black pixel |
| DistanceField.DividesByZeroIff | external/freetype-gl/distance-field.c:44-51 | vmin is 0 if and only if the largest pixel is one half, for any two sound states of an image and its inverse and all gradients |
| DistanceField.ScaledMaximum | external/freetype-gl/distance-field.c:78-94 | the largest scaled byte is one half if and only if the maximum is twice the minimum and not 0 |
| DistanceField.MakeDistanceMapB | external/freetype-gl/distance-field.c:70-105 | for every image with extremes lo and hi: the bytes are floor(255 * (1 - map)) of the map of (v - lo) / hi; defined unless hi == 2 * lo > 0; on the side of 127 that 2 * (v - lo) against hi says; 255 is attained exactly when hi > 2 * lo; with hi < 2 * lo, or all black, every byte is 0 |
| CText.StrtoullPlain | src/lib/nh-network/HTTPClient.c:447-448 | a plain number in front of other text is converted to its value |
| CNumbers.DenotesValue | src/lib/nh-network/HTTPClient.c:447-448 | a text has the value n if and only if it writes n: its last digit is n modulo the base, and what stands in front writes the quotient; leading zeros allowed, bases 10 and 16 |
| CNumbers.StrtoullRead | src/lib/nh-network/HTTPClient.c:447-448 | blanks, a sign, 0x and a written number give that number, at most 2^64 - 1, modulo 2^64 behind a minus sign |
| CNumbers.ScanRead | src/lib/nh-network/HTTPClient.c:577 | blanks, a sign and a written number below 2^31 give that number |
| HttpText.LookupAgrees | src/lib/nh-network/HTTPClient.c:681-705 | scanning the flat header block is scanning the list of received lines |
| HttpText.LookupNone | src/lib/nh-network/HTTPClient.c:681-705 | not found exactly when no line has the name |
| HttpText.GetHTTPHeader | src/lib/nh-network/HTTPClient.c:681-705 | the first line with that name up to case, its value trimmed of blanks and cut to the buffer, or nothing |
| HttpConnection.LineFromIs | src/lib/nh-network/HTTPClient.c:389-404 | a line ends at the first line feed; carriage returns vanish; it fails exactly when the rest does not fit |
| HttpConnection.LineRead | src/lib/nh-network/HTTPClient.c:389-404 | a well-formed line is read as written, and nothing behind it is consumed |
| HttpConnection.Connection.FillBuffer | src/lib/nh-network/HTTPClient.c:373-384 | nothing is lost or invented; afterwards a byte is there unless the stream is over |
| HttpConnection.Connection.ReadLine | src/lib/nh-network/HTTPClient.c:389-404 | for every fragmentation the line and the remaining stream are functions of the stream |
| HttpConnection.HTTPBuffer.Append | src/lib/nh-network/HTTPClient.c:77-92 | the bytes stand behind the old contents, a NUL behind them, within the capacity |
| HttpBody.BodySink.Deliver | src/lib/nh-network/HTTPClient.c:406-414 | the piece goes to the callback or else into the buffer; only a callback can refuse |
| HttpBody.DeliverBody | src/lib/nh-network/HTTPClient.c:428-433 | the next bytes of the stream are delivered, and consumed if they were taken |
| HttpBody.ReadBody | src/lib/nh-network/HTTPClient.c:419-437 | for every fragmentation: exactly size bytes, or all of them and a failure, or all up to the end; a refusal ends it behind a part of them |
| HttpBody.SkipTrailers | src/lib/nh-network/HTTPClient.c:450-454 | stops behind the first empty line |
| HttpBody.ReadChunkedBody | src/lib/nh-network/HTTPClient.c:439-459 | for every fragmentation and every stream, well formed or not, delivers what the decoding function of the stream says, or a part of it up to a refusal |
| HttpBody.ChunkedDecodes | src/lib/nh-network/HTTPClient.c:439-459 | a chunked coding (section 7.1 of RFC 9112) with extensions and trailers gives exactly its data and stops behind the trailer section |
| HttpBody.ChunkedGrows | src/lib/nh-network/HTTPClient.c:439-459 | more bytes in the stream never change what was delivered, and do not change a complete body |
| HttpBody.ChunkedTruncated | src/lib/nh-network/HTTPClient.c:439-459 | on a truncated stream a prefix of the data is delivered, and success is reported if and only if nothing is missing |
| HttpResponse.StatusScanned | src/lib/nh-network/HTTPClient.c:576-581 | a proper status line gives its code |
| HttpResponse.ReadHeaders | src/lib/nh-network/HTTPClient.c:583-597 | the block is the list of header lines joined with CRLF; malformed and too large are told apart |
| HttpResponse.ReadHeads | src/lib/nh-network/HTTPClient.c:568-598 | interim heads are skipped and their header lines forgotten |
| HttpResponse.ReceiveBody | src/lib/nh-network/HTTPClient.c:602-618 | the choice made on the flat block is the choice on the list of lines |
| HttpResponse.ReceiveResponse | src/lib/nh-network/HTTPClient.c:561-628 | for every stream and fragmentation the response, or the failure, is the one the stream determines, and HttpMessages says which for every message and every way to fail; a callback is given the body instead, or a part of it and the response fails |
| HttpResponse.ResponseRead | src/lib/nh-network/HTTPClient.c:561-628 | after any number of interim responses: the final status, the final header lines, the framed body |
| HttpResponse.ChunkedResponse | src/lib/nh-network/HTTPClient.c:607-610 | with a chunked transfer coding the data of the chunks, whatever Content-Length says |
| HttpResponse.LengthResponse | src/lib/nh-network/HTTPClient.c:611-614 | otherwise exactly Content-Length bytes, or a failure with what came |
| HttpResponse.OtherResponse | src/lib/nh-network/HTTPClient.c:605-617 | no body for HEAD, 204 and 304; without either header everything up to the end of the stream |
| HttpResponse.LengthAccepted | src/lib/nh-network/HTTPClient.c:611-614 | a Content-Length is refused if and only if it does not start with a number, which is wider than 1*DIGIT |
| HttpResponse.NegativeLengthAccepted | src/lib/nh-network/HTTPClient.c:611-614 | "-1" is accepted and means up to the end of the stream, where section 6.3 of RFC 9112 asks for an error |
| HttpMessages.FieldMatches | src/lib/nh-network/HTTPClient.c:687-688 | a field has a name exactly if both differ at most in the case of letters: content-length is found |
| HttpMessages.LookupIs | src/lib/nh-network/HTTPClient.c:681-705 | the value of the first field with that name, without the blanks around it, cut to 255 characters |
| HttpMessages.MentionsIs | src/lib/nh-network/HTTPClient.c:607 | strcasestr finds a text that stands anywhere, in letters of any case |
| HttpMessages.CodeReported | src/lib/nh-network/HTTPClient.c:576-581 | the status is the number that the status line writes |
| HttpMessages.MessageReceived | src/lib/nh-network/HTTPClient.c:561-628 | whole messages: interim ones, 100 to 199, are skipped; code and header block of the final one; nothing for HEAD, 204 and 304; up to the end of the connection without chunked and Content-Length |
| HttpMessages.LengthReceived | src/lib/nh-network/HTTPClient.c:611-614 | a Content-Length that writes n, in any case and with leading zeros, frames exactly n bytes; fewer are a failure |
| HttpMessages.ChunkedReceived | src/lib/nh-network/HTTPClient.c:439-459 | chunk heads that write the lengths of their data in hexadecimal give exactly the data, whatever Content-Length says |
| HttpMessages.HeadTruncated | src/lib/nh-network/HTTPClient.c:572-588 | a head that ends early is no response before its first line feed and malformed behind it |
| HttpMessages.HeadTooLarge | src/lib/nh-network/HTTPClient.c:590-597 | a header block of more than 65536 characters fails; up to that it does not |
| HttpMessages.LongLinesFail | src/lib/nh-network/HTTPClient.c:389-404 | a status or header line of 8192 characters fails, a chunk head of 1024 |
| HttpMessages.StatusMalformed | src/lib/nh-network/HTTPClient.c:577-580 | a first line without HTTP/ in front or without a status behind the version is malformed |
| LoggerTree.WalkMeaning | src/lib/nh-monitor/Logger.c:84-123 | a node is found or created if and only if every name in the text is there and has at most 254 characters; no message is touched |
| LoggerTree.ChildrenKept | src/lib/nh-monitor/Logger.c:104-117 | new children stand behind the old ones |
| LoggerTree.OptionsParsed | src/lib/nh-monitor/Logger.c:125-159 | parsing printed options gives the options back |
| LoggerTree.UpdateMeaning | src/lib/nh-monitor/Logger.c:198-219 | a message lands at its node, replacing or appended as its options say, and changes no other message; refused exactly when a name is empty or too long; a crash exactly when it is not refused and an option has no name or "replace" no value |
| LogMeaning.NamesLead | src/lib/nh-monitor/Logger.c:84-123 | a:b:c leads from the root to a, b and c |
| LogMeaning.OptionForms | src/lib/nh-monitor/Logger.c:125-159 | name=value is an option; name= is dropped; a name alone is one and ends the text, whatever follows |
| LogMeaning.MessageLands | src/lib/nh-monitor/Logger.c:198-219 | a message lands at the node its names lead to and changes no other node |
| LogMeaning.MessageAppended | src/lib/nh-monitor/Logger.c:179-196 | without replace the text is put behind the others |
| LogMeaning.MessageReplaces | src/lib/nh-monitor/Logger.c:161-196 | replace=n, the last one counts, replaces message n and no other, and appends when there is none |
| LogMeaning.NegativeAppends | src/lib/nh-monitor/Logger.c:161-196 | a negative replace appends |
| LogMeaning.NoNumberIsZero | src/lib/nh-monitor/Logger.c:172 | a replace without a number counts as 0 |
| LogMeaning.NameRefused | src/lib/nh-monitor/Logger.c:96 | a name of more than 254 characters refuses the message and leaves no node |
| LogMeaning.CrashIff | src/lib/nh-monitor/Logger.c:161-177 | options kill the process exactly when a name is empty or a last one without value is replace |
| LoggerTree.WalkNodes | src/lib/nh-monitor/Logger.c:84-123 | a walk, successful or not, makes exactly the deepest place its valid names lead to and its ancestors |
| LoggerTree.WalkChildren | src/lib/nh-monitor/Logger.c:104-117 | a walk adds at most one name to the children of any node, at the end |
| Loggers.ParseLoggerOptions | src/lib/nh-monitor/Logger.c:125-159 | the scanning loops append exactly the options of the text |
| Loggers.ProcessLoggerOptions | src/lib/nh-monitor/Logger.c:161-177 | the last option "replace" counts; a NULL is read exactly when some option has no name or "replace" has no value |
| Loggers.Logger.constructor | src/lib/nh-monitor/Logger.c:39-52 | the empty log |
| Loggers.Logger.AddChild | src/lib/nh-monitor/Logger.c:104-117 | the node objects show the tree with the new child |
| Loggers.Logger.FindChild | src/lib/nh-monitor/Logger.c:99-102 | the child with that name, if there is one |
| Loggers.Logger.GetLoggerNode | src/lib/nh-monitor/Logger.c:84-123 | the walk on objects is the walk on the tree value, in success and in failure |
| Loggers.Logger.AddLogMessage | src/lib/nh-monitor/Logger.c:179-196 | only the node's messages change |
| Loggers.Logger.UpdateLogger | src/lib/nh-monitor/Logger.c:198-219 | tree, counter and outcome are those of the update function |
| Loggers.Logger.HandleLogMessage | src/lib/nh-monitor/Logger.c:221-245 | keeps over every run without a crash: tree and counter are the replay of all messages, sent and buffered bytes are the records of the recorded ones; and says which messages crash |
| Loggers.Logger.Flush | src/lib/nh-monitor/Logger.c:321-327 | the buffer goes out behind what was sent |
| Loggers.SentRecords | src/lib/nh-monitor/Logger.c:234-242 | what was sent is the records of the first recorded messages |
| LogRecord.RecordFaithful | src/lib/nh-monitor/Logger.c:239-241 | a record is read as its message if and only if the message fits 254 characters and its first two fields hold no separator |
| LogMeaning.RecordRead | src/lib/nh-monitor/Logger.c:239-241 | a message of up to 252 characters comes out of its 256 bytes as it was; missing options arrive as (null), empty ones as none |
| LogMeaning.RecordBytes | src/lib/nh-monitor/Logger.c:239-241 | the bytes of any record: the line as far as it fits into 254, and NULs |
| LogRecord.MessagesOfRecords | src/lib/nh-monitor/Monitor.c:222-228 | whole records in a buffer are read as their messages, in spite of the NULs written while splitting |
| LogReplay.UpdateSeen | src/lib/nh-monitor/Monitor.c:164-171 | a message has the same effect after it went through printf and splitByTwoPluses, empty or missing options and crashes included |
| LogReplay.ReplaySeen | src/lib/nh-monitor/Monitor.c:222-228 | so replaying what the peer sees is replaying the messages |
| LogReplay.AcceptedIs | src/lib/nh-monitor/Logger.c:227-229 | whether a message is accepted depends on its node text and options alone |
| LogReplay.AcceptedSuffice | src/lib/nh-monitor/Logger.c:227-229 | replaying the accepted messages gives the same messages at every node and the same count |
| LogReplay.ReplayNodes | src/lib/nh-monitor/Logger.c:84-123 | the nodes of a log are the places its messages reached, and their ancestors |
| LogReplay.SameNodesIff | src/lib/nh-monitor/Logger.c:227-229 | the accepted messages alone make the same nodes if and only if every message reached only the root or a place on the path of an accepted one |
| LogReplay.ChildrenAre | src/lib/nh-monitor/Logger.c:104-117 | the children of a node are in the order in which messages first led there |
| LogReplay.SameTreeIff | src/lib/nh-monitor/Logger.c:227-229 | they make the same tree, order of children included, if and only if they mention the children of every place in the same order |
| LogReplay.NothingLeftSuffices | src/lib/nh-monitor/Logger.c:227-229 | and so they do when no refused message left a new node |
| LogReplay.RefusedLeavesNodes | src/lib/nh-monitor/Logger.c:227-229 | an input whose refused message leaves a node that is not replicated |
| LogReplay.OrderCanDiffer | src/lib/nh-monitor/Logger.c:227-229 | an input with the same nodes on both sides and another order of children |
| LogPeer.ReceiveMessageFromLogger | src/lib/nh-monitor/Server.c:109-135 | for every fragmentation the next bytes of the stream, up to a record boundary; without an error inside a record nothing is lost |
| LogPeer.SplitByTwoPluses | src/lib/nh-monitor/Monitor.c:145-175 | the three parts around the first two separators, no second part when it is empty, and exactly which characters become NUL |
| LogPeer.ReplayRecords | src/lib/nh-monitor/Monitor.c:222-228 | the logger handles the messages in the buffer in order, up to one that cannot be split; it crashes exactly when one of them does |
| LogPeer.PeerMonitor.ReceiveOnce | src/lib/nh-monitor/Monitor.c:204-230 | one round replays a run of at most 1000 coming messages, leaves the others to come, and sets the state to 3, 1 or not at all |
| LogPeer.PeerMonitor.ReceiveNext | src/lib/nh-monitor/Monitor.c:204-230 | the same behind earlier rounds |
| LogPeer.PeerMonitor.UpdatePeerMonitor | src/lib/nh-monitor/Monitor.c:200-233 | over all rounds and fragmentations: in order, each once, none lost; without a receive error everything coming is replayed, or more than 100 messages; a closed connection with reset starts anew only after everything came; the state is 3 once a message was taken |
| LogPeer.PeerShowsSource | src/lib/nh-monitor/Monitor.c:203-231 | the peer counts and shows what the source does at every node; exactly when its nodes, and when its whole tree, are those of the source |

## Left out

- xxd: option parsing, `-l`, `-s`, `-o`, `-i`, `-b`, `-e`, `-E` and write errors; a seek past the end of the output leaves zero bytes.
- XxdDump.LinePrinter.XxdLine: the counter of zero lines is unbounded, in C it is an `int`.
- XxdRevert.Huntype: offsets are unbounded integers, in C a `long`; a text of more than 15 digits in front of a colon can overflow it.
- XxdPatch.PatchesRead: every line but the last is full; behind a partial line the code takes an address for data (PartialLineSpoils).
- TextureAtlas.Atlas.GetRegion: requests are positive and the atlas has sides of 3 and more; sizes that wrap in `int` sums are not modelled.
- Vectors.Vector.Reserve: memory never runs out; `vector_insert_data`, `vector_shrink`, `vector_sort` and the other members the atlas does not use are not modelled.
- TextureFont.Font.LoadGlyphs: FreeType, HarfBuzz and stroking are a list of loaded bitmaps and errors; kerning, metrics and `text-buffer.c` are not modelled. Texture coordinates are real quotients instead of `float`.
- DistanceSweep.Test: the sixteen tests per sweep, written out in the source, are calls of this one method with the neighbours in the source's order.
- DistanceSweep.Edtaa3: no rounding; with several object pixels the seed need not be the nearest one, which the sweeps do not guarantee; the image and the gradients are sequences because they are only read; sides are 2 to 32768 so that vectors fit a `short`.
- DistanceField.MakeDistanceMapD: where the division is by 0 the contents of the map are not stated; in C they are NaN.
- HttpConnection.Connection.FillBuffer: TLS, DNS, timeouts, requests and `EINTR` are not modelled; a read either delivers bytes, or the stream is over, cleanly or with an error.
- HttpConnection.HTTPBuffer.Append: a failing `realloc` is not modelled.
- HttpResponse.ReceiveResponse: where scanf leaves a too large number undefined, the saturating conversion of glibc is modelled.
- Loggers.Logger.HandleLogMessage: a process that read a NULL option text is taken to be gone; nothing is stated about its logger.
- Loggers.Logger.Flush: a buffer is sent whole; reconnecting, pauses, acknowledgements and the log callback are not modelled, nor is the width of the counter.
- LogPeer.PeerMonitor.UpdatePeerMonitor: says nothing about the messages when an error hits a record in the middle, because the code then loses what it had received of the buffer; the monitor's drawing and key handling are not modelled.
- The nh-api wrappers, the loopback listener, the older HTTP and SSL code, the workload scheduler and the OpenGL headers would only add forwarding.
