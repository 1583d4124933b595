# util3d typesetting, plane and sphere cores in Dafny

This project models three parts of the util3d OpenGL utility library.

- **The text typesetter (`type.c`).**
  - A UTF-8 decoder (`utf8`).
  - A font that lazily caches rendered letter faces ("sorts"). The cache is kept sorted by character and searched by binary search. Each new sort gets a shelf-packed place in a power-of-two texture atlas.
  - The layout of a line of text into textured quads:
    - `line_set` emits one quad per glyph;
    - `layout` walks the pen across a string, applying kerning and spreading the justification expansion over the spaces;
    - `line_layout` and `line_create` build the vertex array of a whole line;
    - `line_length` measures a string.
- **The ground plane (`plane.c`).**
  - A grid of `(n+1)²` points, each with four vertices.
  - Two `GLushort` element lists: the filled gaps between tiles, and the tiles and strips drawn as lines.
  - The counts `plane_render` draws.
- **The sphere generator (`obj-sphere.c`).**
  - The `(N+1)(2N+1)` vertices with their cylindrical texture coordinates.
  - The `2N·2N` triangles that tile the latitude/longitude grid.

Modules:

| module | file | models |
|---|---|---|
| `Wrappers` | wrappers.dfy | `Option`, for null pointers and failed allocations |
| `CInt` | cint.dfy | C's truncating `/` and the arithmetic `>> 6` of 26.6 fixed-point metrics |
| `Utf8` | utf8.dfy | `utf8` as written (`Next`) and corrected (`NextFixed`); the walk `for (p = str; (c = utf8(&p));)` |
| `Justify` | justify.dfy | the per-space share `exp*(e+1)/s - exp*e/s` of a justified line |
| `Atlas` | atlas.dfy | `atlas_size` and the shelf placement of `font_sort_create` |
| `SortTable` | sorttable.dfy | `sortcmp1`/`sortcmp2`, `bsearch`, and `realloc` + `qsort` as a sorted insertion |
| `FontCache` | font.dfy | the font state, `font_create`'s successful path, `font_sort_create` and `font_sort_search` |
| `Typeset` | typeset.dfy | `line_set`, `layout`, `line_layout`, `line_create`, `line_length` |
| `Plane` | plane.dfy | `add_vert`, `add_rect`, `init_verts`, `init_elems`, `plane_create`, `plane_render` |
| `Sphere` | sphere.dfy | the vertex and triangle loops of `obj_sphere_create` |

Modelling choices:

- **The glyph provider (FreeType) is an oracle.** It is a `Face` with four parts:
  - a character-to-glyph map;
  - glyph metrics in 26.6 fixed point;
  - pairwise kerning;
  - a line height.
- **Allocation outcomes are parameters.** Each `malloc`/`calloc` is a boolean parameter. The `realloc` that grows the sort table is an oracle `grows(n)`, keyed on the table size `n`.
  - This is a restriction: in the model, one failed growth at size `n` makes every later miss at size `n` fail too.
  - In the source, each `realloc` call succeeds or fails on its own.
- **Positions and texture coordinates are exact reals.** `(int)(a * k)`, the advance scaled by the letter-space factor, is an oracle `adv(a)`.
- **Reading past the end of a byte buffer is an explicit `Overrun` result.** It is undefined behaviour in C.
- **`GLushort` arithmetic is written out as `% 0x10000`.**
- **`qsort` after an append is a sorted insertion.** `SortTable.SortedUnique` proves that a strictly sorted table is determined by its contents, so any sort yields the same table.

## Model

| member | source | states |
|---|---|---|
| Utf8.LeadLengthIsMaskTest | type.c:120-141 | the length class of a lead byte is exactly what the four mask tests `& 0x80`, `& 0xE0`, `& 0xF0`, `& 0xF8` select, 0 for an unrecognised lead |
| Utf8.MaskIsRemainder | type.c:128-146 | masking a byte with `0x3F`, `0x1F`, `0x0F`, `0x07` keeps its remainder modulo 64, 32, 16, 8 |
| Utf8.OrIsSum | type.c:126-139 | for payloads in the ranges the masks leave (below 32 or 16 for the lead byte, below 64 for the others), the two- and three-byte combinations by shift and bitwise or equal the positional sums the decoder uses, since the shifted payloads do not overlap |
| Utf8.CombineAsWritten | type.c:143-148 | the four-byte combination as written stays below 2^21, is 0 only for all-zero payloads and is a space only for payloads 0,0,0,0x20 |
| Utf8.Decode | type.c:118-151 | the decoder reports overrun exactly when the sequence announced by the lead byte runs past the buffer; an unrecognised lead yields 0 without advancing; otherwise it advances by the lead's length |
| Utf8.Encode | type.c:118-151 | the reference UTF-8 encoder: 1 to 4 bytes by range, a lead of its own length class, continuation bytes after it |
| Utf8.RoundTrip | type.c:118-151 | both decoders give back every codepoint below U+10000 from its encoding, in any context, and advance past it |
| Utf8.RoundTripFixed | type.c:141-148 | the corrected decoder gives back every codepoint up to U+10FFFF from its encoding |
| Utf8.FourByteShiftWrong | type.c:141-148 | the decoder as written turns F0 90 81 80 (U+10040) into U+10100 |
| Utf8.DecodersAgreeOnClasses | type.c:118-151 | the two decoders agree on overrun, on the next position, on whether the result is the terminator 0 and on whether it is a space; they agree outright outside the four-byte class |
| Utf8.CharsFrom | type.c:417-421 | the walk `for (p = str; (c = utf8(&p));)` yields only non-zero codepoints below 2^21; with `fixed` false it walks with `utf8` as written, which is what `Chars` and so the whole typesetter use, and with `fixed` true with the corrected decoder (`CharsFixed`) |
| Utf8.WalkFourByteWrong | type.c:417-421 | the string F0 90 81 80 NUL holds U+10040 alone; the walk as written reads it as U+10100 and the corrected walk as U+10040 |
| Utf8.WalksAgreeOnShape | type.c:417-421 | walking with either decoder yields as many codepoints, with spaces at the same positions |
| Utf8.CharsOfEncoded | type.c:417-421 | walking the encoding of non-zero codepoints followed by a NUL yields exactly those codepoints, whatever follows the NUL |
| Utf8.CharsRoundTrip | type.c:417-421 | walking a NUL-terminated encoding of a codepoint sequence gives the sequence back |
| CInt.DivRemainder | type.c:429 | C division leaves a remainder smaller than the divisor in magnitude, with the dividend's sign |
| CInt.DivOdd | type.c:429 | C division is odd in the dividend |
| CInt.DivPositive | type.c:429 | C division is floor division for a non-negative dividend and the negated floor of the negated dividend otherwise |
| Justify.SharesTelescope | type.c:427-431 | the extra advances of the first k spaces add up to `exp*k/s` |
| Justify.SharesSumToExp | type.c:427-431 | the spaces of a line together receive exactly `exp` extra pixels, for either sign of `exp` |
| Justify.ShareIsFloorOrCeil | type.c:427-431 | every space receives `exp/s` rounded down or up, and exactly `exp/s` when `s` divides it |
| Atlas.AtlasSize | type.c:158-166 | the atlas side is a power of two, at least four line heights, and its half is below that |
| Atlas.AtlasSizeIsLeast | type.c:158-166 | that side is the least power of two of at least four line heights |
| Atlas.Place | type.c:209-219 | a glyph goes at the cursor when it fits on the shelf and at the start of a new shelf below the tallest glyph otherwise; the cursor moves past it with one pixel of gap |
| Atlas.ApartIsDisjoint | type.c:209-219 | two placed rectangles, each grown by its one-pixel gap, share no pixel |
| Atlas.PlaceKeepsPacked | type.c:209-219 | placing a glyph keeps all atlas rectangles pairwise apart and below the cursor |
| Atlas.PlaceAvoids | type.c:209-219 | a newly placed rectangle is apart from every rectangle already below the cursor |
| SortTable.Compare | type.c:63-83 | the comparison returns -1, 0 or +1, zero exactly for equal characters and negative exactly for a smaller one |
| SortTable.CompareAntisymmetric | type.c:63-83 | swapping the arguments negates the comparison |
| SortTable.BSearch | type.c:249 | the search finds an index exactly when the character is in the table, and the entry there has that character |
| SortTable.KeyAtOnePlace | type.c:249 | in a strictly sorted table each character sits at one index |
| SortTable.Insert | type.c:251-260 | appending a sort and sorting gives a strictly sorted table one longer, with the old entries plus the new one |
| SortTable.SortedUnique | type.c:260 | two strictly sorted tables with the same entries are equal, so the order `qsort` leaves is determined |
| FontCache.Rendered | type.c:199-203 | cached metrics are the face's 26.6 metrics shifted right by 6; a well-formed face gives non-negative sizes |
| FontCache.FontCreate | type.c:312-320 | a created font has the face's line height and space advance, an atlas of the least suitable power-of-two side, an empty table, and is valid |
| FontCache.SortCreate | type.c:193-219 | a created sort carries its character and the face's metrics, and its atlas rectangle and the new cursor are the shelf placement |
| FontCache.SortCreateKeepsValid | type.c:243-260 | inserting a newly created sort keeps the table sorted, every entry matching the face, and all atlas rectangles apart and below the cursor |
| FontCache.SortSearch | type.c:243-266 | the font stays valid and only its table and cursor change; a returned sort is in the table and has the requested character; when nothing is returned, nothing changes |
| FontCache.LookupOutcome | type.c:243-266 | a cached character is returned and nothing changes; a missing one is returned exactly when the table can grow |
| FontCache.LookupInserts | type.c:250-262 | a missing character that is returned was rendered and inserted: the table gains exactly that sort, placed at the shelf cursor, and the cursor moves on past it |
| FontCache.LookupKeeps | type.c:243-266 | a lookup keeps every sort already cached |
| FontCache.LookupMatchesFace | type.c:243-266 | a returned sort has the face's metrics for the requested character |
| FontCache.LookupUnique | type.c:243-266 | the returned sort is the only entry for its character |
| FontCache.LookupIdempotent | type.c:243-266 | looking up a character that was just found again returns the same sort and changes nothing |
| Typeset.LineSet | type.c:354-397 | a glyph yields four vertices, each the matrix applied to a corner of the glyph box with the matching corner of its atlas rectangle, and the pen advances by the scaled advance |
| Typeset.CornerOrder | type.c:365-394 | the corners go bottom-left, bottom-right, top-right, top-left |
| Typeset.TexInUnitSquare | type.c:358-361 | the texture coordinates of a glyph that lies inside the atlas are in the unit square |
| Typeset.CountsPartition | type.c:417-421 | spaces and non-spaces together count every codepoint of the string |
| Typeset.WalkStep | type.c:427-440 | a space moves the pen by the scaled space advance plus its share and the expansion counter on, and changes nothing else; any other character is looked up and what `Found` says happens; earlier quads are kept, and a quad is always added when the table can grow |
| Typeset.Found | type.c:432-440 | after the lookup of a character of glyph index `g`: when a sort is found, its `line_set` quad at the pen kerned against the previous glyph is appended to the vertices and the glyph is recorded; when none is found, only the font changes |
| Typeset.FoundMoves | type.c:433-439 | when a sort is found, the pen moves to where `line_set` leaves it and `g` becomes the previous glyph |
| Typeset.StepGlyph | type.c:427-440 | a step appends exactly the found sort's glyph and quad when the character is not a space and its lookup succeeds, and leaves glyphs and vertices alone otherwise; the sort appended is the character's and is cached |
| Typeset.StepAdds | type.c:427-440 | a step adds nothing, or one glyph of the character stepped over whose quad is its `line_set` quad, appended to the vertices, with its sort cached |
| Typeset.StepKeepsSorts | type.c:432-433 | a step keeps every cached sort |
| Typeset.WalkKeepsSorts | type.c:425-442 | a walk keeps every cached sort |
| Typeset.WalkDrawn | type.c:425-442 | along a walk the vertices stay the quads of the glyphs set, in order |
| Typeset.WalkSetOut | type.c:425-442 | along a walk every glyph's quad is the `line_set` quad of its sort at its pen |
| Typeset.WalkCached | type.c:425-442 | along a walk the sort of every glyph set stays cached |
| Typeset.WalkOf | type.c:425-442 | a walk over codepoints of a string sets only glyphs of non-space codepoints of that string |
| Typeset.Walk | type.c:425-442 | the walk uses every space share, emits at most one quad per non-space, and exactly one each when every table growth succeeds |
| Typeset.Layout | type.c:399-443 | layout, reading the string with `utf8` as written, emits four vertices per glyph set, at most one glyph per non-space codepoint, and one per non-space when allocation never fails; only the font's table and cursor change |
| Typeset.LayoutGlyphs | type.c:399-443 | the vertices of a laid-out string are the quads of the glyphs it set, in order; each quad is the `line_set` quad of a cached sort, matching the face, of a non-space codepoint of the string, at its kerned pen |
| Typeset.StepExpansion | type.c:427-431 | a step with expansion differs from one without only in the pen, by the shares given so far |
| Typeset.WalkExpansion | type.c:425-442 | a walk with expansion ends with the same font and glyph count as one without, its pen ahead by the shares of all spaces |
| Typeset.LayoutExpansion | type.c:399-443 | a justified line ends exactly `exp` pixels further than an unjustified one when it has a space, and at the same place otherwise |
| Typeset.DefaultMatrixTranslates | type.c:458-490 | without matrices, string `i` is translated down by `i` line heights and otherwise unchanged |
| Typeset.LayoutFrom | type.c:485-491 | typesetting strings from `i` on yields four vertices per glyph, at most the non-spaces of those strings, and all of them when allocation never fails |
| Typeset.LayoutFromGlyphs | type.c:485-491 | the vertices of several strings typeset one after another are the quads of all the glyphs they set, in order |
| Typeset.LayoutFromCached | type.c:485-491 | every glyph set while typesetting several strings has its sort cached in the font left at the end |
| Typeset.LayoutFromKeepsSorts | type.c:485-491 | typesetting several strings keeps every cached sort |
| Typeset.LineLayout | type.c:448-504 | a line exists exactly when its allocation succeeds; it counts every non-space; its vertex array exists exactly when its allocation succeeds and then holds the laid-out glyphs followed by zeroed vertices |
| Typeset.LineCreate | type.c:509-512 | for every allocation outcome: the line exists exactly when its record is allocated, counts the string's non-spaces and has a vertex array exactly when that is allocated; the array has four vertices per non-space, starting with the unexpanded layout under the identity matrix and zero after it, and is exactly that layout when the table can always grow; without an array the font is unchanged, otherwise it is the font the layout leaves |
| Typeset.LineLength | type.c:527-555 | as written, reading the string with `utf8` as written: an empty string measures 0 and leaves the font unchanged |
| Typeset.LengthGlyph | type.c:546-552 | one measuring step over a character other than a space looks it up and adds the scaled advance of the sort found, and nothing when none is found |
| Typeset.LengthLessKerning | type.c:537-552 | for every codepoint run and starting pens, the measurement as written moves the pen by the corrected distance less the kernings of the found glyphs, and both leave the same font |
| Typeset.LineLengthIsLayoutLessKerning | type.c:527-555 | for every string, `line_length` as written is the pen `layout` reaches without expansion less the kernings `layout` adds, and leaves the font `layout` leaves |
| Typeset.LineLengthKerned | type.c:527-555 | corrected: an empty string measures 0 and leaves the font unchanged |
| Typeset.KernedIsStep | type.c:540-552 | one corrected measuring step is one layout step without expansion: same pen, same font, same previous glyph |
| Typeset.KernedIsWalk | type.c:540-552 | the corrected measurement of a codepoint sequence follows the pen and font of the unexpanded walk |
| Typeset.LengthKernedIsLayoutPen | type.c:527-555 | the corrected `line_length` is the pen position unexpanded layout reaches, under any matrix, and leaves the same font |
| Typeset.LengthWithoutKerning | type.c:527-555 | for a face without kerning, the measurement as written equals the corrected one |
| Typeset.KerningDropped | type.c:546-551 | for two cached glyphs, the measurement as written falls short of the corrected one by exactly the two kernings, and differs whenever the pair is kerned |
| Plane.AddVert | plane.c:48-59 | a vertex is appended at `(x, 0, z)` with normal `(0, 1, 0)` and the earlier ones are kept |
| Plane.AddRect | plane.c:61-72 | six indices are appended in the order i0 i2 i1 i3 i1 i2 and the earlier ones are kept |
| Plane.RectTriangles | plane.c:61-72 | the two triangles of a rectangle cover its four corners and share the diagonal i1–i2 |
| Plane.UShort | plane.c:125-126 | `GLushort` conversion gives a value below 2^16 and keeps one already in range |
| Plane.VertIndex | plane.c:88-95 | corner `k` of grid point `(i, j)` is vertex `4((n+1)i+j)+k`, in range, at lattice column `2j+k%2` and row `2i+k/2` |
| Plane.InitVerts | plane.c:74-104 | for every `GLushort` size `n`, with the loop ending as evidently intended: the vertex count is `4(n+1)²`; when allocation succeeds, vertex `v` is corner `v%4` of grid point `v/4`, offset by `g` around it |
| Plane.CounterValue | plane.c:86-89 | a `GLushort` loop counter started at 0 holds the step count modulo 2^16 |
| Plane.CounterLoopEnds | plane.c:88-89 | for `n` below 65535 the guard `i <= n` holds for the first `n+1` counter values and fails at the next |
| Plane.CounterLoopEndless | plane.c:88-89 | for `n = 65535` the guard `i <= n` holds for every counter value, and the step after 65535 gives 0 |
| Plane.LatticeIsGrid | plane.c:84-95 | for `0 < g < 1/2` vertex positions are ordered along each axis as their lattice coordinates, so lattice cells are true rectangles |
| Plane.TileIsCell | plane.c:128 | the four corners of tile `(i, j)` form a unit lattice cell that is not a gap |
| Plane.RowStripIsCell | plane.c:129 | corners 1 and 3 of tile `(i, j)` with corners 0 and 2 of tile `(i, j+1)` form a unit lattice cell that is not a gap |
| Plane.ColumnStripIsCell | plane.c:130 | corners 2 and 3 of tile `(i, j)` with corners 0 and 1 of tile `(i+1, j)` form a unit lattice cell that is not a gap |
| Plane.GapIsCell | plane.c:131 | the corners of tiles `(i, j)`, `(i, j+1)`, `(i+1, j)`, `(i+1, j+1)` that face each other form a unit lattice cell, and it is a gap cell |
| Plane.ElemIsCorner | plane.c:125-131 | when the plane's vertex count fits a `GLushort`, index `a + k` (k < 4) is corner `k` of grid point `(i, j)`: nothing wraps |
| Plane.ElemIsNext | plane.c:129-131 | `a + 4` and `a + 6` are corners 0 and 2 of the next grid point along the row |
| Plane.LatIsLattice | plane.c:84-95 | the lattice table puts corner `k` of grid point `(i, j)` at column `2j + k%2`, row `2i + k/2` |
| Plane.AddCell | plane.c:122-132 | appending a rectangle of the right kind keeps every rectangle of a list a lattice cell of that kind |
| Plane.AddCells | plane.c:124-131 | one iteration adds one fill rectangle inside the grid and one line rectangle plus one per inner edge, all cells of the right kind |
| Plane.InitElems | plane.c:106-144 | for every `GLushort` size `n`: the fill list has `6n²` indices and the line list `6(n+1)(3n+1)`; both exist exactly when both allocations succeed; fill rectangles are the gaps and line rectangles the tiles and strips whenever the indices fit a `GLushort` |
| Plane.PlaneCreate | plane.c:151-171 | a plane exists exactly when its allocation succeeds and keeps `n`; its vertex array and lists exist exactly when their allocations succeed; for 0 ≤ n ≤ 65535 its lists are as long as the counts `plane_render` draws and its vertex array holds `4(n+1)²` vertices |
| Plane.PlaneRender | plane.c:189-192 | the fill count is six times `n²` and the line count a positive multiple of six |
| Sphere.SphereCreate | obj-sphere.c:33-98 | a sphere of `N` rows has `(N+1)(2N+1)` vertices, vertex `v` with the texture coordinate of its grid point, and `2N·2N` triangles, each with in-range corners; a negative `N` gives nothing |
| Sphere.SphereVerts | obj-sphere.c:46-62 | the vertex loop emits the grid points row by row, vertex `v` with the texture coordinate of grid point `(v/(2N+1), v%(2N+1))` |
| Sphere.SphereTris | obj-sphere.c:74-95 | the triangle loop emits two triangles per cell, triangle `t` the one `TriAt` names, every corner below the vertex count |
| Sphere.VertexIndex | obj-sphere.c:46-56 | the vertex of grid point `(i, j)` is number `i(2N+1)+j` and has texture coordinate `(j/2N, i/N)` |
| Sphere.TriIndex | obj-sphere.c:74-95 | the triangles of cell `(i, j)` are numbers `2(2Ni+j)` and the next one, with corners 00 01 11 and 11 10 00, all in range |
| Sphere.CornersInRange | obj-sphere.c:77-80 | the four corners of a cell are in range, side by side in a row and one row apart |
| Sphere.GridPoint | obj-sphere.c:46-56 | every vertex number below the count is a grid point: row at most `N`, column at most `2N` |
| Sphere.TexInUnitSquare | obj-sphere.c:55-56 | for `N ≥ 1` every texture coordinate is a number in the unit square |
| Sphere.DegenerateSphere | obj-sphere.c:55-56 | for `N = 0` the single vertex has texture coordinate `0/0` in both axes |
| Sphere.CellSplit | obj-sphere.c:84-94 | the two triangles of a cell share the diagonal 00–11 and together cover its four distinct corners |
| Sphere.CellTex | obj-sphere.c:77-80 | the corners of a cell carry the texture coordinates of the cell's grid points |
| Sphere.CellWinding | obj-sphere.c:84-94 | both triangles of a cell have the same positive orientation in texture space, each covering half the cell |

## Left out

- The glyph provider (FreeType) and OpenGL: texture creation and uploads, buffer objects, drawing and state. The glyph provider is an oracle `Face`; GL calls have no modelled effect.
- Float rounding: positions, texture coordinates and matrices are exact reals.
- Typeset.LineSet: the pen returned is `x + adv(a)`, where the source computes `(int)(x + a*k)` in float; these agree when `a*k` is integral or `x` and `a*k` have the same sign.
- Typeset.WalkStep: the space advance `(int)(a*k + share)` is modelled as `adv(a) + share`; these agree when `a*k` and the share are both non-negative.
- FontCache.FontCreate: only the successful path is modelled. Failure to allocate, to initialise FreeType, to load the face or to set the size leaves a partly initialised font that the source still returns; that state is not modelled.
- `font_load`'s fallback from memory to a file path is part of the glyph provider.
- `font_delete`, `font_height`, `line_delete`, `line_render`, `plane_delete`, `plane_color` and the GL state of `plane_render` are resource management or drawing.
- Plane colours (`plane_color`) are not modelled.
- Plane.InitVerts: the loops run `n + 1` times for every `n`, as evidently intended; the source's loops never end for `n = 65535` (see Findings).
- Plane.InitElems: the loops run `n + 1` times for every `n`, as for `InitVerts`. The cell structure of the lists is proved only when `4(n+1)² ≤ 65536`; beyond that the `GLushort` indices wrap, which the model computes but does not characterise.
- Plane.InitElems: when the fill list is allocated but the line list is not, the source uploads the uninitialised fill list; the model returns no fill list in that case.
- Plane.PlaneCreate: an `n` outside 0..65535 is truncated to a `GLushort` for the buffers (plane.c:163-164 pass it to `init_verts` and `init_elems`), while `P->n` keeps the `int` and `plane_render` counts from it (plane.c:168, 191-192). For such `n` the counts drawn do not match the buffers, in the source as in the model; the contract states the match only for 0 ≤ n ≤ 65535.
- `GLsizei` overflow of `nv`, `nf` and `nl` for very large `n` is not modelled: the counts are unbounded integers.
- Atlas.AtlasSize: the C `int` overflow of `s *= 2` and of `h * 4` (type.c:162-163) is not modelled; the model returns the exact least power of two, which is 2^31 or more and so not a C `int` once the line height is above 2^28.
  - For a line height above 2^28, `s *= 2` overflows before `s` reaches `4h`, and with wrap-around `s` runs through `INT_MIN` to 0, so the loop never ends.
  - From a line height of 2^29 on, `h * 4` itself overflows.
- Other C `int` overflow is not modelled either: `exp * (e + 1)` (type.c:429), the pen sums of `layout` and `line_length`, `n * 4` (type.c:481) and the index products of the sphere. All are unbounded integers in the model.
- Sphere.SphereCreate: the positions, normals and tangents (sine and cosine) are not modelled; only texture coordinates and indices are. `obj_add_vert` and `obj_add_poly` are assumed to number vertices and triangles 0, 1, 2, … in order.
- Utf8.Decode: reading past the end of a buffer is undefined behaviour in C. The model reports it as `Overrun`, and the walk stops there.

- Atlas.Place: no zero-width special case. The code places every glyph and always moves the cursor by `W + 1`.
- Atlas.Place: no overflow detection. The code never checks whether a sort fits in the atlas, and a sort placed beyond it is used like any other.
- FontCache.FontCreate: `font_create` returns the allocated font whenever its `calloc` succeeds, even when a later step of its initialisation fails.

## Findings

| source | as written | input that shows it | evidently intended | confidence | as-written member | corrected member |
|---|---|---|---|---|---|---|
| type.c:148 | the third payload of a four-byte sequence is shifted left by 8 | F0 90 81 80 (U+10040) decodes to U+10100 | shift by 6, so every codepoint up to U+10FFFF decodes to itself | high, not executed | Utf8.FourByteShiftWrong | Utf8.RoundTripFixed |
| plane.c:86-89 and 118-123 | the loop counters `i` and `j` of `init_verts` and `init_elems` are `GLushort`s compared with `i <= n` | `n = 65535`: every `GLushort` value satisfies the guard and `++` wraps 65535 to 0, so the loops never end | loop `n + 1` times for every `GLushort` `n`, e.g. with wider counters | high, not executed | Plane.CounterLoopEndless | Plane.InitVerts |
| type.c:549-551 | `line_length` fetches the kerning of each glyph pair but never adds it to the pen | a face kerning "AV" by -2 pixels measures "AV" 2 pixels longer than `layout` draws it | add `k.x >> 6` as `layout` does, so that `line_length` is the unexpanded layout's pen | high, not executed | Typeset.KerningDropped | Typeset.LengthKernedIsLayoutPen |

The typesetter reads strings with `utf8` as written (`Utf8.Chars`); the corrected decoder is `Utf8.NextFixed`, and `Utf8.CharsFixed` walks with it. `Utf8.WalksAgreeOnShape` shows that both walks yield the same number of codepoints with spaces in the same places, so glyph counts and justification do not depend on the choice. `Typeset.LineLength` is `line_length` as written; `Typeset.LineLengthKerned` is the corrected measurement, and `Plane.InitVerts` and `Plane.InitElems` loop as evidently intended.
