# naive_bvh host logic in Dafny

A model of the logic in `naive_bvh/main.cpp` that runs on the host rather
than on the GPU, with proofs of what it promises. It covers four parts.

- **Extent codec** (`codec.dfy`, module `ExtentCodec`).
  - `sortable` / `unsortable` map the 32-bit pattern of an IEEE 754 binary32
    value to an unsigned key, and back. A negative pattern has every bit
    flipped. A non-negative pattern has only its sign bit flipped.
  - The `sortable` modelled here is the bit-reinterpreting one that line 415
    evidently intends, mirroring `unsortable` at line 424. As written, line
    415 converts the float's value instead; the model keeps that version
    apart and shows where it goes wrong (see "## Findings").
  - The key order agrees with the totalOrder predicate of section 5.10 of
    IEEE 754-2008. So the GPU can take minima and maxima of coordinates with
    unsigned atomic min and max.
  - The build-extent buffer gets `2 * dim` slots. Even slots are seeded with
    `sortable(FLT_MAX)`, odd slots with `sortable(-FLT_MAX)`, both taken
    with the intended, bit-reinterpreting `sortable`.
  - Floats are their bit patterns: a word is an integer in [0, 2^32).
    `^` and `|` are defined bit by bit. Shifts, `int32_t` negation and
    unsigned subtraction are written out with division and arithmetic
    modulo 2^32.
- **Outline recorder** (`geometry.dfy`, module `Geometry`).
  - `GeometrySink` receives a glyph outline as path commands. It records
    cubic, quadratic and line segments into three vectors.
  - Each segment starts at the pen position `previous`, where the one
    before it ended.
  - `EndFigure` closes a figure with a line back to `beginPoint`.
- **Glyph cache** (`glyphs.dfy`, module `GlyphCache`). `TextRenderer` covers
  the monochrome branch of `DrawGlyphRun` and `updateBuffers`.
  - A glyph (em size, glyph index) seen for the first time is cached at the
    next offset.
  - Its outline points are appended to the shared point list, moved so that
    their bounding box starts at the origin.
  - It gets one text-colour run when its outline has points.
  - Its box and run range are stored at its offset. A ghost list of
    outlines, one per offset, lets the cache invariant say that every
    offset holds what its glyph's outline gives: the tight box or the
    all-zero box, one run or none, and the moved points.
  - A ghost key list, one key per offset, records the order in which
    glyphs were cached. Over a run, new keys follow their first occurrence
    in the run, and the static lists are the old ones followed by the new
    outlines laid out in that order (the function `Layout`).
  - Every glyph drawn with a non-empty range adds its box, moved to its pen
    position, and its range to the per-frame lists. `updateBuffers` uploads
    those lists and then clears them.
  - The GPU buffers are fields holding what was last uploaded.
- **OBJ face rewrite** (`faces.dfy`, module `ObjFaces`). A face line has
  four corners. The loader swaps the last two corners of the position,
  texture-coordinate and normal quadruples. It then appends all twelve
  indices 0-based.

Outline, glyph and pen coordinates are integers, so that min, max and
translation are exact. The outline that DirectWrite produces for a glyph
is an input, the function `outlineOf`.

## Model

| member | source | states |
|---|---|---|
| ExtentCodec.Sortable | naive_bvh/main.cpp:413-418 | with the bits reinterpreted as line 415 evidently intends: a negative pattern's key is its bitwise complement; a non-negative pattern's key is the pattern plus 2^31 |
| ExtentCodec.Unsortable | naive_bvh/main.cpp:420-425 | a key with a clear top bit decodes to its complement; a key with a set top bit decodes to the key minus 2^31 |
| ExtentCodec.SortableMask | naive_bvh/main.cpp:416 | the mask is all ones for a negative pattern and the sign bit alone otherwise |
| ExtentCodec.UnsortableMask | naive_bvh/main.cpp:422 | the mask is all ones for a key with a clear top bit and the sign bit alone otherwise |
| ExtentCodec.TopBit | naive_bvh/main.cpp:416 | `f >> 31` is 1 exactly for words at or above 2^31, which are exactly the words with bit 31 set |
| ExtentCodec.SortableSplitsBySign | naive_bvh/main.cpp:416-417 | the key's top bit is the complement of the sign bit: negative patterns map into [0, 0x7FFFFFFF], non-negative ones into [0x80000000, 0xFFFFFFFF] |
| ExtentCodec.SortableRoundTrip | naive_bvh/main.cpp:413-425 | `unsortable(sortable(f)) == f` and `sortable(unsortable(u)) == u` for every pattern and key: the codec is a bijection on 32-bit words |
| ExtentCodec.SortableMonotone | naive_bvh/main.cpp:413-418 | a precedes b in the totalOrder of IEEE 754-2008 (so -0 precedes +0) if and only if sortable(a) < sortable(b) as unsigned values |
| ExtentCodec.SeedValues | naive_bvh/main.cpp:498-500 | with the bit-reinterpreting `sortable` that line 415 evidently intends (see "## Findings"), the min seed is 0xFF7FFFFF and the max seed is 0x00800000, and they decode back to FLT_MAX and -FLT_MAX |
| ExtentCodec.FiniteBetweenSeeds | naive_bvh/main.cpp:498-500 | every finite pattern's key lies between sortable(-FLT_MAX) and sortable(FLT_MAX) |
| ExtentCodec.SeedExtents | naive_bvh/main.cpp:498-500 | the seeded vector has 2 * dim slots; even slots hold sortable(FLT_MAX) and odd slots sortable(-FLT_MAX), where `sortable` is the bit-reinterpreting codec that line 415 evidently intends (see "## Findings"); as written the two seeds are undefined conversions (SeedsUndefinedAsWritten) |
| ExtentCodec.MinAccumulatedIsLeast | naive_bvh/main.cpp:498-501 | a min slot after folding in keys holds the least of its seed and those keys, and equals the seed or one of them |
| ExtentCodec.MaxAccumulatedIsGreatest | naive_bvh/main.cpp:498-501 | a max slot after folding in keys holds the greatest of its seed and those keys, and equals the seed or one of them |
| ExtentCodec.MinWitness | naive_bvh/main.cpp:498-501 | a min slot seeded with sortable(FLT_MAX) that received finite coordinates holds the key of one of them |
| ExtentCodec.MaxWitness | naive_bvh/main.cpp:498-501 | a max slot seeded with sortable(-FLT_MAX) that received finite coordinates holds the key of one of them |
| ExtentCodec.MinSeedIsIdentity | naive_bvh/main.cpp:498-501 | sortable(FLT_MAX) is the identity of atomic min: an untouched slot decodes to FLT_MAX; otherwise it decodes to one of the finite coordinates, and no coordinate precedes it in totalOrder |
| ExtentCodec.MaxSeedIsIdentity | naive_bvh/main.cpp:498-501 | sortable(-FLT_MAX) is the identity of atomic max: an untouched slot decodes to -FLT_MAX; otherwise it decodes to one of the finite coordinates, and it precedes none of them in totalOrder |
| ExtentCodec.FloatToUint32 | naive_bvh/main.cpp:415 | the float-to-`uint32_t` conversion is defined only for finite values; negative values that convert give 0, and values of magnitude below 1 give 0 |
| ExtentCodec.SortableAsWritten | naive_bvh/main.cpp:413-418 | `sortable` as written is defined only for finite values |
| ExtentCodec.SmallTruncation | naive_bvh/main.cpp:415 | a value in [1, 2^23) converts to its significand shifted right by 23 minus its unbiased exponent |
| ExtentCodec.SortableAsWrittenCollapses | naive_bvh/main.cpp:413-418 | as written, every value in [1, 2) gets key 0x80000001, which decodes to pattern 1 rather than to the value |
| ExtentCodec.SortableAsWrittenCollides | naive_bvh/main.cpp:413-418 | as written, 1.5f (0x3FC00000) and 1.25f (0x3FA00000) get the same key, and that key decodes to neither |
| ExtentCodec.SeedsUndefinedAsWritten | naive_bvh/main.cpp:500 | as written, sortable(FLT_MAX) and sortable(-FLT_MAX) are undefined conversions |
| Geometry.FlattenLength | naive_bvh/main.cpp:141-145 | pushing every point of n arrays of w points each appends w * n points |
| Geometry.BezierChainShape | naive_bvh/main.cpp:32-35 | one cubic per segment; cubic i starts at the end of segment i - 1 (at the pen for the first) and goes through the segment's points |
| Geometry.QuadraticChainShape | naive_bvh/main.cpp:36-39 | one quadratic per segment, chained the same way |
| Geometry.LineChainShape | naive_bvh/main.cpp:40-43 | one line per point, from the point before it (from the pen for the first) |
| Geometry.GeometrySink.constructor | naive_bvh/main.cpp:22-29 | the sink starts with the three vectors empty |
| Geometry.GeometrySink.Clear | naive_bvh/main.cpp:133-135 | the three vectors become empty; the pen and the figure start stay |
| Geometry.GeometrySink.BeginFigure | naive_bvh/main.cpp:49 | the pen and the figure start move to `start`; the vectors are unchanged |
| Geometry.GeometrySink.AddBeziers | naive_bvh/main.cpp:32-35 | the cubic vector grows by the chain of the segments from the old pen; the pen ends at the last segment's end; the other vectors and the figure start are unchanged |
| Geometry.GeometrySink.AddQuadraticBeziers | naive_bvh/main.cpp:36-39 | the quadratic vector grows by the chain of the segments; the rest as for cubics |
| Geometry.GeometrySink.AddLines | naive_bvh/main.cpp:40-43 | the line vector grows by the chain of the points; the rest as for cubics |
| Geometry.GeometrySink.AddLine | naive_bvh/main.cpp:45 | appends one line from the pen to the point and moves the pen there |
| Geometry.GeometrySink.AddQuadraticBezier | naive_bvh/main.cpp:46 | appends one quadratic from the pen and moves the pen to its end |
| Geometry.GeometrySink.AddBezier | naive_bvh/main.cpp:47 | appends one cubic from the pen and moves the pen to its end |
| Geometry.GeometrySink.EndFigure | naive_bvh/main.cpp:50 | appends the line from the pen to the figure start; the last line ends at the figure start, where the pen now is |
| GlyphCache.ShiftToOrigin | naive_bvh/main.cpp:157-160 | points moved by minus their tight box's low corner have non-negative coordinates, touch both axes, have the moved box as tight box, and moving them back restores them |
| GlyphCache.VisibleFilters | naive_bvh/main.cpp:181-184 | the per-frame filter keeps exactly the placements with a non-empty range |
| GlyphCache.OutlinePointsLength | naive_bvh/main.cpp:139-146 | an outline appends 4 points per cubic, 3 per quadratic and 2 per line |
| GlyphCache.OutlineIndicesDelimit | naive_bvh/main.cpp:139-146 | the four indices end at the new point count, and the slices between them are the cubic, quadratic and line points |
| GlyphCache.Pen | naive_bvh/main.cpp:178-186 | every glyph is drawn at the run's base height; the first glyph, and every glyph of a run without advances, at the base x |
| GlyphCache.PenStep | naive_bvh/main.cpp:185-186 | after each glyph the pen moves right by that glyph's advance when the run has advances, and stays put otherwise |
| GlyphCache.PlacementsStable | naive_bvh/main.cpp:173-178 | a cached glyph is drawn the same way after the cache grows: its box and range at its offset do not change |
| GlyphCache.RunStep | naive_bvh/main.cpp:124-187 | the placements of the first i + 1 glyphs of a run are those of the first i, followed by glyph i's box at its pen with its range |
| GlyphCache.RunDrawnGrows | naive_bvh/main.cpp:124-187 | a run drawn up to glyph n stays drawn after the cache grows |
| GlyphCache.RunDrawnStep | naive_bvh/main.cpp:179-186 | drawing cached glyph i at its pen extends a run drawn up to i to one drawn up to i + 1 |
| GlyphCache.OffsetTableOneToOne | naive_bvh/main.cpp:87-88 | distinct cached glyphs have distinct offsets, and there are exactly as many offsets as cached glyphs |
| GlyphCache.ShiftedIntoBox | naive_bvh/main.cpp:157-160 | points appended after being moved by minus their tight box's low corner lie within the moved box, and 0 is attained on each axis |
| GlyphCache.StoredGlyphAtOrigin | naive_bvh/main.cpp:139-169 | a new glyph's range is non-empty exactly when its outline has points. It then owns exactly one run, whose indices start at the old point count and end at the new one. Its points lie within its box moved to the origin, with 0 attained on each axis |
| GlyphCache.EntryStored | naive_bvh/main.cpp:139-169 | the box and range stored for a new glyph hold its outline: the tight box or the all-zero box, one text-colour run whose indices are the outline's and whose points are the outline's moved to the origin, or no run when the outline is empty |
| GlyphCache.EntryGrows | naive_bvh/main.cpp:139-169 | what an offset holds stays true while the point, colour and index lists only grow |
| GlyphCache.EntriesStore | naive_bvh/main.cpp:129-172 | caching a new glyph keeps every earlier offset holding its outline and makes the new offset hold the new glyph's outline |
| GlyphCache.OffsetTableAdd | naive_bvh/main.cpp:131 | a key not cached yet, mapped to the next offset, keeps the map and the per-offset keys in step |
| GlyphCache.DrawnStep | naive_bvh/main.cpp:126-131 | looking up one more glyph adds at most its own key, and a key it adds sits at an offset holding that key's outline |
| GlyphCache.NoNewKeys | naive_bvh/main.cpp:126-131 | a map that gains only keys it already had keeps its number of offsets, so no glyph was cached |
| GlyphCache.RunKeysAdded | naive_bvh/main.cpp:124-131 | after a run, the map's keys are exactly the keys it had before and the keys of the run's glyphs |
| GlyphCache.LayoutPrefix | naive_bvh/main.cpp:139-169 | the static lists laid out for outlines m to n depend only on the first n outlines and boxes |
| GlyphCache.LayoutStore | naive_bvh/main.cpp:139-169 | caching one more outline appends its moved points, its run, its indices and its range after those of the outlines cached before it |
| GlyphCache.LayoutStep | naive_bvh/main.cpp:126-172 | a hit changes nothing and a miss lays its outline out after the earlier ones; the upload flag stays set exactly while no points were appended |
| GlyphCache.FirstSeenAppend | naive_bvh/main.cpp:126-131 | one more glyph adds its key to the keys given offsets exactly when it is neither cached nor seen earlier in the run |
| GlyphCache.FirstSeenMembers | naive_bvh/main.cpp:126-131 | the keys a run gives offsets to are exactly its keys that were not cached |
| GlyphCache.FirstSeenPrefix | naive_bvh/main.cpp:126-131 | the keys given offsets by the first m glyphs come first among those given offsets by the whole run |
| GlyphCache.FirstSeenAt | naive_bvh/main.cpp:126-131 | a key first met at glyph b comes right after the keys met before b, and those include every uncached key before b |
| GlyphCache.OffsetPast | naive_bvh/main.cpp:131 | the key at position q after the old keys has offset old key count plus q |
| GlyphCache.NewOffsetAfter | naive_bvh/main.cpp:131 | a key first met at glyph b gets an offset above that of every glyph before b |
| GlyphCache.NewOffsetsInOrder | naive_bvh/main.cpp:124-131 | every key a run adds gets an offset at or past the old count, and offsets are handed out in order of first occurrence in the run |
| GlyphCache.CachedAtStep | naive_bvh/main.cpp:126-128 | glyph i is found in the map exactly when its key was cached before the run or belongs to an earlier glyph of the run |
| GlyphCache.FirstSeenStep | naive_bvh/main.cpp:126-131 | drawing glyph i adds its key to the run's new keys exactly when the map lacks it |
| GlyphCache.RunStoredStart | naive_bvh/main.cpp:123-124 | before its first glyph a run has added no key and laid out nothing |
| GlyphCache.RunStoredStep | naive_bvh/main.cpp:124-187 | drawing glyph i keeps the new keys in first-occurrence order and the static lists laid out from the start, for the first i + 1 glyphs |
| GlyphCache.RunStoredNothingNew | naive_bvh/main.cpp:124-187 | a run whose keys were all cached before leaves the static lists, boxes and upload flag as they were |
| GlyphCache.StoresOutlineGrows | naive_bvh/main.cpp:139-165 | caching an outline only appends points, colours and indices, keeps colours and indices in pairs and indices within the point list, and changes nothing while the upload flag stays set |
| GlyphCache.TextRenderer.constructor | naive_bvh/main.cpp:77-96 | an empty cache and empty per-frame lists, with the upload flag cleared |
| GlyphCache.TextRenderer.UpdateBuffers | naive_bvh/main.cpp:98-111 | re-uploads the static data only when the flag is clear, then sets it; uploads the per-frame lists, returns their common length and leaves them empty; the cache is unchanged |
| GlyphCache.TextRenderer.AppendAll | naive_bvh/main.cpp:141-145 | the point list grows by every point of the arrays, in order |
| GlyphCache.TextRenderer.AppendOutline | naive_bvh/main.cpp:139-146 | the outline's points are appended; the indices are where the cubic, quadratic and line points start and where the last ones end |
| GlyphCache.TextRenderer.BoundingBox | naive_bvh/main.cpp:148-156 | the box found by the pass is the tight box of the glyph's points |
| GlyphCache.TextRenderer.Translate | naive_bvh/main.cpp:157-160 | the glyph's points are moved by minus the low corner in place; the points around them are unchanged |
| GlyphCache.TextRenderer.StoreOutline | naive_bvh/main.cpp:139-169 | the new point, colour and index lists, flag, box and range are those of `StoresOutline` for the outline |
| GlyphCache.TextRenderer.RecordGlyph | naive_bvh/main.cpp:131 | the key is mapped to the old number of ranges and appended to the key list, and one box, one range and the glyph's outline are appended there; the cache invariant holds again |
| GlyphCache.TextRenderer.AddGlyph | naive_bvh/main.cpp:129-172 | a miss maps the key to the old number of ranges, appends it to the key list and stores the outline there: the new box and range are those the outline gives, and the offset holds that outline; the cache stays consistent and only grows; the GPU buffers are not touched |
| GlyphCache.TextRenderer.Lookup | naive_bvh/main.cpp:126-178 | returns the glyph's offset and adds only its key; a miss appends the key to the key list and caches the glyph at the old number of ranges with the box, range, run and points its outline gives; a hit changes nothing else; the GPU buffers are not touched |
| GlyphCache.TextRenderer.Push | naive_bvh/main.cpp:179-184 | the stored box moved to the pen and the stored range go onto the per-frame lists exactly when the range is non-empty |
| GlyphCache.TextRenderer.DrawGlyph | naive_bvh/main.cpp:125-184 | one glyph: a lookup with the same miss and hit outcomes as `Lookup`, then its placement is added when visible; the GPU buffers are not touched |
| GlyphCache.TextRenderer.DrawNext | naive_bvh/main.cpp:124-187 | draws glyph i and returns the pen position of glyph i + 1; the run stays drawn up to i + 1, every key added since the run began is one of its first i + 1 keys and holds its own outline, the key list is the old one followed by the new keys in order of first occurrence, the points, colours, indices and ranges are the old ones followed by the new outlines laid out in that order, and the upload flag stays set exactly while no points were added; the GPU buffers are not touched |
| GlyphCache.TextRenderer.StartDrawing | naive_bvh/main.cpp:123-124 | before its first glyph a run is drawn up to 0 from the current cache |
| GlyphCache.TextRenderer.DrawGlyphs | naive_bvh/main.cpp:124-187 | the loop over the glyphs keeps the run drawn, its new keys in first-occurrence order and the static lists laid out from the start, up to the last glyph |
| GlyphCache.TextRenderer.DrawGlyphRun | naive_bvh/main.cpp:123-188 | every glyph of the run is cached, and the map gains exactly the run's keys, each at an offset holding `outlineOf` of the key. The per-frame lists grow by the visible placements of the run's glyphs, in order, each at its pen position. The cache stays consistent and only grows. The key list grows by the run's new keys in order of first occurrence, so each new key's offset is past the old ones and above that of every glyph before its first occurrence. The points, colours, indices and ranges are the old ones followed by the new glyphs' outlines laid out in that order, and the upload flag stays set exactly while no points were added. A run whose glyphs were all cached before leaves the points, colours, indices, boxes, ranges and upload flag unchanged; the GPU buffers are not touched |
| ObjFaces.FaceLayout | naive_bvh/main.cpp:377-386 | a face line appends twelve entries; entry 4a + j is corner j (with corners 2 and 3 swapped) of quadruple a, minus one |
| ObjFaces.RestoreRewrite | naive_bvh/main.cpp:381-386 | restoring a rewritten quadruple gives back the original |
| ObjFaces.RewriteRestore | naive_bvh/main.cpp:381-386 | every 0-based quadruple is the rewrite of the quadruple it restores to |
| ObjFaces.RestoreFaceEntries | naive_bvh/main.cpp:377-386 | the twelve appended entries determine the three quadruples of the face line |
| ObjFaces.FaceEntriesRestoreFace | naive_bvh/main.cpp:377-386 | any twelve entries that can be made 1-based are the entries of exactly the face line they restore to |
| ObjFaces.PushDecremented | naive_bvh/main.cpp:384 | appends the four indices, each minus one, in order |
| ObjFaces.AppendFace | naive_bvh/main.cpp:377-386 | the face list grows by the rewritten positions, then texture coordinates, then normals |

## Left out

- The BVH build itself (classify, scatter, extent accumulation, split) runs in GLSL compute shaders that are not part of this model. The atomic min and max are modelled as folds over a slot (`MinAccumulated`, `MaxAccumulated`).
- GPU dispatch, OpenGL buffer creation and draw calls, and timing. Uploads in `updateBuffers` become assignments to the buffer fields.
- COM plumbing (`QueryInterface`, `AddRef`, `Release`) and object lifetime.
- DirectWrite and Direct2D calls. `GetGlyphRunOutline` is the input `outlineOf`. `TranslateColorGlyphRun` is assumed to answer "no colour", which selects the monochrome branch.
- The colour-glyph branch of `DrawGlyphRun`. It is driven by an opaque enumerator.
- `GeometrySink.AddArc` only prints a message. `Close`, `SetFillMode` and `SetSegmentFlags` do nothing.
- Geometry.GeometrySink.constructor: `previous` and `beginPoint` are uninitialised in C++; the model starts them at the origin.
- Geometry.GeometrySink.constructor: the sink writes into vectors that its owner lends it. The model keeps the vectors as fields, so it does not capture that aliasing.
- GlyphCache.TextRenderer.DrawGlyphRun: coordinates, base offsets and advances are `float` in the source; the model uses integers, so float rounding in min, max, translation and pen advance is not modelled.
- GlyphCache.TextRenderer.DrawGlyphRun: the em size is a `real` key component; float equality of em sizes (NaN keys) is not modelled.
- GlyphCache.TextRenderer.AppendOutline: the `uint32_t` casts of `points.size()` and `colors.size()` are not modelled; sizes are unbounded naturals.
- GlyphCache.TextRenderer.RecordGlyph: the `unsigned` cast of `colorRanges.size()` is not modelled; offsets are unbounded naturals.
- ObjFaces.AppendFace: requires every index to be above INT32_MIN, where the `int32_t` decrement would overflow. Parsing the face line from text is not modelled.
- Reading the OBJ file, the camera and projection setup and the text formatting involve float numerics and I/O.

## Findings

| source | as written | input that shows it | evidently intended | confidence | as-written member | corrected member |
|---|---|---|---|---|---|---|
| naive_bvh/main.cpp:415 | `sortable` converts the float's value to `uint32_t` (truncating, and undefined for NaN, infinity, values at or below -1 and values at or above 2^32) instead of reinterpreting its bits | 1.5f (0x3FC00000) and 1.25f (0x3FA00000) both get key 0x80000001, which `unsortable` turns into pattern 0x00000001; FLT_MAX and -FLT_MAX, the two extent seeds, are outside the range of `uint32_t` | reinterpret the bits, as `reinterpret_cast<uint32_t&>(ff)`, mirroring `unsortable` at line 424 | high; not executed | ExtentCodec.SortableAsWrittenCollides | ExtentCodec.SortableRoundTrip |
