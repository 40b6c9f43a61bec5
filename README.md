# master_render_3d in Dafny

A model of the core of `master_render_3d`, a small software renderer written in Rust.
The renderer keeps a generic row-major cell buffer (`Screen<T>`). On top of it sit two
back ends:

- **`PixelRenderer`** paints RGBA cells and hands them to a PNG encoder once per frame.
- **`ANSIRenderer`** paints characters and writes them to a terminal with ECMA-48 control
  sequences. It goes through `ANSIHelper`, which owns the character buffer, a cursor, and
  the escape text queued per position (`aux_buffer`).

Both renderers decide which draw wins a cell from a per-frame depth record (`z_buffer`).
A draw is rejected only when the record already holds a strictly nearer depth at the same
cell. Meshes are lists of vertices. Each vertex is transformed by a scale, a rotation and a
translation (4x4 matrices), in that order. The rasterizer then splats every vertex onto each
cell whose centre is within a given planar distance of it, looping columns, then rows, then
vertices.

Modules, one file each:

| file | module | contents |
|---|---|---|
| `wrappers.dfy` | `Wrappers` | `Status` (`Ok` / `Err(message)`) for `Result<(), &str>`, and `Option` |
| `decimal.dfy` | `Decimal` | decimal printing of naturals, as `Display` prints the numbers inside escapes |
| `vectors.dfy` | `Vectors` | `Vector2i`, `Vector3`, `Vector4` and their operators |
| `matrices.dfy` | `Matrices` | `Mat4` constructors, the product (a function and the loop method), `Vector4 * &Mat4` |
| `mesh.dfy` | `Meshes` | class `Mesh` and the vertex transform |
| `screen.dfy` | `Render` | class `Screen<T>` |
| `occlusion.dfy` | `Occlusion` | the depth record: the blocking scan, the record and cells after a series of draws |
| `splat.dfy` | `Splat` | the draw attempts made, in loop order, by `rasterize_vertices` and `draw_image_2d` |
| `pixel.dfy` | `Pixel` | class `PixelRenderer`, the vertex colour, the RGBA payload |
| `ansi_protocol.dfy` | `AnsiProtocol` | `ANSIStyle` codes, the CUP / SGR / ED sequences, the cursor arithmetic, the flush walk |
| `ansi.dfy` | `Ansi` | classes `AnsiHelper` and `AnsiRenderer` |

Each imperative operation of the source is a method. A method's `ensures` ties the new state
to a function of the old state:

- A draw loop leaves the record equal to `Admitted(old record, attempts)` and the cells equal
  to `Paint(old cells, ...)`. The attempts come from `GridSplats` or `ImageMarks`.
- The helper's `flush` leaves the output equal to the old output plus the home sequence plus
  `Walk(cells, ...)`.

Lemmas then state what those functions mean:

- Every attempted entry ends up matched or beaten by a recorded entry at its cell.
- Depths at a cell never increase along the record.
- Exactly the near (vertex, cell) pairs are attempted.
- The walk never prints `'\0'`.

Everything `print!` writes goes to the string field `AnsiHelper.out`.

Details of the source that the model keeps:

- **Queued text at column 0 of rows below the first is never printed.** The walk's cursor
  wrap in `ANSIHelper::flush` tests `x > width`. So the walk visits columns `0 ..= width` of
  row 0 and columns `1 ..= width` of every later row. It never stands at `(0, y)` for `y >= 1`.
  A style queued there is silently dropped (`AnsiProtocol.WalkIgnoresColumnZero`).
- **Cursor jumps use 0-based coordinates.** The CUP sequences carry the raw 0-based `y;x`,
  although section 8.3.21 of ECMA-48 numbers lines and columns from 1. The model prints
  exactly what the code prints.
- **Some style codes differ from the standard SGR table.** The `ANSIStyle` codes are Rust's
  implicit discriminants. From `SetUnderlineColor` (56) on, they no longer match section
  8.3.117 of ECMA-48 as terminals implement it (for example, 58 there is the underline
  colour). The model keeps the source's numbers.
- **`aux_buffer` is never cleared.** No operation empties it, so queued escapes are printed
  again at every later flush.

## Model

| member | source | states |
|---|---|---|
| Vectors.MagnitudeSquared2i | src/lib.rs:258-262 | the squared length of a `Vector2i` is never negative, and is zero exactly for the zero vector |
| Vectors.MagnitudeSquared3 | src/lib.rs:264-268 | the squared length of a `Vector3` is never negative |
| Vectors.MagnitudeSquared4 | src/lib.rs:270-274 | the squared length of a `Vector4` is never negative |
| Vectors.Add2i | src/lib.rs:54-63 | `Vector2i + Vector2i`, componentwise sum |
| Vectors.Sub2i | src/lib.rs:65-74 | `Vector2i - Vector2i`, componentwise difference |
| Vectors.Mul2i | src/lib.rs:76-85 | `Vector2i * Vector2i` as written: the componentwise difference |
| Vectors.Hadamard2i | src/lib.rs:76-85 | the componentwise product that `Vector2i * Vector2i` evidently means |
| Vectors.Add3 | src/lib.rs:125-135 | `Vector3 + Vector3`, componentwise sum |
| Vectors.Sub3 | src/lib.rs:137-147 | `Vector3 - Vector3`, componentwise difference |
| Vectors.Mul3 | src/lib.rs:149-159 | `Vector3 * Vector3` as written: x and y products, z set to the y product |
| Vectors.Hadamard3 | src/lib.rs:149-159 | the componentwise product that `Vector3 * Vector3` evidently means |
| Vectors.Scaled3 | src/lib.rs:161-171 | `Vector3 * f64`, every component times the scalar |
| Vectors.Add4 | src/lib.rs:219-230 | `Vector4 + Vector4`, componentwise sum |
| Vectors.Sub4 | src/lib.rs:232-243 | `Vector4 - Vector4`, componentwise difference |
| Vectors.Mul4 | src/lib.rs:245-256 | `Vector4 * Vector4`, componentwise product |
| Vectors.AddSubRoundTrip2i | src/lib.rs:54-74 | subtracting b after adding b gives the vector back |
| Vectors.AddSubRoundTrip3 | src/lib.rs:125-147 | subtracting b after adding b gives the vector back |
| Vectors.AddSubRoundTrip4 | src/lib.rs:219-243 | subtracting b after adding b gives the vector back |
| Vectors.Mul2iUnitCounterexample | src/lib.rs:76-85 | as written, `Vector2i * Vector2i` maps (2, 3) times the unit (1, 1) to something other than (2, 3) |
| Vectors.Hadamard2iLaws | src/lib.rs:76-85 | the componentwise product has (1, 1) as unit and commutes |
| Vectors.Mul3Counterexample | src/lib.rs:149-159 | as written, the z of (1, 1, 2) * (1, 1, 3) is 1, where the componentwise product gives 6 |
| Vectors.Hadamard3Laws | src/lib.rs:149-171 | the componentwise product has (1, 1, 1) as unit and commutes; `Vector3 * f64` equals the product with (k, k, k) |
| Vectors.Mul4Laws | src/lib.rs:245-256 | `Vector4 * Vector4` has (1, 1, 1, 1) as unit and commutes |
| Vectors.Promote | src/lib.rs:183-190 | `Vector4::from(&Vector3)` sets w to 1 |
| Vectors.Demote | src/lib.rs:96-102 | `Vector3::from(&Vector4)` keeps x, y and z and drops w |
| Vectors.PromoteDemote | src/lib.rs:183-190 | going to four components and back is lossless; going back loses only w, so a w = 1 vector survives the round trip |
| Matrices.Identity | src/lib.rs:357-366 | `Mat4::identity()`: ones on the diagonal, zeros elsewhere |
| Matrices.Scale | src/lib.rs:368-377 | `Mat4::scale(s)`: s on the first three diagonal entries, 1 in the last |
| Matrices.Translation | src/lib.rs:379-388 | `Mat4::translation(t)`: the identity with t in the last column |
| Matrices.RotationX | src/lib.rs:391-396 | the x-axis rotation of `euler_rotation`, given the angle's sine and cosine |
| Matrices.RotationY | src/lib.rs:398-403 | the y-axis rotation of `euler_rotation`, given the angle's sine and cosine |
| Matrices.RotationZ | src/lib.rs:405-410 | the z-axis rotation of `euler_rotation`, given the angle's sine and cosine |
| Matrices.EulerRotation | src/lib.rs:390-417 | `euler_rotation`: the product Rx * Ry * Rz, in that order |
| Matrices.Product | src/lib.rs:420-438 | `Mat4 * Mat4`: entry (row, column) is the row of the left operand against the column of the right |
| Matrices.Apply | src/lib.rs:206-217 | `Vector4 * &Mat4`: component i is row i of the matrix dotted with the vector |
| Matrices.Multiply | src/lib.rs:420-438 | the array filled by the two nested loops is the matrix product, entry (row, column) being row of `self` against column of `rhs` |
| Matrices.ProductIdentity | src/lib.rs:357-366 | the identity matrix is a left and right unit of the product |
| Matrices.ApplyIdentity | src/lib.rs:206-217 | multiplying a vector by the identity leaves it unchanged |
| Matrices.ApplyTranslation | src/lib.rs:379-388 | a translation matrix moves a point (w = 1) by t, because the vector is multiplied as a column (M v) |
| Matrices.ApplyScale | src/lib.rs:368-377 | a scale matrix multiplies a point componentwise by s |
| Matrices.EulerRotationAtZero | src/lib.rs:390-417 | with sine 0 and cosine 1 about every axis, Rx * Ry * Rz is the identity |
| Matrices.RotationXKeepsAxis | src/lib.rs:391-396 | for every angle and vector, rotating about x keeps x and w |
| Matrices.RotationYKeepsAxis | src/lib.rs:398-403 | for every angle and vector, rotating about y keeps y and w |
| Matrices.RotationZKeepsAxis | src/lib.rs:405-410 | for every angle and vector, rotating about z keeps z and w |
| Matrices.ProductAffine | src/lib.rs:420-438 | the product of two matrices whose last row is (0, 0, 0, 1) has that last row too |
| Matrices.EulerRotationKeepsW | src/lib.rs:390-417 | for all angles the Euler rotation's last row is (0, 0, 0, 1), so it keeps every vector's w and a point stays a point |
| Meshes.TransformVertex | src/lib.rs:317 | one vertex promoted to w = 1, through scale, then rotation, then translation, then demoted |
| Meshes.TransformAll | src/lib.rs:311-323 | one output vertex per stored vertex, in order, each the stored vertex through scale, then rotation, then translation |
| Meshes.Mesh.constructor | src/lib.rs:285-293 | a new mesh has no vertices and identity scale, rotation and translation |
| Meshes.Mesh.SetTranslationMatrix | src/lib.rs:295-297 | replaces the translation and nothing else |
| Meshes.Mesh.SetRotationMatrix | src/lib.rs:299-301 | replaces the rotation and nothing else |
| Meshes.Mesh.SetScaleMatrix | src/lib.rs:303-305 | replaces the scale and nothing else |
| Meshes.Mesh.AddVertex | src/lib.rs:307-309 | appends the vertex at the end and changes no transform |
| Meshes.Mesh.GetTransformedVerts | src/lib.rs:311-323 | the loop returns the transformed vertices of `TransformAll`: one per vertex, same order |
| Meshes.TransformIdentity | src/lib.rs:311-323 | with the three identity matrices a new mesh holds, the vertices come back unchanged |
| Meshes.TransformScaleThenTranslate | src/lib.rs:317 | scale s, no rotation, translation t map p to p scaled componentwise by s, plus t |
| Meshes.TransformTranslationOnly | src/lib.rs:379-388 | with only a translation set, every vertex comes back moved by t |
| Decimal.NatToString | src/lib.rs:910-915 | the printed number is a non-empty run of decimal digits without a leading zero |
| Decimal.ParsePrinted | src/lib.rs:910-915 | reading the printed digits back gives the number |
| Decimal.PrintedInjective | src/lib.rs:910-915 | different numbers print differently |
| Render.IdxInBounds | src/lib.rs:475-487 | every cell with x < width and y < height has an index inside a width * height buffer |
| Render.IdxWraps | src/lib.rs:475-487 | x is not checked against the width: column `width` of row y is column 0 of row y + 1 |
| Render.Fill | src/lib.rs:467-473 | n cells, each the given value |
| Render.Stamp | src/lib.rs:495-499 | same length; the cell at the index takes the value if the index is inside, and every other cell keeps its value |
| Render.StampThenRead | src/lib.rs:495-499 | reading a written cell gives the value written; other cells read as before |
| Render.Screen.constructor | src/lib.rs:451-459 | width and height as given, width * height default cells |
| Render.Screen.Clear | src/lib.rs:467-473 | the loop leaves exactly width * height default cells, dimensions unchanged |
| Render.Screen.Resize | src/lib.rs:461-465 | new dimensions, then width * height default cells |
| Render.Screen.SetPixel | src/lib.rs:475-487 | an index inside the buffer: Ok and exactly that cell replaced; past the end: Err("Index out of bounds.") and the buffer unchanged |
| Render.Screen.PushPixels | src/lib.rs:489-502 | always Ok; every element goes to the same index, so a non-empty list leaves its last element there (if the index is inside); nothing else changes |
| Render.Screen.GetPixel | src/lib.rs:504-510 | Some exactly when the index is inside the buffer, and then the cell's value |
| Occlusion.Occludes | src/lib.rs:561-565 | the scan reports a block exactly when the record has an entry at (x, y) with a strictly smaller depth |
| Occlusion.AdmittedGrows | src/lib.rs:559-579 | the record only grows, keeps its old prefix, and gains only attempted entries |
| Occlusion.AdmittedLayered | src/lib.rs:561-568 | along the record, the depths recorded at one cell never increase |
| Occlusion.AdmittedCovers | src/lib.rs:559-579 | after any series of draws, every attempted entry is matched or beaten by a recorded entry at its cell |
| Occlusion.ArrivalOrder | src/lib.rs:561-565 | near-then-far records only the near entry; far-then-near records both, the near one last |
| Occlusion.PaintTouchesOnlyTargets | src/lib.rs:559-579 | drawing never resizes the buffer and leaves every cell that no attempted entry maps to unchanged |
| Occlusion.AdmittedAppend | src/lib.rs:636-655 | running the draws of a and then those of b records what running a + b records |
| Occlusion.PaintAppend | src/lib.rs:636-655 | running the draws of a and then those of b paints what running a + b paints |
| Occlusion.Coords | src/lib.rs:706-708 | the positions list has one (x, y) per recorded entry, in the same order |
| Splat.Near | src/lib.rs:788-791 | whether a vertex, projected onto z = 0, is within the distance of the cell; the square root is compared without the root (distance non-negative and squared length at most its square) |
| Splat.CellSplatsExact | src/lib.rs:788-791 | the draws at cell (x, y) are exactly one per vertex whose projection is within the distance, at the vertex's depth |
| Splat.ColumnSplatsExact | src/lib.rs:787-791 | the draws for a column are exactly the near (row, vertex) pairs of that column |
| Splat.GridSplatsColumns | src/lib.rs:786-791 | an entry is drawn by the grid loop exactly when it is drawn by the loop over its own column, and that column is inside the grid |
| Splat.GridSplatsExact | src/lib.rs:786-791 | the draws of the whole loop are exactly the near (column, row, vertex) triples inside the grid |
| Splat.GridSplatsExample | src/lib.rs:639-644 | illustration: a vertex at (0, 0) with distance 0.5 on a 2 x 1 grid draws only at cell (0, 0) |
| Splat.AsU32 | src/lib.rs:627-628 | the `as u32` cast: below 2^32, identity on u32 values, negatives wrapped by 2^32 |
| Splat.RowMarksExact | src/lib.rs:770-776 | the draws for an image row are exactly its non-zero-red pixels, each at `position` plus its offset |
| Splat.ImageMarksExact | src/lib.rs:768-781 | the draws for an image are exactly its non-zero-red pixels over all rows |
| Splat.NegativePositionWraps | src/lib.rs:627-628 | an image pixel placed at x = -1 is drawn at column 2^32 - 1 |
| Pixel.SaturatingToUsize | src/lib.rs:646 | the `as usize` cast is below 2^64, 0 for non-positive values, saturates at usize::MAX, and otherwise truncates |
| Pixel.Channel | src/lib.rs:645-646 | one colour channel: the constant times (z - z_max) / (z_min - z_max), cast with saturation; the z_min = z_max case follows the infinity and NaN the division gives |
| Pixel.Colour | src/lib.rs:645-646 | the colour of a rasterized vertex: channels 239, 100 and 232 scaled by depth, alpha 255 |
| Pixel.ColourAtRangeEnds | src/lib.rs:645-646 | with z_min < z_max, the nearest depth gets (239, 100, 232) and the farthest black, both opaque |
| Pixel.ColourOnEmptyRange | src/lib.rs:645-646 | with z_min = z_max = 0 the multiplier is infinite: positive depths saturate every channel, the others give black |
| Pixel.Lowest | src/lib.rs:571-573 | `z_min` is at most 0 and at most every recorded depth, and is 0 or one of them |
| Pixel.Highest | src/lib.rs:574-576 | `z_max` is at least 0 and at least every recorded depth, and is 0 or one of them |
| Pixel.DepthRangeWidens | src/lib.rs:571-576 | recording an entry never raises `z_min` or lowers `z_max`, and afterwards z_min <= z <= z_max |
| Pixel.RgbaBytes | src/lib.rs:596-607 | four bytes per cell, in cell order, each channel truncated to 8 bits |
| Pixel.PixelRenderer.constructor | src/lib.rs:547-557 | a cleared w x h buffer, an empty record, frame 0, depth range (0, 0) |
| Pixel.PixelRenderer.DrawAt | src/lib.rs:559-579 | blocked: Ok and nothing changes; index past the end: the error and nothing changes; otherwise the cell is written and exactly (x, y, z) appended; the depth range stays that of the record |
| Pixel.PixelRenderer.Flush | src/lib.rs:585-619 | returns the RGBA payload of the old cells, then clears the buffer and the record, resets the depth range to (0, 0) and counts one more frame |
| Pixel.PixelRenderer.DrawCell | src/lib.rs:640-651 | the vertex loop for one cell records and paints what its near vertices admit, in vertex order |
| Pixel.PixelRenderer.DrawColumn | src/lib.rs:639-652 | the row loop for one column records and paints what the column's draws admit |
| Pixel.PixelRenderer.RasterizeVertices | src/lib.rs:636-655 | always Ok; the record and the cells are those the draws of `GridSplats` over the transformed vertices admit, each cell coloured from the depth range at the moment of its draw |
| Pixel.PixelRenderer.DrawImagePixel | src/lib.rs:623-630 | a pixel with non-zero red is one more draw of the marker colour; others change nothing |
| Pixel.PixelRenderer.DrawRow | src/lib.rs:622-631 | the columns of a row, drawn in order until a draw fails |
| Pixel.PixelRenderer.DrawImage2D | src/lib.rs:621-634 | the rows, drawn in order until a draw fails; the state and status are those of `UntilFault` over `ImageMarks` |
| Pixel.Attempt | src/lib.rs:559-579 | one draw: blocked leaves all as is; past the end reports the error; otherwise Ok, the cell replaced and the entry appended |
| Pixel.UntilFaultSticks | src/lib.rs:628 | after a failed draw (`?`), later draws change nothing |
| Pixel.UntilFaultAppend | src/lib.rs:621-634 | running a and then b is running a + b |
| Pixel.FaultEndsRun | src/lib.rs:628 | a run that fails on a prefix ends in the state of that prefix |
| Pixel.UntilFaultAgrees | src/lib.rs:621-634 | a run that ends Ok recorded and painted exactly what the depth record admits; one that fails reports "Index out of bounds." |
| Pixel.RowMarksPrefix | src/lib.rs:770 | fewer columns give a prefix of a row's draws |
| Pixel.ImageMarksPrefix | src/lib.rs:769 | fewer rows give a prefix of the image's draws |
| AnsiProtocol.Code | src/lib.rs:954-1002 | `style as i32`: the discriminant of each style, with explicit starts 0, 20, 38, 48 and 100 |
| AnsiProtocol.StyleOfCode | src/lib.rs:954-1002 | reading a style's code back gives that style |
| AnsiProtocol.CodeOfStyle | src/lib.rs:954-1002 | any code that names a style is that style's code; with `StyleOfCode`, the numbering is one-to-one |
| AnsiProtocol.CursorPosition | src/lib.rs:910-915 | ESC [ y ; x H: its length, the ESC and '[' in front, the ';' after y's digits and the final 'H' |
| AnsiProtocol.DigitsAreNotDelimiters | src/lib.rs:910-915 | the printed numbers contain no ';', 'H', 'm', ESC or '\0' |
| AnsiProtocol.CursorPositionInjective | src/lib.rs:910-915 | two cursor sequences are equal only for the same (y, x) |
| AnsiProtocol.Sgr | src/lib.rs:917-920 | ESC [ code m: its length, leading ESC '[' and trailing 'm' |
| AnsiProtocol.Queued | src/lib.rs:860-867 | the key is added if absent; every other entry is unchanged |
| AnsiProtocol.QueuedConcatenates | src/lib.rs:860-867 | queuing a then b at one key is queuing a + b there |
| AnsiProtocol.StyleQueuesSgr | src/lib.rs:917-920 | queuing ESC, then '[', then the code and 'm' queues the SGR sequence |
| AnsiProtocol.Wrapped | src/lib.rs:852-858 | the cursor after the `while x > width` loop: width subtracted from x and one added to y per turn |
| AnsiProtocol.WrappedKeepsPosition | src/lib.rs:852-858 | the wrap keeps x + y * width, ends with x <= width (x = width possible, the test being `>`) and never ends at column 0 from a positive column |
| AnsiProtocol.PositionShape | src/lib.rs:892-899 | the walk visits cell k at a position with x + y * width = k; row 0 spans columns 0 ..= width and later rows 1 ..= width |
| AnsiProtocol.WalkIgnoresColumnZero | src/lib.rs:877-880 | text queued at column 0 of a row below the first is never printed |
| AnsiProtocol.WalkPrintsShortRow | src/lib.rs:877-900 | a short frame with nothing queued and no '\0' prints exactly its cells |
| AnsiProtocol.Walk | src/lib.rs:869-900 | the text `flush` prints for a frame from cell k on: at each cell the queued text for the position it believes it is at, then the cell as shown, then the jumps of its wrap loop |
| AnsiProtocol.WalkSkipsBlankCell | src/lib.rs:881-883 | in any frame, a '\0' cell prints nothing of its own: only its queued text and wrap jumps, and the next cell is marked as a jump target |
| AnsiProtocol.WalkJumpsToDrawnCell | src/lib.rs:884-889 | in any frame, a drawn cell reached after a '\0' prints its queued text, a jump to its own position, the cell, and only then its wrap jumps and the rest |
| AnsiProtocol.WalkSkipsBlank | src/lib.rs:881-889 | illustration on the frame [a, '\0', b] with nothing queued: the output is a, then a jump to (0, 2), then b |
| AnsiProtocol.WalkPrintsNoNul | src/lib.rs:877-900 | the walk prints no '\0' unless queued text holds one |
| AnsiProtocol.CursorPositionHasNoNul | src/lib.rs:886 | a cursor jump holds no '\0' |
| AnsiProtocol.WrapMovesHaveNoNul | src/lib.rs:894-899 | the jumps printed while wrapping hold no '\0' |
| AnsiProtocol.Glyph | src/lib.rs:792-805 | the character for a vertex at depth z: '.' beyond 16, 'u' beyond 8, 'w' beyond 4, 'W' beyond 2, '@' otherwise |
| AnsiProtocol.GlyphFadesWithDepth | src/lib.rs:792-805 | a farther vertex never gets a denser glyph ('@' > 'W' > 'w' > 'u' > '.') |
| Ansi.AnsiHelper.constructor | src/lib.rs:829-843 | a 120 x 50 buffer of '\0', cursor at (0, 0), nothing queued |
| Ansi.AnsiHelper.Advance | src/lib.rs:852-858 | the cursor becomes the wrapped position: x + y * width grows by the length and x ends at most the width |
| Ansi.AnsiHelper.Write | src/lib.rs:845-850 | always Ok; the last character lands at the cursor's cell, then the cursor advances by the text's length |
| Ansi.AnsiHelper.WriteAux | src/lib.rs:860-867 | the text is appended to what is queued at (x, y), creating the entry if absent |
| Ansi.AnsiHelper.Flush | src/lib.rs:869-903 | prints the home jump and then the walk of the old cells; the buffer ends all '\0', the queue unchanged, the cursor where the walk ends |
| Ansi.AnsiHelper.PrintCell | src/lib.rs:878-890 | prints the text queued at the cursor, then the cell as `Shown` says, and returns whether the cell was '\0' |
| Ansi.AnsiHelper.StepRight | src/lib.rs:893-899 | the cursor takes one wrapped step right; one jump is printed per row moved down |
| Ansi.AnsiHelper.GoTo | src/lib.rs:905-908 | moves the cursor and prints nothing |
| Ansi.AnsiHelper.GoToImmediate | src/lib.rs:910-915 | moves the cursor and prints ESC [ y ; x H |
| Ansi.AnsiHelper.SetStyle | src/lib.rs:917-920 | queues the SGR sequence at the cursor; the cursor and the output are unchanged |
| Ansi.AnsiHelper.CarriageReturn | src/lib.rs:922-924 | queues a carriage return at the cursor |
| Ansi.AnsiHelper.Beep | src/lib.rs:926-928 | queues a bell at the cursor |
| Ansi.AnsiHelper.FullClear | src/lib.rs:930-933 | prints ESC [ 0 J |
| Ansi.AnsiHelper.CsiStartImmediate | src/lib.rs:935-938 | prints ESC [ |
| Ansi.AnsiHelper.CsiStart | src/lib.rs:940-943 | queues ESC [ at the cursor |
| Ansi.AnsiHelper.EscapeStartImmediate | src/lib.rs:945-947 | prints ESC |
| Ansi.AnsiHelper.EscapeStart | src/lib.rs:949-951 | queues ESC at the cursor |
| Ansi.AnsiRenderer.constructor | src/lib.rs:675-684 | a new helper, no positions, empty record |
| Ansi.AnsiRenderer.DrawAt | src/lib.rs:690-712 | always Ok; blocked changes nothing; otherwise the style (if any) is queued at (x, y), the text's last character lands there, the cursor ends past it and (x, y, z) is recorded |
| Ansi.AnsiRenderer.SetStyle | src/lib.rs:714-716 | queues the style at the helper's cursor |
| Ansi.AnsiRenderer.ClearAt | src/lib.rs:718-721 | writes ' ' at (x, y); the cursor ends one step right |
| Ansi.AnsiRenderer.Flush | src/lib.rs:723-746 | blanks the previous positions no longer drawn, flushes the helper, sends the cursor home; the previous positions become this frame's; the positions and the record are emptied |
| Ansi.AnsiRenderer.DrawEntry | src/lib.rs:790-807 | one draw of a one-character glyph extends the drawn state by one entry |
| Ansi.AnsiRenderer.DrawCell | src/lib.rs:788-808 | the vertex loop for one cell records and paints, with depth glyphs, what its near vertices admit |
| Ansi.AnsiRenderer.DrawColumn | src/lib.rs:787-809 | the row loop for one column records and paints what the column's draws admit |
| Ansi.AnsiRenderer.RasterizeVertices | src/lib.rs:783-814 | always Ok; the record, the cells and the cursor are those the draws of `GridSplats` over the transformed vertices produce |
| Ansi.AnsiRenderer.DrawRow | src/lib.rs:770-777 | the columns of an image row, drawn as '&' |
| Ansi.AnsiRenderer.DrawImage2D | src/lib.rs:768-781 | always Ok; the state is that the draws of `ImageMarks` produce with '&' |
| Ansi.AnsiRenderer.GoToImmediate | src/lib.rs:748-750 | moves the cursor and prints the jump |
| Ansi.AnsiRenderer.GoTo | src/lib.rs:752-754 | moves the cursor, prints nothing |
| Ansi.AnsiRenderer.Clear | src/lib.rs:756-758 | prints ESC [ 0 J |
| Ansi.Contains | src/lib.rs:728-734 | the scan with `break` finds the position exactly when it is in the list |
| Ansi.Cleared | src/lib.rs:726-738 | the cells after the stale-position loop: each previous position not among the current ones is overwritten with ' ' |
| Ansi.ClearedExact | src/lib.rs:726-738 | a cell is blanked exactly when some previous position that is no longer drawn maps to it; every other cell is unchanged |
| Ansi.CursorAfterAppend | src/lib.rs:786-808 | the cursor after the draws of a and then b is the cursor after a + b |
| Ansi.CursorFollowsLastDraw | src/lib.rs:690-712 | after a series of draws the cursor stands right of the last recorded entry, or where it was if nothing was recorded |

## Findings

| source | as written | input that shows it | evidently intended | confidence | as-written member | corrected member |
|---|---|---|---|---|---|---|
| src/lib.rs:79-84 | `Vector2i * Vector2i` subtracts the components | (2, 3) * (1, 1) gives (1, 2) | the componentwise product, as `Vector4 * Vector4` computes | high, not executed | Vectors.Mul2iUnitCounterexample | Vectors.Hadamard2iLaws |
| src/lib.rs:156 | `Vector3 * Vector3` sets z to `self.y * rhs.y` | (1, 1, 2) * (1, 1, 3) has z = 1 | z = `self.z * rhs.z` | high, not executed | Vectors.Mul3Counterexample | Vectors.Hadamard3Laws |

The mesh transform uses the corrected componentwise product to state what a scale matrix
does (`Meshes.TransformScaleThenTranslate`). The as-written `Mul2i` and `Mul3` are kept and
are used nowhere else.

## Left out

- PNG encoding, directory and file creation, and the `println!` of `PixelRenderer::flush`
  (src/lib.rs:586-611) are I/O. `Pixel.PixelRenderer.Flush` returns the byte payload it
  would encode and performs the state reset.
- Terminal output: every `print!` appends to `AnsiHelper.out`. Nothing is flushed to a real
  terminal.
- `f64` is modelled as exact `real`. Rounding, infinities and NaN are not modelled, except
  in the zero-width depth range of the vertex colour, where they are written out.
- `sqrt` in `magnitude` is replaced by comparing the squared distance with `max_distance²`,
  which is exact for reals. `sin` and `cos` in `euler_rotation` become caller-supplied
  values (`Matrices.EulerRotation` takes the six numbers).
- Vectors.MagnitudeSquared3: states only that the result is non-negative, not that it is
  zero exactly for the zero vector, because the solver cannot close that nonlinear real
  argument.
- Vectors.MagnitudeSquared4: likewise, only non-negativity.
- Integer widths:
  - `u32` arithmetic is unbounded here: `y * width + x`, the cursor, `frame_num += 1`, and
    the image offset `x as i32`.
  - The `i32` overflow of `Vector2i` arithmetic and magnitude is likewise not modelled.
  - The `as u32` cast of a negative image position is modelled (`Splat.AsU32`).
  - `usize::MAX` is taken as on a 64-bit target.
- The "Desired pixel index does not fit into usize." error of `set_pixel` and
  `push_pixels` cannot occur on a 64-bit target, so it is not modelled.
- `text.len()` in `ANSIHelper::write` counts bytes. The model counts characters, which is
  the same for the ASCII text the renderers write.
- `ImageData` and `PixelData` belong to the `image_helper` crate, which is not part of this
  model.
  - An image is its width, height and red channel (`Splat.Image`).
  - A pixel is four channel numbers (`Pixel.PixelData`).
  - `PixelData::default()` is taken to be all zeros.
- Trivial accessors are direct field reads: `Screen::get_buffer`, `width`, `height`,
  `PixelRenderer::get_screen_buffer`, `ANSIRenderer::helper`, `Mat4::values` and
  `mutable_values`, and the vector getters.
- `Mat4::new` and `Mat4::empty` are the matrix values themselves.
- The empty stubs `rasterize_line` and `draw_bitmap` (src/lib.rs:760-766) do nothing and
  are not modelled.
- examples/beloved.rs, the demo loop (timing, sleeping, image loading), is not part of this
  model.
