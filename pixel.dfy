/** The image renderer (`pixel::PixelRenderer`): RGBA cells, a depth record, and the running
    nearest and farthest depths that drive the colour of rasterized vertices. */
module Pixel {
  import opened Wrappers
  import opened Vectors
  import opened Render
  import opened Occlusion
  import opened Splat
  import opened Meshes

  /** The four channel values handed to `PixelData::new`. */
  datatype PixelData = PixelData(r: nat, g: nat, b: nat, a: nat)

  /** The value a cleared cell holds. */
  const Transparent := PixelData(0, 0, 0, 0)

  /** The colour `draw_image_2d` paints: opaque yellow. */
  const Marker := PixelData(255, 255, 0, 255)

  /** usize::MAX + 1 on a 64-bit target. */
  const UsizeLimit: nat := 0x1_0000_0000_0000_0000

  /** An `f64 as usize` cast: saturating, with negative values going to 0. */
  function SaturatingToUsize(v: real): (r: nat)
    ensures r < UsizeLimit
    ensures v <= 0.0 ==> r == 0
    ensures v >= UsizeLimit as real ==> r == UsizeLimit - 1
    ensures 0.0 <= v < UsizeLimit as real ==> r as real <= v < r as real + 1.0
  {
    if v <= 0.0 then 0
    else if v >= UsizeLimit as real then UsizeLimit - 1
    else v.Floor
  }

  /** One colour channel of a rasterized vertex: `(k * multiplier) as usize`, where the
      multiplier is `(1 / (zMin - zMax)) * (z - zMax)`. When zMin == zMax the division gives
      +infinity, so the product is +infinity for z > zMax (saturating to usize::MAX), -infinity
      for z < zMax and NaN for z == zMax (both cast to 0). */
  function Channel(k: real, zMin: real, zMax: real, z: real): nat
    requires k > 0.0
  {
    if zMin != zMax then SaturatingToUsize(k * ((z - zMax) / (zMin - zMax)))
    else if z > zMax then UsizeLimit - 1
    else 0
  }

  /** The colour `rasterize_vertices` gives a vertex at depth z. */
  function Colour(zMin: real, zMax: real, z: real): PixelData {
    PixelData(Channel(239.0, zMin, zMax, z), Channel(100.0, zMin, zMax, z), Channel(232.0, zMin, zMax, z), 255)
  }

  /** With a proper depth range, the nearest depth gets the full colour and the farthest black. */
  lemma ColourAtRangeEnds(zMin: real, zMax: real)
    requires zMin < zMax
    ensures Colour(zMin, zMax, zMin) == PixelData(239, 100, 232, 255)
    ensures Colour(zMin, zMax, zMax) == PixelData(0, 0, 0, 255)
  {
    assert (zMin - zMax) / (zMin - zMax) == 1.0;
    assert (zMax - zMax) / (zMin - zMax) == 0.0;
  }

  /** While the range is still empty (both ends 0, as after `new` or `flush`), a vertex behind
      the screen plane saturates every channel and any other vertex is black. */
  lemma ColourOnEmptyRange(z: real)
    ensures z > 0.0 ==> Colour(0.0, 0.0, z) == PixelData(UsizeLimit - 1, UsizeLimit - 1, UsizeLimit - 1, 255)
    ensures z <= 0.0 ==> Colour(0.0, 0.0, z) == PixelData(0, 0, 0, 255)
  {
  }

  /** `z_min` as the renderer keeps it: 0 to start with, lowered by every recorded depth. */
  function Lowest(record: seq<ZEntry>): (r: real)
    ensures r <= 0.0
    ensures forall i :: 0 <= i < |record| ==> r <= record[i].z
    ensures r == 0.0 || exists i :: 0 <= i < |record| && record[i].z == r
  {
    if record == [] then 0.0
    else
      var rest := Lowest(record[..|record| - 1]);
      var z := record[|record| - 1].z;
      if rest > z then z else rest
  }

  /** `z_max` as the renderer keeps it: 0 to start with, raised by every recorded depth. */
  function Highest(record: seq<ZEntry>): (r: real)
    ensures r >= 0.0
    ensures forall i :: 0 <= i < |record| ==> r >= record[i].z
    ensures r == 0.0 || exists i :: 0 <= i < |record| && record[i].z == r
  {
    if record == [] then 0.0
    else
      var rest := Highest(record[..|record| - 1]);
      var z := record[|record| - 1].z;
      if rest < z then z else rest
  }

  /** Recording one more entry lowers `z_min` to at most its depth and raises `z_max` to at least
      its depth, never the other way. */
  lemma DepthRangeWidens(record: seq<ZEntry>, e: ZEntry)
    ensures Lowest(record + [e]) <= Lowest(record) && Lowest(record + [e]) <= e.z
    ensures Highest(record + [e]) >= Highest(record) && Highest(record + [e]) >= e.z
  {
    assert (record + [e])[..|record|] == record;
  }

  /** The colour a rasterized entry is painted with, from the record as it stands before it. */
  function RasterInk(record: seq<ZEntry>, e: ZEntry): PixelData {
    Colour(Lowest(record), Highest(record), e.z)
  }

  /** The colour an image pixel is painted with. */
  function MarkerInk(record: seq<ZEntry>, e: ZEntry): PixelData {
    Marker
  }

  /** The draw of e fails: nothing nearer blocks it and its index is past the end of the buffer. */
  predicate Faults(record: seq<ZEntry>, e: ZEntry, width: nat, size: nat) {
    !Blocked(record, e.x, e.y, e.z) && Idx(e.x, e.y, width) >= size
  }

  /** The RGBA byte payload `flush` encodes: four `as u8` truncations per cell, in cell order. */
  function RgbaBytes(cells: seq<PixelData>): (r: seq<nat>)
    ensures |r| == 4 * |cells|
    ensures forall i :: 0 <= i < |cells| ==>
      r[4 * i] == cells[i].r % 256 && r[4 * i + 1] == cells[i].g % 256 &&
      r[4 * i + 2] == cells[i].b % 256 && r[4 * i + 3] == cells[i].a % 256
  {
    if cells == [] then []
    else
      var p := cells[|cells| - 1];
      RgbaBytes(cells[..|cells| - 1]) + [p.r % 256, p.g % 256, p.b % 256, p.a % 256]
  }

  class PixelRenderer {
    const screen: Screen<PixelData>
    var zBuffer: seq<ZEntry>
    var frameNum: nat
    var zMin: real
    var zMax: real

    /** The buffer is full-sized and cleared to transparent, and the depth range is the one the
        record implies. */
    predicate Valid()
      reads this, screen
    {
      screen.Valid() && screen.empty == Transparent &&
      zMin == Lowest(zBuffer) && zMax == Highest(zBuffer)
    }

    /** `PixelRenderer::new`. */
    constructor (w: nat, h: nat)
      ensures Valid() && fresh(screen)
      ensures screen.width == w && screen.height == h
      ensures screen.pixels == Fill(w * h, Transparent)
      ensures zBuffer == [] && frameNum == 0 && zMin == 0.0 && zMax == 0.0
    {
      screen := new Screen(w, h, Transparent);
      zBuffer := [];
      frameNum := 0;
      zMin := 0.0;
      zMax := 0.0;
    }

    /** `draw_at`: skipped when something nearer is recorded at (x, y); otherwise the cell is
        written (or the write's error returned) and the entry recorded. */
    method DrawAt(x: nat, y: nat, pixel: PixelData, z: real) returns (status: Status)
      requires Valid()
      modifies this, screen
      ensures Valid()
      ensures screen.width == old(screen.width) && screen.height == old(screen.height)
      ensures frameNum == old(frameNum)
      ensures Canvas(status, screen.pixels, zBuffer) ==
        Attempt(Canvas(Ok, old(screen.pixels), old(zBuffer)), ZEntry(x, y, z), screen.width, pixel)
    {
      var blocked := Occludes(zBuffer, x, y, z);
      if blocked {
        return Ok;
      }
      status := screen.SetPixel(x, y, pixel);
      if status.Err? {
        return;
      }
      zBuffer := zBuffer + [ZEntry(x, y, z)];
      if zMin > z {
        zMin := z;
      }
      if zMax < z {
        zMax := z;
      }
    }

    /** `flush` minus the file and console output: returns the RGBA payload it encodes, then
        clears the buffer, forgets the record, resets the depth range and counts the frame. */
    method Flush() returns (data: seq<nat>)
      requires Valid()
      modifies this, screen
      ensures Valid()
      ensures data == RgbaBytes(old(screen.pixels))
      ensures screen.width == old(screen.width) && screen.height == old(screen.height)
      ensures screen.pixels == Fill(screen.width * screen.height, Transparent)
      ensures zBuffer == [] && zMin == 0.0 && zMax == 0.0
      ensures frameNum == old(frameNum) + 1
    {
      data := RgbaBytes(screen.pixels);
      screen.Clear();
      zBuffer := [];
      zMin := 0.0;
      zMax := 0.0;
      frameNum := frameNum + 1;
    }

    /** The innermost loop of `rasterize_vertices`: each vertex near cell (x, y), in order. */
    method DrawCell(x: nat, y: nat, verts: seq<Vector3>, maxDist: real)
      requires Valid() && x < screen.width && y < screen.height
      modifies this, screen
      ensures Valid()
      ensures screen.width == old(screen.width) && screen.height == old(screen.height)
      ensures frameNum == old(frameNum)
      ensures zBuffer == Admitted(old(zBuffer), CellSplats(verts, x, y, maxDist))
      ensures screen.pixels == Paint(old(screen.pixels), screen.width, old(zBuffer), CellSplats(verts, x, y, maxDist), RasterInk)
    {
      IdxInBounds(x, y, screen.width, screen.height);
      for k := 0 to |verts|
        invariant Valid() && screen.width == old(screen.width) && screen.height == old(screen.height)
        invariant frameNum == old(frameNum)
        invariant zBuffer == Admitted(old(zBuffer), CellSplats(verts[..k], x, y, maxDist))
        invariant screen.pixels == Paint(old(screen.pixels), screen.width, old(zBuffer), CellSplats(verts[..k], x, y, maxDist), RasterInk)
      {
        assert verts[..k + 1][..k] == verts[..k];
        var v := verts[k];
        ghost var pre := CellSplats(verts[..k], x, y, maxDist);
        assert CellSplats(verts[..k + 1], x, y, maxDist) ==
          pre + (if Near(x, y, v, maxDist) then [ZEntry(x, y, v.z)] else []);
        if Near(x, y, v, maxDist) {
          var e := ZEntry(x, y, v.z);
          DrawStep(old(screen.pixels), screen.width, old(zBuffer), pre, e, RasterInk);
          ghost var zpre := zBuffer;
          ghost var cpre := screen.pixels;
          assert RasterInk(zpre, e) == Colour(zMin, zMax, v.z);
          assert Idx(x, y, screen.width) < |screen.pixels|;
          var status := DrawAt(x, y, Colour(zMin, zMax, v.z), v.z);
        } else {
          assert CellSplats(verts[..k + 1], x, y, maxDist) == pre;
        }
      }
      assert verts[..|verts|] == verts;
    }

    /** The middle loop of `rasterize_vertices`: the rows of column x, top to bottom. */
    method DrawColumn(x: nat, verts: seq<Vector3>, maxDist: real)
      requires Valid() && x < screen.width
      modifies this, screen
      ensures Valid()
      ensures screen.width == old(screen.width) && screen.height == old(screen.height)
      ensures frameNum == old(frameNum)
      ensures zBuffer == Admitted(old(zBuffer), ColumnSplats(verts, x, screen.height, maxDist))
      ensures screen.pixels ==
        Paint(old(screen.pixels), screen.width, old(zBuffer), ColumnSplats(verts, x, screen.height, maxDist), RasterInk)
    {
      for y := 0 to screen.height
        invariant Valid() && screen.width == old(screen.width) && screen.height == old(screen.height)
        invariant frameNum == old(frameNum)
        invariant zBuffer == Admitted(old(zBuffer), ColumnSplats(verts, x, y, maxDist))
        invariant screen.pixels == Paint(old(screen.pixels), screen.width, old(zBuffer), ColumnSplats(verts, x, y, maxDist), RasterInk)
      {
        ghost var done := ColumnSplats(verts, x, y, maxDist);
        ghost var cell := CellSplats(verts, x, y, maxDist);
        AdmittedAppend(old(zBuffer), done, cell);
        PaintAppend(old(screen.pixels), screen.width, old(zBuffer), done, cell, RasterInk);
        DrawCell(x, y, verts, maxDist);
        assert ColumnSplats(verts, x, y + 1, maxDist) == done + cell;
      }
    }

    /** `rasterize_vertices`: every (column, row, vertex) triple whose vertex is near the cell
        is drawn in loop order with the colour its depth has at that moment. Every such cell is
        inside the buffer, so no draw fails and the `?` on `draw_at` never returns early. */
    method RasterizeVertices(mesh: Mesh, maxDist: real) returns (status: Status)
      requires Valid()
      modifies this, screen
      ensures Valid()
      ensures screen.width == old(screen.width) && screen.height == old(screen.height)
      ensures frameNum == old(frameNum)
      ensures status == Ok
      ensures
        var es := GridSplats(TransformAll(mesh.verts, mesh.scale, mesh.rotation, mesh.translation),
                             screen.width, screen.height, maxDist);
        zBuffer == Admitted(old(zBuffer), es) &&
        screen.pixels == Paint(old(screen.pixels), screen.width, old(zBuffer), es, RasterInk)
    {
      var verts := mesh.GetTransformedVerts();
      for x := 0 to screen.width
        invariant Valid() && screen.width == old(screen.width) && screen.height == old(screen.height)
        invariant frameNum == old(frameNum)
        invariant zBuffer == Admitted(old(zBuffer), GridSplats(verts, x, screen.height, maxDist))
        invariant screen.pixels == Paint(old(screen.pixels), screen.width, old(zBuffer), GridSplats(verts, x, screen.height, maxDist), RasterInk)
      {
        ghost var done := GridSplats(verts, x, screen.height, maxDist);
        ghost var column := ColumnSplats(verts, x, screen.height, maxDist);
        AdmittedAppend(old(zBuffer), done, column);
        PaintAppend(old(screen.pixels), screen.width, old(zBuffer), done, column, RasterInk);
        DrawColumn(x, verts, maxDist);
        assert GridSplats(verts, x + 1, screen.height, maxDist) == done + column;
      }
      status := Ok;
    }

    /** The body of `draw_image_2d`'s inner loop for pixel (x, y): a draw when its red channel
        is not zero. */
    method DrawImagePixel(image: Image, position: Vector2i, z: real, y: nat, x: nat, ghost start: Canvas)
      returns (status: Status)
      requires Valid()
      requires Canvas(Ok, screen.pixels, zBuffer) == UntilFault(start, RowMarks(image, position, z, y, x), screen.width)
      modifies this, screen
      ensures Valid()
      ensures screen.width == old(screen.width) && screen.height == old(screen.height)
      ensures frameNum == old(frameNum)
      ensures Canvas(status, screen.pixels, zBuffer) == UntilFault(start, RowMarks(image, position, z, y, x + 1), screen.width)
    {
      ghost var pre := RowMarks(image, position, z, y, x);
      if image.red(x, y) != 0 {
        var e := Placed(position, x, y, z);
        assert RowMarks(image, position, z, y, x + 1) == pre + [e];
        UntilFaultStep(start, pre, e, screen.width);
        status := DrawAt(e.x, e.y, Marker, e.z);
      } else {
        assert RowMarks(image, position, z, y, x + 1) == pre;
        status := Ok;
      }
    }

    /** One row of `draw_image_2d`: the columns of row y in order, stopping at the first
        failing draw. */
    method DrawRow(image: Image, position: Vector2i, z: real, y: nat) returns (status: Status)
      requires Valid()
      modifies this, screen
      ensures Valid()
      ensures screen.width == old(screen.width) && screen.height == old(screen.height)
      ensures frameNum == old(frameNum)
      ensures Canvas(status, screen.pixels, zBuffer) ==
        UntilFault(Canvas(Ok, old(screen.pixels), old(zBuffer)), RowMarks(image, position, z, y, image.width), screen.width)
    {
      ghost var start := Canvas(Ok, screen.pixels, zBuffer);
      status := Ok;
      for x := 0 to image.width
        invariant Valid() && screen.width == old(screen.width) && screen.height == old(screen.height)
        invariant frameNum == old(frameNum)
        invariant Canvas(status, screen.pixels, zBuffer) == UntilFault(start, RowMarks(image, position, z, y, x), screen.width)
        invariant status == Ok
      {
        status := DrawImagePixel(image, position, z, y, x, start);
        if status.Err? {
          RowMarksPrefix(image, position, z, y, x + 1, image.width);
          FaultEndsRun(start, RowMarks(image, position, z, y, x + 1), RowMarks(image, position, z, y, image.width), screen.width);
          return;
        }
      }
    }

    /** `draw_image_2d`: every pixel of the image with non-zero red is drawn in yellow at
        `position` plus its offset, rows first, columns within a row; the first failing draw
        ends the call with its error. */
    method DrawImage2D(image: Image, position: Vector2i, z: real) returns (status: Status)
      requires Valid()
      modifies this, screen
      ensures Valid()
      ensures screen.width == old(screen.width) && screen.height == old(screen.height)
      ensures frameNum == old(frameNum)
      ensures Canvas(status, screen.pixels, zBuffer) ==
        UntilFault(Canvas(Ok, old(screen.pixels), old(zBuffer)), ImageMarks(image, position, z, image.height), screen.width)
    {
      ghost var start := Canvas(Ok, screen.pixels, zBuffer);
      status := Ok;
      for y := 0 to image.height
        invariant Valid() && screen.width == old(screen.width) && screen.height == old(screen.height)
        invariant frameNum == old(frameNum)
        invariant Canvas(status, screen.pixels, zBuffer) == UntilFault(start, ImageMarks(image, position, z, y), screen.width)
        invariant status == Ok
      {
        ghost var done := ImageMarks(image, position, z, y);
        ghost var row := RowMarks(image, position, z, y, image.width);
        UntilFaultAppend(start, done, row, screen.width);
        status := DrawRow(image, position, z, y);
        assert ImageMarks(image, position, z, y + 1) == done + row;
        if status.Err? {
          ImageMarksPrefix(image, position, z, y + 1, image.height);
          FaultEndsRun(start, done + row, ImageMarks(image, position, z, image.height), screen.width);
          return;
        }
      }
    }
  }

  /** The state `draw_image_2d` works on: the last status, the cells and the record. */
  datatype Canvas = Canvas(status: Status, cells: seq<PixelData>, record: seq<ZEntry>)

  /** One `draw_at` of `pixel` for entry e: skipped when something nearer is recorded at its
      cell, an error when its index is past the end of the buffer, otherwise the cell is
      written and the entry recorded. */
  function Attempt(c: Canvas, e: ZEntry, width: nat, pixel: PixelData): (r: Canvas)
    ensures Blocked(c.record, e.x, e.y, e.z) ==> r == c
    ensures Faults(c.record, e, width, |c.cells|) ==> r == Canvas(Err("Index out of bounds."), c.cells, c.record)
    ensures !Blocked(c.record, e.x, e.y, e.z) && Idx(e.x, e.y, width) < |c.cells| ==>
      r.status == Ok && r.cells == c.cells[Idx(e.x, e.y, width) := pixel] && r.record == c.record + [e]
  {
    if Blocked(c.record, e.x, e.y, e.z) then c
    else if Idx(e.x, e.y, width) >= |c.cells| then Canvas(Err("Index out of bounds."), c.cells, c.record)
    else Canvas(Ok, Stamp(c.cells, Idx(e.x, e.y, width), pixel), c.record + [e])
  }

  /** The attempts of `es` in order, the first error ending the run. */
  function UntilFault(c: Canvas, es: seq<ZEntry>, width: nat): Canvas {
    if es == [] then c
    else
      var before := UntilFault(c, es[..|es| - 1], width);
      if before.status.Err? then before else Attempt(before, es[|es| - 1], width, Marker)
  }

  /** One more attempt after `done`. */
  lemma UntilFaultStep(c: Canvas, done: seq<ZEntry>, e: ZEntry, width: nat)
    ensures var before := UntilFault(c, done, width);
      UntilFault(c, done + [e], width) == if before.status.Err? then before else Attempt(before, e, width, Marker)
  {
    assert (done + [e])[..|done|] == done;
  }

  /** Once a draw has failed, later attempts change nothing. */
  lemma {:induction false} UntilFaultSticks(c: Canvas, es: seq<ZEntry>, width: nat)
    requires c.status.Err?
    ensures UntilFault(c, es, width) == c
  {
    if es != [] {
      UntilFaultSticks(c, es[..|es| - 1], width);
    }
  }

  /** Running `a` and then `b` is running `a + b`. */
  lemma {:induction false} UntilFaultAppend(c: Canvas, a: seq<ZEntry>, b: seq<ZEntry>, width: nat)
    ensures UntilFault(c, a + b, width) == UntilFault(UntilFault(c, a, width), b, width)
  {
    if b == [] {
      assert a + b == a;
    } else {
      var init := b[..|b| - 1];
      UntilFaultAppend(c, a, init, width);
      assert (a + b)[..|a + b| - 1] == a + init;
      assert (a + b)[|a + b| - 1] == b[|b| - 1];
    }
  }

  /** A run that has failed after a prefix of its attempts ends in that state. */
  lemma FaultEndsRun(c: Canvas, done: seq<ZEntry>, all: seq<ZEntry>, width: nat)
    requires done <= all && UntilFault(c, done, width).status.Err?
    ensures UntilFault(c, all, width) == UntilFault(c, done, width)
  {
    assert all == done + all[|done|..];
    UntilFaultAppend(c, done, all[|done|..], width);
    UntilFaultSticks(UntilFault(c, done, width), all[|done|..], width);
  }

  /** A run that ends without error did exactly what the depth record admits: the record grew by
      the admitted entries and each of them painted its cell with the marker colour. A run that
      ends with an error reports the out-of-bounds message. */
  lemma {:induction false} UntilFaultAgrees(cells: seq<PixelData>, record: seq<ZEntry>, es: seq<ZEntry>, width: nat)
    ensures var r := UntilFault(Canvas(Ok, cells, record), es, width);
      r.status == Ok ==> r.record == Admitted(record, es) && r.cells == Paint(cells, width, record, es, MarkerInk)
    ensures var r := UntilFault(Canvas(Ok, cells, record), es, width);
      r.status.Err? ==> r.status == Err("Index out of bounds.")
  {
    if es != [] {
      UntilFaultAgrees(cells, record, es[..|es| - 1], width);
    }
  }

  /** Fewer columns of a row give a prefix of the row's attempts. */
  lemma {:induction false} RowMarksPrefix(image: Image, position: Vector2i, z: real, y: nat, a: nat, b: nat)
    requires a <= b
    ensures RowMarks(image, position, z, y, a) <= RowMarks(image, position, z, y, b)
    decreases b - a
  {
    if a < b {
      RowMarksPrefix(image, position, z, y, a, b - 1);
    }
  }

  /** Fewer rows of an image give a prefix of the image's attempts. */
  lemma {:induction false} ImageMarksPrefix(image: Image, position: Vector2i, z: real, a: nat, b: nat)
    requires a <= b
    ensures ImageMarks(image, position, z, a) <= ImageMarks(image, position, z, b)
    decreases b - a
  {
    if a < b {
      ImageMarksPrefix(image, position, z, a, b - 1);
    }
  }
}
