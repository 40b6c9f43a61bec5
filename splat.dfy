/** The draw attempts the renderers' `rasterize_vertices` and `draw_image_2d` loops make, as
    sequences of depth entries in loop order. */
module Splat {
  import opened Vectors
  import opened Occlusion

  /** The vertex, projected orthographically onto the z = 0 plane, lies within `maxDist` of the
      cell (x, y). A square root compared with `maxDist` is written here without the root:
      sqrt(d) <= m exactly when m >= 0 and d <= m * m. */
  predicate Near(x: nat, y: nat, v: Vector3, maxDist: real) {
    maxDist >= 0.0 &&
    MagnitudeSquared3(Sub3(Vector3(v.x, v.y, 0.0), Vector3(x as real, y as real, 0.0))) <= maxDist * maxDist
  }

  /** The attempts at cell (x, y): one per vertex near it, in vertex order, at the vertex's depth. */
  function CellSplats(verts: seq<Vector3>, x: nat, y: nat, maxDist: real): seq<ZEntry> {
    if verts == [] then []
    else
      var v := verts[|verts| - 1];
      CellSplats(verts[..|verts| - 1], x, y, maxDist) + (if Near(x, y, v, maxDist) then [ZEntry(x, y, v.z)] else [])
  }

  /** The attempts in column x for rows 0 .. rows - 1. */
  function ColumnSplats(verts: seq<Vector3>, x: nat, rows: nat, maxDist: real): seq<ZEntry> {
    if rows == 0 then [] else ColumnSplats(verts, x, rows - 1, maxDist) + CellSplats(verts, x, rows - 1, maxDist)
  }

  /** The attempts of the whole grid: columns outermost, then rows, then vertices. */
  function GridSplats(verts: seq<Vector3>, columns: nat, rows: nat, maxDist: real): seq<ZEntry> {
    if columns == 0 then [] else GridSplats(verts, columns - 1, rows, maxDist) + ColumnSplats(verts, columns - 1, rows, maxDist)
  }

  /** Some vertex near (x, y) has depth z. */
  predicate Hit(verts: seq<Vector3>, x: nat, y: nat, z: real, maxDist: real) {
    exists v :: v in verts && Near(x, y, v, maxDist) && v.z == z
  }

  /** Exactly the vertices near the cell are attempted there. */
  lemma {:induction false} CellSplatsExact(verts: seq<Vector3>, x: nat, y: nat, maxDist: real, e: ZEntry)
    ensures e in CellSplats(verts, x, y, maxDist) <==> e.x == x && e.y == y && Hit(verts, x, y, e.z, maxDist)
  {
    if verts != [] {
      var init := verts[..|verts| - 1];
      var v := verts[|verts| - 1];
      CellSplatsExact(init, x, y, maxDist, e);
      assert verts == init + [v];
      if e.x == x && e.y == y && Hit(verts, x, y, e.z, maxDist) && !Hit(init, x, y, e.z, maxDist) {
        var w :| w in verts && Near(x, y, w, maxDist) && w.z == e.z;
        assert w == v;
        assert e == ZEntry(x, y, v.z);
      }
    }
  }

  /** An entry is attempted in column x exactly when it is at a row below `rows` and some vertex
      near that cell has its depth. */
  lemma {:induction false} ColumnSplatsExact(verts: seq<Vector3>, x: nat, rows: nat, maxDist: real, e: ZEntry)
    ensures e in ColumnSplats(verts, x, rows, maxDist) <==> e.x == x && e.y < rows && Hit(verts, e.x, e.y, e.z, maxDist)
  {
    if rows > 0 {
      var above := ColumnSplats(verts, x, rows - 1, maxDist);
      var last := CellSplats(verts, x, rows - 1, maxDist);
      assert ColumnSplats(verts, x, rows, maxDist) == above + last;
      ColumnSplatsExact(verts, x, rows - 1, maxDist, e);
      CellSplatsExact(verts, x, rows - 1, maxDist, e);
      assert e in above + last <==> e in above || e in last;
    }
  }

  /** The grid's attempts are those of its columns: an entry is attempted exactly when it is
      in a column below `columns` and among that column's attempts. */
  lemma {:induction false} GridSplatsColumns(verts: seq<Vector3>, columns: nat, rows: nat, maxDist: real, e: ZEntry)
    ensures e in GridSplats(verts, columns, rows, maxDist) <==> e.x < columns && e in ColumnSplats(verts, e.x, rows, maxDist)
  {
    if columns > 0 {
      var left := GridSplats(verts, columns - 1, rows, maxDist);
      var last := ColumnSplats(verts, columns - 1, rows, maxDist);
      assert GridSplats(verts, columns, rows, maxDist) == left + last;
      InJoin(left, last, e);
      GridSplatsColumns(verts, columns - 1, rows, maxDist, e);
      if e in last {
        ColumnSplatsExact(verts, columns - 1, rows, maxDist, e);
      }
    }
  }

  /** The grid attempts exactly the (cell, vertex) pairs that are near, and nothing outside the
      columns x rows rectangle. */
  lemma GridSplatsExact(verts: seq<Vector3>, columns: nat, rows: nat, maxDist: real, e: ZEntry)
    ensures e in GridSplats(verts, columns, rows, maxDist) <==> e.x < columns && e.y < rows && Hit(verts, e.x, e.y, e.z, maxDist)
  {
    GridSplatsColumns(verts, columns, rows, maxDist, e);
    ColumnSplatsExact(verts, e.x, rows, maxDist, e);
  }

  /** An entry is in a join exactly when it is in one of its parts. */
  lemma InJoin(a: seq<ZEntry>, b: seq<ZEntry>, e: ZEntry)
    ensures e in a + b <==> e in a || e in b
  {
  }

  /** One vertex at the origin with reach 0.5 on a 2 x 1 grid is attempted at (0, 0) only. */
  lemma GridSplatsExample()
    ensures GridSplats([Vector3(0.0, 0.0, 3.0)], 2, 1, 0.5) == [ZEntry(0, 0, 3.0)]
  {
    var v := Vector3(0.0, 0.0, 3.0);
    assert [v][..0] == [];
    assert Near(0, 0, v, 0.5);
    assert !Near(1, 0, v, 0.5);
  }

  // ---- images ----

  /** The part of an image `draw_image_2d` reads: its size and the red channel of each pixel. */
  datatype Image = Image(width: nat, height: nat, red: (nat, nat) -> nat)

  /** An `i32 as u32` cast: the value modulo 2^32, so negative values wrap around to large
      coordinates. */
  function AsU32(i: int): (r: nat)
    ensures r < 0x1_0000_0000
    ensures 0 <= i < 0x1_0000_0000 ==> r == i
    ensures -0x1_0000_0000 <= i < 0 ==> r == i + 0x1_0000_0000
    decreases if i < 0 then -i else 0, i
  {
    if i < 0 then AsU32(i + 0x1_0000_0000)
    else if i >= 0x1_0000_0000 then AsU32(i - 0x1_0000_0000)
    else i
  }

  /** The screen cell image pixel (x, y) goes to, drawn at `position`. */
  function Placed(position: Vector2i, x: nat, y: nat, z: real): ZEntry {
    var p := Add2i(position, Vector2i(x, y));
    ZEntry(AsU32(p.x), AsU32(p.y), z)
  }

  /** The attempts for row y of the image, columns 0 .. columns - 1: one per pixel whose red
      channel is not zero. */
  function RowMarks(image: Image, position: Vector2i, z: real, y: nat, columns: nat): seq<ZEntry> {
    if columns == 0 then []
    else
      RowMarks(image, position, z, y, columns - 1) +
      (if image.red(columns - 1, y) != 0 then [Placed(position, columns - 1, y, z)] else [])
  }

  /** The attempts for rows 0 .. rows - 1 of the image: rows outermost, then columns. */
  function ImageMarks(image: Image, position: Vector2i, z: real, rows: nat): seq<ZEntry> {
    if rows == 0 then [] else ImageMarks(image, position, z, rows - 1) + RowMarks(image, position, z, rows - 1, image.width)
  }

  /** Some pixel of row y, at a column below `columns`, has non-zero red and is placed at e. */
  predicate MarkedInRow(image: Image, position: Vector2i, z: real, y: nat, columns: nat, e: ZEntry) {
    exists x :: 0 <= x < columns && image.red(x, y) != 0 && e == Placed(position, x, y, z)
  }

  /** Exactly the non-zero-red pixels of the row are attempted, each at its placed cell. */
  lemma {:induction false} RowMarksExact(image: Image, position: Vector2i, z: real, y: nat, columns: nat, e: ZEntry)
    ensures e in RowMarks(image, position, z, y, columns) <==> MarkedInRow(image, position, z, y, columns, e)
  {
    if columns > 0 {
      var before := RowMarks(image, position, z, y, columns - 1);
      RowMarksExact(image, position, z, y, columns - 1, e);
      assert e in before + [Placed(position, columns - 1, y, z)] <==> e in before || e == Placed(position, columns - 1, y, z);
      if MarkedInRow(image, position, z, y, columns, e) && !MarkedInRow(image, position, z, y, columns - 1, e) {
        var x :| 0 <= x < columns && image.red(x, y) != 0 && e == Placed(position, x, y, z);
        assert x == columns - 1;
      }
    }
  }

  /** Some pixel of the image, at a row below `rows`, has non-zero red and is placed at e. */
  predicate MarkedInImage(image: Image, position: Vector2i, z: real, rows: nat, e: ZEntry) {
    exists y :: 0 <= y < rows && MarkedInRow(image, position, z, y, image.width, e)
  }

  /** Exactly the non-zero-red pixels of the image are attempted, each at its placed cell. */
  lemma {:induction false} ImageMarksExact(image: Image, position: Vector2i, z: real, rows: nat, e: ZEntry)
    ensures e in ImageMarks(image, position, z, rows) <==> MarkedInImage(image, position, z, rows, e)
  {
    if rows > 0 {
      var above := ImageMarks(image, position, z, rows - 1);
      var last := RowMarks(image, position, z, rows - 1, image.width);
      assert ImageMarks(image, position, z, rows) == above + last;
      ImageMarksExact(image, position, z, rows - 1, e);
      RowMarksExact(image, position, z, rows - 1, image.width, e);
      MarkedInImageStep(image, position, z, rows, e);
    }
  }

  /** A pixel marked below row `rows` is in the rows above the last one or in the last one. */
  lemma MarkedInImageStep(image: Image, position: Vector2i, z: real, rows: nat, e: ZEntry)
    requires rows > 0
    ensures MarkedInImage(image, position, z, rows, e) <==>
      MarkedInImage(image, position, z, rows - 1, e) || MarkedInRow(image, position, z, rows - 1, image.width, e)
  {
    if MarkedInImage(image, position, z, rows, e) && !MarkedInImage(image, position, z, rows - 1, e) {
      var y :| 0 <= y < rows && MarkedInRow(image, position, z, y, image.width, e);
      assert y == rows - 1;
    }
  }

  /** An image placed one column left of the screen puts its first column at u32::MAX. */
  lemma NegativePositionWraps(z: real)
    ensures Placed(Vector2i(-1, 0), 0, 0, z) == ZEntry(0xFFFF_FFFF, 0, z)
  {
    assert Add2i(Vector2i(-1, 0), Vector2i(0, 0)) == Vector2i(-1, 0);
    assert AsU32(-1) == 0xFFFF_FFFF;
    assert AsU32(0) == 0;
  }
}
