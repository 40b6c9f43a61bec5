/** The terminal renderer (`ansi::ANSIRenderer`) and the helper that owns its character buffer,
    its cursor, the text queued per position and the terminal output (`ansi::ANSIHelper`).
    Everything the helper prints to standard output is appended to `out`. */
module Ansi {
  import opened Wrappers
  import opened Decimal
  import opened Vectors
  import opened Render
  import opened Occlusion
  import opened Splat
  import opened Meshes
  import opened AnsiProtocol

  class AnsiHelper {
    var x: nat
    var y: nat
    const width: nat
    const height: nat
    const screen: Screen<char>
    var aux: map<(nat, nat), string>
    var out: string

    predicate Valid()
      reads this, screen
    {
      width > 0 && screen.Valid() && screen.width == width && screen.height == height && screen.empty == '\0'
    }

    /** `ANSIHelper::new`: a 120 x 50 buffer of '\0', the cursor at (0, 0), nothing queued. */
    constructor ()
      ensures Valid() && fresh(screen)
      ensures width == 120 && height == 50 && x == 0 && y == 0
      ensures screen.pixels == Fill(120 * 50, '\0')
      ensures aux == map[] && out == []
    {
      x := 0;
      y := 0;
      width := 120;
      height := 50;
      screen := new Screen(120, 50, '\0');
      aux := map[];
      out := [];
    }

    /** `advance`: move the cursor right by `length` columns, wrapping into later rows. */
    method Advance(length: nat)
      requires Valid()
      modifies this
      ensures Cursor(x, y) == Wrapped(Cursor(old(x) + length, old(y)), width)
      ensures x + y * width == old(x) + length + old(y) * width && x <= width
      ensures aux == old(aux) && out == old(out)
    {
      WrappedKeepsPosition(Cursor(x + length, y), width);
      x := x + length;
      while x > width
        invariant Wrapped(Cursor(x, y), width) == Wrapped(Cursor(old(x) + length, old(y)), width)
        invariant aux == old(aux) && out == old(out)
        decreases x
      {
        x := x - width;
        y := y + 1;
      }
    }

    /** `write`: every character of the text goes to the cursor's cell (so the last one stays),
        then the cursor advances by the text's length. */
    method Write(text: string) returns (status: Status)
      requires Valid()
      modifies this, screen
      ensures Valid()
      ensures status == Ok
      ensures screen.pixels == if text == [] then old(screen.pixels)
        else Stamp(old(screen.pixels), Idx(old(x), old(y), width), text[|text| - 1])
      ensures Cursor(x, y) == Wrapped(Cursor(old(x) + |text|, old(y)), width)
      ensures aux == old(aux) && out == old(out)
    {
      status := screen.PushPixels(x, y, text);
      Advance(|text|);
    }

    /** `write_aux`: queue text for position (x, y), after anything already queued there. */
    method WriteAux(x: nat, y: nat, text: string)
      modifies this
      ensures aux == Queued(old(aux), (x, y), text)
      ensures this.x == old(this.x) && this.y == old(this.y) && out == old(out)
    {
      var key := (x, y);
      if key in aux {
        aux := aux[key := aux[key] + text];
        return;
      }
      assert "" + text == text;
      aux := aux[key := text];
    }

    /** `flush`: print the cursor home sequence, then walk the buffer printing queued text and
        drawn cells (see `Walk`), then clear the buffer. The cursor ends where the walk ends. */
    method Flush() returns (status: Status)
      requires Valid()
      modifies this, screen
      ensures Valid()
      ensures status == Ok
      ensures out == old(out) + CursorPosition(0, 0) + Walk(old(screen.pixels), 0, false, aux, width)
      ensures screen.pixels == Fill(width * height, '\0')
      ensures Cursor(x, y) == Position(|old(screen.pixels)|, width)
      ensures aux == old(aux)
    {
      GoToImmediate(0, 0);
      x := 0;
      y := 0;
      var cells := screen.pixels;
      ghost var start := out;
      var jump := false;
      for i := 0 to |cells|
        invariant Valid() && screen.pixels == cells && aux == old(aux)
        invariant Cursor(x, y) == Position(i, width)
        invariant out + Walk(cells, i, jump, aux, width) == start + Walk(cells, 0, false, aux, width)
      {
        ghost var before := out;
        ghost var at := Cursor(x, y);
        ghost var wasJump := jump;
        ghost var rest := Walk(cells, i + 1, cells[i] == '\0', aux, width);
        assert Walk(cells, i, wasJump, aux, width) ==
          Note(aux, at) + Shown(cells[i], jump, at) + WrapMoves(Cursor(at.x + 1, at.y), width) + rest;
        ghost var note, shown := Note(aux, at), Shown(cells[i], jump, at);
        ghost var moves := WrapMoves(Cursor(at.x + 1, at.y), width);
        jump := PrintCell(cells[i], jump);
        StepRight();
        assert out == before + note + shown + moves;
        JoinAssociates(before, note, shown, moves, rest);
      }
      screen.Clear();
      status := Ok;
    }

    /** One cell of `flush`: print what is queued at the cursor, then the cell as `Shown` says;
        the result is the new value of the jump flag. */
    method PrintCell(c: char, jump: bool) returns (next: bool)
      modifies this
      ensures out == old(out) + Note(aux, Cursor(x, y)) + Shown(c, jump, Cursor(x, y))
      ensures next == (c == '\0')
      ensures x == old(x) && y == old(y) && aux == old(aux)
    {
      if (x, y) in aux {
        out := out + aux[(x, y)];
      } else {
        assert Note(aux, Cursor(x, y)) == "";
      }
      ghost var noted := out;
      next := jump;
      if c == '\0' {
        next := true;
      } else {
        if next {
          out := out + CursorPosition(y, x);
          next := false;
        }
        out := out + [c];
      }
      assert out == noted + Shown(c, jump, Cursor(x, y));
    }

    /** The cursor step of `flush`: one column right, then, while past the width, one row
        down to the wrapped column, printing a cursor jump for each row. */
    method StepRight()
      requires width > 0
      modifies this
      ensures Cursor(x, y) == Wrapped(Cursor(old(x) + 1, old(y)), width)
      ensures out == old(out) + WrapMoves(Cursor(old(x) + 1, old(y)), width)
      ensures aux == old(aux)
    {
      var cx: nat, cy: nat, moves: string := x + 1, y, "";
      while cx > width
        invariant Wrapped(Cursor(cx, cy), width) == Wrapped(Cursor(x + 1, y), width)
        invariant moves + WrapMoves(Cursor(cx, cy), width) == WrapMoves(Cursor(x + 1, y), width)
        decreases cx
      {
        ghost var printed := moves;
        ghost var rest := WrapMoves(Cursor(cx - width, cy + 1), width);
        assert WrapMoves(Cursor(cx, cy), width) == CursorPosition(cy + 1, cx - width) + rest;
        cx, cy := cx - width, cy + 1;
        moves := moves + CursorPosition(cy, cx);
        assert moves + rest == printed + (CursorPosition(cy, cx) + rest);
      }
      x, y, out := cx, cy, out + moves;
    }

    /** `go_to`: move the cursor without printing anything. */
    method GoTo(x: nat, y: nat)
      modifies this
      ensures this.x == x && this.y == y
      ensures aux == old(aux) && out == old(out)
    {
      this.x := x;
      this.y := y;
    }

    /** `go_to_immediate`: move the cursor and print the cursor-position sequence now. */
    method GoToImmediate(x: nat, y: nat)
      modifies this
      ensures this.x == x && this.y == y
      ensures out == old(out) + CursorPosition(y, x)
      ensures aux == old(aux)
    {
      this.x := x;
      this.y := y;
      CsiStartImmediate();
      out := out + NatToString(y) + [';'] + NatToString(x) + ['H'];
    }

    /** `set_style`: queue the SGR sequence for the style at the cursor. */
    method SetStyle(style: AnsiStyle)
      modifies this
      ensures aux == Queued(old(aux), (x, y), Sgr(style))
      ensures x == old(x) && y == old(y) && out == old(out)
    {
      CsiStart();
      WriteAux(x, y, NatToString(Code(style)) + "m");
      QueuedConcatenates(old(aux), (x, y), [Esc, '['], NatToString(Code(style)) + "m");
      assert [Esc, '['] + (NatToString(Code(style)) + "m") == Sgr(style);
    }

    /** `carriage_return`: queue a carriage return at the cursor. */
    method CarriageReturn()
      modifies this
      ensures aux == Queued(old(aux), (x, y), [13 as char])
      ensures x == old(x) && y == old(y) && out == old(out)
    {
      WriteAux(x, y, [13 as char]);
    }

    /** `beep`: queue a bell at the cursor. */
    method Beep()
      modifies this
      ensures aux == Queued(old(aux), (x, y), [7 as char])
      ensures x == old(x) && y == old(y) && out == old(out)
    {
      WriteAux(x, y, [7 as char]);
    }

    /** `full_clear`: print the erase-below sequence now. */
    method FullClear()
      modifies this
      ensures out == old(out) + EraseBelow()
      ensures x == old(x) && y == old(y) && aux == old(aux)
    {
      CsiStartImmediate();
      out := out + "0J";
    }

    /** `csi_start_immediate`: print ESC '[' now. */
    method CsiStartImmediate()
      modifies this
      ensures out == old(out) + [Esc, '[']
      ensures x == old(x) && y == old(y) && aux == old(aux)
    {
      EscapeStartImmediate();
      out := out + "[";
    }

    /** `csi_start`: queue ESC '[' at the cursor. */
    method CsiStart()
      modifies this
      ensures aux == Queued(old(aux), (x, y), [Esc, '['])
      ensures x == old(x) && y == old(y) && out == old(out)
    {
      EscapeStart();
      WriteAux(x, y, "[");
      QueuedConcatenates(old(aux), (x, y), [Esc], "[");
      assert [Esc] + "[" == [Esc, '['];
    }

    /** `escape_start_immediate`: print ESC now. */
    method EscapeStartImmediate()
      modifies this
      ensures out == old(out) + [Esc]
      ensures x == old(x) && y == old(y) && aux == old(aux)
    {
      out := out + [Esc];
    }

    /** `escape_start`: queue ESC at the cursor. */
    method EscapeStart()
      modifies this
      ensures aux == Queued(old(aux), (x, y), [Esc])
      ensures x == old(x) && y == old(y) && out == old(out)
    {
      WriteAux(x, y, [Esc]);
    }
  }


  class AnsiRenderer {
    const helper: AnsiHelper
    var currentlySet: seq<(nat, nat)>
    var previouslySet: seq<(nat, nat)>
    var zBuffer: seq<ZEntry>

    /** The helper is valid, and the cells drawn this frame are exactly the recorded ones. */
    predicate Valid()
      reads this, helper, helper.screen
    {
      helper.Valid() && currentlySet == Coords(zBuffer)
    }

    /** Where the helper's cursor is. */
    function At(): Cursor
      reads helper
    {
      Cursor(helper.x, helper.y)
    }

    /** `ANSIRenderer::new`: a fresh helper, nothing drawn and nothing recorded. */
    constructor ()
      ensures Valid() && fresh(helper) && fresh(helper.screen)
      ensures helper.width == 120 && helper.height == 50 && At() == Cursor(0, 0)
      ensures helper.screen.pixels == Fill(120 * 50, '\0')
      ensures helper.aux == map[] && helper.out == []
      ensures currentlySet == [] && previouslySet == [] && zBuffer == []
    {
      helper := new AnsiHelper();
      currentlySet := [];
      previouslySet := [];
      zBuffer := [];
    }

    /** `draw_at`: skipped when something nearer is recorded at (x, y); otherwise the cursor goes
        to (x, y), the style (if any) is queued there, the text is written and the cell and its
        depth are recorded. The helper's write cannot fail, so neither can this. */
    method DrawAt(x: nat, y: nat, s: string, z: real, style: Option<AnsiStyle>) returns (status: Status)
      requires Valid()
      modifies this, helper, helper.screen
      ensures Valid()
      ensures status == Ok
      ensures previouslySet == old(previouslySet) && helper.out == old(helper.out)
      ensures Blocked(old(zBuffer), x, y, z) ==>
        zBuffer == old(zBuffer) && helper.screen.pixels == old(helper.screen.pixels) &&
        At() == old(At()) && helper.aux == old(helper.aux)
      ensures !Blocked(old(zBuffer), x, y, z) ==>
        zBuffer == old(zBuffer) + [ZEntry(x, y, z)] &&
        helper.screen.pixels == (if s == [] then old(helper.screen.pixels)
          else Stamp(old(helper.screen.pixels), Idx(x, y, helper.width), s[|s| - 1])) &&
        At() == Wrapped(Cursor(x + |s|, y), helper.width) &&
        helper.aux == (if style.Some? then Queued(old(helper.aux), (x, y), Sgr(style.value)) else old(helper.aux))
    {
      var blocked := Occludes(zBuffer, x, y, z);
      if blocked {
        return Ok;
      }
      helper.GoTo(x, y);
      if style.Some? {
        helper.SetStyle(style.value);
      }
      status := helper.Write(s);
      currentlySet := currentlySet + [(x, y)];
      zBuffer := zBuffer + [ZEntry(x, y, z)];
    }

    /** `set_style`: queue the style at the helper's cursor. */
    method SetStyle(style: AnsiStyle)
      modifies helper
      ensures helper.aux == Queued(old(helper.aux), (helper.x, helper.y), Sgr(style))
      ensures At() == old(At()) && helper.out == old(helper.out)
    {
      helper.SetStyle(style);
    }

    /** `clear_at`: write a space at (x, y); the cursor ends one step to its right. */
    method ClearAt(x: nat, y: nat)
      requires Valid()
      modifies helper, helper.screen
      ensures Valid()
      ensures helper.screen.pixels == Stamp(old(helper.screen.pixels), Idx(x, y, helper.width), ' ')
      ensures At() == Wrapped(Cursor(x + 1, y), helper.width)
      ensures helper.aux == old(helper.aux) && helper.out == old(helper.out)
    {
      helper.GoTo(x, y);
      var _ := helper.Write(" ");
    }

    /** `flush`: every cell drawn last frame and not this one is overwritten with a space, then
        the helper flushes and the cursor is sent home; this frame's cells become the previous
        ones and the record is emptied. */
    method Flush() returns (status: Status)
      requires Valid()
      modifies this, helper, helper.screen
      ensures Valid()
      ensures status == Ok
      ensures helper.out == old(helper.out) + CursorPosition(0, 0) +
        Walk(Cleared(old(helper.screen.pixels), helper.width, old(previouslySet), old(currentlySet)), 0, false, helper.aux, helper.width) +
        CursorPosition(0, 0)
      ensures helper.screen.pixels == Fill(helper.width * helper.height, '\0')
      ensures At() == Cursor(0, 0) && helper.aux == old(helper.aux)
      ensures previouslySet == old(currentlySet) && currentlySet == [] && zBuffer == []
    {
      var previous := previouslySet;
      previouslySet := [];
      for i := 0 to |previous|
        invariant Valid() && currentlySet == old(currentlySet) && previouslySet == []
        invariant helper.screen.pixels == Cleared(old(helper.screen.pixels), helper.width, previous[..i], currentlySet)
        invariant helper.aux == old(helper.aux) && helper.out == old(helper.out)
      {
        assert previous[..i + 1][..i] == previous[..i];
        var found := Contains(currentlySet, previous[i]);
        if !found {
          ClearAt(previous[i].0, previous[i].1);
        }
      }
      assert previous[..|previous|] == previous;
      status := helper.Flush();
      helper.GoToImmediate(0, 0);
      previouslySet := currentlySet;
      currentlySet := [];
      zBuffer := [];
    }

    /** After the attempts `es` from the state (cells0, record0, at0): the record admitted them,
        the cells show each admitted entry's ink, and the cursor stands after the last drawn one. */
    predicate Drawn(cells0: seq<char>, record0: seq<ZEntry>, at0: Cursor, es: seq<ZEntry>,
                    ink: (seq<ZEntry>, ZEntry) -> char)
      reads this, helper, helper.screen
    {
      helper.width > 0 &&
      zBuffer == Admitted(record0, es) &&
      helper.screen.pixels == Paint(cells0, helper.width, record0, es, ink) &&
      At() == CursorAfter(at0, record0, es, helper.width)
    }

    /** One draw of the loops below: the one-character text c at e's cell and depth, no style. */
    method DrawEntry(e: ZEntry, c: char, ghost cells0: seq<char>, ghost record0: seq<ZEntry>, ghost at0: Cursor,
                     ghost done: seq<ZEntry>, ghost ink: (seq<ZEntry>, ZEntry) -> char)
      requires Valid() && Drawn(cells0, record0, at0, done, ink)
      requires ink(Admitted(record0, done), e) == c
      modifies this, helper, helper.screen
      ensures Valid()
      ensures previouslySet == old(previouslySet) && helper.aux == old(helper.aux) && helper.out == old(helper.out)
      ensures Drawn(cells0, record0, at0, done + [e], ink)
    {
      DrawStep(cells0, helper.width, record0, done, e, ink);
      CursorStep(at0, record0, done, e, helper.width);
      var _ := DrawAt(e.x, e.y, [c], e.z, Wrappers.None);
    }

    /** The innermost loop of `rasterize_vertices`: each vertex near cell (x, y), in order,
        drawn with its depth glyph. */
    method DrawCell(x: nat, y: nat, verts: seq<Vector3>, maxDist: real)
      requires Valid()
      modifies this, helper, helper.screen
      ensures Valid()
      ensures previouslySet == old(previouslySet) && helper.aux == old(helper.aux) && helper.out == old(helper.out)
      ensures Drawn(old(helper.screen.pixels), old(zBuffer), old(At()), CellSplats(verts, x, y, maxDist), GlyphInk)
    {
      for k := 0 to |verts|
        invariant Valid() && previouslySet == old(previouslySet)
        invariant helper.aux == old(helper.aux) && helper.out == old(helper.out)
        invariant Drawn(old(helper.screen.pixels), old(zBuffer), old(At()), CellSplats(verts[..k], x, y, maxDist), GlyphInk)
      {
        assert verts[..k + 1][..k] == verts[..k];
        var v := verts[k];
        ghost var pre := CellSplats(verts[..k], x, y, maxDist);
        assert CellSplats(verts[..k + 1], x, y, maxDist) ==
          pre + (if Near(x, y, v, maxDist) then [ZEntry(x, y, v.z)] else []);
        if Near(x, y, v, maxDist) {
          DrawEntry(ZEntry(x, y, v.z), Glyph(v.z), old(helper.screen.pixels), old(zBuffer), old(At()), pre, GlyphInk);
        } else {
          assert CellSplats(verts[..k + 1], x, y, maxDist) == pre;
        }
      }
      assert verts[..|verts|] == verts;
    }

    /** The middle loop of `rasterize_vertices`: the rows of column x, top to bottom. */
    method DrawColumn(x: nat, verts: seq<Vector3>, maxDist: real)
      requires Valid()
      modifies this, helper, helper.screen
      ensures Valid()
      ensures previouslySet == old(previouslySet) && helper.aux == old(helper.aux) && helper.out == old(helper.out)
      ensures Drawn(old(helper.screen.pixels), old(zBuffer), old(At()), ColumnSplats(verts, x, helper.height, maxDist), GlyphInk)
    {
      for y := 0 to helper.height
        invariant Valid() && previouslySet == old(previouslySet)
        invariant helper.aux == old(helper.aux) && helper.out == old(helper.out)
        invariant Drawn(old(helper.screen.pixels), old(zBuffer), old(At()), ColumnSplats(verts, x, y, maxDist), GlyphInk)
      {
        ghost var done := ColumnSplats(verts, x, y, maxDist);
        ghost var cell := CellSplats(verts, x, y, maxDist);
        AdmittedAppend(old(zBuffer), done, cell);
        PaintAppend(old(helper.screen.pixels), helper.width, old(zBuffer), done, cell, GlyphInk);
        CursorAfterAppend(old(At()), old(zBuffer), done, cell, helper.width);
        DrawCell(x, y, verts, maxDist);
        assert ColumnSplats(verts, x, y + 1, maxDist) == done + cell;
      }
    }

    /** `rasterize_vertices`: every (column, row, vertex) triple whose vertex is near the cell
        is drawn in loop order with the glyph for the vertex's depth. No draw can fail. */
    method RasterizeVertices(mesh: Mesh, maxDist: real) returns (status: Status)
      requires Valid()
      modifies this, helper, helper.screen
      ensures Valid()
      ensures status == Ok
      ensures previouslySet == old(previouslySet) && helper.aux == old(helper.aux) && helper.out == old(helper.out)
      ensures Drawn(old(helper.screen.pixels), old(zBuffer), old(At()),
        GridSplats(TransformAll(mesh.verts, mesh.scale, mesh.rotation, mesh.translation), helper.width, helper.height, maxDist),
        GlyphInk)
    {
      var verts := mesh.GetTransformedVerts();
      for x := 0 to helper.width
        invariant Valid() && previouslySet == old(previouslySet)
        invariant helper.aux == old(helper.aux) && helper.out == old(helper.out)
        invariant Drawn(old(helper.screen.pixels), old(zBuffer), old(At()), GridSplats(verts, x, helper.height, maxDist), GlyphInk)
      {
        ghost var done := GridSplats(verts, x, helper.height, maxDist);
        ghost var column := ColumnSplats(verts, x, helper.height, maxDist);
        AdmittedAppend(old(zBuffer), done, column);
        PaintAppend(old(helper.screen.pixels), helper.width, old(zBuffer), done, column, GlyphInk);
        CursorAfterAppend(old(At()), old(zBuffer), done, column, helper.width);
        DrawColumn(x, verts, maxDist);
        assert GridSplats(verts, x + 1, helper.height, maxDist) == done + column;
      }
      status := Ok;
    }

    /** One row of `draw_image_2d`: each pixel of row y with non-zero red, left to right, drawn
        as '&' at `position` plus its offset. */
    method DrawRow(image: Image, position: Vector2i, z: real, y: nat)
      requires Valid()
      modifies this, helper, helper.screen
      ensures Valid()
      ensures previouslySet == old(previouslySet) && helper.aux == old(helper.aux) && helper.out == old(helper.out)
      ensures Drawn(old(helper.screen.pixels), old(zBuffer), old(At()), RowMarks(image, position, z, y, image.width), Ampersand)
    {
      for x := 0 to image.width
        invariant Valid() && previouslySet == old(previouslySet)
        invariant helper.aux == old(helper.aux) && helper.out == old(helper.out)
        invariant Drawn(old(helper.screen.pixels), old(zBuffer), old(At()), RowMarks(image, position, z, y, x), Ampersand)
      {
        ghost var pre := RowMarks(image, position, z, y, x);
        if image.red(x, y) != 0 {
          var e := Placed(position, x, y, z);
          assert RowMarks(image, position, z, y, x + 1) == pre + [e];
          DrawEntry(e, '&', old(helper.screen.pixels), old(zBuffer), old(At()), pre, Ampersand);
        } else {
          assert RowMarks(image, position, z, y, x + 1) == pre;
        }
      }
    }

    /** `draw_image_2d`: rows first, columns within a row; no draw can fail. */
    method DrawImage2D(image: Image, position: Vector2i, z: real) returns (status: Status)
      requires Valid()
      modifies this, helper, helper.screen
      ensures Valid()
      ensures status == Ok
      ensures previouslySet == old(previouslySet) && helper.aux == old(helper.aux) && helper.out == old(helper.out)
      ensures Drawn(old(helper.screen.pixels), old(zBuffer), old(At()), ImageMarks(image, position, z, image.height), Ampersand)
    {
      for y := 0 to image.height
        invariant Valid() && previouslySet == old(previouslySet)
        invariant helper.aux == old(helper.aux) && helper.out == old(helper.out)
        invariant Drawn(old(helper.screen.pixels), old(zBuffer), old(At()), ImageMarks(image, position, z, y), Ampersand)
      {
        ghost var done := ImageMarks(image, position, z, y);
        ghost var row := RowMarks(image, position, z, y, image.width);
        AdmittedAppend(old(zBuffer), done, row);
        PaintAppend(old(helper.screen.pixels), helper.width, old(zBuffer), done, row, Ampersand);
        CursorAfterAppend(old(At()), old(zBuffer), done, row, helper.width);
        DrawRow(image, position, z, y);
        assert ImageMarks(image, position, z, y + 1) == done + row;
      }
      status := Ok;
    }

    /** `go_to_immediate`. */
    method GoToImmediate(x: nat, y: nat)
      modifies helper
      ensures At() == Cursor(x, y)
      ensures helper.out == old(helper.out) + CursorPosition(y, x) && helper.aux == old(helper.aux)
    {
      helper.GoToImmediate(x, y);
    }

    /** `go_to`. */
    method GoTo(x: nat, y: nat)
      modifies helper
      ensures At() == Cursor(x, y)
      ensures helper.out == old(helper.out) && helper.aux == old(helper.aux)
    {
      helper.GoTo(x, y);
    }

    /** `clear`: erase the terminal below the cursor now. */
    method Clear()
      modifies helper
      ensures helper.out == old(helper.out) + EraseBelow()
      ensures At() == old(At()) && helper.aux == old(helper.aux)
    {
      helper.FullClear();
    }
  }

  /** The inner scan of `ANSIRenderer::flush`: stop at the first equal coordinate pair. */
  method Contains(cells: seq<(nat, nat)>, p: (nat, nat)) returns (found: bool)
    ensures found <==> p in cells
  {
    found := false;
    for i := 0 to |cells|
      invariant !found
      invariant p !in cells[..i]
    {
      if cells[i].0 == p.0 && cells[i].1 == p.1 {
        found := true;
        break;
      }
    }
  }

  /** The buffer after `flush` blanks, in order, each previous cell the current frame did not
      draw. */
  function Cleared(cells: seq<char>, width: nat, previous: seq<(nat, nat)>, current: seq<(nat, nat)>): seq<char> {
    if previous == [] then cells
    else
      var p := previous[|previous| - 1];
      var before := Cleared(cells, width, previous[..|previous| - 1], current);
      if p in current then before else Stamp(before, Idx(p.0, p.1, width), ' ')
  }

  /** A cell is blank after the clearing exactly when some previous, no longer drawn position
      maps to it; every other cell keeps its character. */
  lemma {:induction false} ClearedExact(cells: seq<char>, width: nat, previous: seq<(nat, nat)>, current: seq<(nat, nat)>)
    ensures |Cleared(cells, width, previous, current)| == |cells|
    ensures forall k :: 0 <= k < |cells| ==>
      Cleared(cells, width, previous, current)[k] ==
        if (exists p :: p in previous && p !in current && Idx(p.0, p.1, width) == k) then ' ' else cells[k]
  {
    if previous != [] {
      var init := previous[..|previous| - 1];
      var last := previous[|previous| - 1];
      ClearedExact(cells, width, init, current);
      assert forall p :: p in previous <==> p in init || p == last;
    }
  }

  /** The character `rasterize_vertices` draws for an entry: its depth glyph. */
  function GlyphInk(record: seq<ZEntry>, e: ZEntry): char {
    Glyph(e.z)
  }

  /** The character `draw_image_2d` draws: always '&'. */
  function Ampersand(record: seq<ZEntry>, e: ZEntry): char {
    '&'
  }

  /** The helper's cursor after the attempts `es` from cursor c and record `record`: each admitted
      one-character draw leaves it one column right of its cell (wrapped); blocked ones leave it. */
  function CursorAfter(c: Cursor, record: seq<ZEntry>, es: seq<ZEntry>, width: nat): Cursor
    requires width > 0
  {
    if es == [] then c
    else
      var e := es[|es| - 1];
      if Blocked(Admitted(record, es[..|es| - 1]), e.x, e.y, e.z) then CursorAfter(c, record, es[..|es| - 1], width)
      else Wrapped(Cursor(e.x + 1, e.y), width)
  }

  /** One more attempt after `done`. */
  lemma CursorStep(c: Cursor, record: seq<ZEntry>, done: seq<ZEntry>, e: ZEntry, width: nat)
    requires width > 0
    ensures CursorAfter(c, record, done + [e], width) ==
      if Blocked(Admitted(record, done), e.x, e.y, e.z) then CursorAfter(c, record, done, width)
      else Wrapped(Cursor(e.x + 1, e.y), width)
  {
    assert (done + [e])[..|done|] == done;
  }

  /** Attempting `a` and then `b` moves the cursor as attempting `a + b` does. */
  lemma {:induction false} CursorAfterAppend(c: Cursor, record: seq<ZEntry>, a: seq<ZEntry>, b: seq<ZEntry>, width: nat)
    requires width > 0
    ensures CursorAfter(c, record, a + b, width) == CursorAfter(CursorAfter(c, record, a, width), Admitted(record, a), b, width)
  {
    if b == [] {
      assert a + b == a;
    } else {
      var init := b[..|b| - 1];
      CursorAfterAppend(c, record, a, init, width);
      AdmittedAppend(record, a, init);
      assert (a + b)[..|a + b| - 1] == a + init;
      assert (a + b)[|a + b| - 1] == b[|b| - 1];
    }
  }

  /** The cursor ends just right of the last entry the record gained, or where it started when
      the record gained nothing. */
  lemma {:induction false} CursorFollowsLastDraw(c: Cursor, record: seq<ZEntry>, es: seq<ZEntry>, width: nat)
    requires width > 0
    ensures var after := Admitted(record, es);
      (|after| == |record| ==> CursorAfter(c, record, es, width) == c) &&
      (|after| > |record| ==>
        CursorAfter(c, record, es, width) == Wrapped(Cursor(after[|after| - 1].x + 1, after[|after| - 1].y), width))
  {
    if es != [] {
      var init := es[..|es| - 1];
      CursorFollowsLastDraw(c, record, init, width);
      AdmittedGrows(record, init);
    }
  }

  lemma JoinAssociates(a: string, b: string, c: string, d: string, e: string)
    ensures a + b + c + d + e == a + (b + c + d + e)
  {
  }
}
