/** The terminal side of the text renderer: SGR style codes, the escape sequences the helper
    prints, the cursor arithmetic of `advance` and the text `ANSIHelper::flush` prints for a
    frame. */
module AnsiProtocol {
  import Wrappers
  import opened Decimal

  /** `ANSIStyle`, with the variant names the source uses. */
  datatype AnsiStyle =
    | None | Bold | Faint | Italic | Underline | SlowBlink | FastBlink | Invert | Hide | CrossedOut
    | PriamryFont | AlternativeFont
    | Fraktur | DoublyUnderlinedOrNotBold | NormalIntensity | NeitherItalicNorBlackletter | NotUnderlined
    | NotBlinking | ProportionalSpacing | NotReversed | Reveal | NotCrossedOut | SetForegroundColor
    | SetForegroundColor8bit | DefaultForegroundColor | SetBackgroundColor
    | SetBackgroundColor8bit | DefaultBackgroundColor | DisableProportionalSpacing | Framed | Encircled
    | Overlined | NeitherFramedNorEncircled | NotOverlined | SetUnderlineColor | DefaultUnderlineColor
    | IdeogramUnderlineOrRightSideLine | IdeogramDoubleUnderlineOrDoubleRightSideLine
    | IdeogramOverlineOrLeftSideLine | IdeogramDoubleOverlineOrDoubleLeftSideLine | IdeogramStressMaking
    | NoIdeogramAttributes | Superscript | Subscript | NeitherSubscriptNorSuperscirpt
    | SetBrightForegroundColor
    | SetBrightBackgroundColor

  /** `style as i32`: explicit discriminants 0, 20, 38, 48 and 100, each followed by consecutive
      values. */
  function Code(s: AnsiStyle): nat {
    match s
    case None => 0
    case Bold => 1
    case Faint => 2
    case Italic => 3
    case Underline => 4
    case SlowBlink => 5
    case FastBlink => 6
    case Invert => 7
    case Hide => 8
    case CrossedOut => 9
    case PriamryFont => 10
    case AlternativeFont => 11
    case Fraktur => 20
    case DoublyUnderlinedOrNotBold => 21
    case NormalIntensity => 22
    case NeitherItalicNorBlackletter => 23
    case NotUnderlined => 24
    case NotBlinking => 25
    case ProportionalSpacing => 26
    case NotReversed => 27
    case Reveal => 28
    case NotCrossedOut => 29
    case SetForegroundColor => 30
    case SetForegroundColor8bit => 38
    case DefaultForegroundColor => 39
    case SetBackgroundColor => 40
    case SetBackgroundColor8bit => 48
    case DefaultBackgroundColor => 49
    case DisableProportionalSpacing => 50
    case Framed => 51
    case Encircled => 52
    case Overlined => 53
    case NeitherFramedNorEncircled => 54
    case NotOverlined => 55
    case SetUnderlineColor => 56
    case DefaultUnderlineColor => 57
    case IdeogramUnderlineOrRightSideLine => 58
    case IdeogramDoubleUnderlineOrDoubleRightSideLine => 59
    case IdeogramOverlineOrLeftSideLine => 60
    case IdeogramDoubleOverlineOrDoubleLeftSideLine => 61
    case IdeogramStressMaking => 62
    case NoIdeogramAttributes => 63
    case Superscript => 64
    case Subscript => 65
    case NeitherSubscriptNorSuperscirpt => 66
    case SetBrightForegroundColor => 67
    case SetBrightBackgroundColor => 100
  }

  /** The style a code names, if any: the reading a terminal makes of the number. */
  function StyleOf(n: nat): Wrappers.Option<AnsiStyle> {
    if n <= 11 then StyleOfAttribute(n)
    else if n <= 30 then StyleOfReset(n)
    else if n <= 40 || n == 100 then StyleOfColour(n)
    else if n <= 57 then StyleOfFrame(n)
    else StyleOfIdeogram(n)
  }

  /** The style among the attributes 0 .. 11 that a code names, if any. */
  function StyleOfAttribute(n: nat): Wrappers.Option<AnsiStyle> {
    match n
    case 0 => Wrappers.Some(None)
    case 1 => Wrappers.Some(Bold)
    case 2 => Wrappers.Some(Faint)
    case 3 => Wrappers.Some(Italic)
    case 4 => Wrappers.Some(Underline)
    case 5 => Wrappers.Some(SlowBlink)
    case 6 => Wrappers.Some(FastBlink)
    case 7 => Wrappers.Some(Invert)
    case 8 => Wrappers.Some(Hide)
    case 9 => Wrappers.Some(CrossedOut)
    case 10 => Wrappers.Some(PriamryFont)
    case 11 => Wrappers.Some(AlternativeFont)
    case _ => Wrappers.None
  }

  /** The style among the resets and the foreground colour, 20 .. 30 that a code names, if any. */
  function StyleOfReset(n: nat): Wrappers.Option<AnsiStyle> {
    match n
    case 20 => Wrappers.Some(Fraktur)
    case 21 => Wrappers.Some(DoublyUnderlinedOrNotBold)
    case 22 => Wrappers.Some(NormalIntensity)
    case 23 => Wrappers.Some(NeitherItalicNorBlackletter)
    case 24 => Wrappers.Some(NotUnderlined)
    case 25 => Wrappers.Some(NotBlinking)
    case 26 => Wrappers.Some(ProportionalSpacing)
    case 27 => Wrappers.Some(NotReversed)
    case 28 => Wrappers.Some(Reveal)
    case 29 => Wrappers.Some(NotCrossedOut)
    case 30 => Wrappers.Some(SetForegroundColor)
    case _ => Wrappers.None
  }

  /** The style among the colour codes 38 .. 40 and 100 that a code names, if any. */
  function StyleOfColour(n: nat): Wrappers.Option<AnsiStyle> {
    match n
    case 38 => Wrappers.Some(SetForegroundColor8bit)
    case 39 => Wrappers.Some(DefaultForegroundColor)
    case 40 => Wrappers.Some(SetBackgroundColor)
    case 100 => Wrappers.Some(SetBrightBackgroundColor)
    case _ => Wrappers.None
  }

  /** The style among the codes 48 .. 57 that a code names, if any. */
  function StyleOfFrame(n: nat): Wrappers.Option<AnsiStyle> {
    match n
    case 48 => Wrappers.Some(SetBackgroundColor8bit)
    case 49 => Wrappers.Some(DefaultBackgroundColor)
    case 50 => Wrappers.Some(DisableProportionalSpacing)
    case 51 => Wrappers.Some(Framed)
    case 52 => Wrappers.Some(Encircled)
    case 53 => Wrappers.Some(Overlined)
    case 54 => Wrappers.Some(NeitherFramedNorEncircled)
    case 55 => Wrappers.Some(NotOverlined)
    case 56 => Wrappers.Some(SetUnderlineColor)
    case 57 => Wrappers.Some(DefaultUnderlineColor)
    case _ => Wrappers.None
  }

  /** The style among the codes 58 .. 67 that a code names, if any. */
  function StyleOfIdeogram(n: nat): Wrappers.Option<AnsiStyle> {
    match n
    case 58 => Wrappers.Some(IdeogramUnderlineOrRightSideLine)
    case 59 => Wrappers.Some(IdeogramDoubleUnderlineOrDoubleRightSideLine)
    case 60 => Wrappers.Some(IdeogramOverlineOrLeftSideLine)
    case 61 => Wrappers.Some(IdeogramDoubleOverlineOrDoubleLeftSideLine)
    case 62 => Wrappers.Some(IdeogramStressMaking)
    case 63 => Wrappers.Some(NoIdeogramAttributes)
    case 64 => Wrappers.Some(Superscript)
    case 65 => Wrappers.Some(Subscript)
    case 66 => Wrappers.Some(NeitherSubscriptNorSuperscirpt)
    case 67 => Wrappers.Some(SetBrightForegroundColor)
    case _ => Wrappers.None
  }

  /** Reading a style's code gives the style back. */
  lemma StyleOfCode(s: AnsiStyle)
    ensures StyleOf(Code(s)) == Wrappers.Some(s)
  {
  }

  /** Only codes of styles name a style, and a code names the style it is the code of: with
      `StyleOfCode`, the numbering is one-to-one. */
  lemma CodeOfStyle(s: AnsiStyle, n: nat)
    requires StyleOf(n) == Wrappers.Some(s)
    ensures Code(s) == n
  {
    if n <= 11 {
      CodeOfAttribute(s, n);
    } else if n <= 30 {
      CodeOfReset(s, n);
    } else if n <= 40 || n == 100 {
      CodeOfColour(s, n);
    } else if n <= 57 {
      CodeOfFrame(s, n);
    } else {
      CodeOfIdeogram(s, n);
    }
  }

  lemma CodeOfAttribute(s: AnsiStyle, n: nat)
    requires StyleOfAttribute(n) == Wrappers.Some(s)
    ensures Code(s) == n
  {
    match n
    case 0 => assert s == None;
    case 1 => assert s == Bold;
    case 2 => assert s == Faint;
    case 3 => assert s == Italic;
    case 4 => assert s == Underline;
    case 5 => assert s == SlowBlink;
    case 6 => assert s == FastBlink;
    case 7 => assert s == Invert;
    case 8 => assert s == Hide;
    case 9 => assert s == CrossedOut;
    case 10 => assert s == PriamryFont;
    case 11 => assert s == AlternativeFont;
    case _ =>
  }

  lemma CodeOfReset(s: AnsiStyle, n: nat)
    requires StyleOfReset(n) == Wrappers.Some(s)
    ensures Code(s) == n
  {
    match n
    case 20 => assert s == Fraktur;
    case 21 => assert s == DoublyUnderlinedOrNotBold;
    case 22 => assert s == NormalIntensity;
    case 23 => assert s == NeitherItalicNorBlackletter;
    case 24 => assert s == NotUnderlined;
    case 25 => assert s == NotBlinking;
    case 26 => assert s == ProportionalSpacing;
    case 27 => assert s == NotReversed;
    case 28 => assert s == Reveal;
    case 29 => assert s == NotCrossedOut;
    case 30 => assert s == SetForegroundColor;
    case _ =>
  }

  lemma CodeOfColour(s: AnsiStyle, n: nat)
    requires StyleOfColour(n) == Wrappers.Some(s)
    ensures Code(s) == n
  {
    match n
    case 38 => assert s == SetForegroundColor8bit;
    case 39 => assert s == DefaultForegroundColor;
    case 40 => assert s == SetBackgroundColor;
    case 100 => assert s == SetBrightBackgroundColor;
    case _ =>
  }

  lemma CodeOfFrame(s: AnsiStyle, n: nat)
    requires StyleOfFrame(n) == Wrappers.Some(s)
    ensures Code(s) == n
  {
    match n
    case 48 => assert s == SetBackgroundColor8bit;
    case 49 => assert s == DefaultBackgroundColor;
    case 50 => assert s == DisableProportionalSpacing;
    case 51 => assert s == Framed;
    case 52 => assert s == Encircled;
    case 53 => assert s == Overlined;
    case 54 => assert s == NeitherFramedNorEncircled;
    case 55 => assert s == NotOverlined;
    case 56 => assert s == SetUnderlineColor;
    case 57 => assert s == DefaultUnderlineColor;
    case _ =>
  }

  lemma CodeOfIdeogram(s: AnsiStyle, n: nat)
    requires StyleOfIdeogram(n) == Wrappers.Some(s)
    ensures Code(s) == n
  {
    match n
    case 58 => assert s == IdeogramUnderlineOrRightSideLine;
    case 59 => assert s == IdeogramDoubleUnderlineOrDoubleRightSideLine;
    case 60 => assert s == IdeogramOverlineOrLeftSideLine;
    case 61 => assert s == IdeogramDoubleOverlineOrDoubleLeftSideLine;
    case 62 => assert s == IdeogramStressMaking;
    case 63 => assert s == NoIdeogramAttributes;
    case 64 => assert s == Superscript;
    case 65 => assert s == Subscript;
    case 66 => assert s == NeitherSubscriptNorSuperscirpt;
    case 67 => assert s == SetBrightForegroundColor;
    case _ =>
  }

  /** The escape character. */
  const Esc: char := 27 as char

  /** The cursor-position sequence `ESC [ y ; x H` the helper prints, row first. */
  function CursorPosition(y: nat, x: nat): (r: string)
    ensures |r| == 4 + |NatToString(y)| + |NatToString(x)|
    ensures r[0] == Esc && r[1] == '[' && r[|r| - 1] == 'H'
    ensures r[2 + |NatToString(y)|] == ';'
  {
    [Esc, '['] + NatToString(y) + [';'] + NatToString(x) + ['H']
  }

  /** The decimal text of a number never contains the characters that delimit it here. */
  lemma DigitsAreNotDelimiters(n: nat)
    ensures ';' !in NatToString(n) && 'H' !in NatToString(n) && 'm' !in NatToString(n)
    ensures Esc !in NatToString(n) && '\0' !in NatToString(n)
  {
  }

  /** Two cursor-position sequences are the same text only for the same row and column: the
      row's digits end at the only ';'. */
  lemma CursorPositionInjective(y1: nat, x1: nat, y2: nat, x2: nat)
    requires CursorPosition(y1, x1) == CursorPosition(y2, x2)
    ensures y1 == y2 && x1 == x2
  {
    var a := NatToString(y1);
    var b := NatToString(y2);
    var r := CursorPosition(y1, x1);
    DigitsAreNotDelimiters(y1);
    DigitsAreNotDelimiters(y2);
    assert r[2 + |a|] == ';';
    assert r[2 + |b|] == ';';
    assert forall i :: 2 <= i < 2 + |a| ==> r[i] == a[i - 2];
    assert forall i :: 2 <= i < 2 + |b| ==> r[i] == b[i - 2];
    if |a| < |b| {
      assert false;
    } else if |b| < |a| {
      assert false;
    }
    assert a == r[2..2 + |a|] == b;
    PrintedInjective(y1, y2);
    var c := NatToString(x1);
    var d := NatToString(x2);
    assert r[3 + |a|..|r| - 1] == c;
    assert CursorPosition(y2, x2)[3 + |b|..|r| - 1] == d;
    PrintedInjective(x1, x2);
  }

  /** The Select Graphic Rendition sequence `ESC [ code m` that `set_style` queues. */
  function Sgr(style: AnsiStyle): (r: string)
    ensures |r| == 3 + |NatToString(Code(style))|
    ensures r[0] == Esc && r[1] == '[' && r[|r| - 1] == 'm'
  {
    [Esc, '['] + NatToString(Code(style)) + ['m']
  }

  /** Erase from the cursor to the end of the screen: `ESC [ 0 J`. */
  function EraseBelow(): string {
    [Esc, '[', '0', 'J']
  }

  /** `write_aux`: text queued for a position is appended to what is already queued there. */
  function Queued(aux: map<(nat, nat), string>, key: (nat, nat), text: string): (r: map<(nat, nat), string>)
    ensures r.Keys == aux.Keys + {key}
    ensures forall k :: k in aux && k != key ==> r[k] == aux[k]
  {
    aux[key := (if key in aux then aux[key] else "") + text]
  }

  /** Queuing a then b at one position is queuing a + b there. */
  lemma QueuedConcatenates(aux: map<(nat, nat), string>, key: (nat, nat), a: string, b: string)
    ensures Queued(Queued(aux, key, a), key, b) == Queued(aux, key, a + b)
  {
    var before := if key in aux then aux[key] else "";
    assert before + a + b == before + (a + b);
  }

  /** `set_style` queues ESC, then '[', then the code and 'm': together, the SGR sequence. */
  lemma StyleQueuesSgr(aux: map<(nat, nat), string>, key: (nat, nat), style: AnsiStyle)
    ensures Queued(Queued(Queued(aux, key, [Esc]), key, "["), key, NatToString(Code(style)) + "m") ==
      Queued(aux, key, Sgr(style))
  {
    QueuedConcatenates(aux, key, [Esc], "[");
    QueuedConcatenates(aux, key, [Esc] + "[", NatToString(Code(style)) + "m");
    assert [Esc] + "[" + (NatToString(Code(style)) + "m") == Sgr(style);
  }

  // ---- the helper's cursor ----

  datatype Cursor = Cursor(x: nat, y: nat)

  /** `advance`'s loop: while the column is past the width, take a width off it and move down
      a row. */
  function Wrapped(c: Cursor, width: nat): Cursor
    requires width > 0
    decreases c.x
  {
    if c.x > width then Wrapped(Cursor(c.x - width, c.y + 1), width) else c
  }

  /** Wrapping keeps the linear position x + y * width, ends at a column of at most the width,
      and never ends at column 0 when it started past it. */
  lemma {:induction false} WrappedKeepsPosition(c: Cursor, width: nat)
    requires width > 0
    ensures Wrapped(c, width).x + Wrapped(c, width).y * width == c.x + c.y * width
    ensures Wrapped(c, width).x <= width
    ensures c.x <= width ==> Wrapped(c, width) == c
    ensures c.x >= 1 ==> Wrapped(c, width).x >= 1
    decreases c.x
  {
    if c.x > width {
      WrappedKeepsPosition(Cursor(c.x - width, c.y + 1), width);
      assert (c.y + 1) * width == c.y * width + width;
    }
  }

  /** The cursor-position sequences `ANSIHelper::flush` prints inside that same loop, one per
      row it moves down. */
  function WrapMoves(c: Cursor, width: nat): string
    requires width > 0
    decreases c.x
  {
    if c.x > width then CursorPosition(c.y + 1, c.x - width) + WrapMoves(Cursor(c.x - width, c.y + 1), width) else ""
  }

  /** Where `ANSIHelper::flush` believes the cursor is when it reaches cell k, having started at
      (0, 0) and stepped one column per cell. */
  function Position(k: nat, width: nat): Cursor
    requires width > 0
  {
    if k == 0 then Cursor(0, 0)
    else
      var p := Position(k - 1, width);
      Wrapped(Cursor(p.x + 1, p.y), width)
  }

  /** Cell k is visited at a position whose linear number x + y * width is k; row 0 runs over
      columns 0 .. width (one more cell than the width) and later rows over 1 .. width. */
  lemma {:induction false} PositionShape(k: nat, width: nat)
    requires width > 0
    ensures Position(k, width).x + Position(k, width).y * width == k
    ensures Position(k, width).x <= width
    ensures Position(k, width).y >= 1 ==> Position(k, width).x >= 1
    ensures k <= width ==> Position(k, width) == Cursor(k, 0)
  {
    if k > 0 {
      PositionShape(k - 1, width);
      var p := Position(k - 1, width);
      WrappedKeepsPosition(Cursor(p.x + 1, p.y), width);
    }
  }

  /** The text `ANSIHelper::flush` prints for cells k .. of the frame: at each cell, whatever is
      queued for its position; then the cell unless it is '\0', preceded by a cursor jump when
      the previous cell was '\0'; then the row-change jumps of the cursor step. */
  function Walk(cells: seq<char>, k: nat, jump: bool, aux: map<(nat, nat), string>, width: nat): string
    requires k <= |cells| && width > 0
    decreases |cells| - k
  {
    if k == |cells| then ""
    else
      var at := Position(k, width);
      Note(aux, at) + Shown(cells[k], jump, at) + WrapMoves(Cursor(at.x + 1, at.y), width)
        + Walk(cells, k + 1, cells[k] == '\0', aux, width)
  }

  /** What is queued for the cursor's position, or nothing. */
  function Note(aux: map<(nat, nat), string>, at: Cursor): string {
    if (at.x, at.y) in aux then aux[(at.x, at.y)] else ""
  }

  /** How a cell is printed: '\0' is skipped; any other character is printed, after a jump to
      the cursor's position when the previous cell was skipped. */
  function Shown(c: char, jump: bool, at: Cursor): string {
    if c == '\0' then "" else (if jump then CursorPosition(at.y, at.x) else "") + [c]
  }

  /** Queued text whose key is column 0 of a row below the first is never printed, since the
      walk never stands there; dropping those entries leaves the output unchanged. */
  function Reachable(aux: map<(nat, nat), string>): map<(nat, nat), string> {
    map key | key in aux && !(key.0 == 0 && key.1 >= 1) :: aux[key]
  }

  lemma {:induction false} WalkIgnoresColumnZero(cells: seq<char>, k: nat, jump: bool, aux: map<(nat, nat), string>, width: nat)
    requires k <= |cells| && width > 0
    ensures Walk(cells, k, jump, aux, width) == Walk(cells, k, jump, Reachable(aux), width)
    decreases |cells| - k
  {
    if k < |cells| {
      NoteReachable(aux, Position(k, width), k, width);
      WalkIgnoresColumnZero(cells, k + 1, cells[k] == '\0', aux, width);
      WalkStep(cells, k, jump, aux, width);
      WalkStep(cells, k, jump, Reachable(aux), width);
    }
  }

  /** The walk's position for cell k never sits at column 0 of a later row, so the note there
      is the same with or without the unreachable entries. */
  lemma NoteReachable(aux: map<(nat, nat), string>, at: Cursor, k: nat, width: nat)
    requires width > 0 && at == Position(k, width)
    ensures Note(aux, at) == Note(Reachable(aux), at)
  {
    PositionShape(k, width);
    var key := (at.x, at.y);
    if key in aux {
      assert !(key.0 == 0 && key.1 >= 1);
      assert key in Reachable(aux);
    }
  }

  /** On a frame no longer than the width, with nothing queued and no '\0' cell, the walk prints
      the cells and nothing else. */
  lemma {:induction false} WalkPrintsShortRow(cells: seq<char>, k: nat, width: nat)
    requires 0 < width && k <= |cells| <= width
    requires '\0' !in cells
    ensures Walk(cells, k, false, map[], width) == cells[k..]
    decreases |cells| - k
  {
    if k < |cells| {
      PositionShape(k, width);
      WalkPrintsShortRow(cells, k + 1, width);
      assert cells[k..] == [cells[k]] + cells[k + 1..];
    }
  }

  /** A '\0' cell between two drawn cells is skipped, and the terminal cursor is moved to the
      next drawn cell before it is printed. */
  lemma WalkSkipsBlank(a: char, b: char, width: nat)
    requires width >= 3 && a != '\0' && b != '\0'
    ensures Walk([a, '\0', b], 0, false, map[], width) == [a] + CursorPosition(0, 2) + [b]
  {
    var cells := [a, '\0', b];
    PositionShape(0, width);
    PositionShape(1, width);
    PositionShape(2, width);
    assert WrapMoves(Cursor(1, 0), width) == "";
    assert WrapMoves(Cursor(2, 0), width) == "";
    assert WrapMoves(Cursor(3, 0), width) == "";
    assert Walk(cells, 3, false, map[], width) == "";
    assert Shown(b, true, Cursor(2, 0)) == CursorPosition(0, 2) + [b];
    assert Walk(cells, 2, true, map[], width) == CursorPosition(0, 2) + [b];
    assert Shown('\0', false, Cursor(1, 0)) == "";
    assert Walk(cells, 1, false, map[], width) == Walk(cells, 2, true, map[], width);
    assert Shown(a, false, Cursor(0, 0)) == [a];
    assert Walk(cells, 0, false, map[], width) == [a] + Walk(cells, 1, false, map[], width);
  }

  /** One step of the walk: cell k's queued text, the cell as shown, the wrap jumps, the rest. */
  lemma WalkStep(cells: seq<char>, k: nat, jump: bool, aux: map<(nat, nat), string>, width: nat)
    requires width > 0 && k < |cells|
    ensures var at := Position(k, width);
      Walk(cells, k, jump, aux, width) ==
        Note(aux, at) + Shown(cells[k], jump, at) + WrapMoves(Cursor(at.x + 1, at.y), width)
          + Walk(cells, k + 1, cells[k] == '\0', aux, width)
  {
    var at := Position(k, width);
    var note := Note(aux, at);
    var shown := Shown(cells[k], jump, at);
    var moves := WrapMoves(Cursor(at.x + 1, at.y), width);
    var rest := Walk(cells, k + 1, cells[k] == '\0', aux, width);
    assert Walk(cells, k, jump, aux, width) == note + shown + moves + rest;
  }

  /** In any frame, a '\0' cell prints nothing of its own: after the text queued at its position
      and the wrap jumps, the walk goes on with the next cell marked as a jump target. */
  lemma WalkSkipsBlankCell(cells: seq<char>, k: nat, jump: bool, aux: map<(nat, nat), string>, width: nat)
    requires width > 0 && k < |cells| && cells[k] == '\0'
    ensures var q := Position(k, width);
      Walk(cells, k, jump, aux, width) ==
        Note(aux, q) + WrapMoves(Cursor(q.x + 1, q.y), width) + Walk(cells, k + 1, true, aux, width)
  {
    var q := Position(k, width);
    WalkStep(cells, k, jump, aux, width);
    assert Shown(cells[k], jump, q) == "";
    assert Note(aux, q) + "" == Note(aux, q);
  }

  /** A drawn cell reached after a '\0' cell prints the text queued at its position, then a jump
      to that position, then the cell itself, and only then its wrap jumps and the rest. */
  lemma WalkJumpsToDrawnCell(cells: seq<char>, k: nat, aux: map<(nat, nat), string>, width: nat)
    requires width > 0 && k < |cells| && cells[k] != '\0'
    ensures var p := Position(k, width);
      Walk(cells, k, true, aux, width) ==
        Note(aux, p) + (CursorPosition(p.y, p.x) + [cells[k]]) + WrapMoves(Cursor(p.x + 1, p.y), width)
          + Walk(cells, k + 1, false, aux, width)
  {
    WalkStep(cells, k, true, aux, width);
    ShownAfterBlank(cells[k], Position(k, width));
  }

  /** A drawn cell marked as a jump target is printed after a jump to its position. */
  lemma ShownAfterBlank(c: char, at: Cursor)
    requires c != '\0'
    ensures Shown(c, true, at) == CursorPosition(at.y, at.x) + [c]
  {
  }

  /** No '\0' reaches the terminal: the walk prints no '\0' unless some queued text holds one. */
  lemma {:induction false} WalkPrintsNoNul(cells: seq<char>, k: nat, jump: bool, aux: map<(nat, nat), string>, width: nat)
    requires k <= |cells| && width > 0
    requires forall key :: key in aux ==> '\0' !in aux[key]
    ensures '\0' !in Walk(cells, k, jump, aux, width)
    decreases |cells| - k
  {
    if k < |cells| {
      var at := Position(k, width);
      var c := cells[k];
      var note := Note(aux, at);
      var shown := Shown(c, jump, at);
      var moves := WrapMoves(Cursor(at.x + 1, at.y), width);
      var rest := Walk(cells, k + 1, c == '\0', aux, width);
      assert Walk(cells, k, jump, aux, width) == note + shown + moves + rest;
      WrapMovesHaveNoNul(Cursor(at.x + 1, at.y), width);
      ShownHasNoNul(c, jump, at);
      WalkPrintsNoNul(cells, k + 1, c == '\0', aux, width);
      assert '\0' !in note;
      NoNulInJoin(note, shown, moves, rest);
    }
  }

  lemma ShownHasNoNul(c: char, jump: bool, at: Cursor)
    ensures '\0' !in Shown(c, jump, at)
  {
    if c != '\0' {
      var jumpText := if jump then CursorPosition(at.y, at.x) else "";
      CursorPositionHasNoNul(at.y, at.x);
      assert '\0' !in jumpText;
      assert Shown(c, jump, at) == jumpText + [c];
    }
  }

  lemma CursorPositionHasNoNul(y: nat, x: nat)
    ensures '\0' !in CursorPosition(y, x)
  {
    DigitsAreNotDelimiters(y);
    DigitsAreNotDelimiters(x);
  }

  lemma NoNulInJoin(a: string, b: string, c: string, d: string)
    requires '\0' !in a && '\0' !in b && '\0' !in c && '\0' !in d
    ensures '\0' !in a + b + c + d
  {
  }

  lemma {:induction false} WrapMovesHaveNoNul(c: Cursor, width: nat)
    requires width > 0
    ensures '\0' !in WrapMoves(c, width)
    decreases c.x
  {
    if c.x > width {
      CursorPositionHasNoNul(c.y + 1, c.x - width);
      WrapMovesHaveNoNul(Cursor(c.x - width, c.y + 1), width);
    }
  }

  // ---- the renderer's depth glyphs ----

  /** The character `rasterize_vertices` draws for a vertex at depth z: denser when nearer. */
  function Glyph(z: real): char {
    if z > 16.0 then '.'
    else if z > 8.0 then 'u'
    else if z > 4.0 then 'w'
    else if z > 2.0 then 'W'
    else '@'
  }

  /** How dense a glyph looks, from '.' (0) to '@' (4). */
  function Density(c: char): nat {
    match c
    case '.' => 0
    case 'u' => 1
    case 'w' => 2
    case 'W' => 3
    case _ => 4
  }

  /** A farther vertex never gets a denser glyph. */
  lemma GlyphFadesWithDepth(z1: real, z2: real)
    requires z1 <= z2
    ensures Density(Glyph(z2)) <= Density(Glyph(z1))
  {
  }
}
