/** The generic row-major pixel buffer shared by both renderers (`render::Screen<T>`). */
module Render {
  import opened Wrappers

  /** The flat index of cell (x, y) in a buffer of the given width. An x at or past the width is
      not rejected: it lands in a later row. */
  function Idx(x: nat, y: nat, width: nat): nat {
    y * width + x
  }

  /** Every cell of a width x height buffer has an index inside the buffer. */
  lemma IdxInBounds(x: nat, y: nat, width: nat, height: nat)
    requires x < width && y < height
    ensures Idx(x, y, width) < width * height
  {
    assert y * width <= (height - 1) * width;
  }

  /** Column `width` of row y is the same cell as column 0 of row y + 1. */
  lemma IdxWraps(y: nat, width: nat)
    ensures Idx(width, y, width) == Idx(0, y + 1, width)
  {
  }

  /** A buffer of n copies of v. */
  function Fill<T>(n: nat, v: T): (r: seq<T>)
    ensures |r| == n
    ensures forall k :: 0 <= k < n ==> r[k] == v
  {
    if n == 0 then [] else Fill(n - 1, v) + [v]
  }

  /** Store v at index i when i is inside `cells`; an index past the end leaves `cells` as it is. */
  function Stamp<T>(cells: seq<T>, i: nat, v: T): (r: seq<T>)
    ensures |r| == |cells|
    ensures forall k :: 0 <= k < |r| ==> r[k] == (if k == i then v else cells[k])
  {
    if i < |cells| then cells[i := v] else cells
  }

  /** A width x height buffer of cells; `empty` is the value `T::default()` gives. */
  class Screen<T> {
    var pixels: seq<T>
    var width: nat
    var height: nat
    const empty: T

    predicate Valid()
      reads this
    {
      |pixels| == width * height
    }

    /** `Screen::new`: the buffer starts cleared. */
    constructor (x: nat, y: nat, empty: T)
      ensures Valid()
      ensures width == x && height == y && this.empty == empty
      ensures pixels == Fill(x * y, empty)
    {
      width := x;
      height := y;
      this.empty := empty;
      pixels := Fill(x * y, empty);
    }

    /** `Screen::clear`: height * width default cells, pushed one at a time. */
    method Clear()
      modifies this
      ensures Valid()
      ensures width == old(width) && height == old(height)
      ensures pixels == Fill(width * height, empty)
    {
      var total := height * width;
      pixels := [];
      for k := 0 to total
        invariant width == old(width) && height == old(height)
        invariant pixels == Fill(k, empty)
      {
        pixels := pixels + [empty];
      }
      assert total == width * height;
    }

    /** `Screen::resize`: new dimensions, then a clear. */
    method Resize(x: nat, y: nat)
      modifies this
      ensures Valid()
      ensures width == x && height == y
      ensures pixels == Fill(x * y, empty)
    {
      width := x;
      height := y;
      Clear();
    }

    /** `Screen::set_pixel`: writes the cell at Idx(x, y) or reports that the index is past
        the end of the buffer. */
    method SetPixel(x: nat, y: nat, pixel: T) returns (status: Status)
      modifies this
      ensures width == old(width) && height == old(height)
      ensures Idx(x, y, width) < |old(pixels)| ==> status == Ok && pixels == old(pixels)[Idx(x, y, width) := pixel]
      ensures Idx(x, y, width) >= |old(pixels)| ==> status == Err("Index out of bounds.") && pixels == old(pixels)
    {
      var i := y * width + x;
      if i < |pixels| {
        pixels := pixels[i := pixel];
        status := Ok;
      } else {
        status := Err("Index out of bounds.");
      }
    }

    /** `Screen::push_pixels`: every pixel goes to the same index Idx(x, y), so only the last
        one stays; an index past the end is ignored and the call still succeeds. */
    method PushPixels(x: nat, y: nat, ps: seq<T>) returns (status: Status)
      modifies this
      ensures width == old(width) && height == old(height)
      ensures status == Ok
      ensures pixels == if ps == [] then old(pixels) else Stamp(old(pixels), Idx(x, y, width), ps[|ps| - 1])
    {
      var i := y * width + x;
      for k := 0 to |ps|
        invariant width == old(width) && height == old(height)
        invariant pixels == if k == 0 then old(pixels) else Stamp(old(pixels), i, ps[k - 1])
      {
        if i < |pixels| {
          pixels := pixels[i := ps[k]];
        }
      }
      status := Ok;
    }

    /** `Screen::get_pixel`. */
    function GetPixel(x: nat, y: nat): (r: Option<T>)
      reads this
      ensures r.Some? <==> Idx(x, y, width) < |pixels|
      ensures r.Some? ==> r.value == pixels[Idx(x, y, width)]
    {
      var i := y * width + x;
      if i < |pixels| then Some(pixels[i]) else None
    }
  }

  /** Writing a cell and reading it back gives the value written; other cells keep theirs. */
  lemma StampThenRead<T>(cells: seq<T>, i: nat, j: nat, v: T)
    requires i < |cells| && j < |cells|
    ensures Stamp(cells, i, v)[j] == if i == j then v else cells[j]
  {
  }
}
