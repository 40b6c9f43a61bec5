/** The depth record (`z_buffer`) both renderers keep for the current frame, and the painting of
    cells it decides. A smaller z is nearer to the viewer. */
module Occlusion {
  import opened Render

  /** One `z_buffer` entry: the cell coordinates and the depth drawn there. */
  datatype ZEntry = ZEntry(x: nat, y: nat, z: real)

  predicate SameCell(a: ZEntry, b: ZEntry) {
    a.x == b.x && a.y == b.y
  }

  /** Some recorded entry at (x, y) is strictly nearer than z. An equal depth does not block. */
  predicate Blocked(record: seq<ZEntry>, x: nat, y: nat, z: real) {
    exists i :: 0 <= i < |record| && record[i].x == x && record[i].y == y && record[i].z < z
  }

  /** The scan at the top of `draw_at`: walk the record in order, stop at the first entry that
      is at (x, y) and nearer than z. */
  method Occludes(record: seq<ZEntry>, x: nat, y: nat, z: real) returns (blocked: bool)
    ensures blocked <==> Blocked(record, x, y, z)
  {
    for i := 0 to |record|
      invariant forall j :: 0 <= j < i ==> !(record[j].x == x && record[j].y == y && record[j].z < z)
    {
      if record[i].x == x && record[i].y == y && record[i].z < z {
        return true;
      }
    }
    return false;
  }

  /** The record after attempting each entry of `es` in order: an entry is appended unless the
      record at that moment blocks it. */
  function Admitted(record: seq<ZEntry>, es: seq<ZEntry>): seq<ZEntry> {
    if es == [] then record
    else
      var before := Admitted(record, es[..|es| - 1]);
      var e := es[|es| - 1];
      if Blocked(before, e.x, e.y, e.z) then before else before + [e]
  }

  /** At every cell, later entries are never farther than earlier ones. */
  predicate Layered(record: seq<ZEntry>) {
    forall i, j :: 0 <= i < j < |record| && SameCell(record[i], record[j]) ==> record[j].z <= record[i].z
  }

  /** Some entry at e's cell is at least as near as e. */
  predicate Covered(record: seq<ZEntry>, e: ZEntry) {
    exists i :: 0 <= i < |record| && SameCell(record[i], e) && record[i].z <= e.z
  }

  /** The record only grows, and what it gains comes from the attempted entries. */
  lemma {:induction false} AdmittedGrows(record: seq<ZEntry>, es: seq<ZEntry>)
    ensures |record| <= |Admitted(record, es)| <= |record| + |es|
    ensures Admitted(record, es)[..|record|] == record
    ensures forall i :: |record| <= i < |Admitted(record, es)| ==> Admitted(record, es)[i] in es
  {
    if es != [] {
      var init := es[..|es| - 1];
      AdmittedGrows(record, init);
      var before := Admitted(record, init);
      assert forall e :: e in init ==> e in es;
      if !Blocked(before, es[|es| - 1].x, es[|es| - 1].y, es[|es| - 1].z) {
        assert (before + [es[|es| - 1]])[..|record|] == before[..|record|];
      }
    }
  }

  /** Admitting only unblocked entries keeps every cell's depths non-increasing. */
  lemma {:induction false} AdmittedLayered(record: seq<ZEntry>, es: seq<ZEntry>)
    requires Layered(record)
    ensures Layered(Admitted(record, es))
  {
    if es != [] {
      AdmittedLayered(record, es[..|es| - 1]);
      var before := Admitted(record, es[..|es| - 1]);
      var e := es[|es| - 1];
      if !Blocked(before, e.x, e.y, e.z) {
        var after := before + [e];
        forall i, j | 0 <= i < j < |after| && SameCell(after[i], after[j])
          ensures after[j].z <= after[i].z
        {
          if j == |before| {
            assert !(before[i].x == e.x && before[i].y == e.y && before[i].z < e.z);
          }
        }
      }
    }
  }

  /** Whatever order the entries arrive in, each attempted entry ends up matched or beaten by a
      recorded entry at its cell. */
  lemma {:induction false} AdmittedCovers(record: seq<ZEntry>, es: seq<ZEntry>)
    ensures forall e :: e in es ==> Covered(Admitted(record, es), e)
  {
    if es != [] {
      var init := es[..|es| - 1];
      AdmittedCovers(record, init);
      var before := Admitted(record, init);
      var last := es[|es| - 1];
      var after := Admitted(record, es);
      assert after == before || after == before + [last];
      forall e | e in es
        ensures Covered(after, e)
      {
        if e in init {
          var i :| 0 <= i < |before| && SameCell(before[i], e) && before[i].z <= e.z;
          assert after[i] == before[i];
        } else {
          assert e == last;
          if Blocked(before, last.x, last.y, last.z) {
            var i :| 0 <= i < |before| && before[i].x == last.x && before[i].y == last.y && before[i].z < last.z;
            assert after[i] == before[i];
          } else {
            assert after[|before|] == last;
          }
        }
      }
    }
  }

  /** The two arrival orders of a near and a far entry at one cell: near first records only the
      near one; far first records both, the near one last. */
  lemma ArrivalOrder()
    ensures Admitted([], [ZEntry(1, 1, 2.0), ZEntry(1, 1, 5.0)]) == [ZEntry(1, 1, 2.0)]
    ensures Admitted([], [ZEntry(1, 1, 5.0), ZEntry(1, 1, 2.0)]) == [ZEntry(1, 1, 5.0), ZEntry(1, 1, 2.0)]
  {
    var near := ZEntry(1, 1, 2.0);
    var far := ZEntry(1, 1, 5.0);
    assert [near, far][..1] == [near];
    assert [far, near][..1] == [far];
    assert [near][..0] == [];
    assert [far][..0] == [];
    assert Admitted([], [near]) == [near];
    assert Admitted([], [far]) == [far];
    assert Blocked([near], far.x, far.y, far.z) by {
      assert [near][0] == near;
    }
  }

  /** The cells after painting each admitted entry of `es` at Idx(x, y), with the value `ink`
      gives it from the record as it stood just before that draw. Indices past the end are
      skipped, as `Stamp` skips them. */
  function Paint<T>(cells: seq<T>, width: nat, record: seq<ZEntry>, es: seq<ZEntry>,
                    ink: (seq<ZEntry>, ZEntry) -> T): seq<T>
  {
    if es == [] then cells
    else
      var before := Admitted(record, es[..|es| - 1]);
      var painted := Paint(cells, width, record, es[..|es| - 1], ink);
      var e := es[|es| - 1];
      if Blocked(before, e.x, e.y, e.z) then painted
      else Stamp(painted, Idx(e.x, e.y, width), ink(before, e))
  }

  /** Painting never resizes the buffer and leaves alone every cell no attempted entry maps to. */
  lemma {:induction false} PaintTouchesOnlyTargets<T>(cells: seq<T>, width: nat, record: seq<ZEntry>,
                                                     es: seq<ZEntry>, ink: (seq<ZEntry>, ZEntry) -> T)
    ensures |Paint(cells, width, record, es, ink)| == |cells|
    ensures forall k :: 0 <= k < |cells| && (forall e :: e in es ==> Idx(e.x, e.y, width) != k) ==>
      Paint(cells, width, record, es, ink)[k] == cells[k]
  {
    if es != [] {
      var init := es[..|es| - 1];
      PaintTouchesOnlyTargets(cells, width, record, init, ink);
      assert forall e :: e in init ==> e in es;
    }
  }

  /** Attempting `a` and then `b` is attempting `a + b`. */
  lemma {:induction false} AdmittedAppend(record: seq<ZEntry>, a: seq<ZEntry>, b: seq<ZEntry>)
    ensures Admitted(record, a + b) == Admitted(Admitted(record, a), b)
  {
    if b == [] {
      assert a + b == a;
    } else {
      var init := b[..|b| - 1];
      AdmittedAppend(record, a, init);
      assert (a + b)[..|a + b| - 1] == a + init;
      assert (a + b)[|a + b| - 1] == b[|b| - 1];
    }
  }

  /** Painting `a` and then `b` (against the record `a` leaves) is painting `a + b`. */
  lemma {:induction false} PaintAppend<T>(cells: seq<T>, width: nat, record: seq<ZEntry>, a: seq<ZEntry>, b: seq<ZEntry>,
                                          ink: (seq<ZEntry>, ZEntry) -> T)
    ensures Paint(cells, width, record, a + b, ink) ==
      Paint(Paint(cells, width, record, a, ink), width, Admitted(record, a), b, ink)
  {
    if b == [] {
      assert a + b == a;
    } else {
      var init := b[..|b| - 1];
      PaintAppend(cells, width, record, a, init, ink);
      AdmittedAppend(record, a, init);
      assert (a + b)[..|a + b| - 1] == a + init;
      assert (a + b)[|a + b| - 1] == b[|b| - 1];
    }
  }

  /** One more attempt: the record and the cells after `done + [e]` in terms of those after `done`. */
  lemma DrawStep<T>(cells: seq<T>, width: nat, record: seq<ZEntry>, done: seq<ZEntry>, e: ZEntry,
                    ink: (seq<ZEntry>, ZEntry) -> T)
    ensures var before := Admitted(record, done);
      Admitted(record, done + [e]) == (if Blocked(before, e.x, e.y, e.z) then before else before + [e]) &&
      Paint(cells, width, record, done + [e], ink) ==
        (if Blocked(before, e.x, e.y, e.z) then Paint(cells, width, record, done, ink)
         else Stamp(Paint(cells, width, record, done, ink), Idx(e.x, e.y, width), ink(before, e)))
  {
    assert (done + [e])[..|done|] == done;
  }

  /** The coordinates of the recorded entries, in order (`currently_set_pixels`). */
  function Coords(record: seq<ZEntry>): (r: seq<(nat, nat)>)
    ensures |r| == |record|
    ensures forall i :: 0 <= i < |r| ==> r[i] == (record[i].x, record[i].y)
  {
    if record == [] then [] else Coords(record[..|record| - 1]) + [(record[|record| - 1].x, record[|record| - 1].y)]
  }
}
