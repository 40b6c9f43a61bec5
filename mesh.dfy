/** A mesh: a list of vertices and the scale, rotation and translation applied to them. */
module Meshes {
  import opened Vectors
  import opened Matrices

  /** One vertex through `Vector4::from(p) * &scale * &rotation * &translation`, then back to
      three components. The chain associates to the left, so scale is applied first. */
  function TransformVertex(p: Vector3, scale: Mat4, rotation: Mat4, translation: Mat4): Vector3 {
    Demote(Apply(translation, Apply(rotation, Apply(scale, Promote(p)))))
  }

  /** Every vertex transformed, in order. */
  function TransformAll(ps: seq<Vector3>, scale: Mat4, rotation: Mat4, translation: Mat4): (r: seq<Vector3>)
    ensures |r| == |ps|
    ensures forall i :: 0 <= i < |ps| ==> r[i] == TransformVertex(ps[i], scale, rotation, translation)
  {
    if ps == [] then []
    else TransformAll(ps[..|ps| - 1], scale, rotation, translation) + [TransformVertex(ps[|ps| - 1], scale, rotation, translation)]
  }

  class Mesh {
    var verts: seq<Vector3>
    var translation: Mat4
    var scale: Mat4
    var rotation: Mat4

    /** `Mesh::new`: no vertices, every transform the identity. */
    constructor ()
      ensures verts == []
      ensures translation == Identity() && scale == Identity() && rotation == Identity()
    {
      verts := [];
      translation := Identity();
      scale := Identity();
      rotation := Identity();
    }

    method SetTranslationMatrix(m: Mat4)
      modifies this
      ensures translation == m
      ensures verts == old(verts) && scale == old(scale) && rotation == old(rotation)
    {
      translation := m;
    }

    method SetRotationMatrix(m: Mat4)
      modifies this
      ensures rotation == m
      ensures verts == old(verts) && scale == old(scale) && translation == old(translation)
    {
      rotation := m;
    }

    method SetScaleMatrix(m: Mat4)
      modifies this
      ensures scale == m
      ensures verts == old(verts) && rotation == old(rotation) && translation == old(translation)
    {
      scale := m;
    }

    method AddVertex(p: Vector3)
      modifies this
      ensures verts == old(verts) + [p]
      ensures scale == old(scale) && rotation == old(rotation) && translation == old(translation)
    {
      verts := verts + [p];
    }

    /** `get_transformed_verts`: a fresh list, one transformed vertex per vertex, same order. */
    method GetTransformedVerts() returns (v: seq<Vector3>)
      ensures v == TransformAll(verts, scale, rotation, translation)
    {
      v := [];
      for i := 0 to |verts|
        invariant v == TransformAll(verts[..i], scale, rotation, translation)
      {
        assert verts[..i + 1][..i] == verts[..i];
        v := v + [TransformVertex(verts[i], scale, rotation, translation)];
      }
      assert verts[..|verts|] == verts;
    }
  }

  /** With the transforms `Mesh::new` installs, the vertices come back unchanged. */
  lemma TransformIdentity(ps: seq<Vector3>)
    ensures TransformAll(ps, Identity(), Identity(), Identity()) == ps
  {
    forall i | 0 <= i < |ps|
      ensures TransformVertex(ps[i], Identity(), Identity(), Identity()) == ps[i]
    {
      ApplyIdentity(Promote(ps[i]));
      PromoteDemote(ps[i], Promote(ps[i]));
    }
  }

  /** Scale, no rotation, then translation: each vertex is scaled componentwise and then moved. */
  lemma TransformScaleThenTranslate(p: Vector3, s: Vector3, t: Vector3)
    ensures TransformVertex(p, Scale(s), Identity(), Translation(t)) == Add3(Hadamard3(p, s), t)
  {
    ApplyScale(s, p);
    ApplyIdentity(Promote(Hadamard3(p, s)));
    ApplyTranslation(t, Hadamard3(p, s));
    PromoteDemote(Add3(Hadamard3(p, s), t), Promote(Add3(Hadamard3(p, s), t)));
  }

  /** A translation-only mesh moves every vertex by t. */
  lemma TransformTranslationOnly(ps: seq<Vector3>, t: Vector3)
    ensures forall i :: 0 <= i < |ps| ==>
      TransformAll(ps, Identity(), Identity(), Translation(t))[i] == Add3(ps[i], t)
  {
    forall i | 0 <= i < |ps|
      ensures TransformVertex(ps[i], Identity(), Identity(), Translation(t)) == Add3(ps[i], t)
    {
      TransformScaleThenTranslate(ps[i], Vector3(1.0, 1.0, 1.0), t);
      Hadamard3Laws(ps[i], Vector3(1.0, 1.0, 1.0), 1.0);
      assert Scale(Vector3(1.0, 1.0, 1.0)) == Identity();
    }
  }
}
