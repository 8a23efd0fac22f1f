/**
 * The layout bounding box both viewers accumulate while cells are placed.
 * Each axis starts at min = +Infinity, max = -Infinity and widens to take in
 * every cell coordinate.  pixplot/web/assets/js/tsne.js updates both ends
 * with Math.max / Math.min; assets/js/tsne.js updates the minimum only in an
 * else-branch of the maximum test.
 */
module Bounds {

  /** A JavaScript number restricted to the values the box can hold. */
  datatype Ext = NegInf | Fin(r: real) | PosInf

  predicate Le(a: Ext, b: Ext)
  {
    match (a, b)
    case (NegInf, _) => true
    case (_, PosInf) => true
    case (Fin(x), Fin(y)) => x <= y
    case _ => false
  }

  /** JavaScript's `<` on these values. */
  predicate Lt(a: Ext, b: Ext) { Le(a, b) && a != b }

  function Max(a: Ext, b: Ext): Ext { if Le(a, b) then b else a }
  function Min(a: Ext, b: Ext): Ext { if Le(a, b) then a else b }

  datatype Axis = Axis(min: Ext, max: Ext)

  const Empty := Axis(PosInf, NegInf)

  /** One axis of updateParentBoundingBox in pixplot/web/assets/js/tsne.js. */
  function Include(a: Axis, v: real): (r: Axis)
    ensures Le(r.min, Fin(v)) && Le(Fin(v), r.max)
    ensures Le(r.min, a.min) && Le(a.max, r.max)
    ensures r.min == a.min || r.min == Fin(v)
    ensures r.max == a.max || r.max == Fin(v)
  {
    Axis(Min(a.min, Fin(v)), Max(a.max, Fin(v)))
  }

  /** The box after taking in every value of vs, in order. */
  function IncludeAll(a: Axis, vs: seq<real>): Axis
  {
    if |vs| == 0 then a else Include(IncludeAll(a, vs[..|vs| - 1]), vs[|vs| - 1])
  }

  lemma LeTrans(a: Ext, b: Ext, c: Ext)
    requires Le(a, b) && Le(b, c)
    ensures Le(a, c)
  {
  }

  /**
   * Starting from the empty box, the accumulated box bounds every value seen
   * and both ends are values that were seen.
   */
  lemma {:induction false} IncludeAllTight(vs: seq<real>)
    requires |vs| >= 1
    ensures var b := IncludeAll(Empty, vs);
            (forall i :: 0 <= i < |vs| ==> Le(b.min, Fin(vs[i])) && Le(Fin(vs[i]), b.max)) &&
            (exists i :: 0 <= i < |vs| && b.min == Fin(vs[i])) &&
            (exists i :: 0 <= i < |vs| && b.max == Fin(vs[i]))
  {
    var b := IncludeAll(Empty, vs);
    var last := |vs| - 1;
    if |vs| == 1 {
      assert IncludeAll(Empty, vs[..0]) == Empty;
      assert b.min == Fin(vs[0]) && b.max == Fin(vs[0]);
    } else {
      var init := vs[..last];
      IncludeAllTight(init);
      var a := IncludeAll(Empty, init);
      forall i | 0 <= i < |vs|
        ensures Le(b.min, Fin(vs[i])) && Le(Fin(vs[i]), b.max)
      {
        if i < last {
          assert init[i] == vs[i];
          LeTrans(b.min, a.min, Fin(vs[i]));
          LeTrans(Fin(vs[i]), a.max, b.max);
        }
      }
      if b.min == a.min {
        var i :| 0 <= i < |init| && a.min == Fin(init[i]);
        assert b.min == Fin(vs[i]);
      } else {
        assert b.min == Fin(vs[last]);
      }
      if b.max == a.max {
        var i :| 0 <= i < |init| && a.max == Fin(init[i]);
        assert b.max == Fin(vs[i]);
      } else {
        assert b.max == Fin(vs[last]);
      }
    }
  }

  /** One axis of updateParentBoundingBox in assets/js/tsne.js, as written. */
  function IncludeElseIf(a: Axis, v: real): (r: Axis)
    ensures Le(Fin(v), r.max)
    ensures r.max == a.max || r.min == a.min
  {
    if Lt(a.max, Fin(v)) then Axis(a.min, Fin(v))
    else if Lt(Fin(v), a.min) then Axis(Fin(v), a.max)
    else a
  }

  function IncludeAllElseIf(a: Axis, vs: seq<real>): Axis
  {
    if |vs| == 0 then a else IncludeElseIf(IncludeAllElseIf(a, vs[..|vs| - 1]), vs[|vs| - 1])
  }

  /**
   * With the else-branch, a coordinate that raises the maximum never lowers
   * the minimum: after 1 then 2 the minimum is still +Infinity, above both.
   */
  lemma ElseIfLeavesMinUnset()
    ensures var b := IncludeAllElseIf(Empty, [1.0, 2.0]);
            b.min == PosInf && !Le(b.min, Fin(1.0))
  {
    assert [1.0, 2.0][..1] == [1.0];
    assert [1.0][..0] == [];
  }

  /** The box a viewer keeps for the x and y axes of the current layout. */
  class BoundingBox {
    var x: Axis
    var y: Axis
    /** Every cell position taken in so far. */
    ghost var seen: seq<(real, real)>

    ghost predicate Valid()
      reads this
    {
      forall i :: 0 <= i < |seen| ==>
        Le(x.min, Fin(seen[i].0)) && Le(Fin(seen[i].0), x.max) &&
        Le(y.min, Fin(seen[i].1)) && Le(Fin(seen[i].1), y.max)
    }

    constructor ()
      ensures Valid() && x == Empty && y == Empty && seen == []
    {
      x, y := Empty, Empty;
      seen := [];
    }

    /** updateParentBoundingBox (Math.max / Math.min on both axes). */
    method UpdateParent(px: real, py: real)
      requires Valid()
      modifies this
      ensures Valid()
      ensures x == Include(old(x), px) && y == Include(old(y), py)
      ensures seen == old(seen) + [(px, py)]
    {
      x := Include(x, px);
      y := Include(y, py);
      seen := seen + [(px, py)];
      forall i | 0 <= i < |seen| - 1
        ensures Le(x.min, Fin(seen[i].0)) && Le(Fin(seen[i].0), x.max) &&
                Le(y.min, Fin(seen[i].1)) && Le(Fin(seen[i].1), y.max)
      {
        LeTrans(x.min, old(x).min, Fin(seen[i].0));
        LeTrans(Fin(seen[i].0), old(x).max, x.max);
        LeTrans(y.min, old(y).min, Fin(seen[i].1));
        LeTrans(Fin(seen[i].1), old(y).max, y.max);
      }
    }

    /**
     * updateParentBoundingBox of assets/js/tsne.js as written: the minimum
     * is only compared when the maximum did not move.
     */
    method UpdateParentElseIf(px: real, py: real)
      modifies this
      ensures x == IncludeElseIf(old(x), px) && y == IncludeElseIf(old(y), py)
      ensures seen == old(seen) + [(px, py)]
    {
      if Lt(x.max, Fin(px)) {
        x := x.(max := Fin(px));
      } else if Lt(Fin(px), x.min) {
        x := x.(min := Fin(px));
      }
      if Lt(y.max, Fin(py)) {
        y := y.(max := Fin(py));
      } else if Lt(Fin(py), y.min) {
        y := y.(min := Fin(py));
      }
      seen := seen + [(px, py)];
    }
  }
}
