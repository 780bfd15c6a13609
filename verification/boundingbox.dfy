/** The running axis-aligned bounding box of the encoder (an Imath Box3d
    extended point by point), modelled as min/max over reals. An Imath box
    starts empty; `Empty` stands for that state. */
module BoundingBox {
  import opened Vectors

  datatype Box3 = Box3(min: Vec3, max: Vec3)

  datatype Bounds = Empty | Bounded(box: Box3)

  function Min(a: real, b: real): real { if a <= b then a else b }

  function Max(a: real, b: real): real { if a <= b then b else a }

  predicate Contains(b: Box3, p: Vec3) {
    && b.min.x <= p.x <= b.max.x
    && b.min.y <= p.y <= b.max.y
    && b.min.z <= p.z <= b.max.z
  }

  /** Every point inside `inner` is inside `outer`. */
  predicate Covers(outer: Bounds, inner: Bounds) {
    match inner
    case Empty => true
    case Bounded(i) =>
      && outer.Bounded?
      && outer.box.min.x <= i.min.x && i.max.x <= outer.box.max.x
      && outer.box.min.y <= i.min.y && i.max.y <= outer.box.max.y
      && outer.box.min.z <= i.min.z && i.max.z <= outer.box.max.z
  }

  /** Box3d::extendBy: the smallest box holding b and p. */
  function ExtendBy(b: Bounds, p: Vec3): (r: Bounds)
    ensures r.Bounded? && Contains(r.box, p)
    ensures Covers(r, b)
    ensures forall c: Box3 :: Contains(c, p) && Covers(Bounded(c), b) ==> Covers(Bounded(c), r)
  {
    match b
    case Empty => Bounded(Box3(p, p))
    case Bounded(bx) =>
      Bounded(Box3(Vec3(Min(bx.min.x, p.x), Min(bx.min.y, p.y), Min(bx.min.z, p.z)),
                   Vec3(Max(bx.max.x, p.x), Max(bx.max.y, p.y), Max(bx.max.z, p.z))))
  }

  /** The smallest box holding both a and b. */
  function Union(a: Bounds, b: Bounds): (r: Bounds)
    ensures Covers(r, a) && Covers(r, b)
    ensures r.Empty? <==> a.Empty? && b.Empty?
  {
    match (a, b)
    case (Empty, _) => b
    case (_, Empty) => a
    case (Bounded(p), Bounded(q)) =>
      Bounded(Box3(Vec3(Min(p.min.x, q.min.x), Min(p.min.y, q.min.y), Min(p.min.z, q.min.z)),
                   Vec3(Max(p.max.x, q.max.x), Max(p.max.y, q.max.y), Max(p.max.z, q.max.z))))
  }

  /** The box reached by extending an empty box by each point in order. */
  function BoundsOf(ps: seq<Vec3>): (r: Bounds)
    ensures r.Empty? <==> ps == []
    ensures forall i :: 0 <= i < |ps| ==> Contains(r.box, ps[i])
  {
    if ps == [] then Empty else ExtendBy(BoundsOf(ps[..|ps| - 1]), ps[|ps| - 1])
  }

  /** No box holding every point is smaller than BoundsOf: it is the least one. */
  lemma {:induction false} BoundsOfIsLeast(ps: seq<Vec3>, c: Box3)
    requires forall i :: 0 <= i < |ps| ==> Contains(c, ps[i])
    ensures Covers(Bounded(c), BoundsOf(ps))
  {
    if ps != [] {
      var init := ps[..|ps| - 1];
      assert forall i :: 0 <= i < |init| ==> init[i] == ps[i];
      BoundsOfIsLeast(init, c);
    }
  }

  lemma ExtendUnion(a: Bounds, b: Bounds, p: Vec3)
    ensures ExtendBy(Union(a, b), p) == Union(a, ExtendBy(b, p))
  {
  }

  /** Extending over a concatenation is the union of the two partial boxes. */
  lemma {:induction false} BoundsOfAppend(s: seq<Vec3>, t: seq<Vec3>)
    ensures BoundsOf(s + t) == Union(BoundsOf(s), BoundsOf(t))
  {
    if t == [] {
      assert s + t == s;
    } else {
      var t' := t[..|t| - 1];
      assert (s + t)[..|s + t| - 1] == s + t';
      BoundsOfAppend(s, t');
      ExtendUnion(BoundsOf(s), BoundsOf(t'), t[|t| - 1]);
    }
  }

  /** The box does not depend on the order in which two runs of points are fed. */
  lemma BoundsOfOrderIndependent(s: seq<Vec3>, t: seq<Vec3>)
    ensures BoundsOf(s + t) == BoundsOf(t + s)
  {
    BoundsOfAppend(s, t);
    BoundsOfAppend(t, s);
  }

  /** Feeding the same points in any order gives the same box. */
  lemma BoundsOfPermutation(s: seq<Vec3>, t: seq<Vec3>)
    requires multiset(s) == multiset(t)
    ensures BoundsOf(s) == BoundsOf(t)
  {
    assert |s| == |multiset(s)| == |t|;
    if s != [] {
      var bs, bt := BoundsOf(s).box, BoundsOf(t).box;
      forall i | 0 <= i < |t|
        ensures Contains(bs, t[i])
      {
        assert t[i] in multiset(s);
      }
      forall i | 0 <= i < |s|
        ensures Contains(bt, s[i])
      {
        assert s[i] in multiset(t);
      }
      BoundsOfIsLeast(t, bs);
      BoundsOfIsLeast(s, bt);
      assert bs.min == bt.min && bs.max == bt.max;
    }
  }

  /** Extending never shrinks the box. */
  lemma {:induction false} BoundsOfMonotone(s: seq<Vec3>, t: seq<Vec3>)
    ensures Covers(BoundsOf(s + t), BoundsOf(s))
  {
    BoundsOfAppend(s, t);
  }
}
