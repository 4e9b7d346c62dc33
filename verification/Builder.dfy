/** `PhysMemBuilder::mapDevice` and the ordered map it fills (src/memory/phys-mem.cpp,
    include/besm-666/util/range.hpp): when the ranges it accepts are really disjoint. */
module Builder {
  import opened FlatMemory
  import opened PhysMem

  datatype Mapping = Intersection | Accepted(ranges: seq<Range>)

  /** `Range::contains(Range)`: strict on the right. */
  predicate Encloses(r: Range, s: Range) {
    r.left <= s.left && s.right < r.right
  }

  predicate Taken(ds: seq<Range>, left: nat) {
    exists i :: 0 <= i < |ds| && ds[i].left == left
  }

  /** Where the map, ordered by left border, puts a new key. */
  function Place(ds: seq<Range>, left: nat): (p: nat)
    ensures p <= |ds|
  {
    if ds == [] || left <= ds[0].left then 0 else 1 + Place(ds[1..], left)
  }

  /** A key already present is not inserted again. */
  function Insert(ds: seq<Range>, r: Range): seq<Range> {
    var p := Place(ds, r.left);
    if Taken(ds, r.left) then ds else ds[..p] + [r] + ds[p..]
  }

  function MapDevice(ds: seq<Range>, r: Range): Mapping {
    if exists i :: 0 <= i < |ds| && Encloses(r, ds[i]) then Intersection else Accepted(Insert(ds, r))
  }

  ghost predicate PairwiseApart(ds: seq<Range>) {
    forall i, j :: 0 <= i < j < |ds| ==> Apart(ds[i], ds[j])
  }

  /** An accepted device leaves the ranges disjoint exactly when it was dropped for its left
      border or overlaps none of them. */
  lemma MapDeviceDisjointIff(ds: seq<Range>, r: Range)
    requires PairwiseApart(ds) && MapDevice(ds, r).Accepted?
    ensures PairwiseApart(MapDevice(ds, r).ranges) <==>
            Taken(ds, r.left) || forall i :: 0 <= i < |ds| ==> Apart(ds[i], r)
  {
    if !Taken(ds, r.left) {
      var p, out := Place(ds, r.left), Insert(ds, r);
      assert out[p] == r;
      assert forall i :: 0 <= i < p ==> out[i] == ds[i];
      assert forall i :: p <= i < |ds| ==> out[i + 1] == ds[i];
      if PairwiseApart(out) {
        forall i | 0 <= i < |ds|
          ensures Apart(ds[i], r)
        {
          assert if i < p then Apart(out[i], out[p]) else Apart(out[p], out[i + 1]);
        }
      }
    }
  }

  /** The check lets overlaps through: every range that starts inside a device, for one. */
  lemma OverlapAccepted(d: Range, r: Range)
    requires d.left < r.left < d.right && r.left < r.right
    ensures MapDevice([d], r).Accepted? && !PairwiseApart(MapDevice([d], r).ranges)
  {
    MapDeviceDisjointIff([d], r);
    assert !Apart([d][0], r);
  }

  /** Over a lone device, what breaks disjointness is exactly a range that overlaps it, starts elsewhere,
      and does not reach past it on both sides. */
  lemma LoneDeviceIff(d: Range, r: Range)
    requires d.left < d.right && r.left < r.right
    ensures MapDevice([d], r).Accepted? && !PairwiseApart(MapDevice([d], r).ranges) <==>
            && r.left < d.right && d.left < r.right && r.left != d.left
            && (d.left < r.left || r.right <= d.right)
  {
    assert PairwiseApart([d]);
    assert [d][0] == d;
    if MapDevice([d], r).Accepted? {
      MapDeviceDisjointIff([d], r);
    }
  }

  /** In order of left borders, none twice. */
  predicate Ascending(ds: seq<Range>) {
    forall i, j :: 0 <= i < j < |ds| ==> ds[i].left < ds[j].left
  }

  lemma PlaceSplits(ds: seq<Range>, left: nat)
    requires Ascending(ds)
    ensures forall i :: 0 <= i < |ds| ==> (ds[i].left < left <==> i < Place(ds, left))
  {
    if ds != [] && left > ds[0].left {
      PlaceSplits(ds[1..], left);
      assert forall i :: 0 < i < |ds| ==> ds[i] == ds[1..][i - 1];
    }
  }

  /** Inserting keeps the order, in which devices are then scanned, and loses no device. */
  lemma InsertAscends(ds: seq<Range>, r: Range)
    requires Ascending(ds)
    ensures Ascending(Insert(ds, r))
    ensures forall d :: d in Insert(ds, r) <==> d in ds || (d == r && !Taken(ds, r.left))
  {
    PlaceSplits(ds, r.left);
    if !Taken(ds, r.left) {
      var p, out := Place(ds, r.left), Insert(ds, r);
      assert out[p] == r;
      assert forall i :: 0 <= i < p ==> out[i] == ds[i];
      assert forall i :: p <= i < |ds| ==> out[i + 1] == ds[i];
    }
  }
}
