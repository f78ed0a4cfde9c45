/**
 * The stacking lattice of a sphere bucket, as values: where the slots of each
 * layer lie, which slots the members' destinations occupy, which particles
 * support a point, and the two scan orders the bucket searches in. The bucket
 * class (module SphereBuckets) states its methods' results with these
 * functions, applied to its layout and to its members' destinations in order.
 *
 * All coordinates are exact reals. Distances are compared as squares, which
 * orders non-negative lengths the same way (Geometry.SquareMonotone).
 */
module SphereLattice {
  import opened Geometry
  import IntMath

  /** A lattice slot: its layer (0 at the bottom) and its place in the layer (0 at the left). */
  datatype SlotIndex = SlotIndex(layer: nat, index: nat)

  /** The scan order: lower layers first, then left to right within a layer. */
  predicate Before(a: SlotIndex, b: SlotIndex)
  {
    a.layer < b.layer || (a.layer == b.layer && a.index < b.index)
  }

  /** The slots listed strictly in scan order. */
  predicate InScanOrder(slots: seq<SlotIndex>)
  {
    forall j, k :: 0 <= j < k < |slots| ==> Before(slots[j], slots[k])
  }

  /** `Utils.roundSymmetric`: rounds to the nearest integer, halves away from zero. */
  function RoundSymmetric(x: real): (r: int)
    ensures x >= 0.0 ==> r as real <= x + 0.5 < r as real + 1.0
    ensures x < 0.0 ==> -r as real <= -x + 0.5 < -r as real + 1.0
  {
    if x >= 0.0 then (x + 0.5).Floor else -((-x + 0.5).Floor)
  }

  /**
   * The fixed geometry of a sphere bucket: the centre of its opening, its size,
   * the sphere radius, the proportion of the width usable for spheres, and the
   * vertical offset of the bottom layer from the opening.
   */
  datatype Layout = Layout(position: Vector2, size: Dimension2, sphereRadius: real,
                           usableWidthProportion: real, verticalParticleOffset: real)
  {
    /** The width left for sphere centres once a radius is kept clear at each side. */
    function UsableWidth(): real
    {
      size.width * usableWidthProportion - 2.0 * sphereRadius
    }

    /** The distance from the bucket's left edge to the centre of the bottom layer's first slot. */
    function FirstEdgeOffset(): real
    {
      (size.width - UsableWidth()) / 2.0 + sphereRadius
    }

    /** The number of slots in the bottom layer. */
    function FirstLayerCount(): int
      requires sphereRadius > 0.0
    {
      (UsableWidth() / (sphereRadius * 2.0)).Floor
    }

    /** A radius that is positive and a bottom layer with at least one slot. */
    predicate Valid()
    {
      sphereRadius > 0.0 && FirstLayerCount() >= 1
    }

    /** The y of the bottom layer. */
    function BottomY(): real
    {
      position.y + verticalParticleOffset
    }

    /** The vertical distance between two layers of touching spheres. */
    function LayerHeight(): real
    {
      sphereRadius * 2.0 * 0.866
    }

    /** `getYPositionForLayer`. */
    function YForLayer(layer: int): real
    {
      position.y + verticalParticleOffset + layer as real * sphereRadius * 2.0 * 0.866
    }

    /** `getLayerForYPosition`: the nearest layer to a height, by its distance from the bottom layer. */
    function LayerForY(y: real): nat
      requires sphereRadius > 0.0
    {
      IntMath.Abs(RoundSymmetric((y - (position.y + verticalParticleOffset)) / (sphereRadius * 2.0 * 0.866)))
    }

    /** The number of slots in a layer: one fewer than the layer below, and never fewer than one. */
    function SlotCount(layer: nat): (n: nat)
      requires Valid()
      ensures n >= 1
    {
      LayerSize(FirstLayerCount(), layer)
    }

    /**
     * The edge offset of a layer: one radius more than the layer below,
     * except above a layer of one slot, where it stays.
     */
    function EdgeOffset(layer: nat): real
      requires Valid()
      decreases layer
    {
      if layer == 0 then FirstEdgeOffset()
      else if SlotCount(layer - 1) == 1 then EdgeOffset(layer - 1)
      else EdgeOffset(layer - 1) + sphereRadius
    }

    predicate ValidSlot(s: SlotIndex)
      requires Valid()
    {
      s.index < SlotCount(s.layer)
    }

    /** The centre of a slot. */
    function SlotPosition(s: SlotIndex): (p: Vector2)
      requires Valid()
      ensures p.y == YForLayer(s.layer)
    {
      Vector2(position.x - size.width / 2.0 + EdgeOffset(s.layer) + s.index as real * 2.0 * sphereRadius,
              YForLayer(s.layer))
    }

    /** A destination at distance below 3r and strictly lower than the point supports it. */
    predicate Supports(d: Vector2, p: Vector2)
    {
      d.y < p.y && DistanceSquared(d, p) < (sphereRadius * 3.0) * (sphereRadius * 3.0)
    }

    /** A destination that is off the bottom row with fewer than two supporters. */
    predicate Dangling(dests: seq<Vector2>, d: Vector2)
    {
      d.y != BottomY() && SupportCount(this, dests, d) < 2
    }
  }

  /** The size of a layer above a bottom layer of n0 slots: one fewer per layer, and never fewer than one. */
  function LayerSize(n0: int, layer: nat): (n: nat)
    ensures n >= 1
    ensures n0 - layer >= 1 ==> n == n0 - layer
  {
    if n0 - layer >= 1 then n0 - layer else 1
  }

  /** The number of the destinations that support the point, counted in order. */
  function SupportCount(c: Layout, dests: seq<Vector2>, p: Vector2): (n: nat)
    ensures n <= |dests|
    decreases |dests|
  {
    if |dests| == 0 then
      0
    else
      SupportCount(c, dests[..|dests| - 1], p) + (if c.Supports(dests[|dests| - 1], p) then 1 else 0)
  }

  /** The count is zero exactly when nothing supports the point, and full exactly when everything does. */
  lemma {:induction false} SupportCountExtremes(c: Layout, dests: seq<Vector2>, p: Vector2)
    ensures SupportCount(c, dests, p) == 0 <==> forall k :: 0 <= k < |dests| ==> !c.Supports(dests[k], p)
    ensures SupportCount(c, dests, p) == |dests| <==> forall k :: 0 <= k < |dests| ==> c.Supports(dests[k], p)
    decreases |dests|
  {
    if |dests| > 0 {
      var init, last := dests[..|dests| - 1], dests[|dests| - 1];
      SupportCountExtremes(c, init, p);
      var supported := c.Supports(last, p);
      assert SupportCount(c, dests, p) == SupportCount(c, init, p) + (if supported then 1 else 0);
      assert forall k :: 0 <= k < |dests| ==> (k < |init| ==> dests[k] == init[k]) && (k == |init| ==> dests[k] == last);
    }
  }

  /** No destination dangles. */
  predicate NoneDangling(c: Layout, dests: seq<Vector2>)
  {
    forall k :: 0 <= k < |dests| ==> !c.Dangling(dests, dests[k])
  }

  /**
   * Index k holds a point nearest to p, and every point listed before it is
   * strictly farther: the first nearest point, which a scan that replaces
   * its choice only on a strictly smaller distance ends with.
   */
  predicate IsFirstNearest(points: seq<Vector2>, p: Vector2, k: nat)
  {
    k < |points| &&
    (forall j :: 0 <= j < |points| ==> DistanceSquared(points[k], p) <= DistanceSquared(points[j], p)) &&
    (forall j :: 0 <= j < k ==> DistanceSquared(points[j], p) > DistanceSquared(points[k], p))
  }

  /** The first nearest point is determined by the list and the target. */
  lemma FirstNearestUnique(points: seq<Vector2>, p: Vector2, k1: nat, k2: nat)
    requires IsFirstNearest(points, p, k1) && IsFirstNearest(points, p, k2)
    ensures k1 == k2
  {
    assert DistanceSquared(points[k1], p) <= DistanceSquared(points[k2], p);
    assert DistanceSquared(points[k2], p) <= DistanceSquared(points[k1], p);
  }

  // ---------------------------------------------------------------------------
  // Layers and heights
  // ---------------------------------------------------------------------------

  /** The height of a layer grows linearly with it. */
  lemma YForLayerLinear(c: Layout, layer: int)
    ensures c.YForLayer(layer) == c.BottomY() + layer as real * c.LayerHeight()
  {
    assert layer as real * c.sphereRadius * 2.0 * 0.866 == layer as real * (c.sphereRadius * 2.0 * 0.866);
  }

  /** The layer of a layer's own height is that layer. */
  lemma {:induction false} LayerOfLayerHeight(c: Layout, layer: nat)
    requires c.sphereRadius > 0.0
    ensures c.LayerForY(c.YForLayer(layer)) == layer
  {
    YForLayerLinear(c, layer);
    var h := c.LayerHeight();
    assert h > 0.0;
    assert c.YForLayer(layer) - c.BottomY() == layer as real * h;
    assert (layer as real * h) / h == layer as real;
    assert (c.YForLayer(layer) - (c.position.y + c.verticalParticleOffset)) / (c.sphereRadius * 2.0 * 0.866) == layer as real;
  }

  /** Higher layers lie higher. */
  lemma LayersRise(c: Layout, a: int, b: int)
    requires c.sphereRadius > 0.0 && a < b
    ensures c.YForLayer(a) < c.YForLayer(b)
  {
    YForLayerLinear(c, a);
    YForLayerLinear(c, b);
    MulLess(a as real, b as real, c.LayerHeight());
  }

  lemma LayersNotLower(c: Layout, a: int, b: int)
    requires c.sphereRadius > 0.0 && a <= b
    ensures c.YForLayer(a) <= c.YForLayer(b)
  {
    if a < b {
      LayersRise(c, a, b);
    }
  }

  lemma MulLess(x: real, y: real, h: real)
    requires x < y && h > 0.0
    ensures x * h < y * h
  {
    assert y * h - x * h == (y - x) * h;
    MulPositive(y - x, h);
  }

  /** A layer lying strictly above a height. */
  function LayerAbove(c: Layout, y: real): (layer: nat)
    requires c.sphereRadius > 0.0
    ensures y < c.YForLayer(layer)
  {
    if y < c.BottomY() then
      YForLayerLinear(c, 0);
      0
    else
      var t := (y - c.BottomY()) / c.LayerHeight();
      var layer := t.Floor + 1;
      YForLayerLinear(c, layer);
      MulLess(t, layer as real, c.LayerHeight());
      layer
  }

  /** A layer lying above every destination, so that none of its slots is occupied. */
  function FreeLayer(c: Layout, dests: seq<Vector2>): (layer: nat)
    requires c.sphereRadius > 0.0
    ensures forall k :: 0 <= k < |dests| ==> dests[k].y < c.YForLayer(layer)
    decreases |dests|
  {
    if |dests| == 0 then
      0
    else
      var init := dests[..|dests| - 1];
      var below := FreeLayer(c, init);
      var above := LayerAbove(c, dests[|dests| - 1].y);
      var layer := if below < above then above else below;
      LayersNotLower(c, below, layer);
      LayersNotLower(c, above, layer);
      assert forall k :: 0 <= k < |init| ==> init[k] == dests[k];
      layer
  }

  /** The searches start with the bottom layer's count and edge offset. */
  lemma LayerStart(c: Layout)
    requires c.Valid()
    ensures c.SlotCount(0) == (c.UsableWidth() / (c.sphereRadius * 2.0)).Floor
    ensures c.EdgeOffset(0) == (c.size.width - c.UsableWidth()) / 2.0 + c.sphereRadius
  {
  }

  /**
   * Moving to the next layer as the search loops do: one slot fewer and the
   * edge offset one radius further in, except that a count that reaches zero
   * is put back to one and the offset stepped back.
   */
  lemma LayerStep(c: Layout, layer: nat)
    requires c.Valid()
    ensures c.SlotCount(layer) - 1 == 0 ==>
              c.SlotCount(layer + 1) == 1 && c.EdgeOffset(layer + 1) == c.EdgeOffset(layer) + c.sphereRadius - c.sphereRadius
    ensures c.SlotCount(layer) - 1 != 0 ==>
              c.SlotCount(layer + 1) == c.SlotCount(layer) - 1 && c.EdgeOffset(layer + 1) == c.EdgeOffset(layer) + c.sphereRadius
  {
  }

  /**
   * The layers narrow symmetrically: a layer's edge offset is the bottom
   * layer's plus one radius per layer, up to the first layer of one slot.
   */
  lemma {:induction false} EdgeOffsetClosedForm(c: Layout, layer: nat)
    requires c.Valid()
    ensures c.EdgeOffset(layer) ==
              c.FirstEdgeOffset() + c.sphereRadius * (if layer < c.FirstLayerCount() - 1 then layer else c.FirstLayerCount() - 1) as real
    decreases layer
  {
    if layer > 0 {
      EdgeOffsetClosedForm(c, layer - 1);
      var n := c.FirstLayerCount();
      if layer - 1 < n - 1 {
        assert c.sphereRadius * layer as real == c.sphereRadius * (layer - 1) as real + c.sphereRadius;
      }
    }
  }

  /** Distinct slots of a layer, or slots of distinct layers, lie at distinct points. */
  lemma SlotsDistinct(c: Layout, a: SlotIndex, b: SlotIndex)
    requires c.Valid() && a != b
    ensures c.SlotPosition(a) != c.SlotPosition(b)
  {
    if a.layer < b.layer {
      LayersRise(c, a.layer, b.layer);
    } else if b.layer < a.layer {
      LayersRise(c, b.layer, a.layer);
    } else if a.index < b.index {
      MulLess(a.index as real * 2.0, b.index as real * 2.0, c.sphereRadius);
    } else {
      MulLess(b.index as real * 2.0, a.index as real * 2.0, c.sphereRadius);
    }
  }

  // ---------------------------------------------------------------------------
  // The first open slot
  // ---------------------------------------------------------------------------

  /** The slot is open and every valid slot before it in scan order is occupied. */
  ghost predicate IsFirstOpen(c: Layout, dests: seq<Vector2>, s: SlotIndex)
    requires c.Valid()
  {
    c.ValidSlot(s) && c.SlotPosition(s) !in dests &&
    forall t :: c.ValidSlot(t) && Before(t, s) ==> c.SlotPosition(t) in dests
  }

  /**
   * One failed probe of the first-open search: when the probed slot is
   * occupied as well as every slot before it, so is every slot before the
   * next one probed, the next place in the layer or the start of the layer above.
   */
  lemma ScanAdvance(c: Layout, dests: seq<Vector2>, s: SlotIndex, next: SlotIndex)
    requires c.Valid() && c.ValidSlot(s)
    requires forall t :: c.ValidSlot(t) && Before(t, s) ==> c.SlotPosition(t) in dests
    requires c.SlotPosition(s) in dests
    requires next == if s.index + 1 < c.SlotCount(s.layer) then SlotIndex(s.layer, s.index + 1) else SlotIndex(s.layer + 1, 0)
    ensures forall t :: c.ValidSlot(t) && Before(t, next) ==> c.SlotPosition(t) in dests
  {
    forall t | c.ValidSlot(t) && Before(t, next)
      ensures c.SlotPosition(t) in dests
    {
      if t != s {
        assert Before(t, s);
      }
    }
  }

  /** There is only one first open slot. */
  lemma FirstOpenUnique(c: Layout, dests: seq<Vector2>, s1: SlotIndex, s2: SlotIndex)
    requires c.Valid() && IsFirstOpen(c, dests, s1) && IsFirstOpen(c, dests, s2)
    ensures s1 == s2
  {
  }

  /** On an empty bucket the first open slot is the bottom layer's leftmost. */
  lemma FirstOpenOfEmpty(c: Layout)
    requires c.Valid()
    ensures IsFirstOpen(c, [], SlotIndex(0, 0))
  {
  }

  // ---------------------------------------------------------------------------
  // The candidates for the nearest open slot
  // ---------------------------------------------------------------------------

  /** An open slot that is on the bottom layer or has exactly two supporters. */
  predicate IsCandidate(c: Layout, dests: seq<Vector2>, s: SlotIndex)
    requires c.Valid()
  {
    c.ValidSlot(s) && c.SlotPosition(s) !in dests &&
    (s.layer == 0 || SupportCount(c, dests, c.SlotPosition(s)) == 2)
  }

  /** The candidate test, as one function value shared by every use. */
  function CandidateTest(c: Layout, dests: seq<Vector2>): SlotIndex -> bool
    requires c.Valid()
  {
    s => IsCandidate(c, dests, s)
  }

  /** Among the first `count` slots of a layer, those the test picks, left to right. */
  function LayerPicks(layer: nat, count: nat, pick: SlotIndex -> bool): seq<SlotIndex>
    decreases count
  {
    if count == 0 then
      []
    else
      var s := SlotIndex(layer, count - 1);
      LayerPicks(layer, count - 1, pick) + (if pick(s) then [s] else [])
  }

  /**
   * Among the slots of the layers below `layers`, with n0 slots at the
   * bottom, those the test picks, in scan order.
   */
  function PicksBelow(n0: int, layers: nat, pick: SlotIndex -> bool): seq<SlotIndex>
    decreases layers
  {
    if layers == 0 then
      []
    else
      PicksBelow(n0, layers - 1, pick) + LayerPicks(layers - 1, LayerSize(n0, layers - 1), pick)
  }

  /** The highest layer any destination is nearest to, or 0 (HighestLayerBounds). */
  function HighestLayer(c: Layout, dests: seq<Vector2>): nat
    requires c.sphereRadius > 0.0
    decreases |dests|
  {
    if |dests| == 0 then
      0
    else
      var below := HighestLayer(c, dests[..|dests| - 1]);
      var last := c.LayerForY(dests[|dests| - 1].y);
      if last > below then last else below
  }

  /** The highest layer bounds every destination's layer and is 0 or the layer of one of them. */
  lemma {:induction false} HighestLayerBounds(c: Layout, dests: seq<Vector2>)
    requires c.sphereRadius > 0.0
    ensures forall k :: 0 <= k < |dests| ==> c.LayerForY(dests[k].y) <= HighestLayer(c, dests)
    ensures HighestLayer(c, dests) == 0 || exists k :: 0 <= k < |dests| && c.LayerForY(dests[k].y) == HighestLayer(c, dests)
    decreases |dests|
  {
    if |dests| > 0 {
      var init := dests[..|dests| - 1];
      HighestLayerBounds(c, init);
      assert forall k :: 0 <= k < |init| ==> init[k] == dests[k];
    }
  }

  /** The candidate slots of the layers below `layers`, in scan order. */
  function CandidatesBelow(c: Layout, dests: seq<Vector2>, layers: nat): seq<SlotIndex>
    requires c.Valid()
  {
    PicksBelow(c.FirstLayerCount(), layers, CandidateTest(c, dests))
  }

  /** The slots searched by `getNearestOpenPosition`: the candidates on the occupied layers and the one above. */
  function NearestCandidates(c: Layout, dests: seq<Vector2>): seq<SlotIndex>
    requires c.Valid()
  {
    CandidatesBelow(c, dests, HighestLayer(c, dests) + 2)
  }

  /** The centres of the searched slots, in the order searched. */
  function NearestOpenPositions(c: Layout, dests: seq<Vector2>): seq<Vector2>
    requires c.Valid()
  {
    OpenPositionsBelow(c, dests, HighestLayer(c, dests) + 2)
  }

  /** The centres of the candidate slots of the layers below `layers`, in scan order. */
  function OpenPositionsBelow(c: Layout, dests: seq<Vector2>, layers: nat): seq<Vector2>
    requires c.Valid()
  {
    Positions(c, CandidatesBelow(c, dests, layers))
  }

  /** The centres of the slots, in the same order. */
  function Positions(c: Layout, slots: seq<SlotIndex>): (ps: seq<Vector2>)
    requires c.Valid()
    ensures |ps| == |slots|
    decreases |slots|
  {
    if |slots| == 0 then
      []
    else
      Positions(c, slots[..|slots| - 1]) + [c.SlotPosition(slots[|slots| - 1])]
  }

  /** Each listed centre is its slot's. */
  lemma {:induction false} PositionsAt(c: Layout, slots: seq<SlotIndex>)
    requires c.Valid()
    ensures forall k :: 0 <= k < |slots| ==> Positions(c, slots)[k] == c.SlotPosition(slots[k])
    decreases |slots|
  {
    if |slots| > 0 {
      var init := slots[..|slots| - 1];
      PositionsAt(c, init);
      assert forall k :: 0 <= k < |init| ==> init[k] == slots[k];
    }
  }

  /** The centres of two lists of slots one after the other. */
  lemma {:induction false} PositionsAppend(c: Layout, a: seq<SlotIndex>, b: seq<SlotIndex>)
    requires c.Valid()
    ensures Positions(c, a + b) == Positions(c, a) + Positions(c, b)
  {
    var l, r := Positions(c, a + b), Positions(c, a) + Positions(c, b);
    PositionsAt(c, a + b);
    PositionsAt(c, a);
    PositionsAt(c, b);
    assert |l| == |r|;
    forall k | 0 <= k < |l|
      ensures l[k] == r[k]
    {
      if k < |a| {
        assert (a + b)[k] == a[k];
      } else {
        assert (a + b)[k] == b[k - |a|];
      }
    }
  }

  /** A slot is listed for a layer exactly when it is of that layer, within the count, and picked. */
  lemma {:induction false} LayerPicksMembers(layer: nat, count: nat, pick: SlotIndex -> bool, s: SlotIndex)
    ensures s in LayerPicks(layer, count, pick) <==> s.layer == layer && s.index < count && pick(s)
    decreases count
  {
    if count > 0 {
      LayerPicksMembers(layer, count - 1, pick, s);
    }
  }

  /** A slot is listed below `layers` exactly when it is a valid slot of one of those layers and picked. */
  lemma {:induction false} PicksBelowMembers(n0: int, layers: nat, pick: SlotIndex -> bool, s: SlotIndex)
    ensures s in PicksBelow(n0, layers, pick) <==> s.layer < layers && s.index < LayerSize(n0, s.layer) && pick(s)
    decreases layers
  {
    if layers > 0 {
      var below, top := PicksBelow(n0, layers - 1, pick), LayerPicks(layers - 1, LayerSize(n0, layers - 1), pick);
      assert PicksBelow(n0, layers, pick) == below + top;
      PicksBelowMembers(n0, layers - 1, pick, s);
      LayerPicksMembers(layers - 1, LayerSize(n0, layers - 1), pick, s);
      assert s in below + top <==> s in below || s in top;
    }
  }

  /** A layer's picks are listed left to right. */
  lemma {:induction false} LayerPicksOrdered(layer: nat, count: nat, pick: SlotIndex -> bool)
    ensures InScanOrder(LayerPicks(layer, count, pick))
    ensures forall k :: 0 <= k < |LayerPicks(layer, count, pick)| ==>
              LayerPicks(layer, count, pick)[k].layer == layer && LayerPicks(layer, count, pick)[k].index < count
    decreases count
  {
    if count > 0 {
      LayerPicksOrdered(layer, count - 1, pick);
    }
  }

  /** The picks below `layers` are listed in scan order. */
  lemma {:induction false} PicksBelowOrdered(n0: int, layers: nat, pick: SlotIndex -> bool)
    ensures InScanOrder(PicksBelow(n0, layers, pick))
    ensures forall k :: 0 <= k < |PicksBelow(n0, layers, pick)| ==> PicksBelow(n0, layers, pick)[k].layer < layers
    decreases layers
  {
    if layers > 0 {
      var below, top := PicksBelow(n0, layers - 1, pick), LayerPicks(layers - 1, LayerSize(n0, layers - 1), pick);
      PicksBelowOrdered(n0, layers - 1, pick);
      LayerPicksOrdered(layers - 1, LayerSize(n0, layers - 1), pick);
      var all := below + top;
      assert PicksBelow(n0, layers, pick) == all;
      forall k | 0 <= k < |all|
        ensures all[k] == if k < |below| then below[k] else top[k - |below|]
      {
      }
      forall j, k | 0 <= j < k < |all|
        ensures Before(all[j], all[k])
      {
        if k < |below| {
          assert Before(below[j], below[k]);
        } else if j >= |below| {
          assert Before(top[j - |below|], top[k - |below|]);
        }
      }
    }
  }

  /** The k-th pick below `layers`: a picked slot of one of those layers, after every pick listed before it. */
  lemma PickedAt(n0: int, layers: nat, pick: SlotIndex -> bool, k: nat)
    requires k < |PicksBelow(n0, layers, pick)|
    ensures var s := PicksBelow(n0, layers, pick)[k];
            s.layer < layers && s.index < LayerSize(n0, s.layer) && pick(s) &&
            forall j :: 0 <= j < k ==> Before(PicksBelow(n0, layers, pick)[j], s)
  {
    var slots := PicksBelow(n0, layers, pick);
    PicksBelowMembers(n0, layers, pick, slots[k]);
    PicksBelowOrdered(n0, layers, pick);
  }

  /**
   * What the k-th searched slot is: an open candidate slot on a layer up to
   * one above the highest occupied one, after every slot listed before it.
   */
  lemma NearestCandidateMeaning(c: Layout, dests: seq<Vector2>, k: nat)
    requires c.Valid() && k < |NearestCandidates(c, dests)|
    ensures var s := NearestCandidates(c, dests)[k];
            c.ValidSlot(s) && c.SlotPosition(s) !in dests &&
            (s.layer == 0 || SupportCount(c, dests, c.SlotPosition(s)) == 2) &&
            s.layer <= HighestLayer(c, dests) + 1 &&
            forall j :: 0 <= j < k ==> Before(NearestCandidates(c, dests)[j], s)
  {
    var pick := CandidateTest(c, dests);
    PickedAt(c.FirstLayerCount(), HighestLayer(c, dests) + 2, pick, k);
    var s := NearestCandidates(c, dests)[k];
    assert pick(s) == IsCandidate(c, dests, s);
  }

  /** Every candidate slot on the searched layers is searched. */
  lemma NearestCandidatesComplete(c: Layout, dests: seq<Vector2>, s: SlotIndex)
    requires c.Valid() && s.layer <= HighestLayer(c, dests) + 1 && IsCandidate(c, dests, s)
    ensures s in NearestCandidates(c, dests)
  {
    var pick := CandidateTest(c, dests);
    assert pick(s) == IsCandidate(c, dests, s);
    PicksBelowMembers(c.FirstLayerCount(), HighestLayer(c, dests) + 2, pick, s);
  }

  /** In an empty bucket the first searched slot is the bottom layer's leftmost. */
  lemma EmptyBucketCandidates(c: Layout)
    requires c.Valid()
    ensures |NearestCandidates(c, [])| > 0 && NearestCandidates(c, [])[0] == SlotIndex(0, 0)
  {
    var s := SlotIndex(0, 0);
    NearestCandidatesComplete(c, [], s);
    var slots := NearestCandidates(c, []);
    var k :| 0 <= k < |slots| && slots[k] == s;
    NearestCandidateMeaning(c, [], k);
    assert !Before(slots[0], s);
  }
}
