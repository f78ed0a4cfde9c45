/**
 * `SphereBucket`: a bucket that stacks same-radius spheres ("particles") in a
 * narrowing triangular lattice. It keeps its members in order, places a new
 * member at the first open slot or at the nearest supported open slot, lets a
 * member go when the user grabs it, and after a removal lets the members left
 * dangling fall until none is.
 *
 * Particles are the simulation's objects; the bucket reads and writes their
 * position, destination and user-controlled flag, and attaches a listener to
 * the flag. The model keeps those per particle in a map from a particle
 * identity to its state; the map also holds particles that have left.
 */
module SphereBuckets {
  import opened Geometry
  import opened Wrappers
  import opened SphereLattice

  /** The identity of a particle object. */
  type ParticleId = nat

  /**
   * The state of a particle the bucket sees: where it is, where it is
   * heading, whether the user holds it, and whether this bucket's removal
   * listener (`bucketRemovalListener`) is linked to its user-controlled flag.
   */
  datatype Particle = Particle(position: Vector2, destination: Vector2, userControlled: bool, hasRemovalListener: bool)

  /** The construction options that the model uses; `None` is an option not given. */
  datatype SphereBucketOptions = SphereBucketOptions(
    position: Option<Vector2>,
    size: Option<Dimension2>,
    sphereRadius: Option<real>,
    usableWidthProportion: Option<real>,
    verticalParticleOffset: Option<real>)

  /**
   * The layout the options give: a bucket at the origin, 200 by 50, spheres
   * of radius 10, the whole width usable, and a vertical offset that falls
   * back to -0.4 radius when the option is absent or zero.
   */
  function LayoutOf(options: SphereBucketOptions): Layout
  {
    var r := if options.sphereRadius.Some? then options.sphereRadius.value else 10.0;
    Layout(
      if options.position.Some? then options.position.value else ZERO,
      if options.size.Some? then options.size.value else Dimension2(200.0, 50.0),
      r,
      if options.usableWidthProportion.Some? then options.usableWidthProportion.value else 1.0,
      if options.verticalParticleOffset.Some? && options.verticalParticleOffset.value != 0.0
      then options.verticalParticleOffset.value
      else -r * 0.4)
  }

  /** The default bucket holds nine spheres in its bottom layer, the lowest four radii below the opening. */
  lemma DefaultLayout()
    ensures var c := LayoutOf(SphereBucketOptions(None, None, None, None, None));
            c.Valid() && c.FirstLayerCount() == 9 && c.BottomY() == -4.0
  {
    var c := LayoutOf(SphereBucketOptions(None, None, None, None, None));
    assert c.UsableWidth() / (c.sphereRadius * 2.0) == 9.0;
  }

  /** A zero vertical offset counts as not given. */
  lemma ZeroOffsetFallsBack(options: SphereBucketOptions)
    requires options.verticalParticleOffset == Some(0.0)
    ensures LayoutOf(options).verticalParticleOffset == -LayoutOf(options).sphereRadius * 0.4
  {
  }

  predicate Distinct(ids: seq<ParticleId>)
  {
    forall j, k :: 0 <= j < k < |ids| ==> ids[j] != ids[k]
  }

  /** Every listed particle has a state. */
  predicate Tracked(ids: seq<ParticleId>, states: map<ParticleId, Particle>)
  {
    forall id :: id in ids ==> id in states
  }

  /** The listed particles' destinations, in order. */
  function DestinationsOf(ids: seq<ParticleId>, states: map<ParticleId, Particle>): (ds: seq<Vector2>)
    requires Tracked(ids, states)
    ensures |ds| == |ids|
  {
    seq(|ids|, k requires 0 <= k < |ids| => states[ids[k]].destination)
  }

  /** The listed particles' positions, in order. */
  function PositionsOf(ids: seq<ParticleId>, states: map<ParticleId, Particle>): (ps: seq<Vector2>)
    requires Tracked(ids, states)
    ensures |ps| == |ids|
  {
    seq(|ids|, k requires 0 <= k < |ids| => states[ids[k]].position)
  }

  /** Two states of one particle that differ at most in the destination. */
  predicate SameButDestination(a: Particle, b: Particle)
  {
    a.position == b.position && a.userControlled == b.userControlled && a.hasRemovalListener == b.hasRemovalListener
  }

  /** `_.without`: the list with every occurrence of the particle dropped. */
  function Without(ids: seq<ParticleId>, id: ParticleId): (r: seq<ParticleId>)
    ensures forall x :: x in r <==> x in ids && x != id
    decreases |ids|
  {
    if |ids| == 0 then
      []
    else
      (if ids[0] == id then [] else [ids[0]]) + Without(ids[1..], id)
  }

  /** Dropping a particle from a list without repeats removes its one entry and keeps the others in order. */
  lemma {:induction false} WithoutRemovesOne(ids: seq<ParticleId>, k: nat)
    requires Distinct(ids) && k < |ids|
    ensures Without(ids, ids[k]) == ids[..k] + ids[k + 1..]
    decreases |ids|
  {
    if k == 0 {
      WithoutAbsent(ids[1..], ids[0]);
    } else {
      WithoutRemovesOne(ids[1..], k - 1);
      assert ids[1..][..k - 1] == ids[1..k];
      assert ids[1..][k..] == ids[k + 1..];
      assert ids[..k] == [ids[0]] + ids[1..k];
    }
  }

  /** Dropping a particle that is not listed changes nothing. */
  lemma {:induction false} WithoutAbsent(ids: seq<ParticleId>, id: ParticleId)
    requires id !in ids
    ensures Without(ids, id) == ids
    decreases |ids|
  {
    if |ids| > 0 {
      WithoutAbsent(ids[1..], id);
      assert ids == [ids[0]] + ids[1..];
    }
  }

  /** Appending a particle and dropping it again gives back the list. */
  lemma AppendThenWithout(ids: seq<ParticleId>, id: ParticleId)
    requires Distinct(ids) && id !in ids
    ensures Without(ids + [id], id) == ids
  {
    var l := ids + [id];
    assert Distinct(l);
    WithoutRemovesOne(l, |ids|);
    assert l[..|ids|] == ids;
  }

  lemma WithoutKeepsDistinct(ids: seq<ParticleId>, id: ParticleId)
    requires Distinct(ids) && id in ids
    ensures Distinct(Without(ids, id))
  {
    var k :| 0 <= k < |ids| && ids[k] == id;
    WithoutRemovesOne(ids, k);
    var r := ids[..k] + ids[k + 1..];
    forall i, j | 0 <= i < j < |r|
      ensures r[i] != r[j]
    {
      var i' := if i < k then i else i + 1;
      var j' := if j < k then j else j + 1;
      assert r[i] == ids[i'] && r[j] == ids[j'];
    }
  }

  /** The bound on the passes of the settling loop (see RelayoutBucketParticles). */
  const RELAYOUT_PASS_LIMIT: nat := 10000

  class SphereBucket {
    const position: Vector2
    const size: Dimension2
    const sphereRadius: real
    const usableWidthProportion: real
    const verticalParticleOffset: real

    /** The members, in the order they came in. */
    var particles: seq<ParticleId>
    /** The particles this bucket has seen and their states. */
    var particleStates: map<ParticleId, Particle>

    function Lattice(): Layout
    {
      Layout(position, size, sphereRadius, usableWidthProportion, verticalParticleOffset)
    }

    /**
     * A usable layout, members without repeats that all have a state, and
     * the removal listener linked on exactly the members.
     */
    ghost predicate Valid()
      reads this
    {
      Lattice().Valid() && Distinct(particles) && Tracked(particles, particleStates) &&
      forall id :: id in particleStates ==> (particleStates[id].hasRemovalListener <==> id in particles)
    }

    /** The members' destinations, in member order. */
    function Destinations(): seq<Vector2>
      reads this
      requires Tracked(particles, particleStates)
    {
      DestinationsOf(particles, particleStates)
    }

    /** The members' current positions, in member order. */
    function CurrentPositions(): seq<Vector2>
      reads this
      requires Tracked(particles, particleStates)
    {
      PositionsOf(particles, particleStates)
    }

    /** An empty bucket with the layout the options give. */
    constructor (options: SphereBucketOptions)
      requires LayoutOf(options).Valid()
      ensures Lattice() == LayoutOf(options)
      ensures particles == [] && particleStates == map[]
      ensures Valid()
    {
      var c := LayoutOf(options);
      position := c.position;
      size := c.size;
      sphereRadius := c.sphereRadius;
      usableWidthProportion := c.usableWidthProportion;
      verticalParticleOffset := c.verticalParticleOffset;
      particles := [];
      particleStates := map[];
    }

    /** `containsParticle`. */
    function ContainsParticle(id: ParticleId): (r: bool)
      reads this
      ensures r <==> exists k :: 0 <= k < |particles| && particles[k] == id
    {
      id in particles
    }

    /** `getParticleList`: the members in order. */
    function ParticleList(): (r: seq<ParticleId>)
      reads this
      ensures |r| == |particles| && forall k :: 0 <= k < |r| ==> r[k] == particles[k]
    {
      particles
    }

    /** `isPositionOpen`: no member is heading for the point. */
    method IsPositionOpen(p: Vector2) returns (positionOpen: bool)
      requires Valid()
      ensures positionOpen <==> p !in Destinations()
    {
      ghost var dests := Destinations();
      positionOpen := true;
      var i := 0;
      while i < |particles|
        invariant 0 <= i <= |particles|
        invariant positionOpen
        invariant forall j :: 0 <= j < i ==> dests[j] != p
      {
        if particleStates[particles[i]].destination == p {
          assert dests[i] == p;
          positionOpen := false;
          break;
        }
        i := i + 1;
      }
    }

    /**
     * `getFirstOpenPosition`: the first slot in scan order that no member is
     * heading for. The search ends because the layers above every
     * destination are wholly open.
     */
    method GetFirstOpenPosition() returns (openPosition: Vector2, ghost slot: SlotIndex)
      requires Valid()
      ensures IsFirstOpen(Lattice(), Destinations(), slot)
      ensures openPosition == Lattice().SlotPosition(slot)
    {
      ghost var c := Lattice();
      ghost var dests := Destinations();
      ghost var top := FreeLayer(c, dests);
      openPosition := ZERO;
      slot := SlotIndex(0, 0);
      var usableWidth := size.width * usableWidthProportion - 2.0 * sphereRadius;
      var offsetFromBucketEdge := (size.width - usableWidth) / 2.0 + sphereRadius;
      var numParticlesInLayer := (usableWidth / (sphereRadius * 2.0)).Floor;
      var row := 0;
      var positionInLayer := 0;
      var found := false;
      assert usableWidth == c.UsableWidth();
      LayerStart(c);
      while !found
        invariant 0 <= row <= top
        invariant 0 <= positionInLayer < numParticlesInLayer
        invariant numParticlesInLayer == c.SlotCount(row) && offsetFromBucketEdge == c.EdgeOffset(row)
        invariant !found ==>
                    forall t :: c.ValidSlot(t) && Before(t, SlotIndex(row, positionInLayer)) ==> c.SlotPosition(t) in dests
        invariant found ==> IsFirstOpen(c, dests, slot) && openPosition == c.SlotPosition(slot)
        decreases !found, top - row, numParticlesInLayer - positionInLayer
      {
        var testPosition := Vector2(
          position.x - size.width / 2.0 + offsetFromBucketEdge + positionInLayer as real * 2.0 * sphereRadius,
          Lattice().YForLayer(row));
        ghost var s := SlotIndex(row, positionInLayer);
        assert testPosition == c.SlotPosition(s);
        var isOpen := IsPositionOpen(testPosition);
        if isOpen {
          openPosition := testPosition;
          slot := s;
          found := true;
        } else {
          assert row < top by {
            var k :| 0 <= k < |dests| && dests[k] == testPosition;
            assert c.YForLayer(row) < c.YForLayer(top);
          }
          ghost var next := if positionInLayer + 1 < numParticlesInLayer then SlotIndex(row, positionInLayer + 1)
                            else SlotIndex(row + 1, 0);
          ScanAdvance(c, dests, s, next);
          positionInLayer := positionInLayer + 1;
          if positionInLayer >= numParticlesInLayer {
            LayerStep(c, row);
            row := row + 1;
            positionInLayer := 0;
            numParticlesInLayer := numParticlesInLayer - 1;
            offsetFromBucketEdge := offsetFromBucketEdge + sphereRadius;
            if numParticlesInLayer == 0 {
              numParticlesInLayer := 1;
              offsetFromBucketEdge := offsetFromBucketEdge - sphereRadius;
            }
          }
        }
      }
    }

    /** `countSupportingParticles`: the members heading for a point lower than p and nearer than 3r. */
    method CountSupportingParticles(p: Vector2) returns (count: nat)
      requires Valid()
      ensures count == SupportCount(Lattice(), Destinations(), p)
    {
      ghost var dests := Destinations();
      count := 0;
      var i := 0;
      while i < |particles|
        invariant 0 <= i <= |particles|
        invariant count == SupportCount(Lattice(), dests[..i], p)
      {
        var d := particleStates[particles[i]].destination;
        assert dests[..i + 1][..i] == dests[..i];
        if d.y < p.y && DistanceSquared(d, p) < (sphereRadius * 3.0) * (sphereRadius * 3.0) {
          count := count + 1;
        }
        i := i + 1;
      }
      assert dests[..i] == dests;
    }

    /** `isDangling`: the particle's destination is off the bottom row with fewer than two supporters. */
    method IsDangling(id: ParticleId) returns (dangling: bool)
      requires Valid() && id in particleStates
      ensures dangling == Lattice().Dangling(Destinations(), particleStates[id].destination)
    {
      var d := particleStates[id].destination;
      var onBottomRow := d.y == position.y + verticalParticleOffset;
      if onBottomRow {
        dangling := false;
      } else {
        var count := CountSupportingParticles(d);
        dangling := count < 2;
      }
    }

    /** The first loop of `getNearestOpenPosition`: the highest layer a member is heading for, or 0. */
    method HighestOccupiedLayer() returns (highestOccupiedLayer: nat)
      requires Valid()
      ensures highestOccupiedLayer == HighestLayer(Lattice(), Destinations())
    {
      ghost var dests := Destinations();
      highestOccupiedLayer := 0;
      var i := 0;
      while i < |particles|
        invariant 0 <= i <= |particles|
        invariant highestOccupiedLayer == HighestLayer(Lattice(), dests[..i])
      {
        var layer := Lattice().LayerForY(particleStates[particles[i]].destination.y);
        assert dests[..i + 1][..i] == dests[..i];
        if layer > highestOccupiedLayer {
          highestOccupiedLayer := layer;
        }
        i := i + 1;
      }
      assert dests[..i] == dests;
    }

    /**
     * The second loop of `getNearestOpenPosition`: the open slots of the
     * layers up to one above the highest occupied, each on the bottom layer
     * or with exactly two supporters, in scan order.
     */
    method CollectOpenPositions(highestOccupiedLayer: nat) returns (openPositions: seq<Vector2>)
      requires Valid()
      ensures openPositions == OpenPositionsBelow(Lattice(), Destinations(), highestOccupiedLayer + 2)
    {
      ghost var c := Lattice();
      ghost var n0 := c.FirstLayerCount();
      ghost var pick := CandidateTest(c, Destinations());
      openPositions := [];
      var usableWidth := size.width * usableWidthProportion - 2.0 * sphereRadius;
      var offsetFromBucketEdge := (size.width - usableWidth) / 2.0 + sphereRadius;
      var numParticlesInLayer := (usableWidth / (sphereRadius * 2.0)).Floor;
      var layer := 0;
      assert usableWidth == c.UsableWidth();
      LayerStart(c);
      while layer <= highestOccupiedLayer + 1
        invariant 0 <= layer <= highestOccupiedLayer + 2
        invariant numParticlesInLayer == LayerSize(n0, layer) && offsetFromBucketEdge == c.EdgeOffset(layer)
        invariant openPositions == Positions(c, PicksBelow(n0, layer, pick))
      {
        var layerPositions := LayerOpenPositions(layer, numParticlesInLayer, offsetFromBucketEdge);
        assert PicksBelow(n0, layer + 1, pick) == PicksBelow(n0, layer, pick) + LayerPicks(layer, numParticlesInLayer, pick);
        PositionsAppend(c, PicksBelow(n0, layer, pick), LayerPicks(layer, numParticlesInLayer, pick));
        openPositions := openPositions + layerPositions;
        LayerStep(c, layer);
        numParticlesInLayer := numParticlesInLayer - 1;
        offsetFromBucketEdge := offsetFromBucketEdge + sphereRadius;
        if numParticlesInLayer == 0 {
          numParticlesInLayer := 1;
          offsetFromBucketEdge := offsetFromBucketEdge - sphereRadius;
        }
        layer := layer + 1;
      }
      assert layer == highestOccupiedLayer + 2;
    }

    /** The inner loop of CollectOpenPositions: one layer's open, supported slots, left to right. */
    method LayerOpenPositions(layer: nat, numParticlesInLayer: int, offsetFromBucketEdge: real) returns (openPositions: seq<Vector2>)
      requires Valid()
      requires numParticlesInLayer == Lattice().SlotCount(layer) && offsetFromBucketEdge == Lattice().EdgeOffset(layer)
      ensures openPositions == Positions(Lattice(), LayerPicks(layer, numParticlesInLayer, CandidateTest(Lattice(), Destinations())))
    {
      ghost var c := Lattice();
      ghost var dests := Destinations();
      ghost var pick := CandidateTest(c, dests);
      openPositions := [];
      var positionInLayer := 0;
      while positionInLayer < numParticlesInLayer
        invariant 0 <= positionInLayer <= numParticlesInLayer
        invariant openPositions == Positions(c, LayerPicks(layer, positionInLayer, pick))
      {
        var testPosition := Vector2(
          position.x - size.width / 2.0 + offsetFromBucketEdge + positionInLayer as real * 2.0 * sphereRadius,
          Lattice().YForLayer(layer));
        ghost var s := SlotIndex(layer, positionInLayer);
        assert testPosition == c.SlotPosition(s);
        var isOpen := IsPositionOpen(testPosition);
        var valid := false;
        if isOpen {
          if layer == 0 {
            valid := true;
          } else {
            var count := CountSupportingParticles(testPosition);
            valid := count == 2;
          }
        }
        assert pick(s) == IsCandidate(c, dests, s);
        assert valid == IsCandidate(c, dests, s);
        ghost var before := LayerPicks(layer, positionInLayer, pick);
        ghost var added := if valid then [s] else [];
        assert LayerPicks(layer, positionInLayer + 1, pick) == before + added;
        PositionsAppend(c, before, added);
        if valid {
          openPositions := openPositions + [testPosition];
        }
        positionInLayer := positionInLayer + 1;
      }
    }

    /**
     * The last loop of `getNearestOpenPosition`: the first of the open
     * positions nearest to the point, or the origin when there is none.
     */
    static method ClosestOpenPosition(openPositions: seq<Vector2>, position: Vector2) returns (closestOpenPosition: Vector2, ghost k: nat)
      ensures |openPositions| == 0 ==> closestOpenPosition == ZERO
      ensures |openPositions| > 0 ==> IsFirstNearest(openPositions, position, k) && closestOpenPosition == openPositions[k]
    {
      k := 0;
      if |openPositions| == 0 {
        return ZERO, k;
      }
      closestOpenPosition := openPositions[0];
      var i := 0;
      while i < |openPositions|
        invariant 0 <= i <= |openPositions|
        invariant k <= i && k < |openPositions| && closestOpenPosition == openPositions[k] && (i > 0 ==> k < i)
        invariant forall j :: 0 <= j < i ==> DistanceSquared(closestOpenPosition, position) <= DistanceSquared(openPositions[j], position)
        invariant forall j :: 0 <= j < k ==> DistanceSquared(openPositions[j], position) > DistanceSquared(closestOpenPosition, position)
      {
        if DistanceSquared(openPositions[i], position) < DistanceSquared(closestOpenPosition, position) {
          closestOpenPosition := openPositions[i];
          k := i;
        }
        i := i + 1;
      }
    }

    /**
     * `getNearestOpenPosition`: among the searched open slots, the first one
     * nearest to the point by Euclidean distance; the origin when there is none.
     */
    method GetNearestOpenPosition(p: Vector2) returns (closestOpenPosition: Vector2, ghost k: nat)
      requires Valid()
      ensures var nearest := NearestOpenPositions(Lattice(), Destinations());
              (|nearest| == 0 ==> closestOpenPosition == ZERO) &&
              (|nearest| > 0 ==> IsFirstNearest(nearest, p, k) && closestOpenPosition == nearest[k])
    {
      var openPositions := SearchedOpenPositions();
      closestOpenPosition, k := ClosestOpenPosition(openPositions, p);
    }

    /** The first two loops of `getNearestOpenPosition`: the centres of the searched slots, in scan order. */
    method SearchedOpenPositions() returns (openPositions: seq<Vector2>)
      requires Valid()
      ensures openPositions == NearestOpenPositions(Lattice(), Destinations())
    {
      var highestOccupiedLayer := HighestOccupiedLayer();
      openPositions := CollectOpenPositions(highestOccupiedLayer);
    }

    /**
     * The search of `extractClosestParticle`: the first member nearest to the
     * point by current position, or none when the bucket is empty.
     */
    method FindClosestParticle(position: Vector2) returns (closestParticle: Option<ParticleId>, ghost k: nat)
      requires Valid()
      ensures closestParticle.None? <==> |particles| == 0
      ensures closestParticle.Some? ==>
                IsFirstNearest(CurrentPositions(), position, k) && k < |particles| && closestParticle.value == particles[k]
    {
      ghost var ps := CurrentPositions();
      closestParticle := None;
      k := 0;
      var i := 0;
      while i < |particles|
        invariant 0 <= i <= |particles|
        invariant closestParticle.None? <==> i == 0
        invariant closestParticle.Some? ==> k < i && closestParticle.value == particles[k]
        invariant closestParticle.Some? ==> forall j :: 0 <= j < i ==> DistanceSquared(ps[k], position) <= DistanceSquared(ps[j], position)
        invariant closestParticle.Some? ==> forall j :: 0 <= j < k ==> DistanceSquared(ps[j], position) > DistanceSquared(ps[k], position)
      {
        var particle := particles[i];
        if closestParticle.None? ||
           DistanceSquared(particleStates[closestParticle.value].position, position) >
           DistanceSquared(particleStates[particle].position, position) {
          closestParticle := Some(particle);
          k := i;
        }
        i := i + 1;
      }
    }

    /**
     * `addParticle`: the particle, its destination already chosen, is
     * appended to the members, jumps to its destination unless animated,
     * and gets the removal listener.
     */
    method AddParticle(id: ParticleId, particle: Particle, animate: bool)
      requires Valid() && id !in particles
      modifies this
      ensures Valid()
      ensures particles == old(particles) + [id]
      ensures particleStates == old(particleStates)[id := Particle(
                if animate then particle.position else particle.destination,
                particle.destination, particle.userControlled, true)]
      ensures Destinations() == old(Destinations()) + [particle.destination]
    {
      var p := particle;
      if !animate {
        p := p.(position := p.destination);
      }
      particles := particles + [id];
      particleStates := particleStates[id := p.(hasRemovalListener := true)];
      assert Destinations() == old(Destinations()) + [particle.destination] by {
        forall k | 0 <= k < |old(particles)|
          ensures Destinations()[k] == old(Destinations())[k]
        {
          assert particles[k] == old(particles)[k] != id;
        }
      }
    }

    /** `addParticleFirstOpen`: the particle is added heading for the first open slot. */
    method AddParticleFirstOpen(id: ParticleId, particle: Particle, animate: bool) returns (ghost slot: SlotIndex)
      requires Valid() && id !in particles
      modifies this
      ensures Valid()
      ensures particles == old(particles) + [id]
      ensures IsFirstOpen(Lattice(), old(Destinations()), slot)
      ensures particleStates == old(particleStates)[id := Particle(
                if animate then particle.position else Lattice().SlotPosition(slot),
                Lattice().SlotPosition(slot), particle.userControlled, true)]
    {
      var destination;
      destination, slot := GetFirstOpenPosition();
      AddParticle(id, particle.(destination := destination), animate);
    }

    /**
     * `addParticleNearestOpen`: the particle is added heading for the
     * searched open slot nearest to its current destination (the origin when
     * there is none).
     */
    method AddParticleNearestOpen(id: ParticleId, particle: Particle, animate: bool) returns (ghost k: nat)
      requires Valid() && id !in particles
      modifies this
      ensures Valid()
      ensures particles == old(particles) + [id]
      ensures var candidates := NearestOpenPositions(Lattice(), old(Destinations()));
              |candidates| == 0 ==>
                particleStates == old(particleStates)[id := Particle(
                  if animate then particle.position else ZERO, ZERO, particle.userControlled, true)]
      ensures var candidates := NearestOpenPositions(Lattice(), old(Destinations()));
              |candidates| > 0 ==>
                IsFirstNearest(candidates, particle.destination, k) &&
                particleStates == old(particleStates)[id := Particle(
                  if animate then particle.position else candidates[k], candidates[k], particle.userControlled, true)]
    {
      var destination;
      destination, k := GetNearestOpenPosition(particle.destination);
      AddParticle(id, particle.(destination := destination), animate);
    }

    /**
     * `relayoutBucketParticles`: while some member dangles, the first one that
     * does is sent to the searched open slot nearest to its destination. The
     * source loops until no member moves; the model stops after
     * RELAYOUT_PASS_LIMIT passes and reports whether the loop ended by itself.
     * Only destinations change.
     */
    method RelayoutBucketParticles() returns (settled: bool)
      requires Valid()
      modifies this
      ensures Valid()
      ensures particles == old(particles)
      ensures particleStates.Keys == old(particleStates).Keys
      ensures forall q :: q in old(particleStates) ==> SameButDestination(particleStates[q], old(particleStates[q]))
      ensures forall q :: q in old(particleStates) && q !in particles ==> particleStates[q] == old(particleStates[q])
      ensures settled ==> NoneDangling(Lattice(), Destinations())
    {
      var particleMoved := true;
      var passes := 0;
      while particleMoved && passes < RELAYOUT_PASS_LIMIT
        invariant Valid()
        invariant particles == old(particles)
        invariant particleStates.Keys == old(particleStates).Keys
        invariant forall q :: q in old(particleStates) ==> SameButDestination(particleStates[q], old(particleStates[q]))
        invariant forall q :: q in old(particleStates) && q !in particles ==> particleStates[q] == old(particleStates[q])
        invariant !particleMoved ==> NoneDangling(Lattice(), Destinations())
        decreases RELAYOUT_PASS_LIMIT - passes
      {
        particleMoved := false;
        var i := 0;
        while i < |particles|
          invariant 0 <= i <= |particles|
          invariant Valid()
          invariant particles == old(particles)
          invariant particleStates.Keys == old(particleStates).Keys
          invariant forall q :: q in old(particleStates) ==> SameButDestination(particleStates[q], old(particleStates[q]))
          invariant forall q :: q in old(particleStates) && q !in particles ==> particleStates[q] == old(particleStates[q])
          invariant !particleMoved
          invariant forall j :: 0 <= j < i ==> !Lattice().Dangling(Destinations(), Destinations()[j])
        {
          var particle := particles[i];
          var dangling := IsDangling(particle);
          if dangling {
            var nearest, k := GetNearestOpenPosition(particleStates[particle].destination);
            particleStates := particleStates[particle := particleStates[particle].(destination := nearest)];
            particleMoved := true;
            break;
          }
          i := i + 1;
        }
        passes := passes + 1;
      }
      settled := !particleMoved;
    }

    /**
     * `removeParticle`: the member leaves the list, its removal listener is
     * unlinked, and unless `skipLayout` the others settle.
     */
    method RemoveParticle(id: ParticleId, skipLayout: bool) returns (settled: bool)
      requires Valid() && id in particles
      modifies this
      ensures Valid()
      ensures particles == Without(old(particles), id)
      ensures !ContainsParticle(id)
      ensures particleStates.Keys == old(particleStates).Keys
      ensures particleStates[id] == old(particleStates[id]).(hasRemovalListener := false)
      ensures forall q :: q in old(particleStates) && q != id ==> SameButDestination(particleStates[q], old(particleStates[q]))
      ensures forall q :: q in old(particleStates) && q != id && q !in old(particles) ==> particleStates[q] == old(particleStates[q])
      ensures skipLayout ==> settled && forall q :: q in old(particleStates) && q != id ==> particleStates[q] == old(particleStates[q])
      ensures !skipLayout && settled ==> NoneDangling(Lattice(), Destinations())
    {
      WithoutKeepsDistinct(particles, id);
      particles := Without(particles, id);
      particleStates := particleStates[id := particleStates[id].(hasRemovalListener := false)];
      if !skipLayout {
        settled := RelayoutBucketParticles();
      } else {
        settled := true;
      }
    }

    /**
     * Setting a particle's user-controlled flag. A change of the flag on a
     * member calls the removal listener, which removes the particle and lets
     * the others settle.
     */
    method SetUserControlled(id: ParticleId, userControlled: bool) returns (settled: bool)
      requires Valid() && id in particleStates
      modifies this
      ensures Valid()
      ensures particleStates.Keys == old(particleStates).Keys
      ensures particleStates[id].userControlled == userControlled
      ensures userControlled != old(particleStates[id].userControlled) && old(ContainsParticle(id)) ==>
                particles == Without(old(particles), id) &&
                particleStates[id] == old(particleStates[id]).(userControlled := userControlled, hasRemovalListener := false) &&
                (settled ==> NoneDangling(Lattice(), Destinations())) &&
                (forall q :: q in old(particleStates) && q != id ==> SameButDestination(particleStates[q], old(particleStates[q]))) &&
                forall q :: q in old(particleStates) && q != id && q !in old(particles) ==> particleStates[q] == old(particleStates[q])
      ensures !(userControlled != old(particleStates[id].userControlled) && old(ContainsParticle(id))) ==>
                settled && particles == old(particles) &&
                particleStates == old(particleStates)[id := old(particleStates[id]).(userControlled := userControlled)]
    {
      var wasUserControlled := particleStates[id].userControlled;
      particleStates := particleStates[id := particleStates[id].(userControlled := userControlled)];
      if userControlled != wasUserControlled && particleStates[id].hasRemovalListener {
        settled := RemoveParticle(id, false);
      } else {
        settled := true;
      }
    }

    /**
     * `extractClosestParticle`: the first member nearest to the point by
     * current position is grabbed (its user-controlled flag set), which
     * through the removal listener takes it out of the bucket; none when the
     * bucket is empty.
     */
    method ExtractClosestParticle(position: Vector2) returns (closestParticle: Option<ParticleId>, settled: bool, ghost k: nat)
      requires Valid()
      modifies this
      ensures Valid()
      ensures particleStates.Keys == old(particleStates).Keys
      ensures closestParticle.None? <==> |old(particles)| == 0
      ensures closestParticle.None? ==> settled && particles == old(particles) && particleStates == old(particleStates)
      ensures closestParticle.Some? ==>
                k < |old(particles)| && closestParticle.value == old(particles)[k] &&
                IsFirstNearest(old(CurrentPositions()), position, k) &&
                particleStates[closestParticle.value].userControlled
      ensures closestParticle.Some? && !old(particleStates[closestParticle.value].userControlled) ==>
                particles == Without(old(particles), closestParticle.value) && !ContainsParticle(closestParticle.value)
      ensures closestParticle.Some? && !old(particleStates[closestParticle.value].userControlled) ==>
                particleStates[closestParticle.value] ==
                  old(particleStates[closestParticle.value]).(userControlled := true, hasRemovalListener := false)
      ensures closestParticle.Some? && !old(particleStates[closestParticle.value].userControlled) ==>
                forall q :: q in old(particleStates) && q != closestParticle.value ==>
                  SameButDestination(particleStates[q], old(particleStates[q]))
      ensures closestParticle.Some? && !old(particleStates[closestParticle.value].userControlled) ==>
                forall q :: q in old(particleStates) && q != closestParticle.value && q !in old(particles) ==>
                  particleStates[q] == old(particleStates[q])
      ensures closestParticle.Some? && !old(particleStates[closestParticle.value].userControlled) && settled ==>
                NoneDangling(Lattice(), Destinations())
      ensures closestParticle.Some? && old(particleStates[closestParticle.value].userControlled) ==>
                settled && particles == old(particles) && particleStates == old(particleStates)
    {
      closestParticle, k := FindClosestParticle(position);
      if closestParticle.Some? {
        settled := SetUserControlled(closestParticle.value, true);
      } else {
        settled := true;
      }
    }

    /** `reset`: every member's removal listener is unlinked and the list emptied; destinations stay. */
    method Reset()
      requires Valid()
      modifies this
      ensures Valid()
      ensures particles == []
      ensures particleStates.Keys == old(particleStates).Keys
      ensures forall q :: q in old(particleStates) ==> particleStates[q] == old(particleStates[q]).(hasRemovalListener := false)
    {
      var i := 0;
      while i < |particles|
        invariant 0 <= i <= |particles|
        invariant particles == old(particles)
        invariant particleStates.Keys == old(particleStates).Keys
        invariant forall q :: q in old(particleStates) ==>
                    particleStates[q] == old(particleStates[q]).(hasRemovalListener := old(particleStates[q]).hasRemovalListener && q !in particles[..i])
      {
        var particle := particles[i];
        assert particles[..i + 1] == particles[..i] + [particle];
        if particleStates[particle].hasRemovalListener {
          particleStates := particleStates[particle := particleStates[particle].(hasRemovalListener := false)];
        }
        i := i + 1;
      }
      assert particles[..i] == particles;
      particles := [];
    }
  }
}
