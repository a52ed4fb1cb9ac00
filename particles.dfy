/** The particle field of Particles.js: which pixels of the sample image
    become particle instances (the dense pass of initPoints), which become
    the few interactive points (the strided pass of initInteractivePoints),
    the instance buffers both passes fill, and the life cycle of the meshes,
    the hit area and the listeners. The image arrives as the red channel of
    the vertically flipped canvas, one value per canvas position in scan
    order; everything else about the texture,
    materials and shaders is not modelled. */
module ParticleField {
  import opened JsArrays
  import opened Scene
  import Controls

  /** Pixels whose red value is at most this are discarded. */
  const Threshold := 34

  /** The `step` a pixel must reach before the sparse pass picks it. */
  const Stride := 4500

  /** `numVisible_red` of the discarding sparse pass: the length of its
      buffers, and the count whose excess stops the pass. */
  const InteractiveCapacity := 10

  /** Whether pixel i survives the threshold test (all pixels do when
      nothing is discarded). */
  predicate Keep(red: seq<int>, discard: bool, i: nat)
    requires i < |red|
  {
    !discard || red[i] > Threshold
  }

  /* ---------------------------------------------------------------------
     The dense pass
     --------------------------------------------------------------------- */

  /** The pixels from i on that the dense pass turns into instances, in
      scan order. */
  function DenseScan(red: seq<int>, discard: bool, i: nat): seq<nat>
    requires i <= |red|
    decreases |red| - i
  {
    if i == |red| then []
    else if Keep(red, discard, i) then [i] + DenseScan(red, discard, i + 1)
    else DenseScan(red, discard, i + 1)
  }

  /** One pixel of the dense pass: a kept pixel is taken, a dark one
      skipped. */
  lemma DenseStep(red: seq<int>, discard: bool, i: nat)
    requires i < |red|
    ensures DenseScan(red, discard, i)
         == if Keep(red, discard, i) then [i] + DenseScan(red, discard, i + 1) else DenseScan(red, discard, i + 1)
  {
  }

  predicate Increasing(s: seq<nat>)
  {
    forall a, b :: 0 <= a < b < |s| ==> s[a] < s[b]
  }

  /** The dense pass takes exactly the kept pixels, each once and in
      strictly increasing scan order. */
  lemma {:induction false} DenseScanSelects(red: seq<int>, discard: bool, i: nat)
    requires i <= |red|
    ensures forall k :: k in DenseScan(red, discard, i) <==> i <= k < |red| && Keep(red, discard, k)
    ensures Increasing(DenseScan(red, discard, i))
    decreases |red| - i
  {
    if i < |red| {
      DenseScanSelects(red, discard, i + 1);
      var rest := DenseScan(red, discard, i + 1);
      forall b | 0 <= b < |rest|
        ensures rest[b] > i
      {
        assert rest[b] in rest;
      }
      if Keep(red, discard, i) {
        var r := [i] + rest;
        assert DenseScan(red, discard, i) == r;
        forall a, b | 0 <= a < b < |r|
          ensures r[a] < r[b]
        {
          assert r[b] == rest[b - 1];
          if a > 0 {
            assert r[a] == rest[a - 1];
          }
        }
      }
    }
  }

  /** Without discarding, every pixel from i on is an instance. */
  lemma {:induction false} DenseKeepsAll(red: seq<int>, i: nat)
    requires i <= |red|
    ensures |DenseScan(red, false, i)| == |red| - i
    ensures forall k :: 0 <= k < |red| - i ==> DenseScan(red, false, i)[k] == i + k
    decreases |red| - i
  {
    if i < |red| {
      DenseKeepsAll(red, i + 1);
    }
  }

  /** On an image brighter than the threshold everywhere, discarding
      keeps every pixel. */
  lemma {:induction false} DenseAllBright(red: seq<int>, i: nat)
    requires i <= |red|
    requires forall k :: 0 <= k < |red| ==> red[k] > Threshold
    ensures DenseScan(red, true, i) == DenseScan(red, false, i)
    decreases |red| - i
  {
    if i < |red| {
      DenseAllBright(red, i + 1);
    }
  }

  /** On an image at or below the threshold everywhere, discarding keeps
      nothing. */
  lemma {:induction false} DenseAllDark(red: seq<int>, i: nat)
    requires i <= |red|
    requires forall k :: 0 <= k < |red| ==> red[k] <= Threshold
    ensures DenseScan(red, true, i) == []
    decreases |red| - i
  {
    if i < |red| {
      DenseAllDark(red, i + 1);
    }
  }

  /** A 2x2 image with red values 0, 50, 100 and 200: every pixel but the
      first is brighter than 34. */
  lemma TwoByTwo()
    ensures DenseScan([0, 50, 100, 200], true, 0) == [1, 2, 3]
  {
    var red := [0, 50, 100, 200];
    assert DenseScan(red, true, 4) == [];
    assert DenseScan(red, true, 3) == [3];
    assert DenseScan(red, true, 2) == [2, 3];
  }

  /** The first loop of initPoints: how many pixels are brighter than the
      threshold. */
  method CountVisible(red: seq<int>) returns (n: nat)
    ensures n == |DenseScan(red, true, 0)|
  {
    n := 0;
    for i := 0 to |red|
      invariant n + |DenseScan(red, true, i)| == |DenseScan(red, true, 0)|
    {
      if red[i] > Threshold {
        n := n + 1;
      }
    }
  }

  /* ---------------------------------------------------------------------
     The instance buffers
     --------------------------------------------------------------------- */

  /** Slot k of a `pindex` buffer once the picks have been written through
      cursor j: the k-th pick as a Uint16Array stores it, or the initial 0. */
  function IndexSlot(picks: seq<nat>, k: nat): int
  {
    if k < |picks| then ToUint16(picks[k]) else 0
  }

  /** Slot m of an `offset` buffer (three slots per instance): the column
      and the row of pick m / 3 in an image w pixels wide, then a z that is
      never written; 0 past the picks. */
  function OffsetSlot(picks: seq<nat>, w: nat, m: nat): int
    requires w > 0 || picks == []
  {
    var k := m / 3;
    if k < |picks| && m % 3 == 0 then picks[k] % w
    else if k < |picks| && m % 3 == 1 then picks[k] / w
    else 0
  }

  /** The grid cell `[i % w, Math.floor(i / w)]` of pixel i. */
  function Cell(i: nat, w: nat): (int, int)
    requires w > 0
  {
    (i % w, i / w)
  }

  /** The grid cells of the picks, in order. */
  function GridPoints(picks: seq<nat>, w: nat): seq<(int, int)>
    requires w > 0 || picks == []
  {
    seq(|picks|, k requires 0 <= k < |picks| => Cell(picks[k], w))
  }

  /** Each pick occupies its own three offset slots: column, row, and a z
      that stays 0; every other slot keeps what it had. */
  lemma OffsetSlotPush(picks: seq<nat>, w: nat, i: nat, m: nat)
    requires w > 0
    ensures OffsetSlot(picks + [i], w, m)
         == if m == 3 * |picks| then i % w
            else if m == 3 * |picks| + 1 then i / w
            else OffsetSlot(picks, w, m)
  {
    var k := m / 3;
    assert m == 3 * k + m % 3;
    if k < |picks| {
      assert (picks + [i])[k] == picks[k];
    }
  }

  lemma GridPointsPush(picks: seq<nat>, w: nat, i: nat)
    requires w > 0
    ensures GridPoints(picks + [i], w) == GridPoints(picks, w) + [Cell(i, w)]
  {
    var r := GridPoints(picks + [i], w);
    assert forall k :: 0 <= k < |picks| ==> r[k] == GridPoints(picks, w)[k];
  }

  /** The buffers hold the picks written so far: every `pindex` slot is
      its IndexSlot and every `offset` slot its OffsetSlot. */
  ghost predicate Holds(indices: array<int>, offsets: array<int>, width: nat, picks: seq<nat>)
    reads indices, offsets
  {
    && (width > 0 || picks == [])
    && (forall k :: 0 <= k < indices.Length ==> indices[k] == IndexSlot(picks, k))
    && (forall m :: 0 <= m < offsets.Length ==> offsets[m] == OffsetSlot(picks, width, m))
  }

  /** One write of the fill loops: pick i goes to slot j of `pindex` and
      to slots 3j and 3j + 1 of `offset`, where those slots exist. */
  method WritePick(indices: array<int>, offsets: array<int>, width: nat, ghost picks: seq<nat>, i: nat, j: nat)
    requires indices != offsets && width > 0 && j == |picks|
    requires Holds(indices, offsets, width, picks)
    modifies indices, offsets
    ensures Holds(indices, offsets, width, picks + [i])
  {
    if 3 * j < offsets.Length {
      offsets[3 * j] := i % width;
    }
    if 3 * j + 1 < offsets.Length {
      offsets[3 * j + 1] := i / width;
    }
    if j < indices.Length {
      indices[j] := ToUint16(i);
    }
    forall m | 0 <= m < offsets.Length {
      OffsetSlotPush(picks, width, i, m);
    }
    assert forall k :: 0 <= k < |picks| ==> (picks + [i])[k] == picks[k];
  }

  /** One pixel of the fill loop of initPoints: a kept pixel is written
      through cursor j, a dark one skipped when discarding. */
  method FillPixel(indices: array<int>, offsets: array<int>, red: seq<int>, width: nat, discard: bool,
                   ghost picks: seq<nat>, i: nat, j: nat)
    returns (ghost picks': seq<nat>, j': nat)
    requires indices != offsets && i < |red| && (width > 0 || |red| == 0)
    requires picks + DenseScan(red, discard, i) == DenseScan(red, discard, 0)
    requires j == |picks| && Holds(indices, offsets, width, picks)
    modifies indices, offsets
    ensures picks' + DenseScan(red, discard, i + 1) == DenseScan(red, discard, 0)
    ensures j' == |picks'| && Holds(indices, offsets, width, picks')
  {
    DenseStep(red, discard, i);
    if discard && red[i] <= Threshold {
      return picks, j;
    }
    WritePick(indices, offsets, width, picks, i, j);
    picks', j' := picks + [i], j + 1;
  }

  /** The fill loop of initPoints: the kept pixels are written in scan
      order through cursor j into buffers of the given lengths, writes past
      a buffer's end are dropped, and j ends at the number of kept pixels. */
  method FillPoints(red: seq<int>, width: nat, discard: bool, indexLen: nat, offsetLen: nat)
    returns (indices: array<int>, offsets: array<int>, j: nat)
    requires width > 0 || |red| == 0
    ensures fresh(indices) && fresh(offsets)
    ensures indices.Length == indexLen && offsets.Length == offsetLen
    ensures j == |DenseScan(red, discard, 0)|
    ensures Holds(indices, offsets, width, DenseScan(red, discard, 0))
  {
    indices := new int[indexLen](_ => 0);
    offsets := new int[offsetLen](_ => 0);
    ghost var picks: seq<nat> := [];
    j := 0;
    for i := 0 to |red|
      invariant picks + DenseScan(red, discard, i) == DenseScan(red, discard, 0)
      invariant j == |picks|
      invariant Holds(indices, offsets, width, picks)
    {
      picks, j := FillPixel(indices, offsets, red, width, discard, picks, i, j);
    }
    assert picks == DenseScan(red, discard, 0);
  }

  /* ---------------------------------------------------------------------
     The sparse pass
     --------------------------------------------------------------------- */

  /** The pixels from i on that the sparse pass picks, given its counters
      on arrival there: it stops once `count` exceeds the limit; otherwise
      `step` advances on every pixel, dark ones included, and a kept pixel
      is picked once `step` reaches the stride, which resets it. */
  function SparseScan(red: seq<int>, discard: bool, limit: nat, i: nat, count: nat, step: nat): seq<nat>
    requires i <= |red|
    decreases |red| - i
  {
    if i == |red| || count > limit then []
    else if !Keep(red, discard, i) || step + 1 < Stride then
      SparseScan(red, discard, limit, i + 1, count, step + 1)
    else
      [i] + SparseScan(red, discard, limit, i + 1, count + 1, 0)
  }

  /** One pixel of the sparse pass that is not picked: only `step` moves. */
  lemma SparseSkips(red: seq<int>, discard: bool, limit: nat, i: nat, count: nat, step: nat)
    requires i < |red| && count <= limit && (!Keep(red, discard, i) || step + 1 < Stride)
    ensures SparseScan(red, discard, limit, i, count, step) == SparseScan(red, discard, limit, i + 1, count, step + 1)
  {
  }

  /** One pixel of the sparse pass that is picked: `count` moves on and
      `step` starts again. */
  lemma SparsePicks(red: seq<int>, discard: bool, limit: nat, i: nat, count: nat, step: nat)
    requires i < |red| && count <= limit && Keep(red, discard, i) && step + 1 >= Stride
    ensures SparseScan(red, discard, limit, i, count, step) == [i] + SparseScan(red, discard, limit, i + 1, count + 1, 0)
  {
  }

  /** Every sparse pick is a kept pixel; the first comes only once `step`
      has climbed to the stride, later ones at least a stride apart (dark
      pixels counting towards it); and the count never passes the limit by
      more than one. */
  lemma {:induction false} SparseScanSpaced(red: seq<int>, discard: bool, limit: nat, i: nat, count: nat, step: nat)
    requires i <= |red|
    ensures var r := SparseScan(red, discard, limit, i, count, step);
      && (forall k :: 0 <= k < |r| ==> i <= r[k] < |red| && Keep(red, discard, r[k]))
      && (r != [] ==> r[0] + step >= i + Stride - 1)
      && (forall k :: 0 <= k < |r| - 1 ==> r[k] + Stride <= r[k + 1])
      && (count <= limit + 1 ==> count + |r| <= limit + 1)
    decreases |red| - i
  {
    if i == |red| || count > limit {
    } else if !Keep(red, discard, i) || step + 1 < Stride {
      SparseScanSpaced(red, discard, limit, i + 1, count, step + 1);
    } else {
      SparseScanSpaced(red, discard, limit, i + 1, count + 1, 0);
    }
  }

  /** Whether pixel k would be the next pick of a pass that arrives at
      pixel i with counter `step`, if no pick comes in between: it is kept,
      and `step`, advanced once per pixel, has reached the stride there. */
  predicate Eligible(red: seq<int>, discard: bool, i: nat, step: nat, k: nat)
  {
    i <= k < |red| && Keep(red, discard, k) && step + (k - i) + 1 >= Stride
  }

  /** The converse of SparseScanSpaced: while the count allows, the pass
      picks something exactly when some pixel is eligible, and its first
      pick is the first eligible pixel. */
  lemma {:induction false} SparseScanFirst(red: seq<int>, discard: bool, limit: nat, i: nat, count: nat, step: nat)
    requires i <= |red| && count <= limit
    ensures var r := SparseScan(red, discard, limit, i, count, step);
      && (r == [] <==> forall k :: !Eligible(red, discard, i, step, k))
      && (r != [] ==> Eligible(red, discard, i, step, r[0])
                      && forall k :: i <= k < r[0] ==> !Eligible(red, discard, i, step, k))
    decreases |red| - i
  {
    if i == |red| {
    } else if !Keep(red, discard, i) || step + 1 < Stride {
      SparseScanFirst(red, discard, limit, i + 1, count, step + 1);
      assert SparseScan(red, discard, limit, i, count, step) == SparseScan(red, discard, limit, i + 1, count, step + 1);
      assert !Eligible(red, discard, i, step, i);
      forall k
        ensures Eligible(red, discard, i, step, k) == Eligible(red, discard, i + 1, step + 1, k)
      {
      }
      var rest := SparseScan(red, discard, limit, i + 1, count, step + 1);
      if rest != [] {
        assert Eligible(red, discard, i, step, rest[0]);
      }
    } else {
      var r := SparseScan(red, discard, limit, i, count, step);
      assert r == [i] + SparseScan(red, discard, limit, i + 1, count + 1, 0);
      assert Eligible(red, discard, i, step, r[0]);
    }
  }

  /** The discarding pass makes at most eleven picks: the count is only
      tested against its limit of ten before each pixel. */
  lemma AtMostElevenPicks(red: seq<int>)
    ensures |SparseScan(red, true, InteractiveCapacity, 0, 0, 0)| <= InteractiveCapacity + 1
  {
    SparseScanSpaced(red, true, InteractiveCapacity, 0, 0, 0);
  }

  /** On an all-bright stretch with room for the remaining picks, the pass
      makes every pick up to one past its limit. */
  lemma {:induction false} BrightScanFillsCapacity(red: seq<int>, discard: bool, limit: nat,
                                                   i: nat, count: nat, step: nat)
    requires i <= |red| && count <= limit && step < Stride
    requires forall k :: i <= k < |red| ==> Keep(red, discard, k)
    requires i + (Stride - 1 - step) + Stride * (limit - count) < |red|
    ensures |SparseScan(red, discard, limit, i, count, step)| == limit + 1 - count
    decreases |red| - i
  {
    if step + 1 < Stride {
      BrightScanFillsCapacity(red, discard, limit, i + 1, count, step + 1);
    } else if count < limit {
      BrightScanFillsCapacity(red, discard, limit, i + 1, count + 1, 0);
    } else {
      var rest := SparseScan(red, discard, limit, i + 1, count + 1, 0);
      assert rest == [] by {
        if i + 1 < |red| {
          assert count + 1 > limit;
        }
      }
    }
  }

  /** A fully bright image of 49500 pixels or more yields eleven picks
      from the discarding pass, one more than its buffers hold. */
  lemma ElevenPicks(red: seq<int>)
    requires |red| >= 49500
    requires forall k :: 0 <= k < |red| ==> red[k] > Threshold
    ensures |SparseScan(red, true, InteractiveCapacity, 0, 0, 0)| == InteractiveCapacity + 1
  {
    BrightScanFillsCapacity(red, true, InteractiveCapacity, 0, 0, 0);
  }

  /** The loop of initInteractivePoints: each pick is written through
      cursor j into the buffers (writes past their end are dropped) and its
      grid cell is pushed onto the shared point list. */
  method FillInteractive(red: seq<int>, width: nat, discard: bool, limit: nat, points: PointList)
    returns (indices: array<int>, offsets: array<int>)
    requires width > 0 || |red| == 0
    modifies points
    ensures fresh(indices) && fresh(offsets)
    ensures indices.Length == limit && offsets.Length == 3 * limit
    ensures var picks := SparseScan(red, discard, limit, 0, 0, 0);
      && points.items == old(points.items) + GridPoints(picks, width)
      && Holds(indices, offsets, width, picks)
  {
    indices := new int[limit](_ => 0);
    offsets := new int[3 * limit](_ => 0);
    ghost var picks: seq<nat> := [];
    var count, step, j := 0, 0, 0;
    for i := 0 to |red|
      invariant picks + SparseScan(red, discard, limit, i, count, step) == SparseScan(red, discard, limit, 0, 0, 0)
      invariant j == count == |picks|
      invariant Holds(indices, offsets, width, picks)
      invariant points.items == old(points.items) + GridPoints(picks, width)
    {
      if count > limit {
        break;
      }
      step := step + 1;
      if discard && red[i] <= Threshold {
        SparseSkips(red, discard, limit, i, count, step - 1);
        continue;
      }
      if step < Stride {
        SparseSkips(red, discard, limit, i, count, step - 1);
        continue;
      }
      SparsePicks(red, discard, limit, i, count, step - 1);
      count := count + 1;
      step := 0;
      WritePick(indices, offsets, width, picks, i, j);
      points.Push(Cell(i, width));
      GridPointsPush(picks, width, i);
      picks := picks + [i];
      j := j + 1;
    }
  }

  /* ---------------------------------------------------------------------
     Teardown
     --------------------------------------------------------------------- */

  /** The parts destroy() releases, in its order, and the children of the
      container they were added to. */
  datatype Stage = Stage(mesh: Mesh?, redMesh: Mesh?, hitArea: Plane?, children: seq<object?>)

  /** destroy() as a chain of early returns: nothing happens without the
      particle mesh; the red mesh goes only after it, and the hit area only
      after both. Each released part leaves the container. */
  function Destroyed(s: Stage): (t: Stage)
    ensures t.mesh == null
    ensures s.mesh == null ==> t == s
    ensures s.mesh != null ==> t.redMesh == null
    ensures t.hitArea == if s.mesh != null && s.redMesh != null then null else s.hitArea
  {
    if s.mesh == null then s
    else
      var c1 := Unparent(s.children, s.mesh);
      if s.redMesh == null then Stage(null, null, s.hitArea, c1)
      else
        var c2 := Unparent(c1, s.redMesh);
        if s.hitArea == null then Stage(null, null, null, c2)
        else Stage(null, null, null, Unparent(c2, s.hitArea))
  }

  /** Whether destroy() releases y: the mesh, then the red mesh if the mesh
      was there, then the hit area if both were. */
  predicate Released(s: Stage, y: object?)
  {
    s.mesh != null &&
    (y == s.mesh || (s.redMesh != null && (y == s.redMesh || (s.hitArea != null && y == s.hitArea))))
  }

  /** With distinct children, destroy() leaves in the container exactly
      the children it does not release. */
  lemma DestroyedDetaches(s: Stage)
    requires Distinct(s.children)
    ensures Distinct(Destroyed(s).children)
    ensures forall y :: y in Destroyed(s).children <==> y in s.children && !Released(s, y)
  {
    if s.mesh != null {
      var c1 := Unparent(s.children, s.mesh);
      UnparentRemoves(s.children, s.mesh);
      if s.redMesh != null {
        var c2 := Unparent(c1, s.redMesh);
        UnparentRemoves(c1, s.redMesh);
        if s.hitArea != null {
          UnparentRemoves(c2, s.hitArea);
        }
      }
    }
  }

  /** Both tween completions of hide(true) call destroy(); the second one
      changes nothing. */
  lemma DestroyTwice(s: Stage)
    ensures Destroyed(Destroyed(s)) == Destroyed(s)
  {
  }

  /** What the promise executor of hide() leaves behind: how many tweens
      with a completion callback it started before it finished or threw,
      and whether it ran to its end, so that the promise can resolve. */
  datatype HideOutcome = HideOutcome(completions: nat, resolves: bool)

  /* ---------------------------------------------------------------------
     The particle field
     --------------------------------------------------------------------- */

  /** `Particles`. The controls it talks to through `webgl.interactive` are
      passed to the methods that use them, since the view creates them
      after the particles. */
  class Particles {
    var width: nat
    var height: nat
    var numPoints: nat
    const interactivePoints: PointList
    var object3D: Mesh?
    var object3D_red: Mesh?
    var hitArea: Plane?
    var touch: TouchTexture?
    /** The children of `container`. */
    var children: seq<object?>

    function Parts(): Stage
      reads this
    {
      Stage(object3D, object3D_red, hitArea, children)
    }

    constructor ()
      ensures fresh(interactivePoints) && interactivePoints.items == []
      ensures width == 0 && height == 0 && numPoints == 0
      ensures Parts() == Stage(null, null, null, []) && touch == null
    {
      width, height, numPoints := 0, 0, 0;
      interactivePoints := new PointList();
      object3D, object3D_red, hitArea, touch := null, null, null, null;
      children := [];
    }

    /** initPoints: with discarding, the buffers are as long as the number
      of bright pixels and hold all of them; without, every pixel is taken
      but the buffers are only a hundredth of the image long (the length
      `numPoints / 100` is a float that the typed arrays truncate). */
    method InitPoints(red: seq<int>, discard: bool)
      requires |red| == width * height
      modifies this`numPoints, this`object3D, this`children
      ensures numPoints == width * height
      ensures object3D != null && fresh(object3D) && children == old(children) + [object3D]
      ensures Distinct(old(children)) ==> Distinct(children)
      ensures var picks := DenseScan(red, discard, 0);
        && object3D.pindex.Length == (if discard then |picks| else numPoints / 100)
        && object3D.offset.Length == (if discard then 3 * |picks| else 3 * numPoints / 100)
        && Holds(object3D.pindex, object3D.offset, width, picks)
    {
      numPoints := width * height;
      var indexLen, offsetLen := numPoints / 100, 3 * numPoints / 100;
      if discard {
        var numVisible := CountVisible(red);
        indexLen, offsetLen := numVisible, numVisible * 3;
      }
      var indices, offsets, j := FillPoints(red, width, discard, indexLen, offsetLen);
      object3D := new Mesh(indices, offsets);
      if Distinct(children) {
        DistinctAppend(children, object3D);
      }
      children := children + [object3D];
    }

    /** initInteractivePoints: the sparse picks go into buffers of the
      limit's length (ten when discarding, one per pixel otherwise) and
      their grid cells onto the shared point list, which the controls are
      then given. */
    method InitInteractivePoints(red: seq<int>, discard: bool, interactive: Controls.InteractiveControls)
      requires |red| == numPoints && numPoints == width * height
      requires interactive.Valid()
      modifies this`object3D_red, this`children, interactivePoints, interactive`interactivePoints
      ensures interactive.Valid() && interactive.interactivePoints == interactivePoints
      ensures object3D_red != null && fresh(object3D_red) && children == old(children) + [object3D_red]
      ensures Distinct(old(children)) ==> Distinct(children)
      ensures var limit := if discard then InteractiveCapacity else numPoints;
        var picks := SparseScan(red, discard, limit, 0, 0, 0);
        && interactivePoints.items == old(interactivePoints.items) + GridPoints(picks, width)
        && object3D_red.pindex.Length == limit && object3D_red.offset.Length == 3 * limit
        && Holds(object3D_red.pindex, object3D_red.offset, width, picks)
    {
      var limit := if discard then InteractiveCapacity else numPoints;
      var indices, offsets := FillInteractive(red, width, discard, limit, interactivePoints);
      interactive.interactivePoints := interactivePoints;
      object3D_red := new Mesh(indices, offsets);
      if Distinct(children) {
        DistinctAppend(children, object3D_red);
      }
      children := children + [object3D_red];
    }

    /** initTouch: the touch texture is created only once. */
    method InitTouch()
      requires object3D != null && object3D_red != null
      modifies this`touch
      ensures touch != null
      ensures old(touch) != null ==> touch == old(touch)
      ensures old(touch) == null ==> fresh(touch)
    {
      if touch == null {
        touch := new TouchTexture();
      }
    }

    /** initHitArea: a plane of the image's size joins the container. */
    method InitHitArea()
      modifies this`hitArea, this`children
      ensures hitArea != null && fresh(hitArea)
      ensures hitArea.width == width && hitArea.height == height
      ensures children == old(children) + [hitArea]
      ensures Distinct(old(children)) ==> Distinct(children)
    {
      hitArea := new Plane(width, height);
      if Distinct(children) {
        DistinctAppend(children, hitArea);
      }
      children := children + [hitArea];
    }

    /** addListeners: the hit area becomes a ray target and the controls
      are enabled. */
    method AddListeners(interactive: Controls.InteractiveControls)
      requires interactive.Valid()
      modifies interactive`objects, interactive`enabled, interactive`listening
      ensures interactive.Valid() && interactive.enabled
      ensures interactive.objects == old(interactive.objects) + [hitArea]
      ensures interactive.listening
           == if old(interactive.enabled) then old(interactive.listening)
              else old(interactive.listening) + [Controls.Attach]
    {
      interactive.objects := interactive.objects + [hitArea];
      interactive.Enable();
    }

    /** removeListeners: the element at the hit area's findIndex position
      is spliced out of the ray targets (the last one when the hit area is
      missing) and the controls are disabled. */
    method RemoveListeners(interactive: Controls.InteractiveControls)
      requires interactive.Valid()
      modifies interactive`objects, interactive`enabled, interactive`listening
      ensures interactive.Valid() && !interactive.enabled
      ensures interactive.objects == SpliceFound(old(interactive.objects), hitArea)
      ensures interactive.listening
           == if old(interactive.enabled) then old(interactive.listening) + [Controls.Detach]
              else old(interactive.listening)
    {
      var index := FindIndex(interactive.objects, hitArea);
      interactive.objects := SpliceOne(interactive.objects, index);
      interactive.Disable();
    }

    /** update: nothing happens without the particle mesh; otherwise the
      touch texture, when there is one, is updated and both meshes' time
      advances (the red mesh must then be there). */
    method Update() returns (advanced: bool, touchUpdated: bool)
      requires object3D == null || object3D_red != null
      ensures advanced <==> object3D != null
      ensures touchUpdated <==> object3D != null && touch != null
    {
      if object3D == null {
        return false, false;
      }
      touchUpdated := touch != null;
      advanced := true;
    }

    /** show: after the tweens start, the listeners are added. */
    method Show(interactive: Controls.InteractiveControls)
      requires object3D != null && object3D_red != null
      requires interactive.Valid()
      modifies interactive`objects, interactive`enabled, interactive`listening
      ensures interactive.Valid() && interactive.enabled
      ensures interactive.objects == old(interactive.objects) + [hitArea]
      ensures interactive.listening
           == if old(interactive.enabled) then old(interactive.listening)
              else old(interactive.listening) + [Controls.Attach]
    {
      AddListeners(interactive);
    }

    /** The promise executor of hide: three tweens per mesh, the first of
      each with a completion callback, then removeListeners. A missing mesh
      makes the executor throw at its first tween, which rejects the
      promise and skips everything after it. */
    method Hide(interactive: Controls.InteractiveControls) returns (outcome: HideOutcome)
      requires interactive.Valid()
      modifies interactive`objects, interactive`enabled, interactive`listening
      ensures interactive.Valid()
      ensures outcome.completions == if object3D == null then 0 else if object3D_red == null then 1 else 2
      ensures outcome.resolves <==> object3D != null && object3D_red != null
      ensures outcome.resolves ==> && interactive.objects == SpliceFound(old(interactive.objects), hitArea)
                                   && !interactive.enabled
                                   && interactive.listening
                                      == if old(interactive.enabled) then old(interactive.listening) + [Controls.Detach]
                                         else old(interactive.listening)
      ensures !outcome.resolves ==> && interactive.objects == old(interactive.objects)
                                    && interactive.enabled == old(interactive.enabled)
                                    && interactive.listening == old(interactive.listening)
    {
      if object3D == null {
        return HideOutcome(0, false);
      }
      if object3D_red == null {
        return HideOutcome(1, false);
      }
      RemoveListeners(interactive);
      outcome := HideOutcome(2, true);
    }

    /** A completion callback of hide's tweens: destroy when asked to. */
    method HideComplete(destroy: bool)
      modifies this`object3D, this`object3D_red, this`hitArea, this`children
      ensures Parts() == if destroy then Destroyed(old(Parts())) else old(Parts())
    {
      if destroy {
        Destroy();
      }
    }

    /** destroy: the chain of early returns of Destroyed. */
    method Destroy()
      modifies this`object3D, this`object3D_red, this`hitArea, this`children
      ensures Parts() == Destroyed(old(Parts()))
    {
      if object3D == null {
        return;
      }
      children := Unparent(children, object3D);
      object3D := null;
      if object3D_red == null {
        return;
      }
      children := Unparent(children, object3D_red);
      object3D_red := null;
      if hitArea == null {
        return;
      }
      children := Unparent(children, hitArea);
      hitArea := null;
    }

    /** The first half of the texture-loaded callback of init: both passes,
      with discarding. */
    method InitMeshes(red: seq<int>, interactive: Controls.InteractiveControls)
      requires |red| == width * height
      requires interactive.Valid()
      modifies this`numPoints, this`object3D, this`object3D_red, this`children,
               interactivePoints, interactive`interactivePoints
      ensures interactive.Valid() && interactive.interactivePoints == interactivePoints
      ensures numPoints == |red|
      ensures object3D != null && object3D_red != null
      ensures children == old(children) + [object3D] + [object3D_red]
      ensures Distinct(old(children)) ==> Distinct(children)
      ensures object3D.pindex.Length == |DenseScan(red, true, 0)|
      ensures object3D.offset.Length == 3 * |DenseScan(red, true, 0)|
      ensures var dense := DenseScan(red, true, 0);
        && Holds(object3D.pindex, object3D.offset, width, dense)
      ensures object3D_red.pindex.Length == InteractiveCapacity
      ensures object3D_red.offset.Length == 3 * InteractiveCapacity
      ensures var picks := SparseScan(red, true, InteractiveCapacity, 0, 0, 0);
        && Holds(object3D_red.pindex, object3D_red.offset, width, picks)
        && interactivePoints.items == old(interactivePoints.items) + GridPoints(picks, width)
    {
      InitPoints(red, true);
      InitInteractivePoints(red, true, interactive);
    }

    /** The second half of the texture-loaded callback of init, once both
      passes have run: the hit area, the touch texture, then show. */
    method Present(interactive: Controls.InteractiveControls)
      requires object3D != null && object3D_red != null
      requires interactive.Valid()
      modifies this`hitArea, this`touch, this`children, interactive`objects, interactive`enabled, interactive`listening
      ensures interactive.Valid() && interactive.enabled
      ensures hitArea != null && touch != null
      ensures old(touch) != null ==> touch == old(touch)
      ensures old(touch) == null ==> fresh(touch)
      ensures hitArea.width == width && hitArea.height == height
      ensures children == old(children) + [hitArea]
      ensures Distinct(old(children)) ==> Distinct(children)
      ensures interactive.objects == old(interactive.objects) + [hitArea]
      ensures interactive.listening
           == if old(interactive.enabled) then old(interactive.listening)
              else old(interactive.listening) + [Controls.Attach]
    {
      InitHitArea();
      InitTouch();
      Show(interactive);
    }

    /** The texture-loaded callback of init: the image size goes to the
      particles and the controls, both passes run with discarding, and the
      field is presented. */
    method Load(red: seq<int>, w: nat, h: nat, interactive: Controls.InteractiveControls)
      requires |red| == w * h
      requires interactive.Valid()
      modifies this`width, this`height, this`numPoints, this`object3D, this`object3D_red, this`hitArea,
               this`touch, this`children, interactivePoints, interactive`width, interactive`height, interactive`interactivePoints,
               interactive`objects, interactive`enabled, interactive`listening
      ensures interactive.Valid() && interactive.enabled
      ensures width == w && height == h && numPoints == |red|
      ensures interactive.width == w && interactive.height == h
      ensures interactive.interactivePoints == interactivePoints
      ensures object3D != null && object3D_red != null && hitArea != null && touch != null
      ensures children == old(children) + [object3D] + [object3D_red] + [hitArea]
      ensures Distinct(old(children)) ==> Distinct(children)
      ensures interactive.objects == old(interactive.objects) + [hitArea]
      ensures hitArea.width == w && hitArea.height == h
      ensures old(touch) != null ==> touch == old(touch)
      ensures old(touch) == null ==> fresh(touch)
      ensures interactive.listening
           == if old(interactive.enabled) then old(interactive.listening)
              else old(interactive.listening) + [Controls.Attach]
      ensures object3D.pindex.Length == |DenseScan(red, true, 0)|
      ensures object3D.offset.Length == 3 * |DenseScan(red, true, 0)|
      ensures object3D_red.pindex.Length == InteractiveCapacity
      ensures object3D_red.offset.Length == 3 * InteractiveCapacity
      ensures var picks := SparseScan(red, true, InteractiveCapacity, 0, 0, 0);
        && Holds(object3D_red.pindex, object3D_red.offset, w, picks)
      ensures interactivePoints.items
           == old(interactivePoints.items) + GridPoints(SparseScan(red, true, InteractiveCapacity, 0, 0, 0), w)
    {
      width, height := w, h;
      interactive.width, interactive.height := w, h;
      InitMeshes(red, interactive);
      Present(interactive);
    }
  }
}
