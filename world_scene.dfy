/**
 * The object list of the world scene and its spawn-slot allocator.
 *
 * The scene keeps a list of spawned objects, each a type and a position.
 * The positions already taken form the occupancy set.  A spawn request asks
 * the slot search for the first raster position not in that set, in raster
 * order, and appends one object of the requested type there.  When every
 * raster position is taken the request does nothing.
 */
module Scene {
  import opened Wrappers
  import opened Grid

  /** The object types the control panel can request. */
  datatype Kind = Robot | Box | Shelf

  /** One entry of the object list. */
  datatype WorldObject = WorldObject(kind: Kind, position: Pos)

  /** The positions taken by the objects of the list. */
  function UsedPositions(objects: seq<WorldObject>): (used: set<Pos>)
    ensures forall i :: 0 <= i < |objects| ==> objects[i].position in used
    ensures forall p :: p in used ==> exists i :: 0 <= i < |objects| && objects[i].position == p
  {
    set i | 0 <= i < |objects| :: objects[i].position
  }

  /** No two objects of the list share a position. */
  ghost predicate DistinctPositions(objects: seq<WorldObject>) {
    forall i, j :: 0 <= i < j < |objects| ==> objects[i].position != objects[j].position
  }

  /** p is the slot the search must return: free, and every raster position before it is taken. */
  ghost predicate IsFirstFit(used: set<Pos>, p: Pos) {
    OnRaster(p) && p !in used && forall q :: OnRaster(q) && Before(q, p) ==> q in used
  }

  /** Every raster position is taken. */
  ghost predicate GridFull(used: set<Pos>) {
    forall q :: OnRaster(q) ==> q in used
  }

  /** The number of the first raster position from number k on that is free, if any. */
  function FreeIndexFrom(used: set<Pos>, k: nat): (r: Option<nat>)
    requires k <= Cells
    ensures r.Some? ==> k <= r.value < Cells && RasterAt(r.value) !in used
    ensures r.Some? ==> forall j :: k <= j < r.value ==> RasterAt(j) in used
    ensures r.None? <==> forall j :: k <= j < Cells ==> RasterAt(j) in used
    decreases Cells - k
  {
    if k == Cells then None
    else if RasterAt(k) !in used then Some(k)
    else FreeIndexFrom(used, k + 1)
  }

  /** The slot the search returns for the occupancy set `used`. */
  function FirstFree(used: set<Pos>): (r: Option<Pos>)
    ensures r.Some? ==> IsFirstFit(used, r.value)
    ensures r.None? <==> GridFull(used)
  {
    match FreeIndexFrom(used, 0)
    case None =>
      assert GridFull(used) by {
        forall q | OnRaster(q) ensures q in used {
          assert RasterAt(RankOf(q)) == q;
        }
      }
      None
    case Some(m) =>
      assert IsFirstFit(used, RasterAt(m)) by {
        forall q | OnRaster(q) && Before(q, RasterAt(m)) ensures q in used {
          RasterOrder(RankOf(q), m);
        }
      }
      Some(RasterAt(m))
  }

  /** The first-fit slot is unique: any position meeting IsFirstFit is the one FirstFree finds. */
  lemma FirstFitIsFirstFree(used: set<Pos>, p: Pos)
    requires IsFirstFit(used, p)
    ensures FirstFree(used) == Some(p)
  {
    assert !GridFull(used) by {
      assert OnRaster(p) && p !in used;
    }
    var q := FirstFree(used).value;
    RasterOrder(RankOf(q), RankOf(p));
    RasterOrder(RankOf(p), RankOf(q));
    assert RankOf(q) == RankOf(p);
  }

  /**
   * The slot search: x from Low to High in the outer loop, z from Low to
   * High in the inner one, returning the first candidate not in `used`.
   */
  method NextAvailablePosition(used: set<Pos>) returns (pos: Option<Pos>)
    ensures pos.Some? ==> IsFirstFit(used, pos.value)
    ensures pos.None? <==> GridFull(used)
    ensures pos == FirstFree(used)
  {
    var x := Low;
    while x <= High
      invariant Low <= x <= High + 1
      invariant forall q :: OnRaster(q) && q.x < Spacing * x ==> q in used
    {
      var z := Low;
      while z <= High
        invariant Low <= z <= High + 1
        invariant forall q :: OnRaster(q) && q.x < Spacing * x ==> q in used
        invariant forall q :: OnRaster(q) && q.x == Spacing * x && q.z < Spacing * z ==> q in used
      {
        var p := Candidate(x, z);
        if p !in used {
          assert IsFirstFit(used, p);
          FirstFitIsFirstFree(used, p);
          return Some(p);
        }
        z := z + 1;
      }
      x := x + 1;
    }
    return None;
  }

  /** The object list after one spawn request; None stands for a null request. */
  function SpawnStep(objects: seq<WorldObject>, request: Option<Kind>): (r: seq<WorldObject>)
    ensures |objects| <= |r| <= |objects| + 1 && r[..|objects|] == objects
  {
    match request
    case None => objects
    case Some(kind) =>
      match FirstFree(UsedPositions(objects))
      case None => objects
      case Some(p) => objects + [WorldObject(kind, p)]
  }

  /**
   * When one spawn request adds an object: exactly when the request is not
   * null and some raster position is free; the object has the requested
   * type and the first free position.
   */
  lemma SpawnOutcome(objects: seq<WorldObject>, request: Option<Kind>)
    ensures var r := SpawnStep(objects, request);
      |r| == |objects| + 1 <==> request.Some? && !GridFull(UsedPositions(objects))
    ensures var r := SpawnStep(objects, request);
      |r| == |objects| + 1 ==>
        r[|objects|].kind == request.value
        && IsFirstFit(UsedPositions(objects), r[|objects|].position)
  {
  }

  /** Spawning keeps the positions of the object list pairwise distinct. */
  lemma SpawnPreservesDistinct(objects: seq<WorldObject>, request: Option<Kind>)
    requires DistinctPositions(objects)
    ensures DistinctPositions(SpawnStep(objects, request))
  {
    var r := SpawnStep(objects, request);
    if |r| == |objects| + 1 {
      var used := UsedPositions(objects);
      var p := r[|objects|].position;
      assert p !in used;
      forall i, j | 0 <= i < j < |r| ensures r[i].position != r[j].position {
        if j == |objects| {
          assert r[i] == objects[i];
        } else {
          assert r[i] == objects[i] && r[j] == objects[j];
        }
      }
    }
  }

  /** In an empty world the first spawn lands in the corner [-10, 0, -10]. */
  lemma FirstSpawnInCorner(kind: Kind)
    ensures SpawnStep([], Some(kind)) == [WorldObject(kind, Pos(MinCoord, 0, MinCoord))]
  {
    var p := Pos(MinCoord, 0, MinCoord);
    assert IsFirstFit(UsedPositions([]), p);
    FirstFitIsFirstFree(UsedPositions([]), p);
  }

  /** The list after a sequence of spawn requests, applied in order. */
  function SpawnAll(objects: seq<WorldObject>, requests: seq<Option<Kind>>): (r: seq<WorldObject>)
    ensures |objects| <= |r| <= |objects| + |requests| && r[..|objects|] == objects
    decreases |requests|
  {
    if requests == [] then objects
    else SpawnAll(SpawnStep(objects, requests[0]), requests[1..])
  }

  /** The type a single request asks for: none for a null request. */
  function KindsOf(request: Option<Kind>): seq<Kind> {
    if request.Some? then [request.value] else []
  }

  /** The types of the non-null requests, in order. */
  function Requested(requests: seq<Option<Kind>>): seq<Kind>
    decreases |requests|
  {
    if requests == [] then [] else KindsOf(requests[0]) + Requested(requests[1..])
  }

  /** Appending the kinds of a request list one request at a time. */
  lemma {:induction false} RequestedCons(kinds: seq<Kind>, requests: seq<Option<Kind>>)
    requires requests != []
    ensures (kinds + KindsOf(requests[0])) + Requested(requests[1..]) == kinds + Requested(requests)
  {
    var head, tail := KindsOf(requests[0]), Requested(requests[1..]);
    assert Requested(requests) == head + tail;
    assert (kinds + head) + tail == kinds + (head + tail);
  }

  function Min(a: int, b: int): int {
    if a <= b then a else b
  }

  /**
   * The list holds the first Cells requested kinds, placed on the raster in
   * visiting order.
   */
  predicate Layout(objects: seq<WorldObject>, kinds: seq<Kind>) {
    |objects| == Min(Cells, |kinds|)
    && forall i :: 0 <= i < |objects| ==> objects[i] == WorldObject(kinds[i], RasterAt(i))
  }

  /** In a layout the first free slot is the next raster position, or there is none once all are used. */
  lemma LayoutFirstFree(objects: seq<WorldObject>, kinds: seq<Kind>)
    requires Layout(objects, kinds)
    ensures |objects| < Cells ==> FirstFree(UsedPositions(objects)) == Some(RasterAt(|objects|))
    ensures |objects| == Cells ==> FirstFree(UsedPositions(objects)) == None
  {
    var n := |objects|;
    var used := UsedPositions(objects);
    if n < Cells {
      var p := RasterAt(n);
      forall q | OnRaster(q) && Before(q, p) ensures q in used {
        RasterOrder(RankOf(q), n);
        assert objects[RankOf(q)].position == q;
      }
      forall i | 0 <= i < n ensures objects[i].position != p {
        RasterAtInjective(i, n);
      }
      FirstFitIsFirstFree(used, p);
    } else {
      forall q | OnRaster(q) ensures q in used {
        assert objects[RankOf(q)].position == q;
      }
    }
  }

  /** One spawn request extends a layout by the requested kind. */
  lemma SpawnStepLayout(objects: seq<WorldObject>, kinds: seq<Kind>, request: Option<Kind>)
    requires Layout(objects, kinds)
    ensures Layout(SpawnStep(objects, request), kinds + KindsOf(request))
  {
    LayoutFirstFree(objects, kinds);
    if request.Some? && |objects| < Cells {
      LayoutAppend(objects, kinds, request.value);
    }
  }

  /** Appending the requested kind at the next raster position extends a layout. */
  lemma LayoutAppend(objects: seq<WorldObject>, kinds: seq<Kind>, kind: Kind)
    requires Layout(objects, kinds) && |objects| < Cells
    ensures Layout(objects + [WorldObject(kind, RasterAt(|objects|))], kinds + [kind])
  {
    var r := objects + [WorldObject(kind, RasterAt(|objects|))];
    var ks := kinds + [kind];
    forall i | 0 <= i < |r| ensures r[i] == WorldObject(ks[i], RasterAt(i)) {
      if i < |objects| {
        assert r[i] == objects[i];
      }
    }
  }

  /**
   * Spawning from any layout keeps a layout; in particular, from an empty
   * world the list after any requests holds min(121, number of non-null
   * requests) objects, the k-th at the k-th raster position.
   */
  lemma {:induction false} SpawnAllLayout(objects: seq<WorldObject>, kinds: seq<Kind>, requests: seq<Option<Kind>>)
    requires Layout(objects, kinds)
    ensures Layout(SpawnAll(objects, requests), kinds + Requested(requests))
    decreases |requests|
  {
    if requests == [] {
      assert kinds + Requested(requests) == kinds;
    } else {
      var head := KindsOf(requests[0]);
      var next := SpawnStep(objects, requests[0]);
      SpawnStepLayout(objects, kinds, requests[0]);
      SpawnAllLayout(next, kinds + head, requests[1..]);
      RequestedCons(kinds, requests);
    }
  }

  /** A layout never holds two objects at one position. */
  lemma LayoutDistinct(objects: seq<WorldObject>, kinds: seq<Kind>)
    requires Layout(objects, kinds)
    ensures DistinctPositions(objects)
  {
    forall i, j | 0 <= i < j < |objects| ensures objects[i].position != objects[j].position {
      RasterAtInjective(i, j);
    }
  }

  /** At most 121 objects can ever be spawned into an empty world, at the first raster positions. */
  lemma {:induction false} SpawnedFromEmpty(requests: seq<Option<Kind>>)
    ensures var r := SpawnAll([], requests);
      |r| == Min(Cells, |Requested(requests)|) && |r| <= Cells
      && DistinctPositions(r)
      && forall i :: 0 <= i < |r| ==> r[i].kind == Requested(requests)[i] && r[i].position == RasterAt(i)
  {
    assert Layout([], []);
    SpawnAllLayout([], [], requests);
    assert [] + Requested(requests) == Requested(requests);
    LayoutDistinct(SpawnAll([], requests), Requested(requests));
  }

  /** A list that spawns can build from an empty world stays one after another spawn. */
  lemma SpawnKeepsReachable(objects: seq<WorldObject>, request: Option<Kind>)
    requires exists kinds :: Layout(objects, kinds)
    ensures exists kinds :: Layout(SpawnStep(objects, request), kinds)
    ensures |SpawnStep(objects, request)| <= Cells
  {
    var kinds :| Layout(objects, kinds);
    SpawnStepLayout(objects, kinds, request);
  }

  /** The scene component's state: the object list it renders. */
  class WorldScene {
    var objects: seq<WorldObject>

    /** The list is one that spawn requests can build from an empty world. */
    ghost predicate Valid()
      reads this
    {
      exists kinds :: Layout(objects, kinds)
    }

    /** The scene starts with no objects. */
    constructor ()
      ensures objects == [] && Valid()
    {
      objects := [];
      assert Layout([], []);
    }

    /**
     * The spawn effect: on a non-null request, look up the first free
     * raster position and append one object of the requested type there;
     * otherwise, or when the raster is full, leave the list alone.
     */
    method Spawn(request: Option<Kind>)
      modifies this
      ensures objects == SpawnStep(old(objects), request)
      ensures old(DistinctPositions(objects)) ==> DistinctPositions(objects)
      ensures old(Valid()) ==> Valid() && |objects| <= Cells
    {
      var next := objects;
      if request.Some? {
        var pos := NextAvailablePosition(UsedPositions(objects));
        if pos.Some? {
          next := objects + [WorldObject(request.value, pos.value)];
        }
      }
      assert next == SpawnStep(objects, request);
      if DistinctPositions(objects) {
        SpawnPreservesDistinct(objects, request);
      }
      if Valid() {
        SpawnKeepsReachable(objects, request);
      }
      objects := next;
    }
  }
}
