/**
 * The spawn raster of the world scene.
 *
 * The slot search walks grid indices x and z from Low to High (x in the
 * outer loop, z in the inner one) and turns each pair into the position
 * [Spacing * x, 0, Spacing * z].  This module names those positions, numbers
 * them in the order the search visits them and relates that numbering to the
 * order "x first, then z" on the positions themselves.
 */
module Grid {

  /** A position [x, y, z] as the scene stores it; the raster only produces integers. */
  datatype Pos = Pos(x: int, y: int, z: int)

  /** Bounds of the loop counters of the slot search. */
  const Low: int := -5
  const High: int := 5
  /** The factor a loop counter is multiplied by to give a coordinate. */
  const Spacing: int := 2
  /** Candidates per row of the raster, and in all. */
  const Side: nat := 11
  const Cells: nat := 121

  /** Smallest and largest coordinate a raster position can have. */
  const MinCoord: int := -10
  const MaxCoord: int := 10

  /**
   * The candidate the search builds from the counters x and z: on the raster
   * while both counters are within their loop bounds, and the counters can
   * be read back from it.
   */
  function Candidate(x: int, z: int): (p: Pos)
    ensures Low <= x <= High && Low <= z <= High ==> OnRaster(p)
    ensures p.x / Spacing == x && p.z / Spacing == z
  {
    Pos(Spacing * x, 0, Spacing * z)
  }

  /** p is one of the candidates of the search: on the floor, even coordinates in [-10, 10]. */
  predicate OnRaster(p: Pos) {
    p.y == 0
    && p.x % 2 == 0 && MinCoord <= p.x <= MaxCoord
    && p.z % 2 == 0 && MinCoord <= p.z <= MaxCoord
  }

  /** Raster order: x decides, and z breaks ties (x is the outer loop). */
  predicate Before(p: Pos, q: Pos) {
    p.x < q.x || (p.x == q.x && p.z < q.z)
  }

  /** The k-th candidate the search visits. */
  function RasterAt(k: nat): (p: Pos)
    requires k < Cells
    ensures OnRaster(p)
  {
    Candidate(Low + k / Side, Low + k % Side)
  }

  /** The visiting number of a raster position. */
  function RankOf(p: Pos): (k: nat)
    requires OnRaster(p)
    ensures k < Cells && RasterAt(k) == p
  {
    (p.x / Spacing - Low) * Side + (p.z / Spacing - Low)
  }

  /** Numbering the raster is one-to-one: no position is visited twice. */
  lemma RankOfRasterAt(k: nat)
    requires k < Cells
    ensures RankOf(RasterAt(k)) == k
  {
    var p := RasterAt(k);
    assert p.x / Spacing == Low + k / Side;
    assert p.z / Spacing == Low + k % Side;
  }

  /** Two visiting numbers give the same position only if they are equal. */
  lemma RasterAtInjective(i: nat, j: nat)
    requires i < Cells && j < Cells
    ensures RasterAt(i) == RasterAt(j) <==> i == j
  {
    if RasterAt(i) == RasterAt(j) {
      RankOfRasterAt(i);
      RankOfRasterAt(j);
    }
  }

  /** The search visits the raster in raster order: its numbering is monotone both ways. */
  lemma RasterOrder(i: nat, j: nat)
    requires i < Cells && j < Cells
    ensures i < j <==> Before(RasterAt(i), RasterAt(j))
  {
    var qi, ri := i / Side, i % Side;
    var qj, rj := j / Side, j % Side;
    assert i == qi * Side + ri && j == qj * Side + rj;
    if i < j {
      assert qi <= qj;
    }
    if Before(RasterAt(i), RasterAt(j)) {
      assert qi < qj || (qi == qj && ri < rj);
      if qi < qj {
        assert qi * Side + Side <= qj * Side;
      }
    }
  }
}
