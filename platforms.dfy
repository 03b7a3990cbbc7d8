/**
 * Platform generation (platforms.py): every link of the symmetric adjacency
 * matrix gives two platforms, one at each end station, each targeting the
 * other. The database table the records go to is modelled as a log of rows.
 */
module Platforms {

  /** One platform record: an id, the station it belongs to, the platform it leads to, its load and whether it is open. */
  class Platform {
    var id: int
    var stationId: int
    var targetPlatformId: int
    var currentPeople: int
    var isOpen: bool

    constructor (id: int, stationId: int, targetPlatformId: int, currentPeople: int, isOpen: bool)
      ensures this.id == id && this.stationId == stationId && this.targetPlatformId == targetPlatformId
      ensures this.currentPeople == currentPeople && this.isOpen == isOpen
    {
      this.id := id;
      this.stationId := stationId;
      this.targetPlatformId := targetPlatformId;
      this.currentPeople := currentPeople;
      this.isOpen := isOpen;
    }
  }

  /** The two columns generate_with_adjacency_matrix fills in a row of the platforms table. */
  datatype PlatformRow = PlatformRow(stationId: int, targetPlatformId: int)

  /** The platforms table: rows in insertion order; the row at position k gets platform id k + 1. */
  class PlatformTable {
    var rows: seq<PlatformRow>

    constructor ()
      ensures rows == []
    {
      rows := [];
    }

    method Insert(r: PlatformRow)
      modifies this
      ensures rows == old(rows) + [r]
    {
      rows := rows + [r];
    }
  }

  /** Every row is at least as long as the matrix is high, so matrix[i][j] exists for i, j < n. */
  predicate Readable(m: seq<seq<int>>)
  {
    forall i :: 0 <= i < |m| ==> |m[i]| >= |m|
  }

  /** Cell p comes before cell q in row-major order. */
  predicate Before(p: (nat, nat), q: (nat, nat))
  {
    p.0 < q.0 || (p.0 == q.0 && p.1 < q.1)
  }

  /** Strictly increasing in row-major order (so also free of repeats). */
  predicate RowMajor(es: seq<(nat, nat)>)
  {
    forall a, b :: 0 <= a < b < |es| ==> Before(es[a], es[b])
  }

  /** The cells (i, j) with i <= j < bound that hold a 1, left to right. */
  function RowEdges(m: seq<seq<int>>, i: nat, bound: nat): (es: seq<(nat, nat)>)
    requires Readable(m) && i < |m| && i <= bound <= |m|
    ensures |es| <= bound - i
    decreases bound - i
  {
    if bound == i then []
    else if m[i][bound - 1] == 1 then RowEdges(m, i, bound - 1) + [(i, bound - 1)]
    else RowEdges(m, i, bound - 1)
  }

  /** The 1-cells on or above the diagonal in the rows before i, in row-major order. */
  function EdgesBefore(m: seq<seq<int>>, i: nat): (es: seq<(nat, nat)>)
    requires Readable(m) && i <= |m|
  {
    if i == 0 then [] else EdgesBefore(m, i - 1) + RowEdges(m, i - 1, |m|)
  }

  /** RowEdges lists exactly the 1-cells of row i in columns i to bound - 1, left to right. */
  lemma {:induction false} RowEdgesSpec(m: seq<seq<int>>, i: nat, bound: nat)
    requires Readable(m) && i < |m| && i <= bound <= |m|
    ensures forall e :: e in RowEdges(m, i, bound) <==> e.0 == i && i <= e.1 < bound && m[i][e.1] == 1
    ensures RowMajor(RowEdges(m, i, bound))
    decreases bound - i
  {
    if bound > i {
      RowEdgesSpec(m, i, bound - 1);
    }
  }

  /** EdgesBefore lists exactly the upper-triangle 1-cells of the rows before i, in row-major order. */
  lemma {:induction false} EdgesBeforeSpec(m: seq<seq<int>>, i: nat)
    requires Readable(m) && i <= |m|
    ensures forall e :: e in EdgesBefore(m, i) <==> e.0 < i && e.0 <= e.1 < |m| && m[e.0][e.1] == 1
    ensures RowMajor(EdgesBefore(m, i))
  {
    if i > 0 {
      var front := EdgesBefore(m, i - 1);
      var row := RowEdges(m, i - 1, |m|);
      EdgesBeforeSpec(m, i - 1);
      RowEdgesSpec(m, i - 1, |m|);
      forall a, b | 0 <= a < b < |front + row| ensures Before((front + row)[a], (front + row)[b]) {
        if b >= |front| && a < |front| {
          assert (front + row)[a] in front;
          assert (front + row)[b] == row[b - |front|] && row[b - |front|] in row;
        } else if b < |front| {
          assert (front + row)[a] == front[a] && (front + row)[b] == front[b];
        } else {
          assert (front + row)[a] == row[a - |front|] && (front + row)[b] == row[b - |front|];
        }
      }
    }
  }

  /** All 1-cells of the upper triangle (diagonal included), in the order the nested loops visit them. */
  function UpperEdges(m: seq<seq<int>>): (es: seq<(nat, nat)>)
    requires Readable(m)
  {
    EdgesBefore(m, |m|)
  }

  /**
   * Row r (from 0) written for a list of links: link r / 2 = (i, j) gives first
   * a platform at station i + 1 targeting platform r + 2, then a platform at
   * station j + 1 targeting platform r.
   */
  function RowAt(es: seq<(nat, nat)>, r: nat): PlatformRow
    requires r < 2 * |es|
  {
    if r % 2 == 0 then PlatformRow(es[r / 2].0 + 1, r + 2) else PlatformRow(es[r / 2].1 + 1, r)
  }

  /** All rows written for a list of links, two per link, in link order. */
  function RowsFor(es: seq<(nat, nat)>): (rows: seq<PlatformRow>)
    ensures |rows| == 2 * |es|
  {
    if es == [] then []
    else
      var n := |es|;
      RowsFor(es[..n - 1]) + [PlatformRow(es[n - 1].0 + 1, 2 * n), PlatformRow(es[n - 1].1 + 1, 2 * n - 1)]
  }

  /** The rows for the links so far and one more link (i, j). */
  lemma {:induction false} RowsForSnoc(es: seq<(nat, nat)>, i: nat, j: nat)
    ensures RowsFor(es + [(i, j)])
      == RowsFor(es) + [PlatformRow(i + 1, 2 * |es| + 2), PlatformRow(j + 1, 2 * |es| + 1)]
  {
    var e := es + [(i, j)];
    assert e != [] && e[..|e| - 1] == es && e[|e| - 1] == (i, j);
  }

  /** Row r of RowsFor(es) is RowAt(es, r). */
  lemma {:induction false} RowsForAt(es: seq<(nat, nat)>, r: nat)
    requires r < 2 * |es|
    ensures RowsFor(es)[r] == RowAt(es, r)
  {
    var n := |es|;
    if r < 2 * (n - 1) {
      RowsForAt(es[..n - 1], r);
      assert es[..n - 1][r / 2] == es[r / 2];
    }
  }

  /**
   * One pass of the inner loop, over row i from the diagonal on: for every 1 at
   * (i, j), two rows (i + 1, current_id + 1) and (j + 1, current_id) go to the
   * table and current_id moves on by 2. Here log0 is the table before the
   * generator started and done the links of the rows above.
   */
  method GenerateRow(db: PlatformTable, matrix: seq<seq<int>>, i: nat, currentId: int,
                     ghost log0: seq<PlatformRow>, ghost done: seq<(nat, nat)>)
    returns (nextId: int)
    requires Readable(matrix) && i < |matrix|
    requires db.rows == log0 + RowsFor(done) && currentId == 1 + 2 * |done|
    modifies db
    ensures db.rows == log0 + RowsFor(done + RowEdges(matrix, i, |matrix|))
    ensures nextId == 1 + 2 * |done + RowEdges(matrix, i, |matrix|)|
  {
    nextId := currentId;
    ghost var es := done;
    for j := i to |matrix|
      invariant es == done + RowEdges(matrix, i, j)
      invariant db.rows == log0 + RowsFor(es) && nextId == 1 + 2 * |es|
    {
      if matrix[i][j] == 1 {
        RowsForSnoc(es, i, j);
        db.Insert(PlatformRow(i + 1, nextId + 1));
        db.Insert(PlatformRow(j + 1, nextId));
        nextId := nextId + 2;
        es := es + [(i, j)];
      }
    }
  }

  /**
   * The nested loops over the upper triangle: row by row, each 1 at (i, j) with
   * i <= j writes two rows, and current_id starts at 1.
   */
  method GenerateWithAdjacencyMatrix(db: PlatformTable, matrix: seq<seq<int>>)
    requires Readable(matrix)
    modifies db
    ensures db.rows == old(db.rows) + RowsFor(UpperEdges(matrix))
  {
    ghost var log0 := db.rows;
    var currentId := 1;
    for i := 0 to |matrix|
      invariant db.rows == log0 + RowsFor(EdgesBefore(matrix, i))
      invariant currentId == 1 + 2 * |EdgesBefore(matrix, i)|
    {
      currentId := GenerateRow(db, matrix, i, currentId, log0, EdgesBefore(matrix, i));
    }
  }

  /** Two matrices that agree on and above the diagonal list the same links in row i. */
  lemma {:induction false} RowEdgesAgree(m: seq<seq<int>>, m': seq<seq<int>>, i: nat, bound: nat)
    requires Readable(m) && Readable(m') && |m| == |m'| && i < |m| && i <= bound <= |m|
    requires forall a, b :: 0 <= a <= b < |m| ==> m[a][b] == m'[a][b]
    ensures RowEdges(m, i, bound) == RowEdges(m', i, bound)
    decreases bound - i
  {
    if bound > i {
      RowEdgesAgree(m, m', i, bound - 1);
    }
  }

  /** Two matrices that agree on and above the diagonal list the same links before row i. */
  lemma {:induction false} EdgesBeforeAgree(m: seq<seq<int>>, m': seq<seq<int>>, i: nat)
    requires Readable(m) && Readable(m') && |m| == |m'| && i <= |m|
    requires forall a, b :: 0 <= a <= b < |m| ==> m[a][b] == m'[a][b]
    ensures EdgesBefore(m, i) == EdgesBefore(m', i)
  {
    if i > 0 {
      EdgesBeforeAgree(m, m', i - 1);
      RowEdgesAgree(m, m', i - 1, |m|);
    }
  }

  /** Entries below the diagonal are never read: they cannot change the rows written. */
  lemma LowerTriangleIgnored(m: seq<seq<int>>, m': seq<seq<int>>)
    requires Readable(m) && Readable(m') && |m| == |m'|
    requires forall a, b :: 0 <= a <= b < |m| ==> m[a][b] == m'[a][b]
    ensures RowsFor(UpperEdges(m)) == RowsFor(UpperEdges(m'))
  {
    EdgesBeforeAgree(m, m', |m|);
  }

  /** The 1-cells on or above the diagonal, as a set. */
  ghost function UpperCells(m: seq<seq<int>>): set<(nat, nat)>
    requires Readable(m)
  {
    set i: nat, j: nat | i <= j < |m| && m[i][j] == 1 :: (i, j)
  }

  /** A list in strict row-major order has as many elements as the set of its elements. */
  lemma {:induction false} RowMajorCard(es: seq<(nat, nat)>)
    requires RowMajor(es)
    ensures |set e | e in es| == |es|
  {
    if es != [] {
      var front := es[..|es| - 1];
      var last := es[|es| - 1];
      assert RowMajor(front);
      RowMajorCard(front);
      assert (set e | e in es) == (set e | e in front) + {last};
      forall a | 0 <= a < |front| ensures front[a] != last {
        assert Before(es[a], es[|es| - 1]);
      }
    }
  }

  /** The table gets two rows for every 1 on or above the diagonal. */
  lemma RowCount(m: seq<seq<int>>)
    requires Readable(m)
    ensures |RowsFor(UpperEdges(m))| == 2 * |UpperCells(m)|
  {
    var es := UpperEdges(m);
    EdgesBeforeSpec(m, |m|);
    RowMajorCard(es);
    assert (set e | e in es) == UpperCells(m);
  }

  /** The partner of platform p (ids from 1): the other platform of the same link. */
  function Partner(p: nat): (q: nat)
    requires p >= 1
    ensures q >= 1 && q != p && (p - 1) / 2 == (q - 1) / 2
  {
    if p % 2 == 1 then p + 1 else p - 1
  }

  /** Partner pairs platforms off: the partner of the partner is the platform itself. */
  lemma PartnerInvolution(p: nat)
    requires p >= 1
    ensures Partner(Partner(p)) == p
  {
  }

  /** Platform p (ids from 1) of the rows for es targets its partner. */
  lemma TargetIsPartner(es: seq<(nat, nat)>, p: nat)
    requires 1 <= p <= 2 * |es|
    ensures Partner(p) <= 2 * |es| && RowsFor(es)[p - 1].targetPlatformId == Partner(p)
  {
    RowsForAt(es, p - 1);
  }

  /** Rows 2k and 2k + 1 for es sit at the two ends of link k. */
  lemma StationsOfLink(es: seq<(nat, nat)>, k: nat)
    requires k < |es|
    ensures RowsFor(es)[2 * k].stationId == es[k].0 + 1
    ensures RowsFor(es)[2 * k + 1].stationId == es[k].1 + 1
  {
    RowsForAt(es, 2 * k);
    RowsForAt(es, 2 * k + 1);
  }

  /**
   * With ids 1, 2, 3, ... given in insertion order, every platform targets the
   * other platform of its link and that one targets it back; the two platforms
   * of a link sit at the two ends of a 1 on or above the diagonal.
   */
  lemma PlatformsPaired(m: seq<seq<int>>)
    requires Readable(m)
    ensures var rows := RowsFor(UpperEdges(m));
      forall p :: 1 <= p <= |rows| ==>
        Partner(p) <= |rows| && rows[p - 1].targetPlatformId == Partner(p)
        && rows[Partner(p) - 1].targetPlatformId == p
    ensures var rows := RowsFor(UpperEdges(m));
      forall k :: 0 <= k < |rows| / 2 ==>
        var a, b := rows[2 * k].stationId, rows[2 * k + 1].stationId;
        1 <= a <= b <= |m| && m[a - 1][b - 1] == 1
  {
    var es := UpperEdges(m);
    var rows := RowsFor(es);
    forall p | 1 <= p <= |rows|
      ensures Partner(p) <= |rows| && rows[p - 1].targetPlatformId == Partner(p)
      ensures rows[Partner(p) - 1].targetPlatformId == p
    {
      TargetIsPartner(es, p);
      TargetIsPartner(es, Partner(p));
      PartnerInvolution(p);
    }
    EdgesBeforeSpec(m, |m|);
    forall k | 0 <= k < |es|
      ensures var a, b := rows[2 * k].stationId, rows[2 * k + 1].stationId;
              1 <= a <= b <= |m| && m[a - 1][b - 1] == 1
    {
      StationsOfLink(es, k);
      assert es[k] in es;
    }
  }
}
