/** The triangle table of the Delaunay step (`delaunay_triangulation`):
    for every raw file that is to be processed, one header row and one
    ten-column row per triangle, holding the triangle number, the corners'
    projected coordinates and the corners' positions in the raw file. */
module TriangleTable {
  import opened Common

  /** A cell of the written table. */
  datatype Cell = Label(text: string) | Integer(whole: int) | Coordinate(metres: real)

  /** The column names, in order. */
  const Header: seq<Cell> := [
    Label("no."), Label("sX1_aeqd"), Label("sX2_aeqd"), Label("sX3_aeqd"),
    Label("sY1_aeqd"), Label("sY2_aeqd"), Label("sY3_aeqd"),
    Label("vertice_idx1"), Label("vertice_idx2"), Label("vertice_idx3")
  ]

  /** One Delaunay simplex: the positions of its three corners among the
      triangulated points. */
  datatype Simplex = Simplex(v1: nat, v2: nat, v3: nat)

  /** The content of one data row. */
  datatype TriangleRecord = TriangleRecord(
    number: int,
    x1: real, x2: real, x3: real,
    y1: real, y2: real, y3: real,
    corners: Simplex)

  /** The row written for a record. */
  function Encode(t: TriangleRecord): (row: seq<Cell>)
    ensures |row| == |Header|
  {
    [ Integer(t.number),
      Coordinate(t.x1), Coordinate(t.x2), Coordinate(t.x3),
      Coordinate(t.y1), Coordinate(t.y2), Coordinate(t.y3),
      Integer(t.corners.v1), Integer(t.corners.v2), Integer(t.corners.v3) ]
  }

  /** Reads a data row back, when it has the layout of the header. */
  function Decode(row: seq<Cell>): Option<TriangleRecord>
  {
    if && |row| == |Header|
       && row[0].Integer?
       && row[1].Coordinate? && row[2].Coordinate? && row[3].Coordinate?
       && row[4].Coordinate? && row[5].Coordinate? && row[6].Coordinate?
       && row[7].Integer? && row[8].Integer? && row[9].Integer?
       && row[7].whole >= 0 && row[8].whole >= 0 && row[9].whole >= 0
    then Some(TriangleRecord(
      row[0].whole,
      row[1].metres, row[2].metres, row[3].metres,
      row[4].metres, row[5].metres, row[6].metres,
      Simplex(row[7].whole, row[8].whole, row[9].whole)))
    else None
  }

  /** Reading a written row gives back its record. */
  lemma DecodeEncode(t: TriangleRecord)
    ensures Decode(Encode(t)) == Some(t)
  {
  }

  /** A row that reads as a record is exactly that record's row. */
  lemma EncodeDecode(row: seq<Cell>)
    requires Decode(row).Some?
    ensures Encode(Decode(row).value) == row
  {
    var t := Decode(row).value;
    var r := Encode(t);
    forall k | 0 <= k < |row|
      ensures r[k] == row[k]
    {
    }
  }

  /** The projected points of one raw file, in its row order, and the
      triangulation computed from them. */
  datatype Triangulated = Triangulated(sx: seq<real>, sy: seq<real>, simplices: seq<Simplex>)

  /** Every corner position names a point. */
  predicate WellFormed(t: Triangulated)
  {
    && |t.sx| == |t.sy|
    && forall n :: 0 <= n < |t.simplices| ==>
         t.simplices[n].v1 < |t.sx| && t.simplices[n].v2 < |t.sx| && t.simplices[n].v3 < |t.sx|
  }

  /** The points handed to the triangulation: coordinate `k` of each axis
      paired (`zip(sX_aeqd, sY_aeqd)`). */
  function Points(t: Triangulated): (pts: seq<(real, real)>)
    requires WellFormed(t)
    ensures |pts| == |t.sx|
    ensures forall k :: 0 <= k < |pts| ==> pts[k] == (t.sx[k], t.sy[k])
  {
    seq(|t.sx|, k requires 0 <= k < |t.sx| => (t.sx[k], t.sy[k]))
  }

  /** The record of triangle `n`: its corners looked up by position. */
  function TriangleOf(t: Triangulated, n: nat): TriangleRecord
    requires WellFormed(t) && n < |t.simplices|
  {
    var s := t.simplices[n];
    TriangleRecord(n, t.sx[s.v1], t.sx[s.v2], t.sx[s.v3], t.sy[s.v1], t.sy[s.v2], t.sy[s.v3], s)
  }

  /** The whole table of one file. */
  function Table(t: Triangulated): seq<seq<Cell>>
    requires WellFormed(t)
  {
    [Header] + seq(|t.simplices|, n requires 0 <= n < |t.simplices| => Encode(TriangleOf(t, n)))
  }

  /** The row-building loop: the header, then one row per simplex. */
  method TriangleRows(t: Triangulated) returns (rows: seq<seq<Cell>>)
    requires WellFormed(t)
    ensures rows == Table(t)
  {
    rows := [Header];
    var n := 0;
    while n < |t.simplices|
      invariant 0 <= n <= |t.simplices|
      invariant |rows| == n + 1 && rows[0] == Header
      invariant forall m :: 0 <= m < n ==> rows[m + 1] == Encode(TriangleOf(t, m))
    {
      var s := t.simplices[n];
      var verticeIdx1, verticeIdx2, verticeIdx3 := s.v1, s.v2, s.v3;
      var sX1, sX2, sX3 := t.sx[verticeIdx1], t.sx[verticeIdx2], t.sx[verticeIdx3];
      var sY1, sY2, sY3 := t.sy[verticeIdx1], t.sy[verticeIdx2], t.sy[verticeIdx3];
      rows := rows + [[ Integer(n), Coordinate(sX1), Coordinate(sX2), Coordinate(sX3),
                        Coordinate(sY1), Coordinate(sY2), Coordinate(sY3),
                        Integer(verticeIdx1), Integer(verticeIdx2), Integer(verticeIdx3) ]];
      n := n + 1;
    }
  }

  /** The coordinates a record holds are those of the points at the
      positions it holds. */
  predicate MatchesPoints(r: TriangleRecord, t: Triangulated)
    requires WellFormed(t)
  {
    var s := r.corners;
    && s.v1 < |t.sx| && s.v2 < |t.sx| && s.v3 < |t.sx|
    && (r.x1, r.y1) == Points(t)[s.v1]
    && (r.x2, r.y2) == Points(t)[s.v2]
    && (r.x3, r.y3) == Points(t)[s.v3]
  }

  /** The table has one row more than there are triangles; the first is
      the header; data row `n + 1` reads back as triangle `n`, carries the
      corners of simplex `n` in order, and looking its corners up in the
      points gives back the coordinates it stores. */
  lemma TableRoundTrip(t: Triangulated)
    requires WellFormed(t)
    ensures var rows := Table(t);
      && |rows| == |t.simplices| + 1
      && rows[0] == Header
      && forall n :: 0 <= n < |t.simplices| ==>
           && |rows[n + 1]| == |Header|
           && Decode(rows[n + 1]).Some?
           && Decode(rows[n + 1]).value.number == n
           && Decode(rows[n + 1]).value.corners == t.simplices[n]
           && MatchesPoints(Decode(rows[n + 1]).value, t)
  {
    var rows := Table(t);
    forall n | 0 <= n < |t.simplices|
      ensures Decode(rows[n + 1]) == Some(TriangleOf(t, n))
    {
      assert rows[n + 1] == Encode(TriangleOf(t, n));
      DecodeEncode(TriangleOf(t, n));
    }
  }

  /** A raw/processed file pair: whether the processed file is already
      there, and the raw file's contents, or `None` when loading it raises
      `DataFileError`. */
  datatype FilePair = FilePair(processedExists: bool, raw: Option<Triangulated>)

  /** The pair is triangulated and written: it is not skipped as already
      processed, and its raw file loads. */
  predicate Produces(f: FilePair, overwrite: bool)
  {
    !(f.processedExists && !overwrite) && f.raw.Some?
  }

  function Produced(files: seq<FilePair>, overwrite: bool): seq<bool>
  {
    seq(|files|, k requires 0 <= k < |files| => Produces(files[k], overwrite))
  }

  /** A table written for the file pair at position `file`. */
  datatype Written = Written(file: nat, rows: seq<seq<Cell>>)

  /** Every pair that is triangulated holds a well-formed triangulation. */
  predicate Triangulable(files: seq<FilePair>, overwrite: bool)
  {
    forall k :: 0 <= k < |files| && Produces(files[k], overwrite) ==> WellFormed(files[k].raw.value)
  }

  /** The table each pair would be written as, or `None` when it is
      skipped. */
  function Candidates(files: seq<FilePair>, overwrite: bool): seq<Option<Written>>
    requires Triangulable(files, overwrite)
  {
    seq(|files|, k requires 0 <= k < |files| =>
      if Produces(files[k], overwrite) then Some(Written(k, Table(files[k].raw.value))) else None)
  }

  /** The tables of the pairs before position `stop` that are
      triangulated: one per such pair, in order, tagged with its position. */
  lemma {:induction false} TablesBefore(files: seq<FilePair>, overwrite: bool, stop: nat)
    requires Triangulable(files, overwrite) && stop <= |files|
    ensures var chosen := TrueIndices(Produced(files[..stop], overwrite));
      var written := Values(Candidates(files, overwrite)[..stop]);
      && |written| == |chosen|
      && forall k :: 0 <= k < |written| ==>
           chosen[k] < stop && Produces(files[chosen[k]], overwrite)
           && written[k] == Written(chosen[k], Table(files[chosen[k]].raw.value))
  {
    var c := Candidates(files, overwrite)[..stop];
    assert Present(c) == Produced(files[..stop], overwrite);
    ValuesAtTrueIndices(c);
  }

  /** The loop over file pairs, with the skip the handler of a failed load
      evidently means: a table for every pair that is neither already
      processed (without overwrite) nor unloadable, in order, and nothing
      for the others. */
  method DelaunayTriangulation(files: seq<FilePair>, overwrite: bool) returns (written: seq<Written>)
    requires Triangulable(files, overwrite)
    ensures var chosen := TrueIndices(Produced(files, overwrite));
      && |written| == |chosen|
      && forall k :: 0 <= k < |written| ==>
           written[k] == Written(chosen[k], Table(files[chosen[k]].raw.value))
  {
    ghost var candidates := Candidates(files, overwrite);
    written := [];
    var k := 0;
    while k < |files|
      invariant 0 <= k <= |files|
      invariant written == Values(candidates[..k])
    {
      assert candidates[..k + 1][..k] == candidates[..k];
      var f := files[k];
      if f.processedExists && !overwrite {
        k := k + 1;
        continue;
      }
      match f.raw {
        case None =>
        case Some(t) =>
          var rows := TriangleRows(t);
          written := written + [Written(k, rows)];
      }
      k := k + 1;
    }
    assert files[..k] == files;
    TablesBefore(files, overwrite, k);
  }

  /** The pair reaches the loader, and the loader raises `DataFileError`. */
  predicate Unloadable(f: FilePair, overwrite: bool)
  {
    !(f.processedExists && !overwrite) && f.raw.None?
  }

  /** The loop as written: the handler of a failed load adds the exception
      to a string, which raises in turn, so the first unloadable pair ends
      the whole run (`crash` is its position); the tables written before it
      stay written. */
  method DelaunayTriangulationAsWritten(files: seq<FilePair>, overwrite: bool)
    returns (written: seq<Written>, crash: Option<nat>)
    requires Triangulable(files, overwrite)
    ensures crash.Some? ==> crash.value < |files| && Unloadable(files[crash.value], overwrite)
    ensures var stop := if crash.Some? then crash.value else |files|;
      && stop <= |files|
      && (forall j :: 0 <= j < stop ==> !Unloadable(files[j], overwrite))
      && var chosen := TrueIndices(Produced(files[..stop], overwrite));
         && |written| == |chosen|
         && forall k :: 0 <= k < |written| ==>
              written[k] == Written(chosen[k], Table(files[chosen[k]].raw.value))
  {
    ghost var candidates := Candidates(files, overwrite);
    written := [];
    var k := 0;
    while k < |files|
      invariant 0 <= k <= |files|
      invariant forall j :: 0 <= j < k ==> !Unloadable(files[j], overwrite)
      invariant written == Values(candidates[..k])
    {
      assert candidates[..k + 1][..k] == candidates[..k];
      var f := files[k];
      if f.processedExists && !overwrite {
        k := k + 1;
        continue;
      }
      match f.raw {
        case None =>
          TablesBefore(files, overwrite, k);
          return written, Some(k);
        case Some(t) =>
          var rows := TriangleRows(t);
          written := written + [Written(k, rows)];
      }
      k := k + 1;
    }
    assert files[..k] == files;
    TablesBefore(files, overwrite, k);
    crash := None;
  }

  /** An unloadable pair followed by a loadable pair with no triangles. */
  const UnloadableThenLoadable: seq<FilePair> :=
    [FilePair(false, None), FilePair(false, Some(Triangulated([], [], [])))]

  /** On that input the loop as written writes nothing and stops at
      pair 0. */
  method UnloadableFirstPairStops() returns (written: seq<Written>, crash: Option<nat>)
    ensures written == [] && crash == Some(0)
  {
    var files := UnloadableThenLoadable;
    written, crash := DelaunayTriangulationAsWritten(files, false);
    assert crash == Some(0) by {
      assert Unloadable(files[0], false) && !Unloadable(files[1], false);
    }
    assert files[..0] == [] && Produced([], false) == [];
  }

  /** On the same input, skipping the unloadable pair gives pair 1 its
      table, which holds only the header. */
  method UnloadableFirstPairSkipped() returns (corrected: seq<Written>)
    ensures corrected == [Written(1, [Header])]
  {
    var files := UnloadableThenLoadable;
    OnlySecondPairProduced();
    corrected := DelaunayTriangulation(files, false);
    assert Table(files[1].raw.value) == [Header];
    assert corrected == [corrected[0]];
  }

  lemma OnlySecondPairProduced()
    ensures TrueIndices(Produced(UnloadableThenLoadable, false)) == [1]
  {
    var flags := Produced(UnloadableThenLoadable, false);
    assert flags == [false, true];
    assert flags[..1] == [false] && [false][..0] == [];
  }
}
