/** The technology-matrix demonstration: which columns of the suitability
    matrix are binary, and the sieve that keeps the technologies marked
    suitable (1) for every site condition that is a binary column.

    A cell is missing (NaN), a number or a text. Numbers are reals so that
    the float 1.0 and the integer 1 are the same cell, as in pandas. */
module TechnologyMatrix {
  import opened Values

  datatype Cell = Missing | Num(x: real) | Text(s: string)

  const TechnologyColumn := "Technology"

  /** Every row has a cell for every column. */
  ghost predicate Rectangular(columns: seq<string>, rows: seq<map<string, Cell>>) {
    forall i, k :: 0 <= i < |rows| && 0 <= k < |columns| ==> columns[k] in rows[i]
  }

  /** `value in {0, 1, '0', '1'}`. */
  predicate BinaryCell(v: Cell) {
    v == Num(0.0) || v == Num(1.0) || v == Text("0") || v == Text("1")
  }

  /** The column's distinct non-missing values are a subset of
      `{0, 1, '0', '1'}`; a column of missing values only qualifies. */
  predicate BinaryValues(rows: seq<map<string, Cell>>, c: string)
    requires forall i :: 0 <= i < |rows| ==> c in rows[i]
  {
    forall i :: 0 <= i < |rows| && rows[i][c] != Missing ==> BinaryCell(rows[i][c])
  }

  /** The binary columns in column order: every column except `Technology`
      whose values are binary. */
  function BinaryColumns(columns: seq<string>, rows: seq<map<string, Cell>>): seq<string>
    requires Rectangular(columns, rows)
    decreases |columns|
  {
    if columns == [] then []
    else
      var c := columns[|columns| - 1];
      BinaryColumns(columns[..|columns| - 1], rows)
        + (if c != TechnologyColumn && BinaryValues(rows, c) then [c] else [])
  }

  lemma {:induction false} BinaryColumnsExactly(columns: seq<string>, rows: seq<map<string, Cell>>)
    requires Rectangular(columns, rows)
    ensures forall c :: c in BinaryColumns(columns, rows) <==>
      c in columns && c != TechnologyColumn && BinaryValues(rows, c)
    ensures |BinaryColumns(columns, rows)| <= |columns|
    decreases |columns|
  {
    if columns != [] {
      BinaryColumnsExactly(columns[..|columns| - 1], rows);
      assert columns == columns[..|columns| - 1] + [columns[|columns| - 1]];
    }
  }

  /** The column scan of `load_technology_matrix`. */
  method DetectBinaryColumns(columns: seq<string>, rows: seq<map<string, Cell>>) returns (binaryCols: seq<string>)
    requires Rectangular(columns, rows)
    ensures binaryCols == BinaryColumns(columns, rows)
    ensures forall c :: c in binaryCols ==> c in columns && c != TechnologyColumn && BinaryValues(rows, c)
  {
    binaryCols := [];
    for k := 0 to |columns|
      invariant binaryCols == BinaryColumns(columns[..k], rows)
    {
      var col := columns[k];
      assert columns[..k + 1][..k] == columns[..k];
      if col != TechnologyColumn {
        var binary := true;
        for i := 0 to |rows|
          invariant binary <==> BinaryValues(rows[..i], col)
        {
          var v := rows[i][col];
          if v != Missing && !(v == Num(0.0) || v == Num(1.0) || v == Text("0") || v == Text("1")) {
            binary := false;
          }
        }
        assert rows[..|rows|] == rows;
        if binary {
          binaryCols := binaryCols + [col];
        }
      }
    }
    assert columns[..|columns|] == columns;
    BinaryColumnsExactly(columns, rows);
  }

  // ---------------------------------------------------------------------
  // The sieve
  // ---------------------------------------------------------------------

  /** Every row has a technology and a cell for every binary column. */
  ghost predicate Sievable(rows: seq<map<string, Cell>>, binaryCols: seq<string>) {
    forall i :: 0 <= i < |rows| ==> TechnologyColumn in rows[i] && forall c :: c in binaryCols ==> c in rows[i]
  }

  /** A technology passes the sieve when its cell equals the number 1 for
      every site condition that is a binary column; other conditions are
      ignored. */
  predicate Passes(row: map<string, Cell>, binaryCols: seq<string>, conditions: seq<string>)
    requires forall c :: c in binaryCols ==> c in row
  {
    forall c :: c in conditions && c in binaryCols ==> row[c] == Num(1.0)
  }

  /** The technologies of the rows that pass, in row order. */
  function SuitableTechnologies(rows: seq<map<string, Cell>>, binaryCols: seq<string>, conditions: seq<string>): (r: seq<Cell>)
    requires Sievable(rows, binaryCols)
    ensures |r| <= |rows|
    decreases |rows|
  {
    if rows == [] then []
    else
      var last := rows[|rows| - 1];
      SuitableTechnologies(rows[..|rows| - 1], binaryCols, conditions)
        + (if Passes(last, binaryCols, conditions) then [last[TechnologyColumn]] else [])
  }

  /** With no condition that is a binary column, every technology is
      suitable, in row order. */
  lemma {:induction false} NoConditionsAllSuitable(rows: seq<map<string, Cell>>, binaryCols: seq<string>, conditions: seq<string>)
    requires Sievable(rows, binaryCols)
    requires forall c :: c in conditions ==> c !in binaryCols
    ensures SuitableTechnologies(rows, binaryCols, conditions) ==
      seq(|rows|, i requires 0 <= i < |rows| && TechnologyColumn in rows[i] => rows[i][TechnologyColumn])
    decreases |rows|
  {
    if rows != [] {
      NoConditionsAllSuitable(rows[..|rows| - 1], binaryCols, conditions);
    }
  }

  /** One technology is kept exactly when its row passes. */
  lemma {:induction false} SuitableTechnologiesMember(rows: seq<map<string, Cell>>, binaryCols: seq<string>, conditions: seq<string>, k: nat)
    requires Sievable(rows, binaryCols)
    requires k < |rows|
    requires forall i :: 0 <= i < |rows| && i != k ==> rows[i][TechnologyColumn] != rows[k][TechnologyColumn]
    ensures rows[k][TechnologyColumn] in SuitableTechnologies(rows, binaryCols, conditions) <==>
      Passes(rows[k], binaryCols, conditions)
    decreases |rows|
  {
    var init := rows[..|rows| - 1];
    if k < |rows| - 1 {
      SuitableTechnologiesMember(init, binaryCols, conditions, k);
    } else if init != [] {
      NotKept(init, binaryCols, conditions, rows[k][TechnologyColumn]);
    }
  }

  /** A technology named by no row is never kept. */
  lemma {:induction false} NotKept(rows: seq<map<string, Cell>>, binaryCols: seq<string>, conditions: seq<string>, t: Cell)
    requires Sievable(rows, binaryCols)
    requires forall i :: 0 <= i < |rows| ==> rows[i][TechnologyColumn] != t
    ensures t !in SuitableTechnologies(rows, binaryCols, conditions)
    decreases |rows|
  {
    if rows != [] {
      NotKept(rows[..|rows| - 1], binaryCols, conditions, t);
    }
  }

  /** What `demonstrate_sieve_analysis` prints and returns. */
  datatype SieveResult = SieveResult(suitable: seq<Cell>, shown: seq<Cell>, more: nat)

  /** `demonstrate_sieve_analysis`. Indexing `row['Technology']` raises when
      the matrix has rows but no `Technology` column; then there is no
      result. Otherwise the result lists every suitable technology, the
      first five are shown, and the rest are counted. */
  method DemonstrateSieveAnalysis(columns: seq<string>, rows: seq<map<string, Cell>>,
                                  binaryCols: seq<string>, siteConditions: seq<string>)
      returns (r: Option<SieveResult>)
    requires Rectangular(columns, rows)
    requires forall c :: c in binaryCols ==> c in columns
    ensures r.None? <==> |rows| > 0 && TechnologyColumn !in columns
    ensures r.Some? && |rows| > 0 ==> r.value.suitable == SuitableTechnologies(rows, binaryCols, siteConditions)
    ensures r.Some? ==> |r.value.suitable| <= |rows|
    ensures r.Some? ==> r.value.shown == r.value.suitable[..if |r.value.suitable| < 5 then |r.value.suitable| else 5]
    ensures r.Some? ==> |r.value.shown| + r.value.more == |r.value.suitable|
  {
    if |rows| > 0 && TechnologyColumn !in columns {
      return None;
    }
    var suitableTechnologies: seq<Cell> := [];
    for idx := 0 to |rows|
      invariant suitableTechnologies == SuitableTechnologies(rows[..idx], binaryCols, siteConditions)
    {
      var row := rows[idx];
      var technology := row[TechnologyColumn];
      var suitable := true;
      var k := 0;
      while k < |siteConditions|
        invariant 0 <= k <= |siteConditions|
        invariant suitable <==> forall c :: c in siteConditions[..k] && c in binaryCols ==> row[c] == Num(1.0)
        decreases if suitable then |siteConditions| - k else 0
      {
        var condition := siteConditions[k];
        if condition in binaryCols && row[condition] != Num(1.0) {
          suitable := false;
          break;
        }
        assert siteConditions[..k + 1] == siteConditions[..k] + [condition];
        k := k + 1;
      }
      if suitable {
        assert siteConditions[..k] == siteConditions;
      }
      assert rows[..idx + 1][..idx] == rows[..idx];
      if suitable {
        suitableTechnologies := suitableTechnologies + [technology];
      }
    }
    assert rows[..|rows|] == rows;
    var n := if |suitableTechnologies| < 5 then |suitableTechnologies| else 5;
    r := Some(SieveResult(suitableTechnologies, suitableTechnologies[..n], |suitableTechnologies| - n));
  }

  // ---------------------------------------------------------------------
  // A text "1" passes detection but not the sieve
  // ---------------------------------------------------------------------

  /** A matrix whose only suitability cell is the text "1": the column is
      detected as binary, yet the sieve rejects the technology. */
  lemma TextOneRejected()
    ensures var rows := [map[TechnologyColumn := Text("ATU"), "shallow_soil" := Text("1")]];
      && BinaryColumns([TechnologyColumn, "shallow_soil"], rows) == ["shallow_soil"]
      && SuitableTechnologies(rows, ["shallow_soil"], ["shallow_soil"]) == []
  {
    var rows := [map[TechnologyColumn := Text("ATU"), "shallow_soil" := Text("1")]];
    assert BinaryValues(rows, "shallow_soil");
    assert [TechnologyColumn, "shallow_soil"][..1] == [TechnologyColumn];
    assert [TechnologyColumn][..0] == [];
    assert BinaryColumns([TechnologyColumn], rows) == [];
    assert !Passes(rows[0], ["shallow_soil"], ["shallow_soil"]) by {
      assert "shallow_soil" in ["shallow_soil"];
    }
    assert rows[..0] == [];
  }

  /** A binary cell that means "suitable": the number 1 or the text "1". */
  predicate SuitableCell(v: Cell) {
    v == Num(1.0) || v == Text("1")
  }

  /** The sieve reading a binary column's "1" in either of the forms the
      detection accepts. */
  predicate PassesBinary(row: map<string, Cell>, binaryCols: seq<string>, conditions: seq<string>)
    requires forall c :: c in binaryCols ==> c in row
  {
    forall c :: c in conditions && c in binaryCols ==> SuitableCell(row[c])
  }

  function SuitableTechnologiesBinary(rows: seq<map<string, Cell>>, binaryCols: seq<string>, conditions: seq<string>): (r: seq<Cell>)
    requires Sievable(rows, binaryCols)
    ensures |r| <= |rows|
    decreases |rows|
  {
    if rows == [] then []
    else
      var last := rows[|rows| - 1];
      SuitableTechnologiesBinary(rows[..|rows| - 1], binaryCols, conditions)
        + (if PassesBinary(last, binaryCols, conditions) then [last[TechnologyColumn]] else [])
  }

  /** One technology is kept by the corrected sieve exactly when every
      applicable binary cell of its row is 1, as a number or as text. */
  lemma {:induction false} SuitableTechnologiesBinaryMember(rows: seq<map<string, Cell>>, binaryCols: seq<string>, conditions: seq<string>, k: nat)
    requires Sievable(rows, binaryCols)
    requires k < |rows|
    requires forall i :: 0 <= i < |rows| && i != k ==> rows[i][TechnologyColumn] != rows[k][TechnologyColumn]
    ensures rows[k][TechnologyColumn] in SuitableTechnologiesBinary(rows, binaryCols, conditions) <==>
      forall c :: c in conditions && c in binaryCols ==> rows[k][c] == Num(1.0) || rows[k][c] == Text("1")
    decreases |rows|
  {
    var init := rows[..|rows| - 1];
    if k < |rows| - 1 {
      SuitableTechnologiesBinaryMember(init, binaryCols, conditions, k);
    } else if init != [] {
      NotKeptBinary(init, binaryCols, conditions, rows[k][TechnologyColumn]);
    }
  }

  /** A technology named by no row is never kept by the corrected sieve. */
  lemma {:induction false} NotKeptBinary(rows: seq<map<string, Cell>>, binaryCols: seq<string>, conditions: seq<string>, t: Cell)
    requires Sievable(rows, binaryCols)
    requires forall i :: 0 <= i < |rows| ==> rows[i][TechnologyColumn] != t
    ensures t !in SuitableTechnologiesBinary(rows, binaryCols, conditions)
    decreases |rows|
  {
    if rows != [] {
      NotKeptBinary(rows[..|rows| - 1], binaryCols, conditions, t);
    }
  }

  /** Every technology the numeric sieve keeps, the corrected sieve keeps
      too. */
  lemma {:induction false} NumericSieveIncluded(rows: seq<map<string, Cell>>, binaryCols: seq<string>, conditions: seq<string>)
    requires Sievable(rows, binaryCols)
    ensures forall t :: t in SuitableTechnologies(rows, binaryCols, conditions) ==>
      t in SuitableTechnologiesBinary(rows, binaryCols, conditions)
    decreases |rows|
  {
    if rows != [] {
      NumericSieveIncluded(rows[..|rows| - 1], binaryCols, conditions);
    }
  }

  /** The technology whose cell is the text "1", rejected by the numeric
      sieve, is kept by the corrected one. */
  lemma TextOneKept()
    ensures var rows := [map[TechnologyColumn := Text("ATU"), "shallow_soil" := Text("1")]];
      SuitableTechnologiesBinary(rows, ["shallow_soil"], ["shallow_soil"]) == [Text("ATU")]
  {
    var rows := [map[TechnologyColumn := Text("ATU"), "shallow_soil" := Text("1")]];
    assert PassesBinary(rows[0], ["shallow_soil"], ["shallow_soil"]);
    assert rows[..0] == [];
  }

  /** In a binary column a present cell is "0" or "1" in some form, so the
      corrected sieve rejects a technology exactly when one of its applicable
      cells is a 0 or missing; and it keeps every technology the numeric
      sieve keeps. */
  lemma {:induction false} SuitableTechnologiesBinaryCorrect(rows: seq<map<string, Cell>>, binaryCols: seq<string>, conditions: seq<string>)
    requires Sievable(rows, binaryCols)
    requires forall c :: c in binaryCols ==> BinaryValues(rows, c)
    ensures forall i, c :: 0 <= i < |rows| && c in conditions && c in binaryCols ==>
      (!SuitableCell(rows[i][c]) <==> rows[i][c] in {Missing, Num(0.0), Text("0")})
    ensures |SuitableTechnologies(rows, binaryCols, conditions)| <= |SuitableTechnologiesBinary(rows, binaryCols, conditions)|
    decreases |rows|
  {
    if rows != [] {
      var init := rows[..|rows| - 1];
      forall c | c in binaryCols
        ensures BinaryValues(init, c)
      {
        assert forall i :: 0 <= i < |init| ==> init[i] == rows[i];
      }
      SuitableTechnologiesBinaryCorrect(init, binaryCols, conditions);
    }
  }
}
