/** The export script: one `Parcels_<County>` feature class per distinct
    value of the statewide parcels' `COUNTY` field, selected by a
    `COUNTY = '<value>'` where clause, taken in sorted order.

    The `COUNTY` column is a parameter; the selection itself is done by
    arcpy and is represented by the name and clause each export passes
    to it. */
module ExportParcelsByCounty {
  import opened Strings
  import ReprojectParcelsByCounty

  /** Python's ordering of strings: lexicographic by code point, a proper
      prefix first. */
  predicate Below(a: string, b: string)
    decreases |a|
  {
    if a == [] then b != []
    else if b == [] then false
    else if a[0] != b[0] then a[0] < b[0]
    else Below(a[1..], b[1..])
  }

  lemma {:induction false} BelowIrreflexive(a: string)
    ensures !Below(a, a)
    decreases |a|
  {
    if a != [] {
      BelowIrreflexive(a[1..]);
    }
  }

  lemma {:induction false} BelowAsymmetric(a: string, b: string)
    requires Below(a, b)
    ensures !Below(b, a)
    decreases |a|
  {
    if a != [] && b != [] && a[0] == b[0] {
      BelowAsymmetric(a[1..], b[1..]);
    }
  }

  lemma {:induction false} BelowTransitive(a: string, b: string, c: string)
    requires Below(a, b) && Below(b, c)
    ensures Below(a, c)
    decreases |a|
  {
    if a != [] && a[0] == b[0] && b[0] == c[0] {
      BelowTransitive(a[1..], b[1..], c[1..]);
    }
  }

  lemma {:induction false} BelowTotal(a: string, b: string)
    requires a != b
    ensures Below(a, b) || Below(b, a)
    decreases |a|
  {
    if a != [] && b != [] && a[0] == b[0] {
      assert a == [a[0]] + a[1..] && b == [b[0]] + b[1..];
      BelowTotal(a[1..], b[1..]);
    }
  }

  /** Strictly increasing, hence also free of duplicates. */
  ghost predicate StrictlySorted(s: seq<string>) {
    forall i, j :: 0 <= i < j < |s| ==> Below(s[i], s[j])
  }

  /** `x` placed into a strictly sorted list, unless it is already there. */
  function Insert(x: string, s: seq<string>): seq<string>
    decreases |s|
  {
    if s == [] then [x]
    else if x == s[0] then s
    else if Below(x, s[0]) then [x] + s
    else [s[0]] + Insert(x, s[1..])
  }

  lemma {:induction false} InsertSpec(x: string, s: seq<string>)
    requires StrictlySorted(s)
    ensures StrictlySorted(Insert(x, s))
    ensures forall y :: y in Insert(x, s) <==> y == x || y in s
    decreases |s|
  {
    if s != [] && x != s[0] {
      if Below(x, s[0]) {
        var r := [x] + s;
        forall i, j | 0 <= i < j < |r|
          ensures Below(r[i], r[j])
        {
          if i == 0 && j > 1 {
            BelowTransitive(x, s[0], s[j - 1]);
          }
        }
      } else {
        BelowTotal(x, s[0]);
        var tail := s[1..];
        InsertSpec(x, tail);
        var r' := Insert(x, tail);
        var r := [s[0]] + r';
        forall i, j | 0 <= i < j < |r|
          ensures Below(r[i], r[j])
        {
          if i == 0 {
            assert r[j] == r'[j - 1];
            if r'[j - 1] != x {
              assert r'[j - 1] in tail;
              var k :| 0 <= k < |tail| && tail[k] == r'[j - 1];
              assert s[k + 1] == tail[k];
            }
          }
        }
        assert s == [s[0]] + tail;
      }
    }
  }

  /** `sorted(set(values))`: each distinct value once, in increasing order. */
  function SortedDistinct(values: seq<string>): seq<string>
    decreases |values|
  {
    if values == [] then []
    else Insert(values[|values| - 1], SortedDistinct(values[..|values| - 1]))
  }

  lemma {:induction false} SortedDistinctSpec(values: seq<string>)
    ensures StrictlySorted(SortedDistinct(values))
    ensures forall y :: y in SortedDistinct(values) <==> y in values
    decreases |values|
  {
    if values != [] {
      var init := values[..|values| - 1];
      SortedDistinctSpec(init);
      InsertSpec(values[|values| - 1], SortedDistinct(init));
      assert values == init + [values[|values| - 1]];
    }
  }

  /** Lists with the same elements are empty together. */
  lemma SameElementsEmpty(a: seq<string>, b: seq<string>)
    requires forall y :: y in a <==> y in b
    ensures a == [] <==> b == []
  {
    if a != [] {
      assert a[0] in b;
    }
    if b != [] {
      assert b[0] in a;
    }
  }

  /** A strictly sorted list is determined by its elements, so the list of
      exported counties is the only strictly increasing arrangement of the
      distinct `COUNTY` values. */
  lemma {:induction false} StrictlySortedUnique(a: seq<string>, b: seq<string>)
    requires StrictlySorted(a) && StrictlySorted(b)
    requires forall y :: y in a <==> y in b
    ensures a == b
    decreases |a|
  {
    if a != [] && b != [] {
      if a[0] != b[0] {
        assert a[0] in b;
        var j :| 0 <= j < |b| && b[j] == a[0];
        assert b[0] in a;
        var i :| 0 <= i < |a| && a[i] == b[0];
        assert Below(b[0], a[0]) && Below(a[0], b[0]);
        BelowAsymmetric(b[0], a[0]);
        assert false;
      }
      forall y
        ensures y in a[1..] <==> y in b[1..]
      {
        if y in a[1..] {
          var i :| 0 <= i < |a[1..]| && a[1..][i] == y;
          assert Below(a[0], a[i + 1]);
          BelowIrreflexive(y);
          assert y in b && y != b[0];
          var j :| 0 <= j < |b| && b[j] == y;
          assert b[1..][j - 1] == y;
        }
        if y in b[1..] {
          var j :| 0 <= j < |b[1..]| && b[1..][j] == y;
          assert Below(b[0], b[j + 1]);
          BelowIrreflexive(y);
          assert y in a && y != a[0];
          var i :| 0 <= i < |a| && a[i] == y;
          assert a[1..][i - 1] == y;
        }
      }
      StrictlySortedUnique(a[1..], b[1..]);
      assert a == [a[0]] + a[1..] && b == [b[0]] + b[1..];
    } else {
      SameElementsEmpty(a, b);
    }
  }

  /** Replacing the spaces by underscores loses nothing when the name had
      no underscores: replacing back restores it. */
  lemma ReplaceCharBack(s: string)
    requires '_' !in s
    ensures ReplaceEach(ReplaceEach(s, ' ', '_'), '_', ' ') == s
  {
  }

  const ExportPrefix := "Parcels_"

  /** The output feature class of one county. */
  function OutputName(county: string): string {
    ExportPrefix + ReplaceEach(county, ' ', '_')
  }

  const WhereOpen := "COUNTY = '"

  /** The where clause selecting one county's parcels. */
  function WhereClause(county: string): string {
    WhereOpen + county + "'"
  }

  /** The clause quotes the county verbatim, so the value it selects reads
      back from between the quotes. */
  lemma WhereClauseQuotes(county: string)
    ensures StartsWith(WhereClause(county), WhereOpen)
    ensures WhereClause(county)[|WhereOpen|..|WhereClause(county)| - 1] == county
    ensures WhereClause(county)[|WhereClause(county)| - 1] == '\''
  {
    assert WhereClause(county)[..|WhereOpen|] == WhereOpen;
  }

  /** Distinct counties without underscores get distinct outputs, so no
      export overwrites another; the output follows the naming convention
      of the per-county reprojection, which reads back the same county when
      the name had no spaces either. */
  lemma {:induction false} OutputNamesDistinct(c1: string, c2: string)
    requires '_' !in c1 && '_' !in c2 && c1 != c2
    ensures OutputName(c1) != OutputName(c2)
  {
    if OutputName(c1) == OutputName(c2) {
      var t1 := ReplaceEach(c1, ' ', '_');
      var t2 := ReplaceEach(c2, ' ', '_');
      assert t1 == OutputName(c1)[|ExportPrefix|..] && t2 == OutputName(c2)[|ExportPrefix|..];
      ReplaceCharBack(c1);
      ReplaceCharBack(c2);
      assert false;
    }
  }

  /** A county without spaces or underscores is exported under a name the
      per-county reprojection recognises and parses back to that county. */
  lemma {:induction false} OutputNameReadBack(county: string)
    requires '_' !in county && ' ' !in county
    ensures StartsWith(OutputName(county), ReprojectParcelsByCounty.ParcelsPrefix)
    ensures ReprojectParcelsByCounty.CountyOf(OutputName(county)) == county
  {
    assert ReplaceEach(county, ' ', '_') == county;
    assert OutputName(county) == ReprojectParcelsByCounty.ParcelsPrefix + county + [];
    ReprojectParcelsByCounty.CountyOfParses(county, []);
  }

  /** One export: the output feature class and the where clause it is
      selected with. */
  datatype Export = Export(output: string, where: string)

  /** The export loop over the sorted distinct counties: exactly one export
      per distinct `COUNTY` value, in sorted order. */
  method ExportCounties(countyColumn: seq<string>) returns (exports: seq<Export>)
    ensures |exports| == |SortedDistinct(countyColumn)|
    ensures forall k :: 0 <= k < |exports| ==>
      exports[k] == Export(OutputName(SortedDistinct(countyColumn)[k]), WhereClause(SortedDistinct(countyColumn)[k]))
    ensures forall c :: c in countyColumn <==> Export(OutputName(c), WhereClause(c)) in exports
  {
    var counties := SortedDistinct(countyColumn);
    SortedDistinctSpec(countyColumn);
    exports := [];
    for k := 0 to |counties|
      invariant |exports| == k
      invariant forall i :: 0 <= i < k ==> exports[i] == Export(OutputName(counties[i]), WhereClause(counties[i]))
    {
      exports := exports + [Export(OutputName(counties[k]), WhereClause(counties[k]))];
    }
    forall c
      ensures c in countyColumn <==> Export(OutputName(c), WhereClause(c)) in exports
    {
      if c in countyColumn {
        var k :| 0 <= k < |counties| && counties[k] == c;
        assert exports[k] == Export(OutputName(c), WhereClause(c));
      }
      if Export(OutputName(c), WhereClause(c)) in exports {
        var k :| 0 <= k < |exports| && exports[k] == Export(OutputName(c), WhereClause(c));
        WhereClauseQuotes(c);
        WhereClauseQuotes(counties[k]);
        assert counties[k] == c;
      }
    }
  }
}
