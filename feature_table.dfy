/** An attribute table as the scripts see it through arcpy: an ordered list
    of field names and the rows, each row mapping every field name to its
    value. Read-only passes take the field list and rows as values; passes
    that add, rename or overwrite fields change a `Table` object in place, as
    the geoprocessing tools and update cursors change the feature class. */
module FeatureTable {
  import opened Values
  import opened Strings

  /** Every row has a value for every field and for nothing else. */
  ghost predicate WellFormed(fields: seq<string>, rows: seq<map<string, Value>>) {
    forall i :: 0 <= i < |rows| ==> rows[i].Keys == set f | f in fields
  }

  /** The values of field `f`, in row order, as a search cursor reads them:
      one value per row, and a value occurs in the column exactly when some
      row holds it in that field. */
  function Column(rows: seq<map<string, Value>>, f: string): (c: seq<Value>)
    requires forall i :: 0 <= i < |rows| ==> f in rows[i]
    ensures |c| == |rows|
    ensures forall v :: v in c <==> exists i :: 0 <= i < |rows| && rows[i][f] == v
  {
    var c := seq(|rows|, i requires 0 <= i < |rows| && f in rows[i] => rows[i][f]);
    assert forall v :: (exists i :: 0 <= i < |rows| && rows[i][f] == v) ==> v in c by {
      forall v | exists i :: 0 <= i < |rows| && rows[i][f] == v
        ensures v in c
      {
        var i :| 0 <= i < |rows| && rows[i][f] == v;
        assert c[i] == v;
      }
    }
    c
  }

  /** Every row with field `f` set to `v`, everything else unchanged: each
      row gains `f` if it lacked it and keeps its other fields and values. */
  function SetAll(rows: seq<map<string, Value>>, f: string, v: Value): (r: seq<map<string, Value>>)
    ensures |r| == |rows|
    ensures forall i :: 0 <= i < |rows| ==> r[i].Keys == rows[i].Keys + {f} && r[i][f] == v
    ensures forall i, g :: 0 <= i < |rows| && g in rows[i] && g != f ==> r[i][g] == rows[i][g]
  {
    seq(|rows|, i requires 0 <= i < |rows| => rows[i][f := v])
  }

  /** Reading a field back after writing it everywhere gives that value in
      every row; reading any other field gives what it held before. */
  lemma ColumnAfterSetAll(rows: seq<map<string, Value>>, f: string, v: Value, g: string)
    requires forall i :: 0 <= i < |rows| ==> g in rows[i]
    ensures Column(SetAll(rows, f, v), f) == seq(|rows|, _ => v)
    ensures g != f ==> Column(SetAll(rows, f, v), g) == Column(rows, g)
  {
  }

  /** The first of `candidates` that is one of `fields`, as a search loop
      that breaks at the first match finds it. */
  function FirstPresent(candidates: seq<string>, fields: seq<string>): Option<string>
    decreases |candidates|
  {
    if candidates == [] then None
    else if candidates[0] in fields then Some(candidates[0])
    else FirstPresent(candidates[1..], fields)
  }

  /** Nothing is found exactly when no candidate is a field; what is found
      is a field, and it is the earliest candidate that is one. */
  lemma {:induction false} FirstPresentSpec(candidates: seq<string>, fields: seq<string>)
    ensures FirstPresent(candidates, fields).None? <==> forall k :: 0 <= k < |candidates| ==> candidates[k] !in fields
    ensures FirstPresent(candidates, fields).Some? ==>
      exists k :: 0 <= k < |candidates| && candidates[k] == FirstPresent(candidates, fields).value
        && candidates[k] in fields && forall j :: 0 <= j < k ==> candidates[j] !in fields
    decreases |candidates|
  {
    if candidates != [] && candidates[0] !in fields {
      FirstPresentSpec(candidates[1..], fields);
      if FirstPresent(candidates, fields).Some? {
        var k :| 0 <= k < |candidates[1..]| && candidates[1..][k] == FirstPresent(candidates, fields).value
          && candidates[1..][k] in fields && forall j :: 0 <= j < k ==> candidates[1..][j] !in fields;
        assert candidates[k + 1] == candidates[1..][k];
        assert forall j :: 0 <= j < k + 1 ==> candidates[j] !in fields by {
          forall j | 0 <= j < k + 1
            ensures candidates[j] !in fields
          {
            if j > 0 {
              assert candidates[j] == candidates[1..][j - 1];
            }
          }
        }
      }
    }
  }

  /** Searching a candidate list extended by one name finds that name only
      when no earlier candidate matched. */
  lemma {:induction false} FirstPresentAppend(candidates: seq<string>, x: string, fields: seq<string>)
    ensures FirstPresent(candidates + [x], fields) ==
      if FirstPresent(candidates, fields).Some? then FirstPresent(candidates, fields)
      else if x in fields then Some(x) else None
    decreases |candidates|
  {
    if candidates != [] {
      assert (candidates + [x])[1..] == candidates[1..] + [x];
      FirstPresentAppend(candidates[1..], x, fields);
    }
  }

  /** Row `r` with field `from` renamed to `to`. */
  function RenameInRow(r: map<string, Value>, from: string, to: string): map<string, Value>
    requires from in r
  {
    (r - {from})[to := r[from]]
  }

  /** Every row with field `from` renamed to `to`. */
  function RenameInRows(rows: seq<map<string, Value>>, from: string, to: string): (r: seq<map<string, Value>>)
    requires forall i :: 0 <= i < |rows| ==> from in rows[i]
    ensures |r| == |rows|
    ensures forall i :: 0 <= i < |rows| ==> r[i] == RenameInRow(rows[i], from, to)
  {
    seq(|rows|, i requires 0 <= i < |rows| && from in rows[i] => RenameInRow(rows[i], from, to))
  }

  /** Renaming a field onto a name that is not already another field keeps
      the table well formed, and every other field keeps its values. */
  lemma RenameKeepsTable(fields: seq<string>, rows: seq<map<string, Value>>, from: string, to: string)
    requires WellFormed(fields, rows) && from in fields && (to == from || to !in fields)
    ensures forall i :: 0 <= i < |rows| ==> from in rows[i]
    ensures WellFormed(ReplaceEach(fields, from, to), RenameInRows(rows, from, to))
    ensures forall i, f :: 0 <= i < |rows| && f in fields && f != from ==>
      f in RenameInRows(rows, from, to)[i] && RenameInRows(rows, from, to)[i][f] == rows[i][f]
  {
    var newFields := ReplaceEach(fields, from, to);
    assert (set f | f in newFields) == (set f | f in fields) - {from} + {to} by {
      forall f | f in fields
        ensures f == from || f in newFields
      {
        var k :| 0 <= k < |fields| && fields[k] == f;
        assert newFields[k] == (if f == from then to else f);
      }
      forall f | f in newFields
        ensures f == to || (f in fields && f != from)
      {
        var k :| 0 <= k < |newFields| && newFields[k] == f;
      }
      var k :| 0 <= k < |fields| && fields[k] == from;
      assert newFields[k] == to;
    }
    forall i | 0 <= i < |rows|
      ensures from in rows[i]
    {
      assert rows[i].Keys == set f | f in fields;
    }
  }

  /** One row after a join: each joined field takes the matching record's
      value, NULL where no record matches or the record lacks the field;
      the row's own fields keep their values. */
  function JoinedRow(row: map<string, Value>, joinFields: seq<string>, matched: map<string, Value>): (r: map<string, Value>)
    ensures r.Keys == row.Keys + (set f | f in joinFields)
    ensures forall f :: f in row && f !in joinFields ==> r[f] == row[f]
    ensures forall f :: f in joinFields && f in matched ==> r[f] == matched[f]
    ensures forall f :: f in joinFields && f !in matched ==> r[f] == Null
  {
    row + map f | f in joinFields :: if f in matched then matched[f] else Null
  }

  class Table {
    var fields: seq<string>
    var rows: seq<map<string, Value>>

    ghost predicate Valid()
      reads this
    {
      WellFormed(fields, rows)
    }

    constructor (fields: seq<string>, rows: seq<map<string, Value>>)
      requires WellFormed(fields, rows)
      ensures Valid()
      ensures this.fields == fields && this.rows == rows
    {
      this.fields := fields;
      this.rows := rows;
    }

    /** `arcpy.management.AddField`, whose outcome is not visible here and
        is given by `succeeds`. On success the field exists afterwards; a
        new field is appended and is NULL in every row. */
    method AddField(name: string, succeeds: bool) returns (ok: bool)
      requires Valid()
      modifies this
      ensures Valid()
      ensures ok == succeeds
      ensures !ok ==> fields == old(fields) && rows == old(rows)
      ensures ok && name in old(fields) ==> fields == old(fields) && rows == old(rows)
      ensures ok && name !in old(fields) ==>
        fields == old(fields) + [name] && rows == SetAll(old(rows), name, Null)
    {
      ok := succeeds;
      if ok && name !in fields {
        rows := SetAll(rows, name, Null);
        fields := fields + [name];
      }
    }

    /** An update cursor over one field writing the same value into every
        row, with the number of rows it updated. */
    method FillField(name: string, v: Value) returns (updated: nat)
      requires Valid() && name in fields
      modifies this
      ensures Valid()
      ensures fields == old(fields)
      ensures rows == SetAll(old(rows), name, v)
      ensures updated == |rows|
    {
      var i := 0;
      var done: seq<map<string, Value>> := [];
      while i < |rows|
        invariant 0 <= i <= |rows|
        invariant done == SetAll(rows[..i], name, v)
      {
        done := done + [rows[i][name := v]];
        i := i + 1;
      }
      assert rows[..i] == rows;
      rows := done;
      updated := i;
    }

    /** `arcpy.management.JoinField` without a field list, whose outcome
        is not visible here and is given by `succeeds`. The fields it
        appends are `joinFields`, named as the tool names them (a name that
        clashes gets a suffix, so each is new), and `matched(i)` is the
        joined record's values for row `i`, empty when no record matches.
        On success the fields are appended and every row gets its joined
        values; a failure changes nothing. */
    method JoinField(joinFields: seq<string>, matched: nat -> map<string, Value>, succeeds: bool) returns (ok: bool)
      requires Valid() && forall f :: f in joinFields ==> f !in fields
      modifies this
      ensures Valid()
      ensures ok == succeeds
      ensures !ok ==> fields == old(fields) && rows == old(rows)
      ensures ok ==> fields == old(fields) + joinFields
      ensures |rows| == |old(rows)|
      ensures ok ==> forall i :: 0 <= i < |rows| ==> rows[i] == JoinedRow(old(rows[i]), joinFields, matched(i))
    {
      ok := succeeds;
      if ok {
        var before := rows;
        var joined := seq(|before|, i requires 0 <= i < |before| => JoinedRow(before[i], joinFields, matched(i)));
        var keys, joinKeys := set f | f in fields + joinFields, set f | f in joinFields;
        assert keys == (set f | f in fields) + joinKeys;
        forall i | 0 <= i < |joined|
          ensures joined[i].Keys == keys
        {
          assert joined[i] == JoinedRow(before[i], joinFields, matched(i));
          assert joined[i].Keys == before[i].Keys + joinKeys;
          assert before[i].Keys == set f | f in fields;
        }
        rows := joined;
        fields := fields + joinFields;
      }
    }

    /** `arcpy.management.AlterField` renaming a field, whose outcome is not
        visible here and is given by `succeeds`. A rename onto an existing
        field name fails, as the tool refuses it; a successful one moves
        every row's value to the new name. */
    method RenameField(from: string, to: string, succeeds: bool) returns (ok: bool)
      requires Valid() && from in fields
      modifies this
      ensures Valid()
      ensures ok <==> succeeds && (to == from || to !in old(fields))
      ensures !ok ==> fields == old(fields) && rows == old(rows)
      ensures ok ==> fields == ReplaceEach(old(fields), from, to)
      ensures ok ==> |rows| == |old(rows)|
      ensures ok ==> forall i :: 0 <= i < |rows| ==> rows[i] == RenameInRow(old(rows[i]), from, to)
      ensures |rows| == |old(rows)|
      ensures forall f :: f in old(fields) && f != from ==> f in fields
      ensures forall i, f :: 0 <= i < |rows| && f in old(fields) && f != from ==>
        f in rows[i] && rows[i][f] == old(rows[i][f])
    {
      ok := succeeds && (to == from || to !in fields);
      if ok {
        RenameKeepsTable(fields, rows, from, to);
        rows := RenameInRows(rows, from, to);
        fields := ReplaceEach(fields, from, to);
      }
    }
  }
}
