/**
 * Merging segments whose column sets differ (`SchemaPolicy::UnionFields` in
 * `concat_parquet`, src/rewrite.rs).
 */
module UnionFields {
  import opened Types
  import opened Compaction

  /** A column as a schema states it. */
  datatype Field = Field(name: Text, kind: Text, nullable: bool, metadata: Text)

  type Schema = seq<Field>

  /** A row of cells, aligned with its schema; `None` is null. */
  type Row<V> = seq<Option<V>>

  /** A segment file: its columns and its rows. */
  datatype File<V> = File(schema: Schema, rows: seq<Row<V>>)

  predicate HasName(s: Schema, name: Text) {
    exists i :: 0 <= i < |s| && s[i].name == name
  }

  ghost predicate DistinctNames(s: Schema) {
    forall i: nat, j: nat :: i < j < |s| ==> NamesDiffer(s, i, j)
  }

  ghost predicate NamesDiffer(s: Schema, i: nat, j: nat)
    requires i < |s| && j < |s|
  {
    s[i].name != s[j].name
  }

  /** `Schema::index_of`. */
  function IndexOf(s: Schema, name: Text): (r: Option<nat>)
    ensures r.Some? ==> r.value < |s| && s[r.value].name == name
    ensures r.None? <==> !HasName(s, name)
  {
    if s == [] then None else
    if s[0].name == name then Some(0) else
    var rest := IndexOf(s[1..], name);
    assert HasName(s, name) <==> HasName(s[1..], name) by {
      assert forall i :: 0 < i < |s| ==> s[i] == s[1..][i - 1];
      assert forall i :: 0 <= i < |s| - 1 ==> s[1..][i] == s[i + 1];
    }
    if rest.None? then None else Some(rest.value + 1)
  }

  /** What a row says under a name: null where it has no such column. */
  function Cell<V>(s: Schema, row: Row<V>, name: Text): Option<V>
    requires |row| == |s|
  {
    var i := IndexOf(s, name);
    if i.Some? then row[i.value] else None
  }

  // ------------------------------------------------------------------ the union, as values

  /** The fields in the order they first appear, after the first `n` of `s`. */
  function ExtendTo(order: Schema, s: Schema, n: nat): Schema
    requires n <= |s|
  {
    if n == 0 then order else
    var o := ExtendTo(order, s, n - 1);
    if HasName(o, s[n - 1].name) then o else o + [s[n - 1]]
  }

  function OrderTo(schemas: seq<Schema>, n: nat): Schema
    requires n <= |schemas|
  {
    if n == 0 then [] else ExtendTo(OrderTo(schemas, n - 1), schemas[n - 1], |schemas[n - 1]|)
  }

  /** How many of the first `n` schemas carry the name. */
  function CarriedBy(schemas: seq<Schema>, n: nat, name: Text): nat
    requires n <= |schemas|
  {
    if n == 0 then 0 else CarriedBy(schemas, n - 1, name) + if HasName(schemas[n - 1], name) then 1 else 0
  }

  /** Whether every field of `s` the union already has is the same field there. */
  predicate Admitted(order: Schema, s: Schema) {
    forall i :: 0 <= i < |s| && HasName(order, s[i].name) ==> s[i] in order
  }

  /** Nullable unless the whole run carries it. */
  function Widened(f: Field, everywhere: bool): Field {
    if everywhere then f else f.(nullable := true)
  }

  function MergedSchema(schemas: seq<Schema>): (r: Schema)
    ensures |r| == |OrderTo(schemas, |schemas|)|
    ensures forall i :: 0 <= i < |r| ==>
      r[i] == Widened(OrderTo(schemas, |schemas|)[i], CarriedBy(schemas, |schemas|, OrderTo(schemas, |schemas|)[i].name) == |schemas|)
  {
    var order := OrderTo(schemas, |schemas|);
    seq(|order|, i requires 0 <= i < |order| => Widened(order[i], CarriedBy(schemas, |schemas|, order[i].name) == |schemas|))
  }

  /** A row written under another schema: columns by name, null where it has none. */
  function Widen<V>(s: Schema, row: Row<V>, to: Schema): (r: Row<V>)
    requires |row| == |s|
    ensures |r| == |to| && forall i :: 0 <= i < |r| ==> r[i] == Cell(s, row, to[i].name)
  {
    seq(|to|, i requires 0 <= i < |to| => Cell(s, row, to[i].name))
  }

  /** The policy a compaction pass is given. */
  function UnionPolicy(): Policy<Schema> {
    Policy((run: seq<Schema>, next: Schema) => Admitted(OrderTo(run, |run|), next),
           (first: Schema, rest: seq<Schema>) => MergedSchema([first] + rest))
  }

  /** Every two schemas of the run agree on every field they share. */
  ghost predicate Agree(a: Schema, b: Schema) {
    forall i, j :: 0 <= i < |a| && 0 <= j < |b| && a[i].name == b[j].name ==> a[i] == b[j]
  }

  // ------------------------------------------------------------------ what the union holds

  /** `order` is the union of the first `n` schemas: their fields, each name once. */
  ghost predicate UnionIs(order: Schema, schemas: seq<Schema>, n: nat)
    requires n <= |schemas|
  {
    && DistinctNames(order)
    && (forall k :: 0 <= k < n ==> Within(schemas[k], order))
    && (forall i :: 0 <= i < |order| ==> ComesFrom(order[i], schemas, n))
  }

  ghost predicate Within(s: Schema, order: Schema) {
    forall i :: 0 <= i < |s| ==> s[i] in order
  }

  ghost predicate ComesFrom(f: Field, schemas: seq<Schema>, n: nat)
    requires n <= |schemas|
  {
    exists k :: 0 <= k < n && f in schemas[k]
  }

  lemma SameName(s: Schema, f: Field, g: Field)
    requires DistinctNames(s) && f in s && g in s && f.name == g.name
    ensures f == g
  {
    var i: nat :| i < |s| && s[i] == f;
    var j: nat :| j < |s| && s[j] == g;
    var probe := i < j && NamesDiffer(s, i, j);
    var probe' := j < i && NamesDiffer(s, j, i);
  }

  lemma {:induction false} ExtendKeeps(order: Schema, s: Schema, n: nat)
    requires n <= |s| && DistinctNames(order) && DistinctNames(s) && Admitted(order, s)
    ensures var o := ExtendTo(order, s, n);
            && DistinctNames(o) && order <= o
            && (forall i :: 0 <= i < n ==> s[i] in o)
            && (forall i :: 0 <= i < |o| ==> o[i] in order || o[i] in s[..n])
  {
    if n > 0 {
      ExtendKeeps(order, s, n - 1);
      var p, o := ExtendTo(order, s, n - 1), ExtendTo(order, s, n);
      var f := s[n - 1];
      assert s[..n] == s[..n - 1] + [f];
      if HasName(p, f.name) {
        NameFrom(order, s, n, p);
      } else {
        forall i: nat, j: nat | i < j < |o| ensures NamesDiffer(o, i, j) {
          if j < |p| {
            assert NamesDiffer(p, i, j);
          }
        }
      }
    }
  }

  /** A name already in the union came from before this schema, so the field is the same one. */
  lemma NameFrom(order: Schema, s: Schema, n: nat, p: Schema)
    requires 0 < n <= |s| && DistinctNames(s) && Admitted(order, s)
    requires order <= p && HasName(p, s[n - 1].name)
    requires forall i :: 0 <= i < |p| ==> p[i] in order || p[i] in s[..n - 1]
    ensures s[n - 1] in p
  {
    var i :| 0 <= i < |p| && p[i].name == s[n - 1].name;
    if p[i] in s[..n - 1] {
      var j: nat :| j < n - 1 && s[j] == p[i];
      var probe := NamesDiffer(s, j, n - 1);
    } else {
      var j :| 0 <= j < |order| && order[j] == p[i];
      assert HasName(order, s[n - 1].name);
    }
  }

  ghost predicate Columns(schemas: seq<Schema>) {
    forall k :: 0 <= k < |schemas| ==> DistinctNames(schemas[k])
  }

  /** The schemas up to `n` were each admitted in turn. */
  ghost predicate AdmittedTo(schemas: seq<Schema>, n: nat)
    requires n <= |schemas|
  {
    forall k: nat :: k < n ==> AdmittedAt(schemas, k)
  }

  ghost predicate AdmittedAt(schemas: seq<Schema>, k: nat)
    requires k < |schemas|
  {
    Admitted(OrderTo(schemas, k), schemas[k])
  }

  lemma {:induction false} OrderIsUnion(schemas: seq<Schema>, n: nat)
    requires n <= |schemas| && Columns(schemas) && AdmittedTo(schemas, n)
    ensures UnionIs(OrderTo(schemas, n), schemas, n)
  {
    if n > 0 {
      OrderIsUnion(schemas, n - 1);
      assert AdmittedAt(schemas, n - 1);
      UnionMore(schemas, n, OrderTo(schemas, n - 1));
    }
  }

  lemma UnionMore(schemas: seq<Schema>, n: nat, p: Schema)
    requires 0 < n <= |schemas| && UnionIs(p, schemas, n - 1)
    requires DistinctNames(schemas[n - 1]) && Admitted(p, schemas[n - 1])
    ensures UnionIs(ExtendTo(p, schemas[n - 1], |schemas[n - 1]|), schemas, n)
  {
    var s := schemas[n - 1];
    var o := ExtendTo(p, s, |s|);
    ExtendKeeps(p, s, |s|);
    assert s[..|s|] == s;
    forall k | 0 <= k < n ensures Within(schemas[k], o) {
      if k < n - 1 {
        assert Within(schemas[k], p);
      }
    }
    forall i | 0 <= i < |o| ensures ComesFrom(o[i], schemas, n) {
      if o[i] in p {
        var j :| 0 <= j < |p| && p[j] == o[i];
        assert ComesFrom(p[j], schemas, n - 1);
      }
    }
  }

  /** The admission test, made against the union alone, is agreement with every segment of the run. */
  lemma AdmitsIffAgrees(schemas: seq<Schema>, n: nat)
    requires n < |schemas| && Columns(schemas) && AdmittedTo(schemas, n)
    ensures AdmittedAt(schemas, n) <==> forall k :: 0 <= k < n ==> Agree(schemas[k], schemas[n])
  {
    var order, s := OrderTo(schemas, n), schemas[n];
    OrderIsUnion(schemas, n);
    if AdmittedAt(schemas, n) {
      forall k | 0 <= k < n ensures Agree(schemas[k], s) {
        AdmittedAgrees(schemas, n, k);
      }
    } else {
      var i :| 0 <= i < |s| && HasName(order, s[i].name) && s[i] !in order;
      var j :| 0 <= j < |order| && order[j].name == s[i].name;
      assert ComesFrom(order[j], schemas, n);
      var k :| 0 <= k < n && order[j] in schemas[k];
      var l :| 0 <= l < |schemas[k]| && schemas[k][l] == order[j];
      assert !Agree(schemas[k], s);
    }
  }

  lemma AdmittedAgrees(schemas: seq<Schema>, n: nat, k: nat)
    requires k < n < |schemas| && UnionIs(OrderTo(schemas, n), schemas, n) && AdmittedAt(schemas, n)
    ensures Agree(schemas[k], schemas[n])
  {
    var order, a, s := OrderTo(schemas, n), schemas[k], schemas[n];
    assert Within(a, order);
    forall i, j | 0 <= i < |a| && 0 <= j < |s| && a[i].name == s[j].name ensures a[i] == s[j] {
      var l :| 0 <= l < |order| && order[l] == a[i];
      assert HasName(order, s[j].name);
      SameName(order, a[i], s[j]);
    }
  }

  /** Any two segments of an admitted run agree on every field they share. */
  lemma RunAgrees(schemas: seq<Schema>, n: nat, i: nat, j: nat)
    requires i < j < n <= |schemas| && Columns(schemas) && AdmittedTo(schemas, n)
    ensures Agree(schemas[i], schemas[j])
  {
    assert AdmittedAt(schemas, j);
    AdmitsIffAgrees(schemas, j);
  }

  // ------------------------------------------------------------------ what a merge keeps

  /** A merged segment: its run was admitted in full. */
  ghost predicate Run(schemas: seq<Schema>) {
    Columns(schemas) && AdmittedTo(schemas, |schemas|)
  }

  lemma MergedColumns(schemas: seq<Schema>)
    requires Run(schemas)
    ensures DistinctNames(MergedSchema(schemas))
    ensures forall name :: HasName(MergedSchema(schemas), name) <==> HasName(OrderTo(schemas, |schemas|), name)
  {
    var order, m := OrderTo(schemas, |schemas|), MergedSchema(schemas);
    OrderIsUnion(schemas, |schemas|);
    forall i: nat, j: nat | i < j < |m| ensures NamesDiffer(m, i, j) {
      assert NamesDiffer(order, i, j);
    }
    forall name ensures HasName(m, name) <==> HasName(order, name) {
      assert forall i :: 0 <= i < |m| ==> m[i].name == order[i].name;
    }
  }

  /** A written row keeps its value in every column it had, and reads null in every one it lacked. */
  lemma CellKept<V>(schemas: seq<Schema>, k: nat, row: Row<V>, name: Text)
    requires Run(schemas) && k < |schemas| && |row| == |schemas[k]|
    ensures var m := MergedSchema(schemas);
            Cell(m, Widen(schemas[k], row, m), name) == Cell(schemas[k], row, name)
  {
    var order, s := OrderTo(schemas, |schemas|), schemas[k];
    OrderIsUnion(schemas, |schemas|);
    MergedColumns(schemas);
    assert Within(s, order);
    if i :| 0 <= i < |s| && s[i].name == name {
      var l :| 0 <= l < |order| && order[l] == s[i];
      assert HasName(order, name);
    }
  }

  /** Every column of the run is a column of the merged segment, the same but for nullability. */
  lemma FieldKept(schemas: seq<Schema>, k: nat, f: Field)
    requires Run(schemas) && k < |schemas| && f in schemas[k]
    ensures exists g :: g in MergedSchema(schemas) && g.(nullable := f.nullable) == f && (f.nullable ==> g.nullable)
  {
    var order, m := OrderTo(schemas, |schemas|), MergedSchema(schemas);
    OrderIsUnion(schemas, |schemas|);
    assert Within(schemas[k], order);
    var i :| 0 <= i < |schemas[k]| && schemas[k][i] == f;
    var l :| 0 <= l < |order| && order[l] == f;
    assert m[l] in m;
  }

  lemma {:induction false} CarriedByAll(schemas: seq<Schema>, n: nat, name: Text, k: nat)
    requires n <= |schemas|
    ensures CarriedBy(schemas, n, name) <= n
    ensures k < n && CarriedBy(schemas, n, name) == n ==> HasName(schemas[k], name)
  {
    if n > 0 {
      CarriedByAll(schemas, n - 1, name, k);
    }
  }

  /** A row that respects its schema's nullability. */
  ghost predicate RowOk<V>(s: Schema, row: Row<V>) {
    |row| == |s| && forall i :: 0 <= i < |s| && !s[i].nullable ==> row[i].Some?
  }

  /** No column left non-nullable ever receives a null. */
  lemma NoNullForced<V>(schemas: seq<Schema>, k: nat, row: Row<V>)
    requires Run(schemas) && k < |schemas| && RowOk(schemas[k], row)
    ensures RowOk(MergedSchema(schemas), Widen(schemas[k], row, MergedSchema(schemas)))
  {
    var n, s, order, m := |schemas|, schemas[k], OrderTo(schemas, |schemas|), MergedSchema(schemas);
    OrderIsUnion(schemas, n);
    assert Within(s, order);
    forall i | 0 <= i < |m| && !m[i].nullable ensures Widen(s, row, m)[i].Some? {
      CarriedByAll(schemas, n, order[i].name, k);
      var j := IndexOf(s, m[i].name).value;
      SameName(order, order[i], s[j]);
    }
  }

  /** Under its own schema a row is written as it is, so the test that skips the widening is exact. */
  lemma WidenSame<V>(s: Schema, row: Row<V>)
    requires DistinctNames(s) && |row| == |s|
    ensures Widen(s, row, s) == row
  {
    forall i | 0 <= i < |s| ensures Cell(s, row, s[i].name) == row[i] {
      var j := IndexOf(s, s[i].name).value;
      var probe := i < j && NamesDiffer(s, i, j);
      var probe' := j < i && NamesDiffer(s, j, i);
    }
  }

  lemma {:induction false} CarriedEverywhere(schemas: seq<Schema>, n: nat, name: Text)
    requires n <= |schemas|
    ensures CarriedBy(schemas, n, name) <= n
    ensures CarriedBy(schemas, n, name) == n <==> forall k :: 0 <= k < n ==> HasName(schemas[k], name)
  {
    if n > 0 {
      CarriedEverywhere(schemas, n - 1, name);
    }
  }

  lemma IndexIs(s: Schema, l: nat)
    requires DistinctNames(s) && l < |s|
    ensures IndexOf(s, s[l].name) == Some(l)
  {
    var i := IndexOf(s, s[l].name).value;
    var probe := i < l && NamesDiffer(s, i, l);
    var probe' := l < i && NamesDiffer(s, l, i);
  }

  lemma ColumnOf(schemas: seq<Schema>, k: nat, f: Field, order: Schema, m: Schema) returns (l: nat)
    requires Run(schemas) && k < |schemas| && f in schemas[k]
    requires order == OrderTo(schemas, |schemas|) && m == MergedSchema(schemas)
    ensures l < |order| == |m| && order[l] == f && m[l].name == f.name && IndexOf(m, f.name) == Some(l)
  {
    OrderIsUnion(schemas, |schemas|);
    MergedColumns(schemas);
    assert Within(schemas[k], order);
    var j :| 0 <= j < |schemas[k]| && schemas[k][j] == f;
    l :| 0 <= l < |order| && order[l] == f;
    IndexIs(m, l);
  }

  /** Some segment of the run has no column of the name. */
  ghost predicate Lacking(schemas: seq<Schema>, name: Text) {
    exists k :: 0 <= k < |schemas| && !HasName(schemas[k], name)
  }

  /** A merged column is nullable exactly where the run's own was, or where some segment lacks it. */
  lemma NullableExact(schemas: seq<Schema>, k: nat, f: Field)
    requires Run(schemas) && k < |schemas| && f in schemas[k]
    ensures HasName(MergedSchema(schemas), f.name)
    ensures MergedSchema(schemas)[IndexOf(MergedSchema(schemas), f.name).value]
            == f.(nullable := f.nullable || Lacking(schemas, f.name))
  {
    var l := ColumnOf(schemas, k, f, OrderTo(schemas, |schemas|), MergedSchema(schemas));
    CarriedEverywhere(schemas, |schemas|, f.name);
  }

  /** The fields of `s[..n]` that `order` lacks, in their order. */
  lemma {:induction false} ExtendExact(order: Schema, s: Schema, n: nat) returns (idx: seq<nat>, more: Schema)
    requires n <= |s| && DistinctNames(s)
    ensures ExtendTo(order, s, n) == order + more && Picks(s, more, idx)
    ensures forall i: nat :: i in idx <==> i < n && !HasName(order, s[i].name)
  {
    if n == 0 {
      idx, more := [], [];
    } else {
      var pdx, p := ExtendExact(order, s, n - 1);
      idx, more := pdx, p;
      NamesAfter(order, s, n - 1, pdx, p);
      if !HasName(order, s[n - 1].name) {
        idx, more := pdx + [n - 1], p + [s[n - 1]];
        forall k: nat | k < |idx| ensures PickedAt(s, more, idx, k) {
          assert k < |pdx| ==> PickedAt(s, p, pdx, k);
        }
        forall a: nat, b: nat | a < b < |idx| ensures RisesAt(idx, a, b) {
          assert b < |pdx| ==> RisesAt(pdx, a, b);
          assert b == |pdx| ==> pdx[a] in pdx;
        }
      }
    }
  }

  /** A later field's name is known exactly when it was before the schema. */
  lemma NamesAfter(order: Schema, s: Schema, n: nat, idx: seq<nat>, more: Schema)
    requires n < |s| && DistinctNames(s) && Picks(s, more, idx)
    requires forall i: nat :: i in idx ==> i < n
    ensures HasName(order + more, s[n].name) <==> HasName(order, s[n].name)
  {
    if i: nat :| i < |order| && order[i].name == s[n].name {
      assert (order + more)[i].name == s[n].name;
    }
    if i: nat :| i < |order + more| && (order + more)[i].name == s[n].name {
      if i >= |order| {
        assert PickedAt(s, more, idx, i - |order|);
        assert idx[i - |order|] in idx;
        var probe := NamesDiffer(s, idx[i - |order|], n);
      }
    }
  }

  /**
   * The merged columns stand in the order they first appear: each further segment leaves the ones
   * so far where they are, and puts behind them exactly its columns of new names, in its own order.
   */
  lemma FirstAppearance(schemas: seq<Schema>, n: nat, m: nat) returns (idx: seq<nat>, more: Schema)
    requires n < |schemas| && m == n + 1 && DistinctNames(schemas[n])
    ensures OrderTo(schemas, m) == OrderTo(schemas, n) + more && Picks(schemas[n], more, idx)
    ensures forall i: nat :: i in idx <==> i < |schemas[n]| && !HasName(OrderTo(schemas, n), schemas[n][i].name)
  {
    idx, more := ExtendExact(OrderTo(schemas, n), schemas[n], |schemas[n]|);
  }

  /**
   * Under this policy a pass replaces an admitted run by a segment that has every column any of its
   * members has, the same but for nullability, and no other.
   */
  lemma ReplacementHasAll(run: seq<Schema>, name: Text)
    requires |run| > 1 && Run(run)
    ensures ReplacementTag(UnionPolicy(), run) == MergedSchema(run)
    ensures HasName(ReplacementTag(UnionPolicy(), run), name) <==> exists k :: 0 <= k < |run| && HasName(run[k], name)
  {
    var order := OrderTo(run, |run|);
    assert [run[0]] + run[1..] == run;
    MergedColumns(run);
    OrderIsUnion(run, |run|);
    if HasName(order, name) {
      var i :| 0 <= i < |order| && order[i].name == name;
      assert ComesFrom(order[i], run, |run|);
      var k :| 0 <= k < |run| && order[i] in run[k];
      var j :| 0 <= j < |run[k]| && run[k][j] == order[i];
      assert HasName(run[k], name);
    }
    if k :| 0 <= k < |run| && HasName(run[k], name) {
      assert Within(run[k], order);
      WithinNames(run[k], order, name);
    }
  }

  // ------------------------------------------------------------------ the merge's loops

  function Schemas<V>(files: seq<File<V>>): (r: seq<Schema>)
    ensures |r| == |files| && forall k :: 0 <= k < |r| ==> r[k] == files[k].schema
  {
    seq(|files|, k requires 0 <= k < |files| => files[k].schema)
  }

  ghost predicate FileOk<V>(f: File<V>) {
    DistinctNames(f.schema) && forall r :: 0 <= r < |f.rows| ==> RowOk(f.schema, f.rows[r])
  }

  ghost predicate FilesOk<V>(files: seq<File<V>>) {
    forall k :: 0 <= k < |files| ==> FileOk(files[k])
  }

  /** `seen` says where in `order` each name is. */
  ghost predicate Indexed(order: Schema, seen: map<Text, nat>) {
    && (forall name :: name in seen ==> seen[name] < |order| && order[seen[name]].name == name)
    && (forall i: nat :: i < |order| ==> NamedAt(order, seen, i))
  }

  ghost predicate NamedAt(order: Schema, seen: map<Text, nat>, i: nat)
    requires i < |order|
  {
    order[i].name in seen && seen[order[i].name] == i
  }

  lemma IndexedHas(order: Schema, seen: map<Text, nat>, name: Text)
    requires Indexed(order, seen)
    ensures name in seen <==> HasName(order, name)
  {
    if i :| 0 <= i < |order| && order[i].name == name {
      assert NamedAt(order, seen, i);
    }
  }

  /** Looking a field up by its name is looking for it among the fields. */
  lemma IndexedAdmits(order: Schema, seen: map<Text, nat>, s: Schema)
    requires Indexed(order, seen)
    ensures (forall i :: 0 <= i < |s| ==> s[i].name in seen ==> order[seen[s[i].name]] == s[i]) <==> Admitted(order, s)
  {
    forall i | 0 <= i < |s| ensures s[i].name in seen <==> HasName(order, s[i].name) {
      IndexedHas(order, seen, s[i].name);
    }
    forall i | 0 <= i < |s| && s[i] in order ensures s[i].name in seen && order[seen[s[i].name]] == s[i] {
      var j: nat :| j < |order| && order[j] == s[i];
      assert NamedAt(order, seen, j);
    }
  }

  /** `carried[i]` counts the segments so far, and the part of the next one already taken, with `order[i]`. */
  ghost predicate Counted(order: Schema, carried: seq<nat>, schemas: seq<Schema>, n: nat, part: Schema)
    requires n <= |schemas|
  {
    |carried| == |order| && forall i: nat :: i < |order| ==> CountedAt(order, carried, schemas, n, part, i)
  }

  ghost predicate CountedAt(order: Schema, carried: seq<nat>, schemas: seq<Schema>, n: nat, part: Schema, i: nat)
    requires n <= |schemas| && i < |order| == |carried|
  {
    carried[i] == CarriedBy(schemas, n, order[i].name) + if HasName(part, order[i].name) then 1 else 0
  }

  lemma HasNameMore(part: Schema, f: Field, name: Text)
    ensures HasName(part + [f], name) <==> HasName(part, name) || f.name == name
  {
    var more := part + [f];
    assert more[|part|] == f;
    assert forall i :: 0 <= i < |part| ==> more[i] == part[i];
  }

  lemma {:induction false} NeverCarried(schemas: seq<Schema>, n: nat, name: Text)
    requires n <= |schemas| && Columns(schemas) && AdmittedTo(schemas, n) && !HasName(OrderTo(schemas, n), name)
    ensures CarriedBy(schemas, n, name) == 0
  {
    if n > 0 {
      OrderIsUnion(schemas, n);
      var order := OrderTo(schemas, n);
      assert Within(schemas[n - 1], order);
      OrderIsUnion(schemas, n - 1);
      assert AdmittedAt(schemas, n - 1);
      ExtendKeeps(OrderTo(schemas, n - 1), schemas[n - 1], |schemas[n - 1]|);
      assert forall i :: 0 <= i < |OrderTo(schemas, n - 1)| ==> order[i] == OrderTo(schemas, n - 1)[i];
      NeverCarried(schemas, n - 1, name);
      WithinNames(schemas[n - 1], order, name);
    }
  }

  lemma WithinNames(s: Schema, order: Schema, name: Text)
    requires Within(s, order)
    ensures HasName(s, name) ==> HasName(order, name)
  {
    if i :| 0 <= i < |s| && s[i].name == name {
      var l :| 0 <= l < |order| && order[l] == s[i];
    }
  }

  lemma FewerAdmitted(schemas: seq<Schema>, n: nat)
    requires n < |schemas| && AdmittedTo(schemas, n + 1)
    ensures AdmittedTo(schemas, n)
  {}

  /** A segment's fields part way into the union. */
  lemma PartExtends(schemas: seq<Schema>, n: nat, order: Schema, s: Schema, i: nat)
    requires n < |schemas| && schemas[n] == s && Columns(schemas) && AdmittedTo(schemas, n + 1)
    requires order == OrderTo(schemas, n) && i < |s|
    ensures DistinctNames(ExtendTo(order, s, i)) && order <= ExtendTo(order, s, i) && !HasName(s[..i], s[i].name)
  {
    assert AdmittedAt(schemas, n);
    FewerAdmitted(schemas, n);
    OrderIsUnion(schemas, n);
    ExtendKeeps(order, s, i);
    FreshInPart(s, i);
  }

  /** One field: counted where its column is known, or a column of its own. */
  method TakeField(
    ghost schemas: seq<Schema>, ghost n: nat, ghost base: Schema, ghost part: Schema, f: Field,
    order: Schema, seen: map<Text, nat>, carried: seq<nat>)
    returns (order': Schema, seen': map<Text, nat>, carried': seq<nat>)
    requires n <= |schemas| && Columns(schemas) && AdmittedTo(schemas, n) && base == OrderTo(schemas, n)
    requires base <= order && DistinctNames(order) && !HasName(part, f.name)
    requires Indexed(order, seen) && Counted(order, carried, schemas, n, part)
    ensures order' == if HasName(order, f.name) then order else order + [f]
    ensures Indexed(order', seen') && Counted(order', carried', schemas, n, part + [f])
  {
    order', seen', carried' := order, seen, carried;
    IndexedHas(order, seen, f.name);
    if f.name in seen {
      var j := seen[f.name];
      CountOne(order, carried, schemas, n, part, f, j);
      carried' := carried[j := carried[j] + 1];
    } else {
      NewColumn(base, schemas, n, order, seen, carried, part, f);
      seen' := seen[f.name := |order|];
      order' := order + [f];
      carried' := carried + [1];
    }
  }

  /** Take one segment's fields into the union. */
  method Extend(ghost schemas: seq<Schema>, ghost n: nat, s: Schema, order: Schema, seen: map<Text, nat>, carried: seq<nat>)
    returns (order': Schema, seen': map<Text, nat>, carried': seq<nat>)
    requires n < |schemas| && schemas[n] == s && Columns(schemas) && AdmittedTo(schemas, n + 1)
    requires order == OrderTo(schemas, n) && Indexed(order, seen) && Counted(order, carried, schemas, n, [])
    ensures order' == OrderTo(schemas, n + 1) && Indexed(order', seen') && Counted(order', carried', schemas, n + 1, [])
  {
    order', seen', carried' := order, seen, carried;
    var i := 0;
    assert AdmittedTo(schemas, n) by {
      FewerAdmitted(schemas, n);
    }
    while i < |s|
      invariant i <= |s| && order' == ExtendTo(order, s, i)
      invariant Indexed(order', seen') && Counted(order', carried', schemas, n, s[..i])
    {
      PartExtends(schemas, n, order, s, i);
      order', seen', carried' := TakeField(schemas, n, order, s[..i], s[i], order', seen', carried');
      assert s[..i + 1] == s[..i] + [s[i]];
      i := i + 1;
    }
    assert s[..|s|] == s;
    CountAll(order', carried', schemas, n);
  }

  lemma NewColumn(
    order: Schema, schemas: seq<Schema>, n: nat, was: Schema, seen: map<Text, nat>, carried: seq<nat>, part: Schema, f: Field)
    requires n <= |schemas| && Columns(schemas) && AdmittedTo(schemas, n) && order == OrderTo(schemas, n)
    requires order <= was && !HasName(was, f.name) && f.name !in seen
    requires Indexed(was, seen) && Counted(was, carried, schemas, n, part)
    ensures Indexed(was + [f], seen[f.name := |was|]) && Counted(was + [f], carried + [1], schemas, n, part + [f])
  {
    IndexMore(was, f);
    NotCarried(order, schemas, n, was, f.name);
    CountNew(was, carried, schemas, n, part, f);
  }

  lemma FreshInPart(s: Schema, i: nat)
    requires DistinctNames(s) && i < |s|
    ensures !HasName(s[..i], s[i].name)
  {
    if j :| 0 <= j < i && s[..i][j].name == s[i].name {
      var probe := NamesDiffer(s, j, i);
    }
  }

  lemma IndexMore(order: Schema, f: Field)
    ensures forall seen :: Indexed(order, seen) && f.name !in seen ==> Indexed(order + [f], seen[f.name := |order|])
  {
    forall seen | Indexed(order, seen) && f.name !in seen ensures Indexed(order + [f], seen[f.name := |order|]) {
      var o, m := order + [f], seen[f.name := |order|];
      forall i: nat | i < |o| ensures NamedAt(o, m, i) {
        assert i < |order| ==> NamedAt(order, seen, i);
      }
    }
  }

  lemma NotCarried(order: Schema, schemas: seq<Schema>, n: nat, was: Schema, name: Text)
    requires n <= |schemas| && Columns(schemas) && AdmittedTo(schemas, n) && order == OrderTo(schemas, n)
    requires order <= was && !HasName(was, name)
    ensures CarriedBy(schemas, n, name) == 0
  {
    assert forall i :: 0 <= i < |order| ==> was[i] == order[i];
    NeverCarried(schemas, n, name);
  }

  lemma CountOne(order: Schema, carried: seq<nat>, schemas: seq<Schema>, n: nat, part: Schema, f: Field, j: nat)
    requires n <= |schemas| && Counted(order, carried, schemas, n, part)
    requires j < |order| && order[j].name == f.name && !HasName(part, f.name)
    requires DistinctNames(order)
    ensures Counted(order, carried[j := carried[j] + 1], schemas, n, part + [f])
  {
    var c := carried[j := carried[j] + 1];
    forall i: nat | i < |order| ensures CountedAt(order, c, schemas, n, part + [f], i) {
      assert CountedAt(order, carried, schemas, n, part, i);
      HasNameMore(part, f, order[i].name);
      var probe := i < j && NamesDiffer(order, i, j);
      var probe' := j < i && NamesDiffer(order, j, i);
    }
  }

  lemma CountNew(order: Schema, carried: seq<nat>, schemas: seq<Schema>, n: nat, part: Schema, f: Field)
    requires n <= |schemas| && Counted(order, carried, schemas, n, part)
    requires CarriedBy(schemas, n, f.name) == 0 && !HasName(order, f.name)
    ensures Counted(order + [f], carried + [1], schemas, n, part + [f])
  {
    var o, c := order + [f], carried + [1];
    forall i: nat | i < |o| ensures CountedAt(o, c, schemas, n, part + [f], i) {
      HasNameMore(part, f, o[i].name);
      if i < |order| {
        assert CountedAt(order, carried, schemas, n, part, i);
      }
    }
  }

  lemma CountAll(order: Schema, carried: seq<nat>, schemas: seq<Schema>, n: nat)
    requires n < |schemas| && Counted(order, carried, schemas, n, schemas[n])
    ensures Counted(order, carried, schemas, n + 1, [])
  {
    var m := n + 1;
    forall i: nat | i < |order| ensures CountedAt(order, carried, schemas, m, [], i) {
      assert CountedAt(order, carried, schemas, n, schemas[n], i);
    }
  }

  /** The run the merge admits: at most up to the segment the metadata merge refuses. */
  function RunLength<V>(files: seq<File<V>>, limit: nat): nat {
    Consumed(UnionPolicy(), Schemas(files), 0, Min(limit, |files|), 0)
  }

  lemma {:induction false} ConsumedAdmits(schemas: seq<Schema>, end: nat, n: nat)
    requires n <= end <= |schemas| && AdmittedTo(schemas, n)
    ensures var c := Consumed(UnionPolicy(), schemas, 0, end, n);
            AdmittedTo(schemas, c) && (c < end ==> !AdmittedAt(schemas, c))
    decreases end - n
  {
    assert schemas[0..0 + n] == schemas[..n] && 0 + n == n;
    OrderPrefix(schemas, n, n);
    if n < end && UnionPolicy().admits(schemas[0..0 + n], schemas[0 + n]) {
      assert AdmittedAt(schemas, n);
      ConsumedAdmits(schemas, end, n + 1);
    }
  }

  lemma {:induction false} OrderPrefix(schemas: seq<Schema>, c: nat, n: nat)
    requires n <= c <= |schemas|
    ensures OrderTo(schemas[..c], n) == OrderTo(schemas, n)
    ensures forall name :: CarriedBy(schemas[..c], n, name) == CarriedBy(schemas, n, name)
  {
    if n > 0 {
      OrderPrefix(schemas, c, n - 1);
    }
  }

  lemma PrefixRun(schemas: seq<Schema>, c: nat)
    requires c <= |schemas| && Columns(schemas) && AdmittedTo(schemas, c)
    ensures Run(schemas[..c])
  {
    forall k: nat | k < c ensures AdmittedAt(schemas[..c], k) {
      OrderPrefix(schemas, c, k);
      assert AdmittedAt(schemas, k);
    }
  }

  /** Every row of the run's files, written under the merged schema, in order. */
  function MergedRows<V>(files: seq<File<V>>, to: Schema, n: nat): seq<Row<V>>
    requires n <= |files| && FilesOk(files)
  {
    if n == 0 then [] else MergedRows(files, to, n - 1) + WidenRows(files[n - 1], to, |files[n - 1].rows|)
  }

  function WidenRows<V>(f: File<V>, to: Schema, n: nat): seq<Row<V>>
    requires n <= |f.rows| && FileOk(f)
  {
    if n == 0 then [] else WidenRows(f, to, n - 1) + [Widen(f.schema, f.rows[n - 1], to)]
  }

  /** `concat_parquet` under `UnionFields`; the metadata merge refuses the segment at `limit`. */
  method Concat<V>(files: seq<File<V>>, limit: nat) returns (merged: Option<File<V>>, consumed: nat)
    requires FilesOk(files)
    ensures merged.Some? <==> RunLength(files, limit) >= 2
    ensures merged.Some? ==>
              && consumed == RunLength(files, limit)
              && Run(Schemas(files)[..consumed])
              && merged.value.schema == MergedSchema(Schemas(files)[..consumed])
              && merged.value.rows == MergedRows(files, merged.value.schema, consumed)
  {
    ghost var schemas := Schemas(files);
    var end := Min(limit, |files|);
    var order: Schema, seen: map<Text, nat>, carried: seq<nat> := [], map[], [];
    consumed := 0;
    assert forall k :: 0 <= k < |files| ==> FileOk(files[k]);
    while consumed < end && (forall i :: 0 <= i < |files[consumed].schema| ==>
                               files[consumed].schema[i].name in seen ==>
                               order[seen[files[consumed].schema[i].name]] == files[consumed].schema[i])
      invariant consumed <= end
      invariant order == OrderTo(schemas, consumed) && Indexed(order, seen) && Counted(order, carried, schemas, consumed, [])
      invariant AdmittedTo(schemas, consumed)
    {
      IndexedAdmits(order, seen, schemas[consumed]);
      assert AdmittedAt(schemas, consumed);
      order, seen, carried := Extend(schemas, consumed, files[consumed].schema, order, seen, carried);
      consumed := consumed + 1;
    }
    if consumed < end {
      IndexedAdmits(order, seen, schemas[consumed]);
    }
    RunIs(schemas, end, consumed);
    if consumed < 2 {
      return None, 1;
    }
    var to := Finish(schemas, consumed, order, carried);
    var rows := WriteRows(files, to, consumed);
    merged := Some(File(to, rows));
  }

  lemma RunIs(schemas: seq<Schema>, end: nat, c: nat)
    requires c <= end <= |schemas| && AdmittedTo(schemas, c) && Columns(schemas)
    requires c < end ==> !AdmittedAt(schemas, c)
    ensures Consumed(UnionPolicy(), schemas, 0, end, 0) == c && Run(schemas[..c])
  {
    var r := Consumed(UnionPolicy(), schemas, 0, end, 0);
    var atC := c < |schemas| && AdmittedAt(schemas, c);
    var atR := r < |schemas| && AdmittedAt(schemas, r);
    ConsumedAdmits(schemas, end, 0);
    PrefixRun(schemas, c);
  }

  /** The merged schema: nullable wherever some segment lacked the column. */
  method Finish(ghost schemas: seq<Schema>, consumed: nat, order: Schema, carried: seq<nat>) returns (to: Schema)
    requires consumed <= |schemas| && order == OrderTo(schemas, consumed) && Counted(order, carried, schemas, consumed, [])
    ensures to == MergedSchema(schemas[..consumed])
  {
    to := [];
    ghost var run := schemas[..consumed];
    OrderPrefix(schemas, consumed, consumed);
    assert |run| == consumed;
    for i := 0 to |order|
      invariant |to| == i && forall j :: 0 <= j < i ==> to[j] == MergedSchema(run)[j]
    {
      assert CountedAt(order, carried, schemas, consumed, [], i);
      to := to + [Widened(order[i], carried[i] == consumed)];
    }
  }

  method WriteRows<V>(files: seq<File<V>>, to: Schema, consumed: nat) returns (rows: seq<Row<V>>)
    requires consumed <= |files| && FilesOk(files)
    ensures rows == MergedRows(files, to, consumed)
  {
    rows := [];
    for k := 0 to consumed
      invariant rows == MergedRows(files, to, k)
    {
      var batch := WriteFile(files[k], to);
      rows := rows + batch;
    }
  }

  /** A file's rows as they are when it has the merged schema already, by name otherwise. */
  method WriteFile<V>(f: File<V>, to: Schema) returns (rows: seq<Row<V>>)
    requires FileOk(f)
    ensures rows == WidenRows(f, to, |f.rows|)
  {
    rows := [];
    for r := 0 to |f.rows|
      invariant rows == WidenRows(f, to, r)
    {
      assert RowOk(f.schema, f.rows[r]);
      if f.schema == to {
        WidenSame(f.schema, f.rows[r]);
        rows := rows + [f.rows[r]];
      } else {
        rows := rows + [Widen(f.schema, f.rows[r], to)];
      }
    }
  }
}
