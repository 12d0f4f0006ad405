/** Archive-level documents and the copy that merges two histories (src/archive/sqlite/documents.rs). */
module Documents {
  import opened Types

  /** A row of `documents`; `content` is `(schema, body)`, `None` on a deletion. */
  datatype Revision = Revision(
    id: int, uuid: Text, kind: Text, name: Text, content: Option<(Text, Text)>, created: int, supersedes: Option<int>)

  /** The table, in id order. */
  type Table = seq<Revision>

  /** `(kind, name)`. */
  type Doc = (Text, Text)

  function DocOf(r: Revision): Doc {
    (r.kind, r.name)
  }

  /** `INTEGER PRIMARY KEY`: each row past the one before. */
  ghost predicate Increasing(t: Table) {
    forall i: nat, j: nat :: i < j < |t| ==> IdLess(t, i, j)
  }

  ghost predicate IdLess(t: Table, i: nat, j: nat)
    requires i < |t| && j < |t|
  {
    t[i].id < t[j].id
  }

  /** `uuid TEXT NOT NULL UNIQUE`. */
  ghost predicate Unique(t: Table) {
    forall i: nat, j: nat :: i < j < |t| ==> UuidsDiffer(t, i, j)
  }

  ghost predicate UuidsDiffer(t: Table, i: nat, j: nat)
    requires i < |t| && j < |t|
  {
    t[i].uuid != t[j].uuid
  }

  ghost predicate Valid(t: Table) {
    Increasing(t) && Unique(t)
  }

  function FindUuidTo(t: Table, uuid: Text, n: nat): (r: Option<nat>)
    requires n <= |t|
    ensures r.Some? ==> r.value < n && t[r.value].uuid == uuid
    ensures r.None? ==> forall i :: 0 <= i < n ==> t[i].uuid != uuid
  {
    if n == 0 then None else if t[n - 1].uuid == uuid then Some(n - 1) else FindUuidTo(t, uuid, n - 1)
  }

  /** `WHERE uuid = ?`. */
  function FindUuid(t: Table, uuid: Text): (r: Option<nat>)
    ensures r.Some? ==> r.value < |t| && t[r.value].uuid == uuid
    ensures r.None? ==> forall i :: 0 <= i < |t| ==> t[i].uuid != uuid
  {
    FindUuidTo(t, uuid, |t|)
  }

  function FindIdTo(t: Table, id: int, n: nat): (r: Option<nat>)
    requires n <= |t|
    ensures r.Some? ==> r.value < n && t[r.value].id == id
    ensures r.None? ==> forall i :: 0 <= i < n ==> t[i].id != id
  {
    if n == 0 then None else if t[n - 1].id == id then Some(n - 1) else FindIdTo(t, id, n - 1)
  }

  /** `WHERE id = ?`. */
  function FindId(t: Table, id: int): (r: Option<nat>)
    ensures r.Some? ==> r.value < |t| && t[r.value].id == id
    ensures r.None? ==> forall i :: 0 <= i < |t| ==> t[i].id != id
  {
    FindIdTo(t, id, |t|)
  }

  function HeadTo(t: Table, doc: Doc, n: nat): (r: Option<nat>)
    requires n <= |t|
    ensures r.Some? ==> r.value < n && DocOf(t[r.value]) == doc
    ensures r.Some? ==> forall i :: r.value < i < n ==> DocOf(t[i]) != doc
    ensures r.None? ==> forall i :: 0 <= i < n ==> DocOf(t[i]) != doc
  {
    if n == 0 then None else if DocOf(t[n - 1]) == doc then Some(n - 1) else HeadTo(t, doc, n - 1)
  }

  /** `ORDER BY id DESC LIMIT 1`: the newest revision, deletion or not. */
  function Head(t: Table, doc: Doc): Option<Revision> {
    var i := HeadTo(t, doc, |t|);
    if i.Some? then Some(t[i.value]) else None
  }

  /** The id the next insert takes. */
  function NextId(t: Table): int {
    if t == [] then 1 else t[|t| - 1].id + 1
  }

  function Append(t: Table, uuid: Text, doc: Doc, content: Option<(Text, Text)>, created: int, supersedes: Option<int>): Table {
    t + [Revision(NextId(t), uuid, doc.0, doc.1, content, created, supersedes)]
  }

  lemma AppendValid(t: Table, uuid: Text, doc: Doc, content: Option<(Text, Text)>, created: int, supersedes: Option<int>)
    requires Valid(t) && FindUuid(t, uuid).None?
    ensures Valid(Append(t, uuid, doc, content, created, supersedes))
    ensures forall i :: 0 <= i < |t| ==> t[i].id < NextId(t)
  {
    var u := Append(t, uuid, doc, content, created, supersedes);
    forall i: nat | i < |t| ensures t[i].id < NextId(t) {
      assert i < |t| - 1 ==> IdLess(t, i, |t| - 1);
    }
    forall i: nat, j: nat | i < j < |u| ensures IdLess(u, i, j) && UuidsDiffer(u, i, j) {
      if j < |t| {
        assert IdLess(t, i, j) && UuidsDiffer(t, i, j);
      } else {
        assert t[i].uuid != uuid;
      }
    }
  }

  // ------------------------------------------------------------------ edges

  /** Every `supersedes` is a smaller id of the same document. */
  ghost predicate Linked(t: Table) {
    forall i: nat :: i < |t| ==> LinkedAt(t, i)
  }

  ghost predicate LinkedAt(t: Table, i: nat)
    requires i < |t|
  {
    t[i].supersedes.Some? ==> Points(t, i, t[i].supersedes.value)
  }

  ghost predicate Points(t: Table, i: nat, id: int)
    requires i < |t|
  {
    exists j: nat :: j < i && PointsTo(t, i, id, j)
  }

  ghost predicate PointsTo(t: Table, i: nat, id: int, j: nat)
    requires i < |t| && j < |t|
  {
    t[j].id == id < t[i].id && DocOf(t[j]) == DocOf(t[i])
  }

  /** A revision that supersedes nothing, or an older one of its document, keeps the edges sound. */
  lemma AppendLinked(t: Table, uuid: Text, doc: Doc, content: Option<(Text, Text)>, created: int, supersedes: Option<int>, k: nat)
    requires Valid(t) && Linked(t) && FindUuid(t, uuid).None?
    requires supersedes.Some? ==> k < |t| && t[k].id == supersedes.value && DocOf(t[k]) == doc
    ensures Linked(Append(t, uuid, doc, content, created, supersedes))
  {
    var u := Append(t, uuid, doc, content, created, supersedes);
    AppendValid(t, uuid, doc, content, created, supersedes);
    forall i: nat | i < |u| ensures LinkedAt(u, i) {
      if i < |t| {
        assert LinkedAt(t, i);
        if t[i].supersedes.Some? {
          var j: nat :| j < i && PointsTo(t, i, t[i].supersedes.value, j);
          assert PointsTo(u, i, t[i].supersedes.value, j);
        }
      } else if supersedes.Some? {
        assert PointsTo(u, i, supersedes.value, k);
      }
    }
  }

  // ------------------------------------------------------------------ the copy, as values

  /** A revision never changes: what two files must agree on under one uuid. */
  predicate Same(a: Revision, b: Revision) {
    a.kind == b.kind && a.name == b.name && a.content == b.content
  }

  /** What the destination's newest revision of a document was, and the last one the copy inserted. */
  datatype Touched = Touched(before: Option<Revision>, last: int)

  /** The copy's destination and its bookkeeping, part way through the source. */
  datatype Copy = Copy(table: Table, ids: map<int, int>, touched: map<Doc, Touched>, first: Option<int>)

  /** A pointer renumbered; one that no row so far has is carried as unknown. */
  function Renumber(ids: map<int, int>, supersedes: Option<int>): Option<int> {
    if supersedes.Some? && supersedes.value in ids then Some(ids[supersedes.value]) else None
  }

  function BeforeOf(c: Copy, doc: Doc): Option<Revision> {
    if doc in c.touched then c.touched[doc].before else Head(c.table, doc)
  }

  function InsertOne(c: Copy, r: Revision): Copy {
    var id := NextId(c.table);
    Copy(Append(c.table, r.uuid, DocOf(r), r.content, r.created, Renumber(c.ids, r.supersedes)),
         c.ids[r.id := id],
         c.touched[DocOf(r) := Touched(BeforeOf(c, DocOf(r)), id)],
         if c.first.None? then Some(id) else c.first)
  }

  /** One source row: skipped if held, refused if held with other contents, inserted if new. */
  function CopyOne(c: Copy, r: Revision): Result<Copy> {
    var held := FindUuid(c.table, r.uuid);
    if held.None? then Ok(InsertOne(c, r))
    else if !Same(c.table[held.value], r) then Err
    else Ok(c.(ids := c.ids[r.id := c.table[held.value].id]))
  }

  function CopyTo(dst: Table, src: Table, n: nat): Result<Copy>
    requires n <= |src|
  {
    if n == 0 then Ok(Copy(dst, map[], map[], None)) else
    match CopyTo(dst, src, n - 1)
    case Err => Err
    case Ok(c) => CopyOne(c, src[n - 1])
  }

  // ------------------------------------------------------------------ what a copy keeps

  /** The destination only grows, stays a table, and every source row so far is in it. */
  ghost predicate Holds(dst: Table, src: Table, n: nat, c: Copy)
    requires n <= |src|
  {
    && dst <= c.table && Valid(c.table)
    && (forall i: nat :: i < n ==> HeldAt(src, c, i))
    && (forall x :: x in c.ids ==> KeyFrom(src, n, x))
    && (forall j: nat :: |dst| <= j < |c.table| ==> CameFrom(src, n, c, j))
  }

  /** Source row `i` is a row of the destination, under the id recorded for it. */
  ghost predicate HeldAt(src: Table, c: Copy, i: nat)
    requires i < |src|
  {
    && src[i].id in c.ids
    && exists k: nat :: IsRow(c.table, k, src[i], c.ids[src[i].id])
  }

  ghost predicate IsRow(t: Table, k: nat, r: Revision, id: int) {
    k < |t| && t[k].uuid == r.uuid && t[k].id == id && Same(t[k], r)
  }

  ghost predicate KeyFrom(src: Table, n: nat, x: int)
    requires n <= |src|
  {
    exists i: nat :: i < n && HasId(src, i, x)
  }

  ghost predicate HasId(src: Table, i: nat, x: int)
    requires i < |src|
  {
    src[i].id == x
  }

  /** An inserted row is a source row, its edge renumbered as the source's was resolved by then. */
  ghost predicate CameFrom(src: Table, n: nat, c: Copy, j: nat)
    requires n <= |src| && j < |c.table|
  {
    exists i: nat :: i < n && IsCopy(src, c, i, j)
  }

  ghost predicate IsCopy(src: Table, c: Copy, i: nat, j: nat)
    requires i < |src| && j < |c.table|
  {
    && c.table[j].uuid == src[i].uuid && Same(c.table[j], src[i]) && c.table[j].created == src[i].created
    && c.table[j].supersedes == EdgeOf(src, c.ids, i)
  }

  /** Where source row `i`'s edge points in the destination: only to a row the source holds before it. */
  ghost function EdgeOf(src: Table, ids: map<int, int>, i: nat): Option<int>
    requires i < |src|
  {
    if src[i].supersedes.Some? && src[i].supersedes.value < src[i].id then Renumber(ids, src[i].supersedes) else None
  }

  /** A source row's id is not yet among the keys when it is reached. */
  lemma KeysBefore(dst: Table, src: Table, n: nat, c: Copy, x: int)
    requires n < |src| && Increasing(src) && Holds(dst, src, n, c)
    ensures x in c.ids ==> x < src[n].id
  {
    if x in c.ids {
      assert KeyFrom(src, n, x);
      var i: nat :| i < n && HasId(src, i, x);
      assert IdLess(src, i, n);
    }
  }

  /** Recording one more id disturbs nothing recorded before. */
  lemma MoreIds(dst: Table, src: Table, n: nat, m: nat, c: Copy, c': Copy, id: int)
    requires n < |src| && m == n + 1 && Increasing(src) && Holds(dst, src, n, c)
    requires c.table <= c'.table && c'.ids == c.ids[src[n].id := id]
    ensures forall i: nat :: i < n ==> HeldAt(src, c', i)
    ensures forall x :: x in c'.ids ==> KeyFrom(src, m, x)
    ensures forall j: nat :: |dst| <= j < |c.table| ==> CameFrom(src, m, c', j)
  {
    forall i: nat | i < n ensures HeldAt(src, c', i) {
      assert HeldAt(src, c, i) && IdLess(src, i, n);
      var k: nat :| IsRow(c.table, k, src[i], c.ids[src[i].id]);
      assert IsRow(c'.table, k, src[i], c'.ids[src[i].id]);
    }
    forall x | x in c'.ids ensures KeyFrom(src, m, x) {
      if x in c.ids && x != src[n].id {
        assert KeyFrom(src, n, x);
        var i: nat :| i < n && HasId(src, i, x);
        assert HasId(src, i, x);
      } else {
        assert HasId(src, n, x);
      }
    }
    forall j: nat | |dst| <= j < |c.table| ensures CameFrom(src, m, c', j) {
      assert CameFrom(src, n, c, j);
      var i: nat :| i < n && IsCopy(src, c, i, j);
      assert IdLess(src, i, n);
      assert IsCopy(src, c', i, j);
    }
  }

  lemma CopyOneHolds(dst: Table, src: Table, n: nat, c: Copy, c': Copy)
    requires n < |src| && Increasing(src) && Holds(dst, src, n, c) && CopyOne(c, src[n]) == Ok(c')
    ensures Holds(dst, src, n + 1, c')
  {
    var r := src[n];
    var held := FindUuid(c.table, r.uuid);
    if held.Some? {
      MoreIds(dst, src, n, n + 1, c, c', c.table[held.value].id);
      assert IsRow(c'.table, held.value, r, c'.ids[r.id]);
    } else {
      AppendValid(c.table, r.uuid, DocOf(r), r.content, r.created, Renumber(c.ids, r.supersedes));
      MoreIds(dst, src, n, n + 1, c, c', NextId(c.table));
      assert IsRow(c'.table, |c.table|, r, c'.ids[r.id]);
      if r.supersedes.Some? {
        KeysBefore(dst, src, n, c, r.supersedes.value);
      }
      assert IsCopy(src, c', n, |c.table|);
    }
  }

  lemma {:induction false} CopyHolds(dst: Table, src: Table, n: nat, c: Copy)
    requires n <= |src| && Valid(dst) && Increasing(src) && CopyTo(dst, src, n) == Ok(c)
    ensures Holds(dst, src, n, c)
  {
    if n > 0 {
      CopyHolds(dst, src, n - 1, CopyTo(dst, src, n - 1).value);
      CopyOneHolds(dst, src, n - 1, CopyTo(dst, src, n - 1).value, c);
    }
  }

  predicate HasUuid(t: Table, uuid: Text) {
    FindUuid(t, uuid).Some?
  }

  lemma HasUuidAt(t: Table, k: nat)
    requires k < |t|
    ensures HasUuid(t, t[k].uuid)
  {}

  /** A copy is the union of the two archives by uuid. */
  lemma CopyIsUnion(dst: Table, src: Table, c: Copy, uuid: Text)
    requires Valid(dst) && Increasing(src) && CopyTo(dst, src, |src|) == Ok(c)
    ensures HasUuid(c.table, uuid) <==> HasUuid(dst, uuid) || HasUuid(src, uuid)
  {
    CopyHolds(dst, src, |src|, c);
    if HasUuid(dst, uuid) {
      HasUuidAt(c.table, FindUuid(dst, uuid).value);
    }
    if HasUuid(src, uuid) {
      var i := FindUuid(src, uuid).value;
      assert HeldAt(src, c, i);
      var k: nat :| IsRow(c.table, k, src[i], c.ids[src[i].id]);
      HasUuidAt(c.table, k);
    }
    if HasUuid(c.table, uuid) {
      var j := FindUuid(c.table, uuid).value;
      if j < |dst| {
        HasUuidAt(dst, j);
      } else {
        assert CameFrom(src, |src|, c, j);
        var i: nat :| i < |src| && IsCopy(src, c, i, j);
        HasUuidAt(src, i);
      }
    }
  }

  /** The row a uuid names. */
  lemma UuidRow(t: Table, i: nat, j: nat)
    requires Unique(t) && i < |t| && j < |t| && t[i].uuid == t[j].uuid
    ensures i == j
  {
    var probe := i < j && UuidsDiffer(t, i, j);
    var probe' := j < i && UuidsDiffer(t, j, i);
  }

  /**
   * An inserted revision's edge, up to renumbering: it supersedes the destination's row of the
   * revision its original superseded, or nothing when the source does not hold that one before it.
   */
  lemma EdgesKept(dst: Table, src: Table, c: Copy, j: nat) returns (i: nat)
    requires Valid(dst) && Increasing(src) && CopyTo(dst, src, |src|) == Ok(c) && |dst| <= j < |c.table|
    ensures i < |src| && c.table[j].uuid == src[i].uuid && Same(c.table[j], src[i]) && c.table[j].created == src[i].created
    ensures match src[i].supersedes
            case None => c.table[j].supersedes == None
            case Some(x) =>
              match FindId(src, x)
              case None => c.table[j].supersedes == None
              case Some(s) =>
                if x >= src[i].id then c.table[j].supersedes == None
                else c.table[j].supersedes.Some? && exists k: nat :: IsRow(c.table, k, src[s], c.table[j].supersedes.value)
  {
    CopyHolds(dst, src, |src|, c);
    assert CameFrom(src, |src|, c, j);
    i :| i < |src| && IsCopy(src, c, i, j);
    if src[i].supersedes.Some? {
      var x := src[i].supersedes.value;
      var s := FindId(src, x);
      if s.Some? {
        assert HeldAt(src, c, s.value);
      }
      KeysAreIds(dst, src, c, x);
    }
  }

  lemma KeysAreIds(dst: Table, src: Table, c: Copy, x: int)
    requires Holds(dst, src, |src|, c)
    ensures x in c.ids ==> FindId(src, x).Some?
  {
    if x in c.ids {
      assert KeyFrom(src, |src|, x);
      var l: nat :| l < |src| && HasId(src, l, x);
      assert src[l].id == x;
    }
  }

  // ------------------------------------------------------------------ repeating a copy

  /** Every source row is held with the same contents. */
  ghost predicate AllHeld(dst: Table, src: Table) {
    forall i: nat :: i < |src| ==> HeldSame(dst, src, i)
  }

  ghost predicate HeldSame(dst: Table, src: Table, i: nat)
    requires i < |src|
  {
    var k := FindUuid(dst, src[i].uuid);
    k.Some? && Same(dst[k.value], src[i])
  }

  lemma {:induction false} CopyHeld(dst: Table, src: Table, n: nat)
    requires n <= |src| && AllHeld(dst, src)
    ensures CopyTo(dst, src, n).Ok?
    ensures var c := CopyTo(dst, src, n).value; c.table == dst && c.touched == map[] && c.first == None
  {
    if n > 0 {
      CopyHeld(dst, src, n - 1);
      assert HeldSame(dst, src, n - 1);
    }
  }

  /** A copy repeated adds nothing, touches no document and refuses nothing. */
  lemma CopyAgain(dst: Table, src: Table, c: Copy)
    requires Valid(dst) && Increasing(src) && CopyTo(dst, src, |src|) == Ok(c)
    ensures CopyTo(c.table, src, |src|).Ok?
    ensures var again := CopyTo(c.table, src, |src|).value;
            again.table == c.table && again.touched == map[]
  {
    CopyHolds(dst, src, |src|, c);
    forall i: nat | i < |src| ensures HeldSame(c.table, src, i) {
      assert HeldAt(src, c, i);
      var k: nat :| IsRow(c.table, k, src[i], c.ids[src[i].id]);
      HasUuidAt(c.table, k);
      UuidRow(c.table, k, FindUuid(c.table, src[i].uuid).value);
    }
    CopyHeld(c.table, src, |src|);
  }

  /** Two files that disagree about a revision. */
  ghost predicate Conflict(dst: Table, src: Table, i: nat)
    requires i < |src|
  {
    var k := FindUuid(dst, src[i].uuid);
    k.Some? && !Same(dst[k.value], src[i])
  }

  /** A copy is refused exactly when the two files hold one uuid with different contents. */
  lemma {:induction false} CopyRefuses(dst: Table, src: Table, n: nat)
    requires n <= |src| && Valid(dst) && Valid(src)
    ensures CopyTo(dst, src, n).Err? <==> exists i: nat :: i < n && Conflict(dst, src, i)
  {
    if n > 0 {
      CopyRefuses(dst, src, n - 1);
      if CopyTo(dst, src, n - 1).Ok? {
        RefusesOne(dst, src, n - 1, CopyTo(dst, src, n - 1).value);
      }
      if i: nat :| i < n && Conflict(dst, src, i) {
        assert i < n - 1 || i == n - 1;
      }
    }
  }

  function SchemaOf(r: Revision): Option<Text> {
    if r.content.Some? then Some(r.content.value.0) else None
  }

  function BodyOf(r: Revision): Option<Text> {
    if r.content.Some? then Some(r.content.value.1) else None
  }

  /** One uuid in both files, for two revisions: another kind, name, schema or body, or one a deletion. */
  ghost predicate TwoContents(dst: Table, src: Table, k: nat, i: nat) {
    && k < |dst| && i < |src| && dst[k].uuid == src[i].uuid
    && (dst[k].kind != src[i].kind || dst[k].name != src[i].name
        || SchemaOf(dst[k]) != SchemaOf(src[i]) || BodyOf(dst[k]) != BodyOf(src[i]))
  }

  /** In those terms: nothing else, a creation time or an edge for one, is a reason to refuse. */
  lemma RefusedExactly(dst: Table, src: Table)
    requires Valid(dst) && Valid(src)
    ensures CopyTo(dst, src, |src|).Err? <==> exists k: nat, i: nat :: TwoContents(dst, src, k, i)
  {
    CopyRefuses(dst, src, |src|);
    if i: nat :| i < |src| && Conflict(dst, src, i) {
      assert TwoContents(dst, src, FindUuid(dst, src[i].uuid).value, i);
    }
    if k: nat, i: nat :| TwoContents(dst, src, k, i) {
      HasUuidAt(dst, k);
      UuidRow(dst, k, FindUuid(dst, src[i].uuid).value);
      assert Conflict(dst, src, i);
    }
  }

  lemma RefusesOne(dst: Table, src: Table, n: nat, c: Copy)
    requires n < |src| && Valid(dst) && Valid(src) && CopyTo(dst, src, n) == Ok(c)
    ensures CopyOne(c, src[n]).Err? <==> Conflict(dst, src, n)
  {
    CopyHolds(dst, src, n, c);
    var k, k0 := FindUuid(c.table, src[n].uuid), FindUuid(dst, src[n].uuid);
    if k0.Some? {
      HasUuidAt(c.table, k0.value);
      UuidRow(c.table, k0.value, k.value);
    } else if k.Some? {
      assert CameFrom(src, n, c, k.value);
      var i: nat :| i < n && IsCopy(src, c, i, k.value);
      UuidRow(src, i, n);
    }
  }

  // ------------------------------------------------------------------ edges after a copy

  lemma CopyOneLinked(dst: Table, src: Table, n: nat, c: Copy, c': Copy)
    requires n < |src| && Increasing(src) && Linked(src) && Holds(dst, src, n, c) && Linked(c.table)
    requires CopyOne(c, src[n]) == Ok(c')
    ensures Linked(c'.table)
  {
    var r := src[n];
    if FindUuid(c.table, r.uuid).None? {
      var k: nat := 0;
      var to := Renumber(c.ids, r.supersedes);
      if to.Some? {
        var x := r.supersedes.value;
        assert LinkedAt(src, n);
        var i: nat :| i < n && PointsTo(src, n, x, i);
        assert HeldAt(src, c, i);
        k :| IsRow(c.table, k, src[i], c.ids[src[i].id]);
      }
      AppendLinked(c.table, r.uuid, DocOf(r), r.content, r.created, to, k);
    }
  }

  /** "Supersedes a smaller id of the same document" survives a copy. */
  lemma {:induction false} CopyLinked(dst: Table, src: Table, n: nat, c: Copy)
    requires n <= |src| && Valid(dst) && Increasing(src) && Linked(dst) && Linked(src)
    requires CopyTo(dst, src, n) == Ok(c)
    ensures Linked(c.table)
  {
    if n > 0 {
      var p := CopyTo(dst, src, n - 1).value;
      CopyHolds(dst, src, n - 1, p);
      CopyLinked(dst, src, n - 1, p);
      CopyOneLinked(dst, src, n - 1, p, c);
    }
  }

  // ------------------------------------------------------------------ heads

  lemma HeadIs(t: Table, doc: Doc, k: nat)
    requires k < |t| && DocOf(t[k]) == doc && forall i :: k < i < |t| ==> DocOf(t[i]) != doc
    ensures Head(t, doc) == Some(t[k])
  {
    var i := HeadTo(t, doc, |t|);
    var probe := i.Some? && DocOf(t[Max(i.value, k)]) == doc;
  }

  /** Per document: its newest revision before the copy, and that its newest now is the last one inserted. */
  ghost predicate TouchedOk(dst: Table, c: Copy) {
    && dst <= c.table
    && c.first == (if |c.table| > |dst| then Some(NextId(dst)) else None)
    && forall doc: Doc :: TouchedAt(dst, c, doc)
  }

  ghost predicate TouchedAt(dst: Table, c: Copy, doc: Doc) {
    && (doc in c.touched ==> c.touched[doc].before == Head(dst, doc))
    && (doc in c.touched ==> Head(c.table, doc).Some? && c.touched[doc].last == Head(c.table, doc).value.id)
    && (doc in c.touched <==> exists j: nat :: |dst| <= j < |c.table| && IsOf(c.table, j, doc))
    && (doc !in c.touched ==> Head(c.table, doc) == Head(dst, doc))
  }

  ghost predicate IsOf(t: Table, j: nat, doc: Doc)
    requires j < |t|
  {
    DocOf(t[j]) == doc
  }

  lemma InsertTouched(dst: Table, c: Copy, r: Revision)
    requires TouchedOk(dst, c)
    ensures TouchedOk(dst, InsertOne(c, r))
  {
    var c' := InsertOne(c, r);
    assert c'.table[..|c.table|] == c.table;
    forall doc: Doc ensures TouchedAt(dst, c', doc) {
      assert TouchedAt(dst, c, doc);
      assert IsOf(c'.table, |c.table|, DocOf(r));
      if doc == DocOf(r) {
        HeadIs(c'.table, doc, |c.table|);
      } else {
        SameHead(c.table, c'.table, doc);
        if j: nat :| |dst| <= j < |c.table| && IsOf(c.table, j, doc) {
          assert IsOf(c'.table, j, doc);
        }
        if j: nat :| |dst| <= j < |c'.table| && IsOf(c'.table, j, doc) {
          assert IsOf(c.table, j, doc);
        }
      }
    }
  }

  lemma SameHead(t: Table, u: Table, doc: Doc)
    requires |u| == |t| + 1 && u[..|t|] == t && DocOf(u[|t|]) != doc
    ensures Head(u, doc) == Head(t, doc)
  {
    SameHeadTo(t, u, doc, |t|);
  }

  lemma {:induction false} SameHeadTo(t: Table, u: Table, doc: Doc, n: nat)
    requires n <= |t| <= |u| && u[..|t|] == t
    ensures HeadTo(u, doc, n) == HeadTo(t, doc, n)
  {
    if n > 0 {
      SameHeadTo(t, u, doc, n - 1);
      assert u[n - 1] == t[n - 1];
    }
  }

  lemma {:induction false} CopyTouched(dst: Table, src: Table, n: nat, c: Copy)
    requires n <= |src| && CopyTo(dst, src, n) == Ok(c)
    ensures TouchedOk(dst, c)
  {
    if n > 0 {
      var p := CopyTo(dst, src, n - 1).value;
      CopyTouched(dst, src, n - 1, p);
      if FindUuid(p.table, src[n - 1].uuid).None? {
        InsertTouched(dst, p, src[n - 1]);
      } else {
        forall doc: Doc ensures TouchedAt(dst, c, doc) {
          assert TouchedAt(dst, p, doc);
        }
      }
    }
  }

  // ------------------------------------------------------------------ ancestry

  /** `SELECT supersedes FROM documents WHERE id = ?`, flattened. */
  function Supersedes(t: Table, id: int): Option<int> {
    var i := FindId(t, id);
    if i.Some? then t[i.value].supersedes else None
  }

  /** Where following `supersedes` from `id` stands after `n` steps. */
  ghost function Walk(t: Table, id: int, n: nat): Option<int> {
    if n == 0 then Some(id) else
    match Walk(t, id, n - 1)
    case None => None
    case Some(x) => Supersedes(t, x)
  }

  /** `target` is `id` or one of its ancestors. */
  ghost predicate Ancestor(t: Table, id: int, target: int) {
    exists n: nat :: Walk(t, id, n) == Some(target)
  }

  /** The chain from `id` passes below `first`. */
  ghost predicate Shares(t: Table, id: int, first: int) {
    exists n: nat :: Under(Walk(t, id, n), first)
  }

  ghost predicate Under(x: Option<int>, first: int) {
    x.Some? && x.value < first
  }

  /** A row's id leads to that row. */
  lemma RowOf(t: Table, k: nat)
    requires Increasing(t) && k < |t|
    ensures FindId(t, t[k].id) == Some(k)
  {
    var j := FindId(t, t[k].id).value;
    var probe := j < k && IdLess(t, j, k);
    var probe' := k < j && IdLess(t, k, j);
  }

  /** The walk, taken from its far end. */
  lemma {:induction false} WalkOn(t: Table, id: int, n: nat)
    requires n > 0
    ensures Walk(t, id, n) == if Supersedes(t, id).None? then None else Walk(t, Supersedes(t, id).value, n - 1)
  {
    if n > 1 {
      WalkOn(t, id, n - 1);
    } else {
      assert Walk(t, id, 0) == Some(id);
    }
  }

  /**
   * A revision's ancestors are itself and the ancestors of the one its row says it supersedes;
   * an id no row has leads nowhere.
   */
  lemma AncestorsOf(t: Table, id: int, target: int)
    requires Increasing(t)
    ensures forall k: nat :: k < |t| && t[k].id == id ==>
              (Ancestor(t, id, target) <==>
                 id == target || (t[k].supersedes.Some? && Ancestor(t, t[k].supersedes.value, target)))
    ensures (forall k: nat :: k < |t| ==> t[k].id != id) ==> (Ancestor(t, id, target) <==> id == target)
  {
    assert Walk(t, id, 0) == Some(id);
    forall k: nat | k < |t| && t[k].id == id ensures Supersedes(t, id) == t[k].supersedes {
      RowOf(t, k);
    }
    if Ancestor(t, id, target) && id != target {
      var n: nat :| Walk(t, id, n) == Some(target);
      WalkOn(t, id, n);
      assert Ancestor(t, Supersedes(t, id).value, target);
    }
    if Supersedes(t, id).Some? && Ancestor(t, Supersedes(t, id).value, target) {
      var n: nat :| Walk(t, Supersedes(t, id).value, n) == Some(target);
      WalkOn(t, id, n + 1);
    }
  }

  /** Once the chain re-enters what it has seen, it never leaves. */
  lemma {:induction false} WalkInside(t: Table, id: int, seen: set<int>, n: nat, m: nat)
    requires n <= m && (Walk(t, id, n).Some? ==> Walk(t, id, n).value in seen)
    requires forall x :: x in seen ==> Supersedes(t, x).None? || Supersedes(t, x).value in seen
    ensures Walk(t, id, m).Some? ==> Walk(t, id, m).value in seen
    decreases m
  {
    if n < m {
      WalkInside(t, id, seen, n, m - 1);
    }
  }

  /** Every id a table mentions. */
  function Mentioned(t: Table): (s: set<int>)
    ensures forall x :: Supersedes(t, x).Some? ==> Supersedes(t, x).value in s
  {
    set i | 0 <= i < |t| && t[i].supersedes.Some? :: t[i].supersedes.value
  }

  /** The ids visited in the first `n` steps, none of them the target. */
  ghost predicate Visited(t: Table, id: int, target: int, seen: set<int>, n: nat) {
    && target !in seen
    && (forall m: nat :: m < n ==> StoodIn(t, id, seen, m))
    && (forall x :: x in seen ==> StoodAt(t, id, n, x))
    && (forall x :: x in seen ==> LeadsOn(t, id, seen, n, x))
  }

  ghost predicate StoodIn(t: Table, id: int, seen: set<int>, m: nat) {
    Walk(t, id, m).Some? && Walk(t, id, m).value in seen
  }

  ghost predicate StoodAt(t: Table, id: int, n: nat, x: int) {
    exists m: nat :: m < n && Walk(t, id, m) == Some(x)
  }

  /** From a visited id the chain goes to a visited one, or to where it stands now. */
  ghost predicate LeadsOn(t: Table, id: int, seen: set<int>, n: nat, x: int) {
    Supersedes(t, x) == Walk(t, id, n) || (Supersedes(t, x).Some? && Supersedes(t, x).value in seen)
  }

  lemma VisitMore(t: Table, id: int, target: int, seen: set<int>, n: nat, cur: int)
    requires Visited(t, id, target, seen, n) && Walk(t, id, n) == Some(cur) && cur != target
    ensures Visited(t, id, target, seen + {cur}, n + 1)
  {
    var more, k := seen + {cur}, n + 1;
    forall m: nat | m < k ensures StoodIn(t, id, more, m) {
      StoodMore(t, id, target, seen, n, cur, m);
    }
    forall x | x in more ensures StoodAt(t, id, k, x) && LeadsOn(t, id, more, k, x) {
      VisitOne(t, id, target, seen, n, cur, x);
    }
  }

  lemma StoodMore(t: Table, id: int, target: int, seen: set<int>, n: nat, cur: int, m: nat)
    requires Visited(t, id, target, seen, n) && Walk(t, id, n) == Some(cur) && m <= n
    ensures StoodIn(t, id, seen + {cur}, m)
  {
    if m < n {
      assert StoodIn(t, id, seen, m);
    }
  }

  lemma VisitOne(t: Table, id: int, target: int, seen: set<int>, n: nat, cur: int, x: int)
    requires Visited(t, id, target, seen, n) && Walk(t, id, n) == Some(cur) && x in seen + {cur}
    ensures StoodAt(t, id, n + 1, x) && LeadsOn(t, id, seen + {cur}, n + 1, x)
  {
    if x in seen {
      assert StoodAt(t, id, n, x);
      assert LeadsOn(t, id, seen, n, x);
    }
    StandsLater(t, id, n, x);
    LeadsLater(t, id, seen, n, cur, x);
  }

  lemma LeadsLater(t: Table, id: int, seen: set<int>, n: nat, cur: int, x: int)
    requires Walk(t, id, n) == Some(cur) && (LeadsOn(t, id, seen, n, x) || x == cur)
    ensures LeadsOn(t, id, seen + {cur}, n + 1, x)
  {}

  lemma StandsLater(t: Table, id: int, n: nat, x: int)
    ensures StoodAt(t, id, n, x) || Walk(t, id, n) == Some(x) ==> StoodAt(t, id, n + 1, x)
  {
    if StoodAt(t, id, n, x) {
      var m: nat :| m < n && Walk(t, id, m) == Some(x);
      assert m < n + 1;
    }
  }

  /** Nothing outside the visited ids is ever reached. */
  lemma Closed(t: Table, id: int, target: int, first: int, seen: set<int>, n: nat)
    requires Visited(t, id, target, seen, n) && (Walk(t, id, n).Some? ==> Walk(t, id, n).value in seen)
    ensures !Ancestor(t, id, target)
    ensures Shares(t, id, first) <==> exists x :: x in seen && x < first
  {
    forall x | x in seen ensures Supersedes(t, x).None? || Supersedes(t, x).value in seen {
      assert LeadsOn(t, id, seen, n, x);
    }
    forall m: nat ensures Walk(t, id, m).Some? ==> Walk(t, id, m).value in seen {
      if m >= n {
        WalkInside(t, id, seen, n, m);
      } else {
        assert StoodIn(t, id, seen, m);
      }
    }
    if x :| x in seen && x < first {
      assert StoodAt(t, id, n, x);
      var m: nat :| m < n && Walk(t, id, m) == Some(x);
      assert Under(Walk(t, id, m), first);
    }
  }

  /**
   * Follow `supersedes` back, on any table at all: a cycle ends the walk as its end does.
   */
  method Ancestry(t: Table, id: int, target: int, first: int) returns (reaches: bool, shares: bool)
    ensures reaches <==> Ancestor(t, id, target)
    ensures shares <==> reaches || Shares(t, id, first)
  {
    var at := Some(id);
    var seen: set<int> := {};
    shares := false;
    ghost var n := 0;
    ghost var all := Mentioned(t) + {id};
    while at.Some?
      invariant at == Walk(t, id, n) && (at.Some? ==> at.value in all)
      invariant seen <= all && Visited(t, id, target, seen, n)
      invariant shares <==> exists x :: x in seen && x < first
      decreases all - seen
    {
      var cur := at.value;
      if cur == target {
        return true, true;
      }
      shares := shares || cur < first;
      if cur in seen {
        break;
      }
      VisitMore(t, id, target, seen, n, cur);
      assert cur in all - seen;
      seen := seen + {cur};
      at := Supersedes(t, cur);
      n := n + 1;
    }
    Closed(t, id, target, first, seen, n);
    reaches := false;
  }

  // ------------------------------------------------------------------ forks

  /** A document whose current revision the copy replaced with one that does not supersede it. */
  datatype Fork = Fork(doc: Doc, displaced: Text, current: Text)

  /**
   * Whether a copy forked the document: its newest revision before is not an ancestor of its
   * newest now, and either it was not a deletion or the incoming chain shares a revision the
   * destination held before.
   */
  ghost predicate Forks(dst: Table, t: Table, doc: Doc) {
    && Head(dst, doc).Some? && Head(t, doc).Some?
    && var before := Head(dst, doc).value;
       var now := Head(t, doc).value;
       !Ancestor(t, now.id, before.id) && (before.content.Some? || Shares(t, now.id, NextId(dst)))
  }

  /** Below the first id a copy can assign is exactly what the destination held before. */
  lemma BelowNext(dst: Table, t: Table, j: nat)
    requires Valid(t) && dst != [] && dst <= t && j < |t|
    ensures t[j].id < NextId(dst) <==> j < |dst|
  {
    if j < |dst| {
      assert j < |dst| - 1 ==> IdLess(t, j, |dst| - 1);
    } else {
      assert IdLess(t, |dst| - 1, j);
    }
  }

  /** The chain from `id` holds a revision the destination had before. */
  ghost predicate SharesHeld(dst: Table, t: Table, id: int) {
    exists n: nat :: StandsIn(dst, Walk(t, id, n))
  }

  ghost predicate StandsIn(dst: Table, x: Option<int>) {
    x.Some? && FindId(dst, x.value).Some?
  }

  /** A chain of sound edges stays on the table's own rows. */
  lemma {:induction false} WalkOnRows(t: Table, k: nat, n: nat)
    requires Valid(t) && Linked(t) && k < |t|
    ensures Walk(t, t[k].id, n).Some? ==> FindId(t, Walk(t, t[k].id, n).value).Some?
  {
    if n > 0 && Walk(t, t[k].id, n - 1).Some? {
      WalkOnRows(t, k, n - 1);
      var i := FindId(t, Walk(t, t[k].id, n - 1).value).value;
      assert LinkedAt(t, i);
    }
  }

  /**
   * Under sound edges the fork test's "passes below the first new id" is what it is meant to be:
   * the incoming chain holds a revision the destination had before the copy.
   */
  lemma SharesExactly(dst: Table, t: Table, k: nat)
    requires Valid(t) && Linked(t) && dst != [] && dst <= t && k < |t|
    ensures Shares(t, t[k].id, NextId(dst)) <==> SharesHeld(dst, t, t[k].id)
  {
    var id := t[k].id;
    if Shares(t, id, NextId(dst)) {
      var n: nat :| Under(Walk(t, id, n), NextId(dst));
      WalkOnRows(t, k, n);
      var j := FindId(t, Walk(t, id, n).value).value;
      BelowNext(dst, t, j);
      assert dst[j].id == Walk(t, id, n).value;
      assert StandsIn(dst, Walk(t, id, n));
    }
    if SharesHeld(dst, t, id) {
      var n: nat :| StandsIn(dst, Walk(t, id, n));
      var j := FindId(dst, Walk(t, id, n).value).value;
      BelowNext(dst, t, j);
      assert Under(Walk(t, id, n), NextId(dst));
    }
  }

  /** A fork in those terms. */
  ghost predicate ForksFromHeld(dst: Table, t: Table, doc: Doc) {
    && Head(dst, doc).Some? && Head(t, doc).Some?
    && var before := Head(dst, doc).value;
       var now := Head(t, doc).value;
       !Ancestor(t, now.id, before.id) && (before.content.Some? || SharesHeld(dst, t, now.id))
  }

  lemma ForksExactly(dst: Table, t: Table, doc: Doc)
    requires Valid(t) && Linked(t) && dst <= t
    ensures Forks(dst, t, doc) <==> ForksFromHeld(dst, t, doc)
  {
    if Head(dst, doc).Some? && Head(t, doc).Some? {
      var k := HeadRow(t, doc);
      SharesExactly(dst, t, k);
    }
  }

  /** What one copy reports. */
  datatype Report = Report(inserted: nat, current: set<Doc>, forked: set<Fork>)

  const RESERVED_KIND_PREFIX: Text := [100, 101, 110, 100, 114, 111, 46]

  /** `check_key`: a kind and a name, and not one of the archive's own kinds. */
  predicate KeyOk(doc: Doc) {
    && doc.0 != [] && doc.1 != []
    && !(|doc.0| >= 7 && doc.0[..7] == RESERVED_KIND_PREFIX)
  }

  /** The uuid of the document's current revision, unless it is gone. */
  function Current(t: Table, doc: Doc): Option<Text> {
    var h := Head(t, doc);
    if h.Some? && h.value.content.Some? then Some(h.value.uuid) else None
  }

  lemma HeadRow(t: Table, doc: Doc) returns (k: nat)
    requires Head(t, doc).Some?
    ensures k < |t| && t[k] == Head(t, doc).value && DocOf(t[k]) == doc
  {
    k := HeadTo(t, doc, |t|).value;
  }

  class Store {
    var table: Table

    ghost predicate Sound()
      reads this
    {
      Valid(table) && Linked(table)
    }

    constructor ()
      ensures Sound() && table == []
    {
      table := [];
    }

    /**
     * `put`: `json` is whether the body parses, `uuid` the one minted. With `expected` it is
     * refused unless that is the document's current revision.
     */
    method Put(doc: Doc, schema: Text, body: Text, json: bool, expected: Option<Option<Text>>, uuid: Text, now: int)
      returns (r: Result<int>)
      requires Sound()
      modifies this
      ensures Sound()
      ensures r.Ok? <==> doc.0 != [] && doc.1 != [] && !(RESERVED_KIND_PREFIX <= doc.0) && schema != [] && json
                         && (expected.Some? ==> expected.value == Current(old(table), doc)) && !HasUuid(old(table), uuid)
      ensures r.Err? ==> table == old(table)
      ensures r.Ok? ==> |table| == |old(table)| + 1 && old(table) <= table
      ensures r.Ok? ==> r.value == if old(table) == [] then 1 else old(table)[|old(table)| - 1].id + 1
      ensures r.Ok? ==> Head(table, doc) == Some(Revision(r.value, uuid, doc.0, doc.1, Some((schema, body)), now,
                          if Head(old(table), doc).Some? then Some(Head(old(table), doc).value.id) else None))
      ensures r.Ok? ==> Current(table, doc) == Some(uuid)
      ensures r.Ok? ==> forall other :: other != doc ==> Head(table, other) == Head(old(table), other)
    {
      if !KeyOk(doc) || schema == [] || !json {
        return Err;
      }
      var head := Head(table, doc);
      if expected.Some? {
        var current := if head.Some? && head.value.content.Some? then Some(head.value.uuid) else None;
        if current != expected.value {
          return Err;
        }
      }
      r := Insert(doc, Some((schema, body)), uuid, now);
    }

    /** `delete`: `None` where there is nothing to delete. */
    method Delete(doc: Doc, uuid: Text, now: int) returns (r: Result<Option<int>>)
      requires Sound()
      modifies this
      ensures Sound()
      ensures r.Err? <==> doc.0 == [] || doc.1 == [] || RESERVED_KIND_PREFIX <= doc.0
                          || (Current(old(table), doc).Some? && HasUuid(old(table), uuid))
      ensures r.Err? || r.value.None? ==> table == old(table)
      ensures r.Ok? ==> (r.value.Some? <==> Current(old(table), doc).Some?)
      ensures r.Ok? && r.value.Some? ==>
                && |table| == |old(table)| + 1 && old(table) <= table
                && Head(table, doc) == Some(Revision(r.value.value, uuid, doc.0, doc.1, None, now, Some(Head(old(table), doc).value.id)))
                && forall other :: other != doc ==> Head(table, other) == Head(old(table), other)
      ensures r.Ok? ==> Current(table, doc) == None
    {
      if !KeyOk(doc) {
        return Err;
      }
      var head := Head(table, doc);
      if head.None? || head.value.content.None? {
        return Ok(None);
      }
      var id := Insert(doc, None, uuid, now);
      r := match id case Err => Err case Ok(v) => Ok(Some(v));
    }

    /** `insert_revision`, superseding the document's newest. */
    method Insert(doc: Doc, content: Option<(Text, Text)>, uuid: Text, now: int) returns (r: Result<int>)
      requires Sound()
      modifies this
      ensures Sound()
      ensures r.Ok? <==> !HasUuid(old(table), uuid)
      ensures r.Ok? ==> r.value == if old(table) == [] then 1 else old(table)[|old(table)| - 1].id + 1
      ensures r.Err? ==> table == old(table)
      ensures r.Ok? ==> |table| == |old(table)| + 1 && old(table) <= table
      ensures r.Ok? ==> Head(table, doc) == Some(Revision(r.value, uuid, doc.0, doc.1, content, now,
                          if Head(old(table), doc).Some? then Some(Head(old(table), doc).value.id) else None))
      ensures r.Ok? ==> forall other :: other != doc ==> Head(table, other) == Head(old(table), other)
    {
      if FindUuid(table, uuid).Some? {
        return Err;
      }
      var head := Head(table, doc);
      var supersedes := if head.Some? then Some(head.value.id) else None;
      ghost var k := 0;
      if head.Some? {
        k := HeadRow(table, doc);
      }
      AppendLinked(table, uuid, doc, content, now, supersedes, k);
      AppendValid(table, uuid, doc, content, now, supersedes);
      var id := NextId(table);
      ghost var was := table;
      table := Append(table, uuid, doc, content, now, supersedes);
      assert table[..|was|] == was;
      HeadIs(table, doc, |was|);
      forall other | other != doc ensures Head(table, other) == Head(was, other) {
        SameHead(was, table, other);
      }
      r := Ok(id);
    }

    /**
     * `copy_documents`: every revision of `src`, oldest first, in one transaction. `src` is any
     * file with the table's keys; only its own edges decide whether edges stay sound here.
     */
    method CopyFrom(src: Table) returns (r: Result<Report>)
      requires Valid(table) && Valid(src)
      modifies this
      ensures Valid(table)
      ensures old(Linked(table)) && Linked(src) ==> Linked(table)
      ensures r.Err? <==> exists k: nat, i: nat :: TwoContents(old(table), src, k, i)
      ensures r.Err? ==> table == old(table)
      ensures r.Ok? ==> CopyTo(old(table), src, |src|).Ok? && table == CopyTo(old(table), src, |src|).value.table
      ensures r.Ok? ==> old(table) <= table && r.value.inserted == |table| - |old(table)|
      ensures r.Ok? ==> forall doc :: doc in r.value.current <==>
                          exists j: nat :: |old(table)| <= j < |table| && IsOf(table, j, doc)
      ensures r.Ok? ==> forall doc :: (exists f :: f in r.value.forked && f.doc == doc) <==>
                          doc in r.value.current && Forks(old(table), table, doc)
      ensures r.Ok? && old(Linked(table)) && Linked(src) ==>
                forall doc :: (exists f :: f in r.value.forked && f.doc == doc) <==>
                  doc in r.value.current && ForksFromHeld(old(table), table, doc)
      ensures r.Ok? ==> forall f :: f in r.value.forked ==>
                          && Head(old(table), f.doc).Some? && f.displaced == Head(old(table), f.doc).value.uuid
                          && Head(table, f.doc).Some? && f.current == Head(table, f.doc).value.uuid
    {
      var copied := CopyLoop(table, src);
      RefusedExactly(table, src);
      if copied.Err? {
        return Err;
      }
      CopyMade(table, src, copied.value);
      var forked := FindForks(table, copied.value);
      if Linked(table) && Linked(src) {
        forall doc: Doc ensures Forks(table, copied.value.table, doc) <==> ForksFromHeld(table, copied.value.table, doc) {
          ForksExactly(table, copied.value.table, doc);
        }
      }
      r := Ok(Report(|copied.value.table| - |table|, copied.value.touched.Keys, forked));
      table := copied.value.table;
    }
  }

  /** The row by row half of `copy_documents`. */
  method CopyLoop(dst: Table, src: Table) returns (r: Result<Copy>)
    ensures r == CopyTo(dst, src, |src|)
  {
    var c := Copy(dst, map[], map[], None);
    for i := 0 to |src|
      invariant CopyTo(dst, src, i) == Ok(c)
    {
      var next := CopyOne(c, src[i]);
      if next.Err? {
        CopyStaysErr(dst, src, i + 1, |src|);
        return Err;
      }
      c := next.value;
    }
    return Ok(c);
  }

  lemma CopyMade(dst: Table, src: Table, c: Copy)
    requires Valid(dst) && Valid(src) && CopyTo(dst, src, |src|) == Ok(c)
    ensures Valid(c.table) && dst <= c.table && TouchedOk(dst, c)
    ensures Linked(dst) && Linked(src) ==> Linked(c.table)
    ensures forall doc :: doc in c.touched.Keys <==> exists j: nat :: |dst| <= j < |c.table| && IsOf(c.table, j, doc)
  {
    CopyHolds(dst, src, |src|, c);
    CopyTouched(dst, src, |src|, c);
    TouchedIsCurrent(dst, c);
    if Linked(dst) && Linked(src) {
      CopyLinked(dst, src, |src|, c);
    }
  }

  lemma TouchedIsCurrent(dst: Table, c: Copy)
    requires TouchedOk(dst, c)
    ensures forall doc :: doc in c.touched.Keys <==> exists j: nat :: |dst| <= j < |c.table| && IsOf(c.table, j, doc)
  {
    forall doc: Doc ensures doc in c.touched.Keys <==> exists j: nat :: |dst| <= j < |c.table| && IsOf(c.table, j, doc) {
      assert TouchedAt(dst, c, doc);
    }
  }

  lemma {:induction false} CopyStaysErr(dst: Table, src: Table, i: nat, n: nat)
    requires i <= n <= |src| && CopyTo(dst, src, i).Err?
    ensures CopyTo(dst, src, n).Err?
    decreases n
  {
    if i < n {
      CopyStaysErr(dst, src, i, n - 1);
    }
  }

  ghost predicate ForkOf(dst: Table, t: Table, f: Fork) {
    && Forks(dst, t, f.doc)
    && f.displaced == Head(dst, f.doc).value.uuid && f.current == Head(t, f.doc).value.uuid
  }

  /** The report's second half: every document the copy inserted into, judged by its ancestry. */
  method FindForks(dst: Table, c: Copy) returns (forked: set<Fork>)
    requires TouchedOk(dst, c)
    ensures forall f :: f in forked ==> f.doc in c.touched && ForkOf(dst, c.table, f)
    ensures forall doc :: doc in c.touched && Forks(dst, c.table, doc) ==> exists f :: f in forked && f.doc == doc
    ensures forall doc :: (exists f :: f in forked && f.doc == doc) <==> doc in c.touched.Keys && Forks(dst, c.table, doc)
  {
    forked := {};
    var todo := c.touched.Keys;
    while todo != {}
      invariant todo <= c.touched.Keys
      invariant forall f :: f in forked ==> f.doc in c.touched && ForkOf(dst, c.table, f)
      invariant forall doc :: doc in c.touched && doc !in todo && Forks(dst, c.table, doc) ==> exists f :: f in forked && f.doc == doc
      decreases todo
    {
      var doc :| doc in todo;
      assert TouchedAt(dst, c, doc);
      var t := c.touched[doc];
      if t.before.Some? {
        var reaches, shares := Ancestry(c.table, t.last, t.before.value.id, c.first.value);
        if !reaches && (t.before.value.content.Some? || shares) {
          var f := Fork(doc, t.before.value.uuid, Head(c.table, doc).value.uuid);
          assert ForkOf(dst, c.table, f);
          forked := forked + {f};
        }
      }
      todo := todo - {doc};
    }
  }
}
