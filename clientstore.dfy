/**
 * The `clients` table behind the four CRUD endpoints of main.py, as an
 * in-memory table: a map from the integer primary key to the row's eight
 * data columns. Each write either commits or is rolled back whole.
 */
module ClientStore {
  import opened Wrappers

  /** The data columns of `ClientDB`, in declaration order. */
  datatype Column = Name | Island | ContactPerson | Phone | Email | SalesManager | Goal | Notes

  const Columns: seq<Column> :=
    [Name, Island, ContactPerson, Phone, Email, SalesManager, Goal, Notes]

  /** A stored row without its key. Every column is a nullable string. */
  datatype Record = Record(
    name: Option<string>,
    island: Option<string>,
    contactPerson: Option<string>,
    phone: Option<string>,
    email: Option<string>,
    salesManager: Option<string>,
    goal: Option<string>,
    notes: Option<string>)

  /** `getattr(row, column)`. */
  function Get(r: Record, c: Column): Option<string>
  {
    match c
    case Name => r.name
    case Island => r.island
    case ContactPerson => r.contactPerson
    case Phone => r.phone
    case Email => r.email
    case SalesManager => r.salesManager
    case Goal => r.goal
    case Notes => r.notes
  }

  /** `setattr(row, column, value)`: that column changes, no other. */
  function With(r: Record, c: Column, v: Option<string>): (r': Record)
    ensures Get(r', c) == v
    ensures forall d :: d != c ==> Get(r', d) == Get(r, d)
  {
    match c
    case Name => r.(name := v)
    case Island => r.(island := v)
    case ContactPerson => r.(contactPerson := v)
    case Phone => r.(phone := v)
    case Email => r.(email := v)
    case SalesManager => r.(salesManager := v)
    case Goal => r.(goal := v)
    case Notes => r.(notes := v)
  }

  /** Whether a field of the request body was present in the JSON. */
  datatype Field<T> = Unset | Given(value: T)

  /** The request body, pydantic model `Client`: `id` and every column but
      `name` may be left out or given as null; `name` must be a string. */
  datatype ClientBody = ClientBody(
    id: Field<Option<int>>,
    name: string,
    island: Field<Option<string>>,
    contactPerson: Field<Option<string>>,
    phone: Field<Option<string>>,
    email: Field<Option<string>>,
    salesManager: Field<Option<string>>,
    goal: Field<Option<string>>,
    notes: Field<Option<string>>)

  /** What the body says about a column; `name` is always present. */
  function Supplied(b: ClientBody, c: Column): Field<Option<string>>
  {
    match c
    case Name => Given(Some(b.name))
    case Island => b.island
    case ContactPerson => b.contactPerson
    case Phone => b.phone
    case Email => b.email
    case SalesManager => b.salesManager
    case Goal => b.goal
    case Notes => b.notes
  }

  /** The value pydantic reports for a field, its default `None` when unset. */
  function ValueOrDefault(f: Field<Option<string>>): Option<string>
  {
    match f
    case Unset => None
    case Given(v) => v
  }

  /** `ClientDB(**client.dict(exclude={"id"}))`: every column taken from the
      body, with `None` for those it left out; the body's `id` plays no part. */
  function NewRecord(b: ClientBody): (r: Record)
    ensures forall c :: Get(r, c) == ValueOrDefault(Supplied(b, c))
    ensures r.name == Some(b.name)
  {
    Record(Some(b.name), ValueOrDefault(b.island), ValueOrDefault(b.contactPerson),
      ValueOrDefault(b.phone), ValueOrDefault(b.email), ValueOrDefault(b.salesManager),
      ValueOrDefault(b.goal), ValueOrDefault(b.notes))
  }

  /** The columns of `cols` that the body set, with their values, in order. */
  function SetFieldsOf(b: ClientBody, cols: seq<Column>): (fs: seq<(Column, Option<string>)>)
    ensures forall k :: 0 <= k < |fs| ==> fs[k].0 in cols && Supplied(b, fs[k].0) == Given(fs[k].1)
  {
    if cols == [] then
      []
    else
      var c := cols[0];
      var here := match Supplied(b, c)
        case Unset => []
        case Given(v) => [(c, v)];
      here + SetFieldsOf(b, cols[1..])
  }

  /** `client.dict(exclude_unset=True, exclude={"id"}).items()`: each
      column the body set, once, with the value it set, and nothing else. */
  function SetFields(b: ClientBody): (fs: seq<(Column, Option<string>)>)
    ensures forall k :: 0 <= k < |fs| ==> Supplied(b, fs[k].0) == Given(fs[k].1)
    ensures DistinctColumns(fs)
    ensures forall c :: Supplied(b, c).Given? ==> Mentions(fs, c)
  {
    SetFieldsOfDistinct(b, Columns);
    assert forall c :: Supplied(b, c).Given? ==> Mentions(SetFieldsOf(b, Columns), c) by {
      forall c | Supplied(b, c).Given?
        ensures Mentions(SetFieldsOf(b, Columns), c)
      {
        ColumnListed(c);
        SetFieldsOfComplete(b, Columns, c);
      }
    }
    SetFieldsOf(b, Columns)
  }

  /** `Columns` lists every column. */
  lemma ColumnListed(c: Column)
    ensures c in Columns
  {
    match c
    case Name => assert Columns[0] == c;
    case Island => assert Columns[1] == c;
    case ContactPerson => assert Columns[2] == c;
    case Phone => assert Columns[3] == c;
    case Email => assert Columns[4] == c;
    case SalesManager => assert Columns[5] == c;
    case Goal => assert Columns[6] == c;
    case Notes => assert Columns[7] == c;
  }

  /** Pairs whose columns are pairwise different. */
  predicate DistinctColumns(fs: seq<(Column, Option<string>)>)
  {
    forall i, j :: 0 <= i < j < |fs| ==> fs[i].0 != fs[j].0
  }

  /** Column `c` appears in `fs`. */
  predicate Mentions(fs: seq<(Column, Option<string>)>, c: Column)
  {
    exists k :: 0 <= k < |fs| && fs[k].0 == c
  }

  /** Over a list of distinct columns, the set fields name each column once. */
  lemma {:induction false} SetFieldsOfDistinct(b: ClientBody, cols: seq<Column>)
    requires forall i, j :: 0 <= i < j < |cols| ==> cols[i] != cols[j]
    ensures DistinctColumns(SetFieldsOf(b, cols))
  {
    if cols != [] {
      var tail := SetFieldsOf(b, cols[1..]);
      SetFieldsOfDistinct(b, cols[1..]);
      var fs := SetFieldsOf(b, cols);
      if Supplied(b, cols[0]).Given? {
        assert fs == [(cols[0], Supplied(b, cols[0]).value)] + tail;
        forall k | 0 <= k < |tail|
          ensures tail[k].0 != cols[0]
        {
          var i :| 0 <= i < |cols[1..]| && cols[1..][i] == tail[k].0;
          assert cols[i + 1] == tail[k].0;
        }
      } else {
        assert fs == tail;
      }
    }
  }

  /** Every column of `cols` the body supplied is among the set fields. */
  lemma {:induction false} SetFieldsOfComplete(b: ClientBody, cols: seq<Column>, c: Column)
    requires c in cols && Supplied(b, c).Given?
    ensures Mentions(SetFieldsOf(b, cols), c)
  {
    var fs := SetFieldsOf(b, cols);
    if c == cols[0] {
      assert fs[0].0 == c;
    } else {
      var tail := SetFieldsOf(b, cols[1..]);
      SetFieldsOfComplete(b, cols[1..], c);
      var k :| 0 <= k < |tail| && tail[k].0 == c;
      assert fs[|fs| - |tail| + k] == tail[k];
    }
  }

  /** The row after the `setattr` loop has written the pairs of `fs` in turn. */
  function Patched(r: Record, fs: seq<(Column, Option<string>)>): (p: Record)
    ensures fs != [] ==> Get(p, fs[|fs| - 1].0) == fs[|fs| - 1].1
    ensures forall c :: !Mentions(fs, c) ==> Get(p, c) == Get(r, c)
  {
    if fs == [] then
      r
    else
      var init := fs[..|fs| - 1];
      assert forall k :: 0 <= k < |init| ==> init[k] == fs[k];
      With(Patched(r, init), fs[|fs| - 1].0, fs[|fs| - 1].1)
  }

  /** One more turn of the `setattr` loop writes the next pair. */
  lemma PatchedStep(r: Record, fs: seq<(Column, Option<string>)>, i: nat)
    requires i < |fs|
    ensures Patched(r, fs[..i + 1]) == With(Patched(r, fs[..i]), fs[i].0, fs[i].1)
  {
    assert fs[..i + 1][..i] == fs[..i];
  }

  /** With distinct columns, a written column holds its value and every
      other column is untouched. */
  lemma {:induction false} PatchedColumns(r: Record, fs: seq<(Column, Option<string>)>)
    requires DistinctColumns(fs)
    ensures forall k :: 0 <= k < |fs| ==> Get(Patched(r, fs), fs[k].0) == fs[k].1
    ensures forall c :: !Mentions(fs, c) ==> Get(Patched(r, fs), c) == Get(r, c)
  {
    if fs != [] {
      var init := fs[..|fs| - 1];
      PatchedColumns(r, init);
      forall k | 0 <= k < |fs| - 1
        ensures fs[k].0 != fs[|fs| - 1].0 && init[k] == fs[k]
      {
      }
    }
  }

  /** Reference meaning of an update: each column is the body's value where
      the body set it and the old value where it did not. */
  function Overlay(r: Record, b: ClientBody): (r': Record)
    ensures forall c :: Get(r', c) == if Supplied(b, c).Given? then Supplied(b, c).value else Get(r, c)
  {
    Record(
      Some(b.name),
      if b.island.Given? then b.island.value else r.island,
      if b.contactPerson.Given? then b.contactPerson.value else r.contactPerson,
      if b.phone.Given? then b.phone.value else r.phone,
      if b.email.Given? then b.email.value else r.email,
      if b.salesManager.Given? then b.salesManager.value else r.salesManager,
      if b.goal.Given? then b.goal.value else r.goal,
      if b.notes.Given? then b.notes.value else r.notes)
  }

  /** Two rows agreeing on every column are the same row. */
  lemma SameColumns(a: Record, b: Record)
    requires forall c :: Get(a, c) == Get(b, c)
    ensures a == b
  {
    assert Get(a, Name) == Get(b, Name);
    assert Get(a, Island) == Get(b, Island);
    assert Get(a, ContactPerson) == Get(b, ContactPerson);
    assert Get(a, Phone) == Get(b, Phone);
    assert Get(a, Email) == Get(b, Email);
    assert Get(a, SalesManager) == Get(b, SalesManager);
    assert Get(a, Goal) == Get(b, Goal);
    assert Get(a, Notes) == Get(b, Notes);
  }

  /** One column of the row the `setattr` loop leaves behind. */
  lemma PatchedColumnIsOverlay(r: Record, b: ClientBody, c: Column)
    ensures Get(Patched(r, SetFields(b)), c) == Get(Overlay(r, b), c)
  {
    var fs := SetFields(b);
    PatchedColumns(r, fs);
    if Mentions(fs, c) {
      var k :| 0 <= k < |fs| && fs[k].0 == c;
      assert Supplied(b, c) == Given(fs[k].1);
    }
  }

  /** Writing the set fields one after another, as the `setattr` loop does,
      gives the overlay: the columns the body set take its values, every
      other column keeps its old value. */
  lemma PatchedIsOverlay(r: Record, b: ClientBody)
    ensures Patched(r, SetFields(b)) == Overlay(r, b)
  {
    forall c
      ensures Get(Patched(r, SetFields(b)), c) == Get(Overlay(r, b), c)
    {
      PatchedColumnIsOverlay(r, b, c);
    }
    SameColumns(Patched(r, SetFields(b)), Overlay(r, b));
  }

  /** The `id` of a request body is excluded everywhere: neither the row
      a create builds nor what an update writes depends on it. */
  lemma BodyIdIgnored(b: ClientBody, r: Record, id: Field<Option<int>>)
    ensures NewRecord(b.(id := id)) == NewRecord(b)
    ensures SetFields(b.(id := id)) == SetFields(b)
    ensures Overlay(r, b.(id := id)) == Overlay(r, b)
  {
    var b' := b.(id := id);
    assert forall c :: Supplied(b', c) == Supplied(b, c);
    SetFieldsOfSame(b, b', Columns);
  }

  /** Bodies that supply the same columns set the same fields. */
  lemma {:induction false} SetFieldsOfSame(b: ClientBody, b': ClientBody, cols: seq<Column>)
    requires forall c :: Supplied(b', c) == Supplied(b, c)
    ensures SetFieldsOf(b', cols) == SetFieldsOf(b, cols)
  {
    if cols != [] {
      SetFieldsOfSame(b, b', cols[1..]);
    }
  }

  /** The `setattr` loop of an update: write the set fields of the body
      onto the row one after another. The row ends as the overlay. */
  method ApplySetFields(original: Record, body: ClientBody) returns (row: Record)
    ensures row == Overlay(original, body)
  {
    row := original;
    var fs := SetFields(body);
    var i := 0;
    while i < |fs|
      invariant 0 <= i <= |fs|
      invariant row == Patched(original, fs[..i])
    {
      PatchedStep(original, fs, i);
      row := With(row, fs[i].0, fs[i].1);
      i := i + 1;
    }
    assert fs[..i] == fs;
    PatchedIsOverlay(original, body);
  }

  /** Why a write did not happen. In the source both end as the same server
      error: the "not found" raised inside the handler is caught by its own
      `except Exception` and re-raised. */
  datatype Error = ClientNotFound | StorageError

  /** A set of keys is empty or has a member to pick. */
  lemma EmptyOrHasKey(s: set<int>)
    ensures s == {} || exists id :: id in s
  {
    if forall id :: id !in s {
      assert s == {};
    }
  }

  /** The table. `rows` maps each live primary key to its row. */
  class ClientTable {
    var rows: map<int, Record>

    /** `create_all` on a fresh database: no rows. */
    constructor ()
      ensures rows == map[]
    {
      rows := map[];
    }

    /** GET /clients: every row, each key once. */
    method GetClients() returns (listing: seq<(int, Record)>)
      ensures |listing| == |rows|
      ensures forall k :: 0 <= k < |listing| ==> listing[k].0 in rows && rows[listing[k].0] == listing[k].1
      ensures forall id :: id in rows ==> exists k :: 0 <= k < |listing| && listing[k].0 == id
      ensures forall i, j :: 0 <= i < j < |listing| ==> listing[i].0 != listing[j].0
    {
      listing := [];
      var remaining := rows.Keys;
      while remaining != {}
        invariant remaining <= rows.Keys
        invariant |listing| + |remaining| == |rows|
        invariant forall k :: 0 <= k < |listing| ==> listing[k].0 in rows && listing[k].0 !in remaining
        invariant forall k :: 0 <= k < |listing| ==> rows[listing[k].0] == listing[k].1
        invariant forall id :: id in rows && id !in remaining ==> exists k :: 0 <= k < |listing| && listing[k].0 == id
        invariant forall i, j :: 0 <= i < j < |listing| ==> listing[i].0 != listing[j].0
        decreases remaining
      {
        EmptyOrHasKey(remaining);
        var id :| id in remaining;
        ghost var before := listing;
        listing := listing + [(id, rows[id])];
        assert listing[|before|].0 == id;
        assert forall k :: 0 <= k < |before| ==> listing[k] == before[k];
        remaining := remaining - {id};
      }
    }

    /** The key the database hands to a new row: one no live row holds. */
    method NextId() returns (id: int)
      ensures id !in rows
    {
      var largest := 0;
      var remaining := rows.Keys;
      while remaining != {}
        invariant remaining <= rows.Keys
        invariant forall k :: k in rows && k !in remaining ==> k <= largest
        decreases remaining
      {
        EmptyOrHasKey(remaining);
        var k :| k in remaining;
        if k > largest {
          largest := k;
        }
        remaining := remaining - {k};
      }
      id := largest + 1;
    }

    /** POST /clients: store the body's columns under a fresh key. A failed
        commit is rolled back and leaves the table as it was. */
    method AddClient(body: ClientBody, commitOk: bool) returns (res: Result<(int, Record), Error>)
      modifies this
      ensures res.Success? <==> commitOk
      ensures res.Success? ==>
        (res.value.0 !in old(rows) && res.value.1 == NewRecord(body)
         && rows == old(rows)[res.value.0 := res.value.1])
      ensures res.Failure? ==> res.error == StorageError && rows == old(rows)
    {
      var id := NextId();
      var row := NewRecord(body);
      if commitOk {
        rows := rows[id := row];
        res := Success((id, row));
      } else {
        res := Failure(StorageError);
      }
    }

    /** PUT /clients/{id}: write the columns the body set, in order, onto
        the row; the key never changes. */
    method UpdateClient(clientId: int, body: ClientBody, commitOk: bool) returns (res: Result<(int, Record), Error>)
      modifies this
      ensures clientId !in old(rows) ==> res == Failure(ClientNotFound) && rows == old(rows)
      ensures clientId in old(rows) && !commitOk ==> res == Failure(StorageError) && rows == old(rows)
      ensures clientId in old(rows) && commitOk ==>
        var updated := Overlay(old(rows)[clientId], body);
        res == Success((clientId, updated)) && rows == old(rows)[clientId := updated]
    {
      if clientId !in rows {
        return Failure(ClientNotFound);
      }
      var original := rows[clientId];
      var row := ApplySetFields(original, body);
      if commitOk {
        rows := rows[clientId := row];
        res := Success((clientId, row));
      } else {
        res := Failure(StorageError);
      }
    }

    /** DELETE /clients/{id}: remove exactly that row. */
    method DeleteClient(clientId: int, commitOk: bool) returns (res: Result<string, Error>)
      modifies this
      ensures clientId !in old(rows) ==> res == Failure(ClientNotFound) && rows == old(rows)
      ensures clientId in old(rows) && !commitOk ==> res == Failure(StorageError) && rows == old(rows)
      ensures clientId in old(rows) && commitOk ==>
        res == Success("Client deleted") && rows == old(rows) - {clientId}
    {
      if clientId !in rows {
        return Failure(ClientNotFound);
      }
      if commitOk {
        rows := rows - {clientId};
        res := Success("Client deleted");
      } else {
        res := Failure(StorageError);
      }
    }
  }

  /** A second delete of the same key finds nothing once the first went
      through, and the table is then left alone. */
  method DeleteTwice(t: ClientTable, clientId: int, commitOk: bool, againOk: bool)
    returns (first: Result<string, Error>, second: Result<string, Error>)
    modifies t
    ensures first.Success? ==> second == Failure(ClientNotFound) && t.rows == old(t.rows) - {clientId}
  {
    first := t.DeleteClient(clientId, commitOk);
    second := t.DeleteClient(clientId, againOk);
  }

  /** Creating a client in an empty table and listing the table shows that
      one row, holding exactly the body's columns (absent ones null). */
  method CreateThenList(body: ClientBody) returns (created: Result<(int, Record), Error>, listing: seq<(int, Record)>)
    ensures created.Success? && listing == [created.value]
    ensures created.value.1 == NewRecord(body)
  {
    var t := new ClientTable();
    created := t.AddClient(body, true);
    listing := t.GetClients();
    assert listing[0].0 in t.rows;
  }

}
