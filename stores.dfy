/** The two stores the routers coordinate: the metadata table (the `Tests`
    table of app/models.py, the `exames` table of src/app/models.py) and the
    object store (the S3 bucket). Both are kept in memory; a storage client
    error is an input the caller supplies, not something the store decides. */
module Stores {
  import opened Wrappers
  import opened Utils

  /** The submission time `datetime.utcnow()` gives; an opaque value. */
  type Timestamp = int
  /** A presigned download link; an opaque value. */
  type Url = string
  /** The `Error.Code` of a storage client error. */
  type ErrorCode = string

  /** The code a storage lookup reports for a missing object. */
  const NotFoundCode: ErrorCode := "404"

  /** One metadata row: id, owner, display name, URL, submission time. */
  datatype Record = Record(id: nat, ownerId: int, name: string, url: Url, submitted: Timestamp)

  /** Rows are kept in insertion order; the auto-increment id grows along the
      table and every id is below the next one to be handed out. */
  predicate TableValid(rows: seq<Record>, nextId: nat)
  {
    && (forall i, j :: 0 <= i < j < |rows| ==> rows[i].id < rows[j].id)
    && (forall i :: 0 <= i < |rows| ==> rows[i].id < nextId)
  }

  /** No owner has two rows with the same display name. */
  predicate UniqueNames(rows: seq<Record>)
  {
    forall i, j :: 0 <= i < j < |rows| ==> !(rows[i].ownerId == rows[j].ownerId && rows[i].name == rows[j].name)
  }

  /** `filter_by(user_id=owner, test_name=name).first()`. */
  function FirstNamed(rows: seq<Record>, owner: int, name: string): (r: Option<Record>)
    ensures r.Some? ==> r.value in rows && r.value.ownerId == owner && r.value.name == name
    ensures r.None? ==> forall i :: 0 <= i < |rows| ==> !(rows[i].ownerId == owner && rows[i].name == name)
  {
    if rows == [] then None
    else if rows[0].ownerId == owner && rows[0].name == name then Some(rows[0])
    else FirstNamed(rows[1..], owner, name)
  }

  /** `filter_by(user_id=owner, id=id).first()`. */
  function FindId(rows: seq<Record>, owner: int, id: int): (r: Option<Record>)
    ensures r.Some? ==> r.value in rows && r.value.ownerId == owner && r.value.id == id
    ensures r.None? ==> forall i :: 0 <= i < |rows| ==> !(rows[i].ownerId == owner && rows[i].id == id)
  {
    if rows == [] then None
    else if rows[0].ownerId == owner && rows[0].id == id then Some(rows[0])
    else FindId(rows[1..], owner, id)
  }

  /** `filter_by(user_id=owner).all()`, in table order. */
  function OwnedBy(rows: seq<Record>, owner: int): (r: seq<Record>)
    ensures |r| <= |rows|
    ensures forall x :: x in r <==> x in rows && x.ownerId == owner
  {
    if rows == [] then []
    else if rows[0].ownerId == owner then [rows[0]] + OwnedBy(rows[1..], owner)
    else OwnedBy(rows[1..], owner)
  }

  /** The table after the row with this id is deleted. */
  function Without(rows: seq<Record>, id: nat): (r: seq<Record>)
    ensures forall x :: x in r <==> x in rows && x.id != id
  {
    if rows == [] then []
    else if rows[0].id == id then Without(rows[1..], id)
    else [rows[0]] + Without(rows[1..], id)
  }

  /** Deleting a row keeps the ids increasing and below the counter. */
  lemma {:induction false} WithoutKeepsValid(rows: seq<Record>, nextId: nat, id: nat)
    requires TableValid(rows, nextId)
    ensures TableValid(Without(rows, id), nextId)
    decreases |rows|
  {
    if rows != [] {
      TailValid(rows, nextId);
      WithoutKeepsValid(rows[1..], nextId, id);
      var w := Without(rows[1..], id);
      if rows[0].id != id {
        forall x | x in w ensures rows[0].id < x.id {
          var j :| 0 <= j < |rows[1..]| && rows[1..][j] == x;
          assert rows[1..][j] == rows[j + 1];
        }
        PrependValid(rows[0], w, nextId);
      }
    }
  }

  lemma PrependValid(a: Record, w: seq<Record>, nextId: nat)
    requires TableValid(w, nextId) && a.id < nextId
    requires forall x :: x in w ==> a.id < x.id
    ensures TableValid([a] + w, nextId)
  {
    var r := [a] + w;
    forall i, j | 0 <= i < j < |r| ensures r[i].id < r[j].id {
      assert r[j] == w[j - 1] && w[j - 1] in w;
      if i > 0 {
        assert r[i] == w[i - 1];
      }
    }
    forall i | 0 <= i < |r| ensures r[i].id < nextId {
      if i > 0 {
        assert r[i] == w[i - 1];
      }
    }
  }

  /** Deleting a row keeps every owner's display names distinct. */
  lemma {:induction false} WithoutKeepsUniqueNames(rows: seq<Record>, id: nat)
    requires UniqueNames(rows)
    ensures UniqueNames(Without(rows, id))
    decreases |rows|
  {
    if rows != [] {
      var tail := rows[1..];
      forall i, j | 0 <= i < j < |tail|
        ensures !(tail[i].ownerId == tail[j].ownerId && tail[i].name == tail[j].name)
      {
        assert tail[i] == rows[i + 1] && tail[j] == rows[j + 1];
      }
      WithoutKeepsUniqueNames(tail, id);
      var w := Without(tail, id);
      if rows[0].id != id {
        forall x | x in w ensures !(x.ownerId == rows[0].ownerId && x.name == rows[0].name) {
          var j :| 0 <= j < |tail| && tail[j] == x;
          assert tail[j] == rows[j + 1];
        }
        PrependUnique(rows[0], w);
      }
    }
  }

  lemma PrependUnique(a: Record, w: seq<Record>)
    requires UniqueNames(w)
    requires forall x :: x in w ==> !(x.ownerId == a.ownerId && x.name == a.name)
    ensures UniqueNames([a] + w)
  {
    var r := [a] + w;
    forall i, j | 0 <= i < j < |r| ensures !(r[i].ownerId == r[j].ownerId && r[i].name == r[j].name) {
      assert r[j] == w[j - 1] && w[j - 1] in w;
      if i > 0 {
        assert r[i] == w[i - 1];
      }
    }
  }

  /** A row appended with a fresh id is what a lookup by that id finds. */
  lemma {:induction false} FindFreshId(rows: seq<Record>, rec: Record)
    requires forall i :: 0 <= i < |rows| ==> rows[i].id != rec.id
    ensures FindId(rows + [rec], rec.ownerId, rec.id) == Some(rec)
  {
    if rows != [] {
      assert (rows + [rec])[1..] == rows[1..] + [rec];
      FindFreshId(rows[1..], rec);
    }
  }

  /** Deleting by a fresh id removes exactly the row just appended. */
  lemma {:induction false} WithoutFreshId(rows: seq<Record>, rec: Record)
    requires forall i :: 0 <= i < |rows| ==> rows[i].id != rec.id
    ensures Without(rows + [rec], rec.id) == rows
  {
    if rows == [] {
      assert Without([rec], rec.id) == Without([], rec.id);
    } else {
      assert (rows + [rec])[1..] == rows[1..] + [rec];
      WithoutFreshId(rows[1..], rec);
    }
  }

  /** In a valid table, deleting a row by id shortens it by exactly one and
      keeps every other row, in order. */
  lemma {:induction false} WithoutPresentId(rows: seq<Record>, nextId: nat, k: nat)
    requires TableValid(rows, nextId)
    requires k < |rows|
    ensures Without(rows, rows[k].id) == rows[..k] + rows[k + 1..]
  {
    var id := rows[k].id;
    var tail := rows[1..];
    if k == 0 {
      TailIdsAbove(rows, nextId);
      WithoutAbsentId(tail, id);
      assert rows[..0] + rows[1..] == tail;
    } else {
      assert rows[0].id < id;
      assert Without(rows, id) == [rows[0]] + Without(tail, id);
      TailValid(rows, nextId);
      assert tail[k - 1] == rows[k];
      WithoutPresentId(tail, nextId, k - 1);
      SplitAfterHead(rows, k);
    }
  }

  lemma SplitAfterHead(rows: seq<Record>, k: nat)
    requires 0 < k < |rows|
    ensures rows[..k] + rows[k + 1..] == [rows[0]] + (rows[1..][..k - 1] + rows[1..][k..])
  {
    assert rows[..k] == [rows[0]] + rows[1..][..k - 1];
    assert rows[k + 1..] == rows[1..][k..];
  }

  /** In a valid table the lookup by a row's own id finds that row. */
  lemma {:induction false} FindIdInValidTable(rows: seq<Record>, nextId: nat, k: nat)
    requires TableValid(rows, nextId) && k < |rows|
    ensures FindId(rows, rows[k].ownerId, rows[k].id) == Some(rows[k])
  {
    if k > 0 {
      TailValid(rows, nextId);
      assert rows[1..][k - 1] == rows[k];
      FindIdInValidTable(rows[1..], nextId, k - 1);
    }
  }

  /** A row appended under a name its owner did not use is found by name,
      and is the only row of that owner with that name. */
  lemma AppendedNameIsUnique(rows: seq<Record>, rec: Record)
    requires FirstNamed(rows, rec.ownerId, rec.name).None?
    ensures FirstNamed(rows + [rec], rec.ownerId, rec.name).Some?
    ensures forall i ::
      (0 <= i < |rows + [rec]| && (rows + [rec])[i].ownerId == rec.ownerId && (rows + [rec])[i].name == rec.name)
      ==> i == |rows|
  {
    forall i | 0 <= i < |rows| ensures !((rows + [rec])[i].ownerId == rec.ownerId && (rows + [rec])[i].name == rec.name) {
      assert (rows + [rec])[i] == rows[i];
    }
    assert (rows + [rec])[|rows|] == rec;
  }

  /** Deleting a freshly appended row by its id restores the table. */
  lemma FreshRowLookupAndDelete(rows: seq<Record>, rec: Record)
    requires forall i :: 0 <= i < |rows| ==> rows[i].id != rec.id
    ensures FindId(rows + [rec], rec.ownerId, rec.id) == Some(rec)
    ensures Without(rows + [rec], rec.id) == rows
  {
    FindFreshId(rows, rec);
    WithoutFreshId(rows, rec);
  }

  lemma TailIdsAbove(rows: seq<Record>, nextId: nat)
    requires TableValid(rows, nextId) && rows != []
    ensures forall i :: 0 <= i < |rows| - 1 ==> rows[1..][i].id != rows[0].id
  {
    forall i | 0 <= i < |rows| - 1 ensures rows[1..][i].id != rows[0].id {
      assert rows[1..][i] == rows[i + 1];
    }
  }

  lemma TailValid(rows: seq<Record>, nextId: nat)
    requires TableValid(rows, nextId) && rows != []
    ensures TableValid(rows[1..], nextId)
  {
    var tail := rows[1..];
    forall i, j | 0 <= i < j < |tail| ensures tail[i].id < tail[j].id {
      assert tail[i] == rows[i + 1] && tail[j] == rows[j + 1];
    }
  }

  lemma {:induction false} WithoutAbsentId(rows: seq<Record>, id: nat)
    requires forall i :: 0 <= i < |rows| ==> rows[i].id != id
    ensures Without(rows, id) == rows
  {
    if rows != [] {
      WithoutAbsentId(rows[1..], id);
      assert rows == [rows[0]] + rows[1..];
    }
  }

  /** The metadata table, as a SQLAlchemy session sees it. */
  class MetadataTable {
    var rows: seq<Record>
    var nextId: nat
    /** The ids in the users table. */
    var users: set<int>

    constructor (users: set<int>)
      ensures rows == [] && nextId == 1 && this.users == users
      ensures TableValid(rows, nextId)
    {
      rows := [];
      nextId := 1;
      this.users := users;
    }

    /** `db.add`, `db.commit`, `db.refresh`: the new row gets the next id. */
    method Insert(ownerId: int, name: string, url: Url, submitted: Timestamp) returns (rec: Record)
      modifies this
      ensures rec == Record(old(nextId), ownerId, name, url, submitted)
      ensures rows == old(rows) + [rec] && nextId == old(nextId) + 1 && users == old(users)
      ensures TableValid(old(rows), old(nextId)) ==> TableValid(rows, nextId)
    {
      rec := Record(nextId, ownerId, name, url, submitted);
      rows := rows + [rec];
      nextId := nextId + 1;
    }

    /** `db.delete`, `db.commit`. */
    method Delete(rec: Record)
      modifies this
      ensures rows == Without(old(rows), rec.id) && nextId == old(nextId) && users == old(users)
      ensures TableValid(old(rows), old(nextId)) ==> TableValid(rows, nextId)
      ensures UniqueNames(old(rows)) ==> UniqueNames(rows)
    {
      if TableValid(rows, nextId) {
        WithoutKeepsValid(rows, nextId, rec.id);
      }
      if UniqueNames(rows) {
        WithoutKeepsUniqueNames(rows, rec.id);
      }
      rows := Without(rows, rec.id);
    }
  }

  /** What `head_object` reports: the injected client error if there is one,
      otherwise the not-found code when no object has that key. */
  function HeadError(objects: map<string, seq<byte>>, key: string, fault: Option<ErrorCode>): Option<ErrorCode>
  {
    if fault.Some? then fault
    else if key !in objects then Some(NotFoundCode)
    else None
  }

  /** The bucket: object bodies by key. */
  class ObjectStore {
    var objects: map<string, seq<byte>>

    constructor ()
      ensures objects == map[]
    {
      objects := map[];
    }

    /** `put_object`: stores (or overwrites) the body unless the call fails. */
    method PutObject(key: string, body: seq<byte>, fault: Option<ErrorCode>) returns (err: Option<ErrorCode>)
      modifies this
      ensures err == fault
      ensures objects == if fault.None? then old(objects)[key := body] else old(objects)
    {
      err := fault;
      if fault.None? {
        objects := objects[key := body];
      }
    }

    /** `head_object`: fails on a missing key or an injected error. */
    method HeadObject(key: string, fault: Option<ErrorCode>) returns (err: Option<ErrorCode>)
      ensures err.None? <==> fault.None? && key in objects
      ensures fault.Some? ==> err == fault
      ensures fault.None? && key !in objects ==> err == Some(NotFoundCode)
    {
      err := HeadError(objects, key, fault);
    }

    /** `delete_object`: removes the key unless the call fails. */
    method DeleteObject(key: string, fault: Option<ErrorCode>) returns (err: Option<ErrorCode>)
      modifies this
      ensures err == fault
      ensures objects == if fault.None? then old(objects) - {key} else old(objects)
    {
      err := fault;
      if fault.None? {
        objects := objects - {key};
      }
    }
  }
}
