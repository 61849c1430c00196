/**
 * The user entity and the user table it is stored in.
 *
 * A `User` is a mutable object: the service changes the token, status,
 * username and birth date of a stored user in place, and because the
 * table holds users by reference the change is the stored record's
 * change. The table is an in-memory map from id to user, kept in
 * insertion order, with ids handed out by a counter.
 */
module Users {
  import opened Wrappers

  datatype Status = Online | Offline

  /** The value of every field of a user at one moment. */
  datatype UserRecord = UserRecord(
    id: int,
    name: string,
    username: string,
    password: string,
    token: string,
    status: Status,
    creationDate: string,
    birthDate: Option<string>)

  /** The user entity. An `id` of 0 stands for Java's `null` id: not yet stored. */
  class User {
    var id: int
    var name: string
    var username: string
    var password: string
    var token: string
    var status: Status
    var creationDate: string
    var birthDate: Option<string>

    /** A candidate user as the request body describes it; no id, token or dates yet. */
    constructor (name: string, username: string, password: string)
      ensures Record() == UserRecord(0, name, username, password, "", Offline, "", None)
    {
      this.id := 0;
      this.name := name;
      this.username := username;
      this.password := password;
      this.token := "";
      this.status := Offline;
      this.creationDate := "";
      this.birthDate := None;
    }

    function Record(): UserRecord
      reads this
    {
      UserRecord(id, name, username, password, token, status, creationDate, birthDate)
    }
  }

  /** The two columns the table can be searched by, besides the id. */
  datatype Column = UsernameColumn | NameColumn

  function Field(r: UserRecord, c: Column): string {
    match c
    case UsernameColumn => r.username
    case NameColumn => r.name
  }

  /** No two distinct stored users share a username, and none share a name. */
  predicate UniqueFields(rows: map<int, UserRecord>) {
    forall a, b :: a in rows && b in rows && a != b ==>
      rows[a].username != rows[b].username && rows[a].name != rows[b].name
  }

  /** Whether some stored user has `key` in column `c`. */
  predicate Taken(rows: map<int, UserRecord>, c: Column, key: string) {
    exists id :: id in rows && Field(rows[id], c) == key
  }

  /** Adding a user whose username and name are both free keeps the table free of duplicates. */
  lemma InsertKeepsUnique(rows: map<int, UserRecord>, id: int, r: UserRecord)
    requires UniqueFields(rows) && id !in rows
    requires !Taken(rows, UsernameColumn, r.username) && !Taken(rows, NameColumn, r.name)
    ensures UniqueFields(rows[id := r])
  {
  }

  /**
   * The user table: users by id, and the next id to hand out. Ids are
   * handed out from 1 upwards and users are never deleted, so the stored
   * ids are exactly 1 .. nextId - 1 and ascending id order is insertion order.
   */
  class UserRepository {
    var table: map<int, User>
    var nextId: int

    ghost predicate Valid()
      reads this, table.Values
    {
      && nextId >= 1
      && (forall id :: id in table <==> 1 <= id < nextId)
      && (forall id :: id in table ==> table[id].id == id)
    }

    /** Whether `u` is the user stored under its own id. */
    ghost predicate Stores(u: User)
      reads this, u
    {
      u.id in table && table[u.id] == u
    }

    /** The stored records by id. */
    ghost function Rows(): map<int, UserRecord>
      reads this, table.Values
    {
      map id | id in table :: table[id].Record()
    }

    /** The user that a search of column `c` for `key` finds: the first match with id `from` or above. */
    ghost function FirstMatch(c: Column, key: string, from: int): (r: Option<User>)
      reads this, table.Values
      requires Valid() && 1 <= from <= nextId
      ensures r.None? <==> forall id :: from <= id < nextId ==> Field(table[id].Record(), c) != key
      ensures r.Some? ==> Stores(r.value) && from <= r.value.id < nextId && Field(r.value.Record(), c) == key
      ensures r.Some? ==> forall id :: from <= id < r.value.id ==> Field(table[id].Record(), c) != key
      decreases nextId - from
    {
      if from == nextId then None
      else if Field(table[from].Record(), c) == key then Some(table[from])
      else FirstMatch(c, key, from + 1)
    }

    constructor ()
      ensures Valid() && Rows() == map[] && nextId == 1
    {
      table := map[];
      nextId := 1;
    }

    /** findAll: every stored user, in insertion order. */
    method FindAll() returns (users: seq<User>)
      requires Valid()
      ensures |users| == nextId - 1
      ensures forall i :: 0 <= i < |users| ==> users[i] == table[i + 1]
    {
      users := [];
      var id := 1;
      while id < nextId
        invariant 1 <= id <= nextId
        invariant |users| == id - 1
        invariant forall i :: 0 <= i < |users| ==> users[i] == table[i + 1]
      {
        users := users + [table[id]];
        id := id + 1;
      }
    }

    /** findById: the user stored under `id`, if any. */
    method FindById(id: int) returns (r: Option<User>)
      requires Valid()
      ensures r.Some? <==> id in Rows()
      ensures r.Some? ==> Stores(r.value) && r.value.id == id
    {
      if id in table {
        r := Some(table[id]);
      } else {
        r := None;
      }
    }

    /**
     * findByUsername / findByName: scans the table in insertion order and
     * returns the first user whose column `c` equals `key`.
     */
    method FindBy(c: Column, key: string) returns (r: Option<User>)
      requires Valid()
      ensures r == FirstMatch(c, key, 1)
      ensures r.None? <==> !Taken(Rows(), c, key)
      ensures r.Some? ==> Stores(r.value) && Field(r.value.Record(), c) == key
    {
      var id := 1;
      while id < nextId
        invariant 1 <= id <= nextId
        invariant FirstMatch(c, key, 1) == FirstMatch(c, key, id)
      {
        var candidate := table[id];
        if Field(candidate.Record(), c) == key {
          r := Some(candidate);
          NoMatchMeansFree(c, key);
          return;
        }
        id := id + 1;
      }
      r := None;
      NoMatchMeansFree(c, key);
    }

    /** A search finds nothing exactly when no stored user has the key. */
    lemma NoMatchMeansFree(c: Column, key: string)
      requires Valid()
      ensures FirstMatch(c, key, 1).None? <==> !Taken(Rows(), c, key)
    {
      var rows := Rows();
      if Taken(rows, c, key) {
        var id :| id in rows && Field(rows[id], c) == key;
        assert Field(table[id].Record(), c) == key;
      } else {
        assert forall id :: id in rows ==> Field(rows[id], c) != key;
        forall id | 1 <= id < nextId
          ensures Field(table[id].Record(), c) != key
        {
          assert id in rows && rows[id] == table[id].Record();
        }
      }
    }

    /** With no duplicates in the table, a search finds the one user holding the key. */
    lemma {:induction false} UniqueMatch(c: Column, key: string, id: int, from: int)
      requires Valid() && UniqueFields(Rows())
      requires id in table && Field(table[id].Record(), c) == key
      requires 1 <= from <= id
      ensures FirstMatch(c, key, from) == Some(table[id])
      decreases id - from
    {
      if from < id {
        var rows := Rows();
        assert rows[from].username != rows[id].username && rows[from].name != rows[id].name;
        UniqueMatch(c, key, id, from + 1);
      }
    }

    /**
     * save: stores a new user (id 0) under the next id; saving a user that
     * is already stored changes nothing.
     */
    method Save(u: User) returns (saved: User)
      requires Valid()
      requires u.id == 0 || Stores(u)
      modifies this, u
      ensures Valid() && saved == u
      ensures old(u.id) != 0 ==> unchanged(this) && unchanged(u)
      ensures old(u.id) == 0 ==>
        && u.id == old(nextId) && u.id !in old(Rows())
        && table == old(table)[u.id := u]
        && u.Record() == old(u.Record()).(id := u.id)
        && Rows() == old(Rows())[u.id := u.Record()]
        && nextId == old(nextId) + 1
    {
      saved := u;
      if u.id == 0 {
        ghost var before := Rows();
        forall id | id in table
          ensures table[id] != u
        {
          assert table[id].id >= 1;
        }
        u.id := nextId;
        table := table[nextId := u];
        nextId := nextId + 1;
        forall id | id in before
          ensures id in Rows() && Rows()[id] == before[id]
        {
          assert table[id] != u;
        }
        assert Rows() == before[u.id := u.Record()];
      }
    }
  }

  /**
   * When, compared with the rows `before`, only the stored user `u` may
   * have changed, the rows are `before` with that user's row replaced.
   */
  lemma RowsAfterUpdate(repo: UserRepository, u: User, before: map<int, UserRecord>)
    requires repo.Valid() && repo.Stores(u)
    requires before.Keys == repo.table.Keys
    requires forall id :: id in repo.table && repo.table[id] != u ==> before[id] == repo.table[id].Record()
    ensures u.id in repo.Rows()
    ensures repo.Rows() == before[u.id := u.Record()]
  {
    var rows, expected := repo.Rows(), before[u.id := u.Record()];
    assert rows.Keys == expected.Keys;
    forall id | id in rows
      ensures rows[id] == expected[id]
    {
      if id != u.id {
        assert repo.table[id] != u;
      }
    }
  }
}
