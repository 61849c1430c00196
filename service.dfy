/**
 * The user service: registration with its uniqueness check, login, lookup
 * by id, status changes and profile edits, over the user table.
 *
 * The fresh token (a random UUID in the running system) and today's date
 * (the system clock) are parameters of the operations that need them.
 */
module Service {
  import opened Wrappers
  import opened HttpStatus
  import opened Dates
  import opened Users

  /** The exceptions the service lets escape to its caller. */
  datatype Thrown =
    | ResponseStatusException(status: int, reason: string)
    | NullPointerException
    | DateTimeParseException(text: string)

  /** The registration error message, with its two blanks filled in. */
  function NotUniqueMessage(subject: string, verb: string): (m: string)
    ensures |m| >= 4 + |subject| && m[..4] == "The " && m[4..4 + |subject|] == subject
  {
    "The " + subject + " provided " + verb + " not unique. Therefore, the user could not be created!"
  }

  /**
   * checkIfUserExists, given the outcome of its two lookups: no error when
   * both the username and the name are free, otherwise a BAD_REQUEST whose
   * message names the field or fields that are taken.
   */
  function UniquenessError(usernameTaken: bool, nameTaken: bool): (e: Option<Thrown>)
    ensures e.None? <==> !usernameTaken && !nameTaken
    ensures e.Some? ==> e.value.ResponseStatusException? && e.value.status == BAD_REQUEST
  {
    if usernameTaken && nameTaken then
      Some(ResponseStatusException(BAD_REQUEST, NotUniqueMessage("username and the name", "are")))
    else if usernameTaken then
      Some(ResponseStatusException(BAD_REQUEST, NotUniqueMessage("username", "is")))
    else if nameTaken then
      Some(ResponseStatusException(BAD_REQUEST, NotUniqueMessage("name", "is")))
    else None
  }

  /** The three registration errors are told apart by their messages alone. */
  lemma UniquenessErrorIdentifiesCollision(u1: bool, n1: bool, u2: bool, n2: bool)
    requires UniquenessError(u1, n1).Some? && UniquenessError(u2, n2).Some?
    requires UniquenessError(u1, n1).value.reason == UniquenessError(u2, n2).value.reason
    ensures u1 == u2 && n1 == n2
  {
  }

  /** The NOT_FOUND reason of a failed lookup by id. */
  function NotFoundMessage(id: int): (m: string)
    ensures |m| >= 24 && m[..13] == "User with ID " && m[|m| - 10..] == " not found"
  {
    "User with ID " + SignedDecimal(id) + " not found"
  }

  /** The NOT_FOUND reason names the id: distinct ids give distinct reasons. */
  lemma NotFoundMessageIdentifiesId(a: int, b: int)
    requires NotFoundMessage(a) == NotFoundMessage(b)
    ensures a == b
  {
    var ma, mb := NotFoundMessage(a), NotFoundMessage(b);
    assert SignedDecimal(a) == ma[13..|ma| - 10];
    assert SignedDecimal(b) == mb[13..|mb| - 10];
    SignedDecimalReadsBack(a);
    SignedDecimalReadsBack(b);
  }

  class UserService {
    const repo: UserRepository

    constructor (repo: UserRepository)
      ensures this.repo == repo
    {
      this.repo := repo;
    }

    /** getUsers: every stored user, in insertion order. */
    method GetUsers() returns (users: seq<User>)
      requires repo.Valid()
      ensures |users| == repo.nextId - 1
      ensures forall i :: 0 <= i < |users| ==> users[i] == repo.table[i + 1]
    {
      users := repo.FindAll();
    }

    /** checkIfUserExists: looks the candidate's username and name up and picks the error, if any. */
    method CheckIfUserExists(candidate: User) returns (e: Option<Thrown>)
      requires repo.Valid()
      ensures e.None? <==>
        !Taken(repo.Rows(), UsernameColumn, candidate.username) && !Taken(repo.Rows(), NameColumn, candidate.name)
      ensures e == UniquenessError(Taken(repo.Rows(), UsernameColumn, candidate.username),
                                   Taken(repo.Rows(), NameColumn, candidate.name))
    {
      var byUsername := repo.FindBy(UsernameColumn, candidate.username);
      var byName := repo.FindBy(NameColumn, candidate.name);
      e := UniquenessError(byUsername.Some?, byName.Some?);
    }

    /**
     * createUser: stamps the candidate with the token, today's date and
     * ONLINE, then stores it unless its username or name is taken.
     */
    method CreateUser(newUser: User, token: string, today: Date) returns (r: Result<User, Thrown>)
      requires repo.Valid() && newUser.id == 0
      requires token != "" && ValidDate(today)
      modifies repo, newUser
      ensures repo.Valid()
      ensures newUser.Record() ==
        old(newUser.Record()).(id := newUser.id, token := token, status := Online, creationDate := FormatDotted(today))
      ensures r.Failure? <==>
        old(Taken(repo.Rows(), UsernameColumn, newUser.username) || Taken(repo.Rows(), NameColumn, newUser.name))
      ensures r.Failure? ==>
        && Some(r.error) == old(UniquenessError(Taken(repo.Rows(), UsernameColumn, newUser.username),
                                                Taken(repo.Rows(), NameColumn, newUser.name)))
        && newUser.id == 0 && unchanged(repo) && repo.Rows() == old(repo.Rows())
      ensures r.Success? ==>
        && r.value == newUser && repo.table == old(repo.table)[newUser.id := newUser]
        && newUser.id == old(repo.nextId) && newUser.id !in old(repo.Rows())
        && repo.Rows() == old(repo.Rows())[newUser.id := newUser.Record()]
        && repo.nextId == old(repo.nextId) + 1
      ensures old(UniqueFields(repo.Rows())) ==> UniqueFields(repo.Rows())
    {
      ghost var before := repo.Rows();
      ghost var usernameTaken := Taken(before, UsernameColumn, newUser.username);
      ghost var nameTaken := Taken(before, NameColumn, newUser.name);
      assert newUser !in repo.table.Values by {
        forall id | id in repo.table ensures repo.table[id] != newUser {
          assert repo.table[id].id >= 1;
        }
      }
      newUser.token := token;
      newUser.password := newUser.password;
      newUser.creationDate := FormatDotted(today);
      newUser.status := Online;
      ghost var stamped := newUser.Record();
      assert repo.Rows() == before;
      assert Taken(repo.Rows(), UsernameColumn, newUser.username) == usernameTaken;
      assert Taken(repo.Rows(), NameColumn, newUser.name) == nameTaken;
      label checking:
      var e := CheckIfUserExists(newUser);
      assert repo.Rows() == old@checking(repo.Rows());
      assert e == UniquenessError(usernameTaken, nameTaken);
      if e.Some? {
        return Failure(e.value);
      }
      var saved := repo.Save(newUser);
      assert newUser.Record() == stamped.(id := newUser.id);
      if UniqueFields(before) {
        InsertKeepsUnique(before, newUser.id, newUser.Record());
      }
      r := Success(saved);
    }

    /**
     * loginUser: on an exact match of the stored password of the user found
     * by username, reissues that user's token and returns it; otherwise
     * returns nothing and changes nothing.
     */
    method LoginUser(username: string, password: string, token: string) returns (r: Option<User>)
      requires repo.Valid() && token != ""
      modifies repo.table.Values
      ensures repo.Valid()
      ensures r.Some? <==> old(PasswordMatches(repo.FirstMatch(UsernameColumn, username, 1), password))
      ensures r.None? ==> repo.Rows() == old(repo.Rows())
      ensures r.Some? ==>
        && repo.Stores(r.value) && r.value.username == username
        && old(repo.Rows())[r.value.id].password == password
        && repo.Rows() == old(repo.Rows())[r.value.id := old(repo.Rows())[r.value.id].(token := token)]
    {
      ghost var found := repo.FirstMatch(UsernameColumn, username, 1);
      var existing := repo.FindBy(UsernameColumn, username);
      assert existing == found;
      if existing.Some? && existing.value.password == password {
        var user := existing.value;
        ghost var before := repo.Rows();
        assert before[user.id] == user.Record();
        user.token := token;
        assert user.Record() == before[user.id].(token := token);
        RowsAfterUpdate(repo, user, before);
        r := Some(user);
      } else {
        r := None;
      }
    }

    /** getUserById: the stored user, or a NOT_FOUND naming the id. */
    method GetUserById(id: int) returns (r: Result<User, Thrown>)
      requires repo.Valid()
      ensures r.Success? <==> id in repo.Rows()
      ensures r.Success? ==> repo.Stores(r.value) && r.value.id == id
      ensures r.Failure? ==> r.error == ResponseStatusException(NOT_FOUND, NotFoundMessage(id))
    {
      var found := repo.FindById(id);
      if found.Some? {
        r := Success(found.value);
      } else {
        r := Failure(ResponseStatusException(NOT_FOUND, NotFoundMessage(id)));
      }
    }

    /** updateStatus: sets the status of a stored user and saves it. */
    method UpdateStatus(user: User, status: Status)
      requires repo.Valid() && repo.Stores(user)
      modifies repo, user
      ensures repo.Valid() && unchanged(repo)
      ensures repo.Rows() == old(repo.Rows())[user.id := old(user.Record()).(status := status)]
      ensures old(user.status) == status ==> repo.Rows() == old(repo.Rows())
    {
      ghost var before := repo.Rows();
      user.status := status;
      RowsAfterUpdate(repo, user, before);
      var _ := repo.Save(user);
    }

    /**
     * updateUser: applies `ProfileEdit` to the stored user in place, setting
     * the username first and the birth date second, with no `save` and no
     * uniqueness check.
     */
    method UpdateUser(user: User, username: Option<string>, birthDate: Option<string>) returns (r: Outcome<Thrown>)
      requires repo.Valid() && repo.Stores(user)
      modifies user
      ensures repo.Valid()
      ensures repo.Rows() == old(repo.Rows())[user.id := user.Record()]
      ensures (user.Record(), r) == ProfileEdit(old(user.Record()), username, birthDate)
    {
      ghost var before := repo.Rows();
      if username.None? {
        r := Fail(NullPointerException);
      } else {
        if |username.value| > 0 {
          user.username := username.value;
        }
        if birthDate.None? {
          r := Fail(NullPointerException);
        } else if |birthDate.value| > 0 {
          var date := ParseIso(birthDate.value);
          if date.None? {
            r := Fail(DateTimeParseException(birthDate.value));
          } else {
            user.birthDate := Some(FormatDotted(date.value));
            r := Pass;
          }
        } else {
          r := Pass;
        }
      }
      RowsAfterUpdate(repo, user, before);
    }
  }

  /**
   * The effect of updateUser on one user's record, and whether it throws.
   * Reading the length of a missing (null) field throws; the username is
   * overwritten before the birth date is looked at, so a missing or
   * unparseable birth date fails with the new username already in place.
   */
  function ProfileEdit(rec: UserRecord, username: Option<string>, birthDate: Option<string>): (r: (UserRecord, Outcome<Thrown>))
    ensures r.1.Fail? ==> r.0.birthDate == rec.birthDate
  {
    if username.None? then (rec, Fail(NullPointerException))
    else
      var renamed := if username.value == "" then rec else rec.(username := username.value);
      if birthDate.None? then (renamed, Fail(NullPointerException))
      else if birthDate.value == "" then (renamed, Pass)
      else match ParseIso(birthDate.value)
        case None => (renamed, Fail(DateTimeParseException(birthDate.value)))
        case Some(d) => (renamed.(birthDate := Some(FormatDotted(d))), Pass)
  }

  /** An edit touches only the username and the birth date. */
  lemma ProfileEditFrame(rec: UserRecord, username: Option<string>, birthDate: Option<string>)
    ensures var edited := ProfileEdit(rec, username, birthDate).0;
      edited == rec.(username := edited.username, birthDate := edited.birthDate)
  {
  }

  /**
   * The username is handled on its own: an empty one keeps the old
   * username, a non-empty one replaces it, whatever the birth date is.
   */
  lemma ProfileEditUsername(rec: UserRecord, username: string, birthDate: Option<string>)
    ensures ProfileEdit(rec, Some(username), birthDate).0.username ==
      if username == "" then rec.username else username
  {
  }

  /** The edit succeeds exactly when both fields are present and the birth date is empty or a valid date. */
  lemma ProfileEditSucceeds(rec: UserRecord, username: Option<string>, birthDate: Option<string>)
    ensures ProfileEdit(rec, username, birthDate).1 == Pass <==>
      username.Some? && birthDate.Some? && (birthDate.value == "" || ParseIso(birthDate.value).Some?)
  {
  }

  /**
   * A valid `YYYY-MM-DD` birth date is stored as `DD.MM.YYYY`; an empty or
   * unparseable one leaves the stored birth date as it was.
   */
  lemma ProfileEditBirthDate(rec: UserRecord, username: string, birthDate: string)
    ensures ParseIso(birthDate).Some? ==>
      ProfileEdit(rec, Some(username), Some(birthDate)).0.birthDate ==
        Some(birthDate[8..] + "." + birthDate[5..7] + "." + birthDate[..4])
    ensures ParseIso(birthDate).None? ==>
      ProfileEdit(rec, Some(username), Some(birthDate)).0.birthDate == rec.birthDate
  {
    if ParseIso(birthDate).Some? {
      IsoToDotted(birthDate);
    }
  }

  /** "1990-05-01" is stored as "01.05.1990". */
  lemma ProfileEditExample(rec: UserRecord)
    ensures ProfileEdit(rec, Some(""), Some("1990-05-01")) ==
      (rec.(birthDate := Some("01.05.1990")), Pass)
  {
    ExampleBirthDate();
    ExampleDotted();
  }

  /**
   * updateUser does not re-check uniqueness: from a duplicate-free table,
   * the edit leaves it duplicate-free exactly when the new username is
   * empty or held by no other user.
   */
  lemma ProfileEditUniqueness(rows: map<int, UserRecord>, id: int, username: Option<string>, birthDate: Option<string>)
    requires UniqueFields(rows) && id in rows
    ensures UniqueFields(rows[id := ProfileEdit(rows[id], username, birthDate).0]) <==>
      !(username.Some? && username.value != "" && UsernameHeldByOther(rows, id, username.value))
  {
    var edited := ProfileEdit(rows[id], username, birthDate).0;
    RenameKeepsUnique(rows, id, edited);
    if edited.username == rows[id].username {
      assert !UsernameHeldByOther(rows, id, edited.username);
    }
  }

  /** Whether a lookup found a user whose stored password is exactly `password`. */
  predicate PasswordMatches(found: Option<User>, password: string)
    reads if found.Some? then {found.value} else {}
  {
    found.Some? && found.value.password == password
  }

  /**
   * In a table without duplicate usernames, the login check passes exactly
   * when some stored user has both the username and the password.
   */
  lemma LoginMatchesCredentials(repo: UserRepository, username: string, password: string)
    requires repo.Valid() && UniqueFields(repo.Rows())
    ensures PasswordMatches(repo.FirstMatch(UsernameColumn, username, 1), password) <==>
      exists id :: id in repo.Rows() && repo.Rows()[id].username == username && repo.Rows()[id].password == password
  {
    var rows := repo.Rows();
    var found := repo.FirstMatch(UsernameColumn, username, 1);
    if PasswordMatches(found, password) {
      assert rows[found.value.id].username == username && rows[found.value.id].password == password;
    }
    if exists id :: id in rows && rows[id].username == username && rows[id].password == password {
      var id :| id in rows && rows[id].username == username && rows[id].password == password;
      repo.UniqueMatch(UsernameColumn, username, id, 1);
    }
  }

  /** Whether a user other than `id` already holds `username`. */
  predicate UsernameHeldByOther(rows: map<int, UserRecord>, id: int, username: string) {
    exists other :: other in rows && other != id && rows[other].username == username
  }

  /**
   * Renaming one user of a duplicate-free table keeps it duplicate-free
   * exactly when no other user already holds the new username.
   */
  lemma RenameKeepsUnique(rows: map<int, UserRecord>, id: int, r: UserRecord)
    requires UniqueFields(rows) && id in rows
    requires r.name == rows[id].name
    ensures UniqueFields(rows[id := r]) <==> !UsernameHeldByOther(rows, id, r.username)
  {
    var rows' := rows[id := r];
    if UsernameHeldByOther(rows, id, r.username) {
      var other :| other in rows && other != id && rows[other].username == r.username;
      assert rows'[other].username == rows'[id].username;
    } else {
      forall a, b | a in rows' && b in rows' && a != b
        ensures rows'[a].username != rows'[b].username && rows'[a].name != rows'[b].name
      {
        if a == id {
          assert rows'[b] == rows[b];
          assert !(b in rows && b != id && rows[b].username == r.username);
        } else if b == id {
          assert rows'[a] == rows[a];
          assert !(a in rows && a != id && rows[a].username == r.username);
        }
      }
    }
  }
}
