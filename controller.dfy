/**
 * The REST endpoints for users, reduced to their outcome logic: each
 * endpoint is a method that drives the service and returns the status code
 * and body of the response. Request parsing and JSON rendering are not part
 * of the model; request bodies arrive as their fields.
 */
module Controller {
  import opened Wrappers
  import opened HttpStatus
  import opened Dates
  import opened Users
  import opened Service

  /** The public shape of a user: a plain copy of five fields. */
  datatype UserGetDTO = UserGetDTO(id: int, name: string, username: string, password: string, status: Status)

  function ToGetDTO(rec: UserRecord): UserGetDTO {
    UserGetDTO(rec.id, rec.name, rec.username, rec.password, rec.status)
  }

  /** What a response carries: nothing, one user, a list of users, a text, or an error reason. */
  datatype Body =
    | NoBody
    | One(user: UserGetDTO)
    | Many(users: seq<UserGetDTO>)
    | Text(message: string)
    | Reason(reason: string)

  datatype Response = Response(status: int, body: Body)

  /**
   * The response for an exception that leaves an endpoint: a
   * ResponseStatusException answers with its own status and reason, any
   * other exception with INTERNAL_SERVER_ERROR.
   */
  function Propagated(e: Thrown): (r: Response)
    ensures r.body.Reason? <==> e.ResponseStatusException?
    ensures e.ResponseStatusException? ==> r.status == e.status && r.body.reason == e.reason
    ensures !e.ResponseStatusException? ==> r == Response(INTERNAL_SERVER_ERROR, NoBody)
  {
    match e
    case ResponseStatusException(status, reason) => Response(status, Reason(reason))
    case _ => Response(INTERNAL_SERVER_ERROR, NoBody)
  }

  const LOGOUT_OK := "User logged out successfully."
  const LOGOUT_ERROR := "Error during logout."
  const UPDATE_OK := "Changes saved successfully."
  const UPDATE_ERROR := "User not found."

  class UserController {
    const service: UserService

    constructor (service: UserService)
      ensures this.service == service
    {
      this.service := service;
    }

    /** GET /users: one DTO per stored user, in insertion order. */
    method GetAllUsers() returns (resp: Response)
      requires service.repo.Valid()
      ensures resp.status == OK && resp.body.Many?
      ensures |resp.body.users| == service.repo.nextId - 1
      ensures forall i :: 0 <= i < |resp.body.users| ==>
        i + 1 in service.repo.Rows() && resp.body.users[i] == ToGetDTO(service.repo.Rows()[i + 1])
      ensures forall id :: id in service.repo.Rows() ==>
        1 <= id <= |resp.body.users| && resp.body.users[id - 1] == ToGetDTO(service.repo.Rows()[id])
    {
      var users := service.GetUsers();
      var dtos: seq<UserGetDTO> := [];
      for i := 0 to |users|
        invariant |dtos| == i
        invariant forall j :: 0 <= j < i ==> dtos[j] == ToGetDTO(users[j].Record())
      {
        dtos := dtos + [ToGetDTO(users[i].Record())];
      }
      resp := Response(OK, Many(dtos));
      forall i | 0 <= i < |resp.body.users|
        ensures i + 1 in service.repo.Rows() && resp.body.users[i] == ToGetDTO(service.repo.Rows()[i + 1])
      {
        assert i + 1 in service.repo.table && users[i] == service.repo.table[i + 1];
      }
      forall id | id in service.repo.Rows()
        ensures 1 <= id <= |resp.body.users| && resp.body.users[id - 1] == ToGetDTO(service.repo.Rows()[id])
      {
        assert id in service.repo.table;
      }
    }

    /**
     * POST /users: registers the user the request describes and answers
     * CREATED with it; a taken username or name answers with the service's
     * BAD_REQUEST and adds no one.
     */
    method CreateUser(name: string, username: string, password: string, token: string, today: Date)
      returns (resp: Response)
      requires service.repo.Valid()
      requires token != "" && ValidDate(today)
      modifies service.repo
      ensures service.repo.Valid()
      ensures resp.status == CREATED <==>
        old(!Taken(service.repo.Rows(), UsernameColumn, username) && !Taken(service.repo.Rows(), NameColumn, name))
      ensures resp.status == CREATED ==>
        && resp.body == One(UserGetDTO(old(service.repo.nextId), name, username, password, Online))
        && service.repo.Rows() == old(service.repo.Rows())[old(service.repo.nextId) :=
             UserRecord(old(service.repo.nextId), name, username, password, token, Online, FormatDotted(today), None)]
      ensures resp.status != CREATED ==>
        && resp == Propagated(old(UniquenessError(Taken(service.repo.Rows(), UsernameColumn, username),
                                                  Taken(service.repo.Rows(), NameColumn, name))).value)
        && resp.status == BAD_REQUEST
        && service.repo.Rows() == old(service.repo.Rows())
        && service.repo.table == old(service.repo.table)
      ensures resp.status == CREATED ==>
        && old(service.repo.nextId) in service.repo.table
        && fresh(service.repo.table[old(service.repo.nextId)])
        && service.repo.table == old(service.repo.table)[old(service.repo.nextId) := service.repo.table[old(service.repo.nextId)]]
      ensures old(UniqueFields(service.repo.Rows())) ==> UniqueFields(service.repo.Rows())
    {
      var repo := service.repo;
      ghost var before, id := repo.Rows(), repo.nextId;
      ghost var error := UniquenessError(Taken(before, UsernameColumn, username), Taken(before, NameColumn, name));
      var input := new User(name, username, password);
      var created := service.CreateUser(input, token, today);
      if created.Failure? {
        assert Some(created.error) == error;
        resp := Propagated(created.error);
      } else {
        assert input.Record() == UserRecord(id, name, username, password, token, Online, FormatDotted(today), None);
        resp := Response(CREATED, One(ToGetDTO(created.value.Record())));
      }
    }

    /**
     * POST /login: on matching credentials the user gets the new token and
     * goes ONLINE and the answer is OK with the user; otherwise UNAUTHORIZED
     * with no body, and nothing changes.
     */
    method LoginUser(username: string, password: string, token: string) returns (resp: Response)
      requires service.repo.Valid() && token != ""
      modifies service.repo, service.repo.table.Values
      ensures service.repo.Valid() && unchanged(service.repo)
      ensures resp.status == OK <==>
        old(PasswordMatches(service.repo.FirstMatch(UsernameColumn, username, 1), password))
      ensures resp.status != OK ==> resp == Response(UNAUTHORIZED, NoBody) && service.repo.Rows() == old(service.repo.Rows())
      ensures resp.status == OK ==>
        && resp.body.One? && resp.body.user.id in old(service.repo.Rows())
        && old(service.repo.Rows())[resp.body.user.id].username == username
        && old(service.repo.Rows())[resp.body.user.id].password == password
        && service.repo.Rows() == old(service.repo.Rows())[resp.body.user.id :=
             old(service.repo.Rows())[resp.body.user.id].(token := token, status := Online)]
        && resp.body.user == ToGetDTO(service.repo.Rows()[resp.body.user.id])
    {
      var repo := service.repo;
      ghost var before := repo.Rows();
      var loggedIn := service.LoginUser(username, password, token);
      if loggedIn.Some? {
        var user := loggedIn.value;
        ghost var afterLogin := repo.Rows();
        assert afterLogin == before[user.id := before[user.id].(token := token)];
        service.UpdateStatus(user, Online);
        assert repo.Rows() == afterLogin[user.id := afterLogin[user.id].(status := Online)];
        resp := Response(OK, One(ToGetDTO(user.Record())));
      } else {
        resp := Response(UNAUTHORIZED, NoBody);
      }
    }

    /**
     * POST /users/{id}/logout: a stored user goes OFFLINE and the answer is
     * OK; for an unknown id the NOT_FOUND from the lookup is caught and the
     * answer is INTERNAL_SERVER_ERROR, with nothing changed.
     */
    method LogoutUser(id: int) returns (resp: Response)
      requires service.repo.Valid()
      modifies service.repo, service.repo.table.Values
      ensures service.repo.Valid() && unchanged(service.repo)
      ensures resp.status == OK <==> id in old(service.repo.Rows())
      ensures resp.status == OK ==>
        && resp.body == Text(LOGOUT_OK)
        && service.repo.Rows() == old(service.repo.Rows())[id := old(service.repo.Rows())[id].(status := Offline)]
      ensures resp.status != OK ==>
        resp == Response(INTERNAL_SERVER_ERROR, Text(LOGOUT_ERROR)) && service.repo.Rows() == old(service.repo.Rows())
    {
      var found := service.GetUserById(id);
      if found.Failure? {
        resp := Response(INTERNAL_SERVER_ERROR, Text(LOGOUT_ERROR));
      } else {
        service.UpdateStatus(found.value, Offline);
        resp := Response(OK, Text(LOGOUT_OK));
      }
    }

    /** GET /users/{id}: OK with the stored user, or the lookup's NOT_FOUND. */
    method GetUser(id: int) returns (resp: Response)
      requires service.repo.Valid()
      ensures resp.status == OK <==> id in service.repo.Rows()
      ensures resp.status == OK ==> resp.body == One(ToGetDTO(service.repo.Rows()[id]))
      ensures resp.status != OK ==> resp == Response(NOT_FOUND, Reason(NotFoundMessage(id)))
    {
      var found := service.GetUserById(id);
      if found.Failure? {
        resp := Propagated(found.error);
      } else {
        resp := Response(OK, One(ToGetDTO(found.value.Record())));
      }
    }

    /**
     * PUT /users/{id}: applies the profile edit to a stored user and answers
     * ACCEPTED; an unknown id and every failure of the edit alike answer
     * NOT_FOUND with the same text. A failed edit keeps whatever it did
     * before failing.
     */
    method UpdateUser(id: int, username: Option<string>, birthDate: Option<string>) returns (resp: Response)
      requires service.repo.Valid()
      modifies service.repo.table.Values
      ensures service.repo.Valid()
      ensures resp.status == ACCEPTED <==>
        id in old(service.repo.Rows()) && ProfileEdit(old(service.repo.Rows())[id], username, birthDate).1 == Pass
      ensures resp.status == ACCEPTED ==> resp.body == Text(UPDATE_OK)
      ensures resp.status != ACCEPTED ==> resp == Response(NOT_FOUND, Text(UPDATE_ERROR))
      ensures id !in old(service.repo.Rows()) ==> service.repo.Rows() == old(service.repo.Rows())
      ensures id in old(service.repo.Rows()) ==>
        service.repo.Rows() == old(service.repo.Rows())[id := ProfileEdit(old(service.repo.Rows())[id], username, birthDate).0]
    {
      var found := service.GetUserById(id);
      if found.Failure? {
        resp := Response(NOT_FOUND, Text(UPDATE_ERROR));
      } else {
        var outcome := service.UpdateUser(found.value, username, birthDate);
        if outcome.Fail? {
          resp := Response(NOT_FOUND, Text(UPDATE_ERROR));
        } else {
          resp := Response(ACCEPTED, Text(UPDATE_OK));
        }
      }
    }
  }

  /**
   * A visit to a fresh server: registration, login with the chosen password,
   * logout, a second registration under the same username, and a profile
   * edit that sets only the birth date.
   */
  method Visit(name: string, username: string, password: string, token: string, relogin: string, today: Date)
    returns (created: Response, loggedIn: Response, loggedOut: Response, duplicate: Response, edited: Response)
    requires token != "" && relogin != "" && ValidDate(today)
    ensures created == Response(CREATED, One(UserGetDTO(1, name, username, password, Online)))
    ensures loggedIn == Response(OK, One(UserGetDTO(1, name, username, password, Online)))
    ensures loggedOut == Response(OK, Text(LOGOUT_OK))
    ensures duplicate.status == BAD_REQUEST
    ensures edited == Response(ACCEPTED, Text(UPDATE_OK))
  {
    var repo := new UserRepository();
    var service := new UserService(repo);
    var controller := new UserController(service);
    assert repo.table == map[] by {
      assert repo.table.Keys == repo.Rows().Keys;
    }
    created := controller.CreateUser(name, username, password, token, today);
    assert repo.Rows()[1].username == username;
    assert repo.table.Values == {repo.table[1]} && fresh(repo.table[1]);
    assert repo.FirstMatch(UsernameColumn, username, 1) == Some(repo.table[1]);
    loggedIn := controller.LoginUser(username, password, relogin);
    assert loggedIn.body.user.id == 1;
    loggedOut := controller.LogoutUser(1);
    assert Taken(repo.Rows(), UsernameColumn, username) by {
      assert repo.Rows()[1].username == username;
    }
    duplicate := controller.CreateUser("other " + name, username, password, token, today);
    ProfileEditExample(repo.Rows()[1]);
    edited := controller.UpdateUser(1, Some(""), Some("1990-05-01"));
  }
}
