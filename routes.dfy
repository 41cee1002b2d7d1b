/** The decision logic of the six route handlers, as functions from the
    service's state and a request's inputs to the new state and the reply.
    The state is the two tables and the in-memory session map, from bearer
    token to username. Request bodies arrive decoded: `None` stands for a body
    that is not valid JSON. Every string a handler passes to the database is
    seen there only up to its first NUL (`Bound`), while the session map and
    the reply keep it whole. */
module Routes {
  import opened Wrappers
  import opened Tables
  import opened Auth

  datatype State = State(users: UserTable, rows: seq<MessageRow>, sessions: map<string, string>)

  /** The `username` and `password` fields of a login or signup body. */
  datatype Credentials = Credentials(username: string, password: string)

  /** The `to`, `subject` and `body` fields of a send body. There is no sender
      field: the sender is the session's user. */
  datatype Draft = Draft(to: string, subject: string, body: string)

  /** The part of a response body a client acts on. */
  datatype Payload =
    | NoContent
    | SessionIssued(token: string, username: string)
    | Inbox(messages: seq<Message>)

  datatype Reply = Reply(status: int, payload: Payload)

  /** Stands for the status of a response whose handler returned without
      setting one; what the HTTP library then sends is not part of this model. */
  const StatusUnset := -1

  /** Every session belongs to a registered user, as the database looks the
      session's username up. */
  predicate SessionsKnown(s: State) {
    forall t :: t in s.sessions ==> Bound(s.sessions[t]) in s.users
  }

  /** Every stored message is addressed to a registered user. */
  predicate RecipientsKnown(s: State) {
    forall i :: 0 <= i < |s.rows| ==> s.rows[i].to in s.users
  }

  /** What every handler keeps true. */
  predicate Valid(s: State) {
    UniqueIds(s.rows) && SessionsKnown(s) && RecipientsKnown(s)
  }

  /** The user a request acts for: the one its bearer token is bound to. */
  function SessionUser(s: State, auth: string): (u: Option<string>)
    ensures u.Some? <==> ParseBearer(auth).Some? && ParseBearer(auth).value in s.sessions
    ensures u.Some? ==> u.value == s.sessions[ParseBearer(auth).value]
  {
    match ParseBearer(auth)
    case None => None
    case Some(token) => if token in s.sessions then Some(s.sessions[token]) else None
  }

  /** POST /api/login, binding `token` (a fresh generateToken result) on success.
      The stored password comes back as a C string and is compared with the
      given one whole; the session and the reply carry the given name whole. */
  function Login(s: State, body: Option<Credentials>, token: string): (out: (State, Reply))
    ensures out.1.status in {200, 400, 401, 404}
    ensures out.1.status == 400 <==> body.None?
    ensures out.1.status == 404 <==> body.Some? && Bound(body.value.username) !in s.users
    ensures out.1.status == 200 <==>
      && body.Some? && Bound(body.value.username) in s.users
      && Bound(s.users[Bound(body.value.username)]) == body.value.password
    ensures NulFree(s.users, s.rows) ==>
      (out.1.status == 200 <==>
         body.Some? && Bound(body.value.username) in s.users
         && s.users[Bound(body.value.username)] == body.value.password)
    ensures out.1.status != 200 ==> out.0 == s
    ensures out.1.status == 200 ==>
      && out.0.users == s.users && out.0.rows == s.rows
      && out.0.sessions == s.sessions[token := body.value.username]
      && out.1.payload == SessionIssued(token, body.value.username)
  {
    match body
    case None => (s, Reply(400, NoContent))
    case Some(Credentials(uname, password)) =>
      var name := Bound(uname);
      if name !in s.users then (s, Reply(404, NoContent))
      else if Bound(s.users[name]) == password then
        (s.(sessions := s.sessions[token := uname]), Reply(200, SessionIssued(token, uname)))
      else
        BoundWhole(s.users[name]);
        (s, Reply(401, NoContent))
  }

  /** POST /api/logout. */
  function Logout(s: State, auth: string): (out: (State, Reply))
    ensures out.1.status in {200, 401}
    ensures out.1.status == 200 <==> SessionUser(s, auth).Some?
    ensures out.1.status == 401 ==> out.0 == s
    ensures out.0.users == s.users && out.0.rows == s.rows
    ensures out.1.status == 200 ==>
      && ParseBearer(auth).value !in out.0.sessions
      && forall t :: t != ParseBearer(auth).value ==>
           (t in out.0.sessions <==> t in s.sessions) && (t in s.sessions ==> out.0.sessions[t] == s.sessions[t])
  {
    match ParseBearer(auth)
    case None => (s, Reply(401, NoContent))
    case Some(token) =>
      if token !in s.sessions then (s, Reply(401, NoContent))
      else (s.(sessions := s.sessions - {token}), Reply(200, NoContent))
  }

  /** POST /api/createusr. The handler ignores createUser's result: after
      the existence check the insert cannot meet the unique constraint. Both
      look the name up as bound, so a name that agrees with a registered one
      up to its first NUL is taken. */
  function Signup(s: State, body: Option<Credentials>): (out: (State, Reply))
    ensures out.1.status in {200, 400, 409}
    ensures out.1.status == 400 <==> body.None?
    ensures out.1.status == 409 <==> body.Some? && Bound(body.value.username) in s.users
    ensures out.1.status != 200 ==> out.0 == s
    ensures out.1.status == 200 ==>
      out.0 == s.(users := s.users[Bound(body.value.username) := Bound(body.value.password)])
  {
    match body
    case None => (s, Reply(400, NoContent))
    case Some(Credentials(uname, password)) =>
      if Bound(uname) in s.users then (s, Reply(409, NoContent))
      else (s.(users := s.users[Bound(uname) := Bound(password)]), Reply(200, NoContent))
  }

  /** POST /api/getmsgs. It changes nothing, so only the reply is given. */
  function GetMessages(s: State, auth: string): (r: Reply)
    ensures r.status in {200, 401, StatusUnset}
    ensures r.status == 401 <==> SessionUser(s, auth).None?
    ensures r.status == 200 <==> SessionUser(s, auth).Some? && Bound(SessionUser(s, auth).value) in s.users
    ensures r.status == 200 ==> r.payload == Inbox(Listing(s.rows, Bound(SessionUser(s, auth).value)))
    ensures SessionsKnown(s) ==> r.status != StatusUnset
  {
    match SessionUser(s, auth)
    case None => Reply(401, NoContent)
    case Some(u) =>
      if Bound(u) in s.users then Reply(200, Inbox(Listing(s.rows, Bound(u))))
      else Reply(StatusUnset, NoContent)
  }

  /** POST /api/createmsg, storing the message under `id` (a fresh
      generateToken result) at time `now`. */
  function SendMessage(s: State, auth: string, body: Option<Draft>, id: string, now: int): (out: (State, Reply))
    ensures out.1.status in {200, 400, 401, 404, 500}
    ensures out.1.status == 401 <==> SessionUser(s, auth).None?
    ensures out.1.status == 400 <==> SessionUser(s, auth).Some? && body.None?
    ensures out.1.status == 404 <==> SessionUser(s, auth).Some? && body.Some? && Bound(body.value.to) !in s.users
    ensures out.1.status == 500 <==>
      SessionUser(s, auth).Some? && body.Some? && Bound(body.value.to) in s.users && HasId(s.rows, Bound(id))
    ensures out.1.status != 200 ==> out.0 == s
    ensures out.1.status == 200 ==>
      && out.0.users == s.users && out.0.sessions == s.sessions
      && out.0.rows == s.rows + [MessageRow(Bound(id), Bound(SessionUser(s, auth).value), Bound(body.value.to),
                                            Bound(body.value.subject), Bound(body.value.body), now)]
  {
    match SessionUser(s, auth)
    case None => (s, Reply(401, NoContent))
    case Some(username) =>
      match body
      case None => (s, Reply(400, NoContent))
      case Some(Draft(to, subject, text)) =>
        if Bound(to) !in s.users then (s, Reply(404, NoContent))
        else if HasId(s.rows, Bound(id)) then (s, Reply(500, NoContent))
        else
          var msg := Message(username, to, subject, text, id);
          (s.(rows := s.rows + [NewRow(msg, now)]), Reply(200, NoContent))
  }

  /** POST /api/delmsg. */
  function DeleteMessage(s: State, auth: string, body: Option<string>): (out: (State, Reply))
    requires UniqueIds(s.rows)
    ensures out.1.status in {200, 400, 401, 404}
    ensures out.1.status == 401 <==> SessionUser(s, auth).None?
    ensures out.1.status == 400 <==> SessionUser(s, auth).Some? && body.None?
    ensures out.1.status == 200 <==>
      && SessionUser(s, auth).Some? && body.Some?
      && exists r :: r in s.rows && r.id == Bound(body.value) && r.to == Bound(SessionUser(s, auth).value)
    ensures out.1.status != 200 ==> out.0 == s
    ensures out.0.users == s.users && out.0.sessions == s.sessions
    ensures out.1.status == 200 ==>
      && |out.0.rows| == |s.rows| - 1
      && forall r :: r in s.rows ==>
           (r in out.0.rows <==> !(r.id == Bound(body.value) && r.to == Bound(SessionUser(s, auth).value)))
  {
    match SessionUser(s, auth)
    case None => (s, Reply(401, NoContent))
    case Some(username) =>
      match body
      case None => (s, Reply(400, NoContent))
      case Some(msgId) =>
        var rows := DeleteWhere(s.rows, Bound(username), Bound(msgId));
        DeleteWhereCount(s.rows, Bound(username), Bound(msgId));
        if |s.rows| - |rows| > 0 then (s.(rows := rows), Reply(200, NoContent))
        else (s.(rows := rows), Reply(404, NoContent))
  }
}
