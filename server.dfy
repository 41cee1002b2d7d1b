/** The running service: the database, the in-memory session map, and one
    method per route. Each method does what its handler does, step by step,
    and is proved to end in the state and reply the matching function of
    `Routes` gives. */
module Server {
  import opened Wrappers
  import opened Tables
  import opened Tokens
  import opened Auth
  import opened Storage
  import Routes

  class Service {
    const db: Database
    /** Bearer token to username; never persisted. */
    var sessions: map<string, string>

    /** The tables and the sessions as one value. */
    ghost function Abstract(): Routes.State
      reads this, db
    {
      Routes.State(db.users, db.rows, sessions)
    }

    ghost predicate Valid()
      reads this, db
    {
      db.Valid() && Routes.Valid(Abstract())
    }

    /** Server start-up: an open database and no sessions. The tables hold what
        the service stored earlier, so every message has a known recipient. */
    constructor (db: Database)
      requires db.Valid()
      requires forall i :: 0 <= i < |db.rows| ==> db.rows[i].to in db.users
      ensures Valid()
      ensures this.db == db && sessions == map[]
    {
      this.db := db;
      sessions := map[];
    }

    /** The user a bearer header authenticates, as every protected route
        resolves it. */
    method Authenticate(auth: string) returns (token: string, user: Option<string>)
      ensures user == Routes.SessionUser(Abstract(), auth)
      ensures user.Some? ==> ParseBearer(auth) == Some(token) && sessions[token] == user.value
    {
      token := "";
      user := None;
      var parsed := ParseBearer(auth);
      if parsed.Some? {
        token := parsed.value;
        if token in sessions {
          user := Some(sessions[token]);
        }
      }
    }

    /** POST /api/login; `tokenBytes` are the random draws of generateToken. */
    method Login(body: Option<Routes.Credentials>, tokenBytes: seq<uint8>) returns (reply: Routes.Reply)
      requires Valid() && |tokenBytes| == TokenBytes
      modifies this
      ensures Valid()
      ensures (Abstract(), reply) == Routes.Login(old(Abstract()), body, HexString(tokenBytes))
    {
      if body.None? {
        return Routes.Reply(400, Routes.NoContent);
      }
      var uname, password := body.value.username, body.value.password;
      var known := db.UserExists(uname);
      if !known {
        return Routes.Reply(404, Routes.NoContent);
      }
      var verified := db.VerifyUser(uname, password);
      if verified {
        var token := GenerateToken(tokenBytes);
        sessions := sessions[token := uname];
        reply := Routes.Reply(200, Routes.SessionIssued(token, uname));
      } else {
        reply := Routes.Reply(401, Routes.NoContent);
      }
    }

    /** POST /api/logout. */
    method Logout(auth: string) returns (reply: Routes.Reply)
      requires Valid()
      modifies this
      ensures Valid()
      ensures (Abstract(), reply) == Routes.Logout(old(Abstract()), auth)
    {
      var token, user := Authenticate(auth);
      if user.None? {
        return Routes.Reply(401, Routes.NoContent);
      }
      sessions := sessions - {token};
      reply := Routes.Reply(200, Routes.NoContent);
    }

    /** POST /api/createusr. */
    method CreateUser(body: Option<Routes.Credentials>) returns (reply: Routes.Reply)
      requires Valid()
      modifies db
      ensures Valid()
      ensures (Abstract(), reply) == Routes.Signup(old(Abstract()), body)
    {
      if body.None? {
        return Routes.Reply(400, Routes.NoContent);
      }
      var uname, passwd := body.value.username, body.value.password;
      var taken := db.UserExists(uname);
      if taken {
        return Routes.Reply(409, Routes.NoContent);
      }
      var _ := db.CreateUser(uname, passwd);
      reply := Routes.Reply(200, Routes.NoContent);
    }

    /** POST /api/getmsgs. */
    method GetMessages(auth: string) returns (reply: Routes.Reply)
      requires Valid()
      ensures reply == Routes.GetMessages(Abstract(), auth)
      ensures reply.status == 200 || reply.status == 401
    {
      var _, user := Authenticate(auth);
      if user.None? {
        return Routes.Reply(401, Routes.NoContent);
      }
      var known := db.UserExists(user.value);
      if known {
        var msgs := db.GetMessagesForUser(user.value);
        reply := Routes.Reply(200, Routes.Inbox(msgs));
      } else {
        reply := Routes.Reply(Routes.StatusUnset, Routes.NoContent);
      }
    }

    /** POST /api/createmsg; `idBytes` are the random draws of generateToken
        and `now` the clock reading `current_timestamp` takes. */
    method CreateMessage(auth: string, body: Option<Routes.Draft>, idBytes: seq<uint8>, now: int)
      returns (reply: Routes.Reply)
      requires Valid() && |idBytes| == TokenBytes
      modifies db
      ensures Valid()
      ensures (Abstract(), reply) == Routes.SendMessage(old(Abstract()), auth, body, HexString(idBytes), now)
    {
      var _, user := Authenticate(auth);
      if user.None? {
        return Routes.Reply(401, Routes.NoContent);
      }
      var username := user.value;
      if body.None? {
        return Routes.Reply(400, Routes.NoContent);
      }
      var to, subject, text := body.value.to, body.value.subject, body.value.body;
      var known := db.UserExists(to);
      if !known {
        return Routes.Reply(404, Routes.NoContent);
      }
      var id := GenerateToken(idBytes);
      var msg := Message(username, to, subject, text, id);
      var stored := db.CreateMessage(msg, now);
      if stored {
        reply := Routes.Reply(200, Routes.NoContent);
      } else {
        reply := Routes.Reply(500, Routes.NoContent);
      }
    }

    /** POST /api/delmsg. */
    method DeleteMessage(auth: string, body: Option<string>) returns (reply: Routes.Reply)
      requires Valid()
      modifies db
      ensures Valid()
      ensures (Abstract(), reply) == Routes.DeleteMessage(old(Abstract()), auth, body)
    {
      var _, user := Authenticate(auth);
      if user.None? {
        return Routes.Reply(401, Routes.NoContent);
      }
      if body.None? {
        return Routes.Reply(400, Routes.NoContent);
      }
      var id := body.value;
      var username := user.value;
      var removed := db.DeleteMessage(username, id);
      if removed {
        reply := Routes.Reply(200, Routes.NoContent);
      } else {
        reply := Routes.Reply(404, Routes.NoContent);
      }
    }
  }
}
