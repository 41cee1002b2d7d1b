/** Runs of the service: any sequence of requests, handled one at a time, and
    what stays true along every such run. */
module Traces {
  import opened Wrappers
  import opened Tables
  import opened Auth
  import opened Routes

  /** One request, with the generateToken result and the clock reading its
      handler would draw. */
  datatype Request =
    | LoginRequest(credentials: Option<Credentials>, token: string)
    | LogoutRequest(auth: string)
    | SignupRequest(credentials: Option<Credentials>)
    | InboxRequest(auth: string)
    | SendRequest(auth: string, draft: Option<Draft>, id: string, now: int)
    | DeleteRequest(auth: string, msgId: Option<string>)

  /** Handles one request. Every handler keeps the service valid. */
  function Step(s: State, q: Request): (out: (State, Reply))
    requires Valid(s)
    ensures Valid(out.0)
    ensures out.0.users.Keys >= s.users.Keys
    ensures forall u :: u in s.users ==> out.0.users[u] == s.users[u]
  {
    match q
    case LoginRequest(body, token) => Login(s, body, token)
    case LogoutRequest(auth) => Logout(s, auth)
    case SignupRequest(body) => Signup(s, body)
    case InboxRequest(auth) => (s, GetMessages(s, auth))
    case SendRequest(auth, body, id, now) => SendMessage(s, auth, body, id, now)
    case DeleteRequest(auth, msgId) => DeleteMessage(s, auth, msgId)
  }

  /** The state after handling `qs` in order, starting from `s`. */
  function Run(s: State, qs: seq<Request>): (t: State)
    requires Valid(s)
    ensures Valid(t)
  {
    if qs == [] then s else Step(Run(s, qs[..|qs| - 1]), qs[|qs| - 1]).0
  }

  /** A registered account is never removed and its password never changes,
      so a username is registered at most once over any run. */
  lemma {:induction false} RunKeepsAccounts(s: State, qs: seq<Request>)
    requires Valid(s)
    ensures forall u :: u in s.users ==> u in Run(s, qs).users && Run(s, qs).users[u] == s.users[u]
  {
    if qs != [] {
      RunKeepsAccounts(s, qs[..|qs| - 1]);
    }
  }

  /** No handler stores a NUL: each one stores only bound strings. */
  lemma StepNulFree(s: State, q: Request)
    requires Valid(s) && NulFree(s.users, s.rows)
    ensures NulFree(Step(s, q).0.users, Step(s, q).0.rows)
  {
  }

  /** Along any run the tables stay free of NUL characters. */
  lemma {:induction false} RunNulFree(s: State, qs: seq<Request>)
    requires Valid(s) && NulFree(s.users, s.rows)
    ensures NulFree(Run(s, qs).users, Run(s, qs).rows)
  {
    if qs != [] {
      RunNulFree(s, qs[..|qs| - 1]);
      StepNulFree(Run(s, qs[..|qs| - 1]), qs[|qs| - 1]);
    }
  }

  /** `q`, handled in `s`, is the owner's own delete of row `r`: the id it
      names and its session's user are, as bound, the row's id and recipient. */
  predicate DeletedByOwner(s: State, q: Request, r: MessageRow) {
    && q.DeleteRequest? && q.msgId.Some? && Bound(q.msgId.value) == r.id
    && SessionUser(s, q.auth).Some? && Bound(SessionUser(s, q.auth).value) == r.to
  }

  /** A single request removes a stored row only when it is its recipient's
      delete request naming that row's id. */
  lemma StepRemovesOnlyOwned(s: State, q: Request, r: MessageRow)
    requires Valid(s) && r in s.rows && r !in Step(s, q).0.rows
    ensures DeletedByOwner(s, q, r)
  {
  }

  /** A prefix of a prefix is a prefix. */
  lemma PrefixOfPrefix(qs: seq<Request>, n: nat, k: nat)
    requires k < n <= |qs|
    ensures qs[..n][..k] == qs[..k] && qs[..n][k] == qs[k]
  {
  }

  /** Along any run, a row disappears only through a delete request that its
      recipient's session issued. */
  lemma {:induction false} RunRemovesOnlyOwned(s: State, qs: seq<Request>, r: MessageRow)
    requires Valid(s) && r in s.rows && r !in Run(s, qs).rows
    ensures exists k :: 0 <= k < |qs| && DeletedByOwner(Run(s, qs[..k]), qs[k], r)
  {
    assert qs != [];
    var n := |qs| - 1;
    var before := Run(s, qs[..n]);
    assert Run(s, qs) == Step(before, qs[n]).0;
    if r in before.rows {
      StepRemovesOnlyOwned(before, qs[n], r);
      assert DeletedByOwner(Run(s, qs[..n]), qs[n], r);
    } else {
      RunRemovesOnlyOwned(s, qs[..n], r);
      var k :| 0 <= k < n && DeletedByOwner(Run(s, qs[..n][..k]), qs[..n][k], r);
      PrefixOfPrefix(qs, n, k);
      assert DeletedByOwner(Run(s, qs[..k]), qs[k], r);
    }
  }

  /** After a successful logout the token no longer authenticates: a
      second logout with the same header gives 401. */
  lemma LogoutTwice(s: State, auth: string)
    requires Logout(s, auth).1.status == 200
    ensures SessionUser(Logout(s, auth).0, auth).None?
    ensures Logout(Logout(s, auth).0, auth).1.status == 401
  {
  }

  /** A token bound by login authenticates, right after the login, as the
      name the login gave. */
  lemma LoginThenLookup(s: State, c: Credentials, token: string)
    requires Login(s, Some(c), token).1.status == 200
    ensures SessionUser(Login(s, Some(c), token).0, BearerPrefix + token) == Some(c.username)
  {
    BearerRoundTrip(token);
  }

  /** A second signup under a taken name is refused, whatever its password. */
  lemma SignupTwice(s: State, u: string, p: string, p2: string)
    requires Signup(s, Some(Credentials(u, p))).1.status == 200
    ensures Signup(Signup(s, Some(Credentials(u, p))).0, Some(Credentials(u, p2))).1.status == 409
    ensures Signup(Signup(s, Some(Credentials(u, p))).0, Some(Credentials(u, p2))).0.users[Bound(u)] == Bound(p)
  {
  }

  /** The database sees a name only up to its first NUL: signing up as
      "bob\0x" while "bob" is registered gives 409. */
  lemma NulNameTaken()
    ensures Signup(State(map["bob" := "pw"], [], map[]), Some(Credentials("bob\0x", "q"))).1.status == 409
  {
    assert Bound("bob\0x") == "bob";
  }

  /** A password with a NUL is stored cut, and the login that repeats it in
      full is refused with 401. */
  lemma {:induction false} NulPasswordRefused(token: string)
    ensures Signup(Empty, Some(Credentials("ann", "a\0b"))).0.users == map["ann" := "a"]
    ensures Login(Signup(Empty, Some(Credentials("ann", "a\0b"))).0, Some(Credentials("ann", "a\0b")), token).1.status
         == 401
  {
    assert Bound("ann") == "ann";
    assert Bound("a\0b") == "a";
    assert Bound("a") == "a";
  }

  /** A message to "fish\0x" is accepted and stored as addressed to fish. */
  lemma {:induction false} NulRecipientDelivered(token: string, id: string, now: int)
    ensures SendMessage(State(map["fish" := "123", "jeef" := "456"], [], map[token := "jeef"]),
                        BearerPrefix + token, Some(Draft("fish\0x", "hi", "yo")), id, now).0.rows
         == [MessageRow(Bound(id), "jeef", "fish", "hi", "yo", now)]
  {
    var s := State(map["fish" := "123", "jeef" := "456"], [], map[token := "jeef"]);
    WordsBound();
    BearerRoundTrip(token);
    assert SessionUser(s, BearerPrefix + token) == Some("jeef");
    assert Bound("fish\0x") == "fish";
    assert !HasId([], Bound(id));
  }

  /** Handling one more request extends a run by one step. */
  lemma RunPrefix(s: State, qs: seq<Request>, k: nat)
    requires Valid(s) && k < |qs|
    ensures Run(s, qs[..k + 1]) == Step(Run(s, qs[..k]), qs[k]).0
  {
    assert qs[..k + 1][..k] == qs[..k];
  }

  /** The empty service a fresh database file starts. */
  const Empty := State(map[], [], map[])

  /** The example names and texts hold no NUL, so they are bound whole. */
  lemma WordsBound()
    ensures Bound("fish") == "fish" && Bound("jeef") == "jeef"
    ensures Bound("123") == "123" && Bound("456") == "456"
    ensures Bound("hi") == "hi" && Bound("yo") == "yo"
  {
    BoundWhole("fish");
    BoundWhole("jeef");
    BoundWhole("123");
    BoundWhole("456");
    BoundWhole("hi");
    BoundWhole("yo");
  }

  /** The cast of the walkthrough: a reader and a writer with their
      passwords and the tokens their logins draw, and the message the writer
      sends, with the id and the clock reading its handler draws. */
  datatype Scene = Scene(
    reader: string, readerPassword: string, writer: string, writerPassword: string,
    readerToken: string, writerToken: string, subject: string, text: string, id: string, now: int)

  /** Two different users, two different tokens, and no NUL in what the
      requests send. */
  predicate Plain(c: Scene) {
    && c.reader != c.writer && c.readerToken != c.writerToken
    && '\0' !in c.reader && '\0' !in c.readerPassword
    && '\0' !in c.writer && '\0' !in c.writerPassword
    && '\0' !in c.subject && '\0' !in c.text
  }

  /** What a plain scene sends is bound whole. */
  lemma PlainBound(c: Scene)
    requires Plain(c)
    ensures Bound(c.reader) == c.reader && Bound(c.readerPassword) == c.readerPassword
    ensures Bound(c.writer) == c.writer && Bound(c.writerPassword) == c.writerPassword
    ensures Bound(c.subject) == c.subject && Bound(c.text) == c.text
  {
    BoundWhole(c.reader);
    BoundWhole(c.readerPassword);
    BoundWhole(c.writer);
    BoundWhole(c.writerPassword);
    BoundWhole(c.subject);
    BoundWhole(c.text);
  }

  /** The walkthrough's requests: both users sign up and log in, then the
      writer writes to the reader. */
  function Walk(c: Scene): seq<Request> {
    [SignupRequest(Some(Credentials(c.reader, c.readerPassword))),
     SignupRequest(Some(Credentials(c.writer, c.writerPassword))),
     LoginRequest(Some(Credentials(c.reader, c.readerPassword)), c.readerToken),
     LoginRequest(Some(Credentials(c.writer, c.writerPassword)), c.writerToken),
     SendRequest(BearerPrefix + c.writerToken, Some(Draft(c.reader, c.subject, c.text)), c.id, c.now)]
  }

  /** The row the writer's send stores. */
  function Letter(c: Scene): MessageRow {
    MessageRow(Bound(c.id), c.writer, c.reader, c.subject, c.text, c.now)
  }

  /** The state after the first `k` requests of the walkthrough. */
  function WalkState(c: Scene, k: nat): State {
    var users := map[c.reader := c.readerPassword, c.writer := c.writerPassword];
    var sessions := map[c.readerToken := c.reader, c.writerToken := c.writer];
    if k == 0 then Empty
    else if k == 1 then State(map[c.reader := c.readerPassword], [], map[])
    else if k == 2 then State(users, [], map[])
    else if k == 3 then State(users, [], map[c.readerToken := c.reader])
    else if k == 4 then State(users, [], sessions)
    else State(users, [Letter(c)], sessions)
  }

  /** The two sign-ups. */
  lemma {:induction false} WalkSignups(c: Scene)
    requires Plain(c)
    ensures Signup(Empty, Some(Credentials(c.reader, c.readerPassword))).0 == WalkState(c, 1)
    ensures Signup(WalkState(c, 1), Some(Credentials(c.writer, c.writerPassword))).0 == WalkState(c, 2)
  {
    PlainBound(c);
  }

  /** The two logins. */
  lemma {:induction false} WalkLogins(c: Scene)
    requires Plain(c)
    ensures Login(WalkState(c, 2), Some(Credentials(c.reader, c.readerPassword)), c.readerToken).0 == WalkState(c, 3)
    ensures Login(WalkState(c, 3), Some(Credentials(c.writer, c.writerPassword)), c.writerToken).0 == WalkState(c, 4)
  {
    PlainBound(c);
  }

  /** The writer's send to the reader. */
  lemma {:induction false} WalkSend(c: Scene)
    requires Plain(c)
    ensures SendMessage(WalkState(c, 4), BearerPrefix + c.writerToken, Some(Draft(c.reader, c.subject, c.text)), c.id, c.now).0
         == WalkState(c, 5)
  {
    var s := WalkState(c, 4);
    PlainBound(c);
    BearerRoundTrip(c.writerToken);
    assert SessionUser(s, BearerPrefix + c.writerToken) == Some(c.writer);
    assert !HasId([], Bound(c.id));
  }

  /** Request `k` of the walkthrough takes state `k` to state `k + 1`. */
  lemma {:induction false} WalkStep(c: Scene, k: nat)
    requires Plain(c) && k < 5 && Valid(WalkState(c, k))
    ensures Step(WalkState(c, k), Walk(c)[k]).0 == WalkState(c, k + 1)
  {
    if k < 2 {
      WalkSignups(c);
    } else if k < 4 {
      WalkLogins(c);
    } else {
      WalkSend(c);
    }
  }

  /** The first `k` requests of the walkthrough end in state `k`. */
  lemma {:induction false} WalkRun(c: Scene, k: nat)
    requires Plain(c) && k <= 5
    ensures Run(Empty, Walk(c)[..k]) == WalkState(c, k)
  {
    if k > 0 {
      WalkRun(c, k - 1);
      RunPrefix(Empty, Walk(c), k - 1);
      WalkStep(c, k - 1);
    }
  }

  /** After the send the reader's inbox holds exactly the writer's message. */
  lemma {:induction false} WalkInbox(c: Scene)
    requires Plain(c)
    ensures GetMessages(WalkState(c, 5), BearerPrefix + c.readerToken)
         == Reply(200, Inbox([Message(c.writer, c.reader, c.subject, c.text, Bound(c.id))]))
  {
    var row := Letter(c);
    var s5 := WalkState(c, 5);
    PlainBound(c);
    BearerRoundTrip(c.readerToken);
    assert SessionUser(s5, BearerPrefix + c.readerToken) == Some(c.reader);
    assert SelectInbox([row], c.reader) == [row];
    assert Listing([row], c.reader) == [ToMessage(row)];
  }

  /** The reader's delete of that message by its id removes it. */
  lemma {:induction false} WalkDelete(c: Scene)
    requires Plain(c)
    ensures DeleteMessage(WalkState(c, 5), BearerPrefix + c.readerToken, Some(c.id)) == (WalkState(c, 4), Reply(200, NoContent))
  {
    var row := Letter(c);
    var s5 := WalkState(c, 5);
    PlainBound(c);
    BearerRoundTrip(c.readerToken);
    assert SessionUser(s5, BearerPrefix + c.readerToken) == Some(c.reader);
    assert DeleteWhere([row], c.reader, Bound(c.id)) == [];
  }

  /** The reader's delete as a step of a run. */
  lemma {:induction false} WalkDeleteStep(c: Scene)
    requires Plain(c) && Valid(WalkState(c, 5))
    ensures Step(WalkState(c, 5), DeleteRequest(BearerPrefix + c.readerToken, Some(c.id))).0 == WalkState(c, 4)
  {
    WalkDelete(c);
  }

  /** The walkthrough followed by the reader's delete ends with both users
      logged in and no message stored. */
  lemma {:induction false} WalkDeleted(c: Scene)
    requires Plain(c)
    ensures Run(Empty, Walk(c) + [DeleteRequest(BearerPrefix + c.readerToken, Some(c.id))]) == WalkState(c, 4)
  {
    var qs := Walk(c);
    var del := DeleteRequest(BearerPrefix + c.readerToken, Some(c.id));
    var all := qs + [del];
    assert all[..5] == qs[..5] == qs && all[..6] == all && all[5] == del;
    WalkRun(c, 5);
    assert Run(Empty, all[..5]) == WalkState(c, 5);
    RunPrefix(Empty, all, 5);
    WalkDeleteStep(c);
  }

  /** After the delete the reader's inbox is empty. */
  lemma {:induction false} WalkEmptied(c: Scene)
    requires Plain(c)
    ensures GetMessages(WalkState(c, 4), BearerPrefix + c.readerToken) == Reply(200, Inbox([]))
  {
    var s4 := WalkState(c, 4);
    PlainBound(c);
    BearerRoundTrip(c.readerToken);
    assert SessionUser(s4, BearerPrefix + c.readerToken) == Some(c.reader);
    assert Listing([], c.reader) == [];
  }

  /** The walkthrough end to end, for any two users: the reader sees exactly
      the writer's message, deletes it with its id, and then sees none. The
      stored id is the id as bound; a generateToken id holds no NUL and is
      stored whole. */
  lemma {:induction false} Walkthrough(c: Scene)
    requires Plain(c)
    ensures GetMessages(Run(Empty, Walk(c)), BearerPrefix + c.readerToken)
         == Reply(200, Inbox([Message(c.writer, c.reader, c.subject, c.text, Bound(c.id))]))
    ensures DeleteMessage(Run(Empty, Walk(c)), BearerPrefix + c.readerToken, Some(c.id)).1.status == 200
    ensures GetMessages(Run(Empty, Walk(c) + [DeleteRequest(BearerPrefix + c.readerToken, Some(c.id))]),
                        BearerPrefix + c.readerToken)
         == Reply(200, Inbox([]))
  {
    WalkRun(c, 5);
    assert Walk(c)[..5] == Walk(c);
    WalkInbox(c);
    WalkDelete(c);
    WalkDeleted(c);
    WalkEmptied(c);
  }

  /** The walkthrough with fish reading and jeef writing. */
  lemma {:induction false} FishAndJeef(tf: string, tj: string, id: string, now: int)
    requires tf != tj
    ensures GetMessages(Run(Empty, Walk(Scene("fish", "123", "jeef", "456", tf, tj, "hi", "yo", id, now))),
                        BearerPrefix + tf)
         == Reply(200, Inbox([Message("jeef", "fish", "hi", "yo", Bound(id))]))
  {
    Walkthrough(Scene("fish", "123", "jeef", "456", tf, tj, "hi", "yo", id, now));
  }
}
