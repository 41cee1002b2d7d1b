/** The `Database` class: the two tables and the six statements run against
    them, each given the abstract meaning of its SQL. Every string argument
    is bound with length -1, so the statement sees it only up to its first
    NUL character (`Bound`). Only bound strings are ever stored, so no stored
    value holds a NUL (`NulFree`), and reading one back as a C string gives
    it whole. */
module Storage {
  import opened Tables

  class Database {
    /** The `users` table. */
    var users: UserTable
    /** The `messages` table, in insertion order. */
    var rows: seq<MessageRow>

    /** The primary key on `messages.id` holds and no stored value holds a NUL. */
    ghost predicate Valid()
      reads this
    {
      UniqueIds(rows) && NulFree(users, rows)
    }

    /** Opening the database file: its tables hold what was stored before. */
    constructor (users0: UserTable, rows0: seq<MessageRow>)
      requires UniqueIds(rows0) && NulFree(users0, rows0)
      ensures Valid()
      ensures users == users0 && rows == rows0
    {
      users := users0;
      rows := rows0;
    }

    /** insert into users (username, password): refused by the unique
        constraint when the username is taken. */
    method CreateUser(username: string, password: string) returns (ok: bool)
      requires Valid()
      modifies this
      ensures Valid()
      ensures ok <==> Bound(username) !in old(users)
      ensures users == if ok then old(users)[Bound(username) := Bound(password)] else old(users)
      ensures rows == old(rows)
    {
      var name := Bound(username);
      ok := name !in users;
      if ok {
        users := users[name := Bound(password)];
      }
    }

    /** select password from users where username = ?; the given password,
        whole, compared exactly with the stored one read back as a C string. */
    method VerifyUser(username: string, password: string) returns (verified: bool)
      requires Valid()
      ensures verified <==> Bound(username) in users && password == users[Bound(username)]
    {
      verified := false;
      var name := Bound(username);
      if name in users {
        var stored := Bound(users[name]);
        BoundWhole(users[name]);
        verified := password == stored;
      }
    }

    /** select 1 from users where username = ? */
    method UserExists(username: string) returns (found: bool)
      ensures found <==> Bound(username) in users
    {
      found := Bound(username) in users;
    }

    /** insert into messages: refused by the primary key when the id is taken. */
    method CreateMessage(msg: Message, now: int) returns (ok: bool)
      requires Valid()
      modifies this
      ensures Valid()
      ensures ok <==> !HasId(old(rows), Bound(msg.id))
      ensures rows == if ok then old(rows) + [NewRow(msg, now)] else old(rows)
      ensures users == old(users)
    {
      ok := !HasId(rows, Bound(msg.id));
      if ok {
        rows := rows + [NewRow(msg, now)];
      }
    }

    /** The selected rows pushed one by one into the result vector; each
        column read back as a C string is the stored value whole. */
    method GetMessagesForUser(username: string) returns (msgs: seq<Message>)
      requires Valid()
      ensures msgs == Listing(rows, Bound(username))
      ensures InboxOf(rows, Bound(username), msgs)
    {
      var name := Bound(username);
      var selected := SelectInbox(rows, name);
      ghost var listing := Listing(rows, name);
      ListingAt(rows, name);
      msgs := [];
      var i := 0;
      while i < |selected|
        invariant 0 <= i <= |selected|
        invariant msgs == listing[..i]
      {
        assert listing[..i + 1] == listing[..i] + [listing[i]];
        msgs := msgs + [ToMessage(selected[i])];
        i := i + 1;
      }
      assert listing[..|selected|] == listing;
      ListingIsInbox(rows, name);
    }

    /** delete from messages where id = ? and to_user = ?; true when it
        changed at least one row. */
    method DeleteMessage(username: string, msgId: string) returns (removed: bool)
      requires Valid()
      modifies this
      ensures Valid()
      ensures rows == DeleteWhere(old(rows), Bound(username), Bound(msgId))
      ensures removed <==> exists r :: r in old(rows) && r.id == Bound(msgId) && r.to == Bound(username)
      ensures users == old(users)
    {
      var before := |rows|;
      rows := DeleteWhere(rows, Bound(username), Bound(msgId));
      removed := before - |rows| > 0;
      DeleteWhereCount(old(rows), Bound(username), Bound(msgId));
    }
  }
}
