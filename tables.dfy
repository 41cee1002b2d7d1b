/** The abstract contents of the two sqlite tables of the message service and
    the meaning of the SQL statements the `Database` class runs against them.
    The `users` table is a map from username to password: the column
    `username` is declared `unique`, so no username has two rows. The
    `messages` table is a sequence of rows in insertion order; its `id` column
    is the primary key, which `UniqueIds` states. */
module Tables {

  /** A row of the `messages` table. `createdAt` stands for the
      `current_timestamp` default of the `created_at` column. */
  datatype MessageRow = MessageRow(
    id: string, from: string, to: string, subject: string, body: string, createdAt: int)

  /** The `Message` record handed back to clients: a row without its timestamp. */
  datatype Message = Message(from: string, to: string, subject: string, body: string, id: string)

  /** The `users` table: username to stored password. */
  type UserTable = map<string, string>

  /** A string as sqlite receives it from `sqlite3_bind_text` with length
      -1: cut at its first NUL character. */
  function Bound(s: string): (r: string)
    ensures |r| <= |s| && r == s[..|r|]
    ensures '\0' !in r
    ensures |r| < |s| ==> s[|r|] == '\0'
  {
    if s == [] || s[0] == '\0' then [] else [s[0]] + Bound(s[1..])
  }

  /** A string without NUL characters is bound whole, so binding twice is
      binding once. */
  lemma BoundWhole(s: string)
    ensures '\0' !in s ==> Bound(s) == s
    ensures Bound(Bound(s)) == Bound(s)
  {
  }

  /** A row read back into a `Message`. */
  function ToMessage(r: MessageRow): Message {
    Message(r.from, r.to, r.subject, r.body, r.id)
  }

  /** No field of the row holds a NUL. */
  predicate RowNulFree(r: MessageRow) {
    '\0' !in r.id && '\0' !in r.from && '\0' !in r.to && '\0' !in r.subject && '\0' !in r.body
  }

  /** No stored string holds a NUL, as in tables written only through bound
      strings. Read back as a C string, a stored value is then exactly itself. */
  predicate NulFree(users: UserTable, rows: seq<MessageRow>) {
    && (forall u :: u in users ==> '\0' !in u && '\0' !in users[u])
    && (forall r :: r in rows ==> RowNulFree(r))
  }

  /** Some row of the table already carries this id. */
  predicate HasId(rows: seq<MessageRow>, id: string) {
    exists i :: 0 <= i < |rows| && rows[i].id == id
  }

  /** The primary-key constraint on `messages.id`. */
  predicate UniqueIds(rows: seq<MessageRow>) {
    forall i, j :: 0 <= i < j < |rows| ==> rows[i].id != rows[j].id
  }

  /** The row as `insert into messages (id, from_user, to_user, subject, body)`
      stores it at time `now`: every field as bound. */
  function NewRow(msg: Message, now: int): (r: MessageRow)
    ensures r.id == Bound(msg.id) && r.from == Bound(msg.from) && r.to == Bound(msg.to)
    ensures r.subject == Bound(msg.subject) && r.body == Bound(msg.body) && r.createdAt == now
    ensures RowNulFree(r)
  {
    MessageRow(Bound(msg.id), Bound(msg.from), Bound(msg.to), Bound(msg.subject), Bound(msg.body), now)
  }

  // ---------------------------------------------------------------------
  // select ... from messages where to_user = ? order by created_at desc
  // ---------------------------------------------------------------------

  /** The rows addressed to `u`, in table order (the `where` clause alone). */
  function Addressed(rows: seq<MessageRow>, u: string): (r: seq<MessageRow>)
    ensures forall x :: x in r <==> x in rows && x.to == u
    ensures |r| <= |rows|
  {
    if rows == [] then []
    else
      assert rows == [rows[0]] + rows[1..];
      (if rows[0].to == u then [rows[0]] else []) + Addressed(rows[1..], u)
  }

  /** The selection keeps every addressed row as often as the table holds it
      and no other row. */
  lemma {:induction false} AddressedMultiset(rows: seq<MessageRow>, u: string)
    ensures forall x :: multiset(Addressed(rows, u))[x] == if x.to == u then multiset(rows)[x] else 0
  {
    if rows != [] {
      AddressedMultiset(rows[1..], u);
      assert rows == [rows[0]] + rows[1..];
    }
  }

  /** Non-increasing `created_at`: the order `order by created_at desc` promises. */
  predicate NewestFirst(s: seq<MessageRow>) {
    forall i, j :: 0 <= i < j < |s| ==> s[i].createdAt >= s[j].createdAt
  }

  /** Putting a row in front keeps the order when it is at least as recent as
      the first row. */
  lemma ConsNewestFirst(a: MessageRow, s: seq<MessageRow>)
    requires NewestFirst(s)
    requires s != [] ==> a.createdAt >= s[0].createdAt
    ensures NewestFirst([a] + s)
  {
  }

  /** Places `x` after every row at least as recent as it. */
  function InsertByTime(x: MessageRow, s: seq<MessageRow>): (r: seq<MessageRow>)
    requires NewestFirst(s)
    ensures NewestFirst(r)
    ensures multiset(r) == multiset(s) + multiset{x}
    ensures r != [] && (r[0] == x || (s != [] && r[0] == s[0]))
  {
    if s == [] || s[0].createdAt < x.createdAt then
      ConsNewestFirst(x, s);
      [x] + s
    else
      var rest := InsertByTime(x, s[1..]);
      assert s == [s[0]] + s[1..];
      ConsNewestFirst(s[0], rest);
      [s[0]] + rest
  }

  /** The rows the query yields: the rows addressed to `u`, newest first. Rows
      with equal timestamps come out later-inserted first here; the query
      itself leaves their order open, and nothing below relies on it. */
  function SelectInbox(rows: seq<MessageRow>, u: string): (r: seq<MessageRow>)
    ensures NewestFirst(r)
    ensures multiset(r) == multiset(Addressed(rows, u))
  {
    if rows == [] then []
    else
      var rest := SelectInbox(rows[1..], u);
      if rows[0].to == u then InsertByTime(rows[0], rest) else rest
  }

  /** What `getMessagesForUser(u)` returns: the selected rows as `Message`s,
      one for each row addressed to `u`. */
  function Listing(rows: seq<MessageRow>, u: string): (r: seq<Message>)
    ensures |r| == |Addressed(rows, u)|
    ensures forall i :: 0 <= i < |r| ==> r[i].to == u
  {
    var sel := SelectInbox(rows, u);
    SelectInboxMembers(rows, u);
    assert forall i :: 0 <= i < |sel| ==> sel[i] in sel;
    seq(|sel|, i requires 0 <= i < |sel| => ToMessage(sel[i]))
  }

  /** The selected rows are exactly the rows addressed to `u`, as many of them. */
  lemma SelectInboxMembers(rows: seq<MessageRow>, u: string)
    ensures |SelectInbox(rows, u)| == |Addressed(rows, u)|
    ensures forall x :: x in SelectInbox(rows, u) <==> x in rows && x.to == u
  {
    var sel := SelectInbox(rows, u);
    assert |sel| == |multiset(sel)|;
    assert forall x :: x in sel <==> x in multiset(sel);
    assert forall x :: x in Addressed(rows, u) <==> x in multiset(Addressed(rows, u));
  }

  /** Element `i` of the listing is selected row `i` as a `Message`. */
  lemma ListingAt(rows: seq<MessageRow>, u: string)
    ensures |Listing(rows, u)| == |SelectInbox(rows, u)|
    ensures forall i :: 0 <= i < |Listing(rows, u)| ==> Listing(rows, u)[i] == ToMessage(SelectInbox(rows, u)[i])
  {
    SelectInboxMembers(rows, u);
  }

  /** `msgs` is an inbox for `u` over `rows`: every message in it is
      addressed to `u`, every row addressed to `u` is in it, and it has one
      message per such row. */
  predicate InboxOf(rows: seq<MessageRow>, u: string, msgs: seq<Message>) {
    && (forall i :: 0 <= i < |msgs| ==> msgs[i].to == u)
    && (forall r :: r in rows && r.to == u ==> ToMessage(r) in msgs)
    && |msgs| == |Addressed(rows, u)|
  }

  /** The listing is an inbox. */
  lemma ListingIsInbox(rows: seq<MessageRow>, u: string)
    ensures InboxOf(rows, u, Listing(rows, u))
  {
    ListingExact(rows, u);
  }

  /** Listing(rows, u) holds the messages addressed to `u`, none missing, no
      extra, newest first, as many as there are such rows. */
  lemma ListingExact(rows: seq<MessageRow>, u: string)
    ensures |Listing(rows, u)| == |SelectInbox(rows, u)| == |Addressed(rows, u)|
    ensures forall i :: 0 <= i < |Listing(rows, u)| ==>
      Listing(rows, u)[i] == ToMessage(SelectInbox(rows, u)[i]) && Listing(rows, u)[i].to == u
    ensures forall r :: r in rows && r.to == u ==> ToMessage(r) in Listing(rows, u)
    ensures forall m :: m in Listing(rows, u) ==> exists r :: r in rows && r.to == u && ToMessage(r) == m
    ensures NewestFirst(SelectInbox(rows, u))
  {
    var sel := SelectInbox(rows, u);
    var l := Listing(rows, u);
    SelectInboxMembers(rows, u);
    assert |l| == |sel|;
    forall i | 0 <= i < |l| ensures l[i] == ToMessage(sel[i]) && l[i].to == u {
      assert sel[i] in sel;
    }
    forall r | r in rows && r.to == u ensures ToMessage(r) in l {
      var i :| 0 <= i < |sel| && sel[i] == r;
      assert l[i] == ToMessage(r);
    }
    forall m | m in l ensures exists r :: r in rows && r.to == u && ToMessage(r) == m {
      var i :| 0 <= i < |l| && l[i] == m;
      assert sel[i] in sel;
    }
  }

  /** The listing is empty exactly when no row is addressed to `u`. */
  lemma ListingEmpty(rows: seq<MessageRow>, u: string)
    ensures Listing(rows, u) == [] <==> forall r :: r in rows ==> r.to != u
  {
    ListingExact(rows, u);
    if !(forall r :: r in rows ==> r.to != u) {
      var r :| r in rows && r.to == u;
      assert ToMessage(r) in Listing(rows, u);
    }
  }

  // ---------------------------------------------------------------------
  // delete from messages where id = ? and to_user = ?
  // ---------------------------------------------------------------------

  /** The table after the delete statement: every row matching both `id` and
      `to_user` is gone, the rest keep their order. */
  function DeleteWhere(rows: seq<MessageRow>, u: string, id: string): (r: seq<MessageRow>)
    ensures forall x :: x in r <==> x in rows && !(x.id == id && x.to == u)
    ensures |r| <= |rows|
    ensures UniqueIds(rows) ==> UniqueIds(r)
  {
    if rows == [] then []
    else
      var rest := DeleteWhere(rows[1..], u, id);
      assert UniqueIds(rows) ==> UniqueIds(rows[1..]) && forall x :: x in rest ==> x.id != rows[0].id;
      (if rows[0].id == id && rows[0].to == u then [] else [rows[0]]) + rest
  }

  /** The number of rows the delete changes is positive exactly when some row
      matches, and under the primary key it is then exactly one. */
  lemma {:induction false} DeleteWhereCount(rows: seq<MessageRow>, u: string, id: string)
    requires UniqueIds(rows)
    ensures |DeleteWhere(rows, u, id)| < |rows| <==> exists x :: x in rows && x.id == id && x.to == u
    ensures |DeleteWhere(rows, u, id)| == |rows| ==> DeleteWhere(rows, u, id) == rows
    ensures |DeleteWhere(rows, u, id)| < |rows| ==> |DeleteWhere(rows, u, id)| == |rows| - 1
  {
    if rows != [] {
      DeleteWhereCount(rows[1..], u, id);
      assert rows == [rows[0]] + rows[1..];
      if rows[0].id == id && rows[0].to == u {
        assert forall x :: x in rows[1..] ==> x.id != id;
      }
    }
  }
}
