/** The admin page's `AdminPanel`: the user table it renders from
    `/auth/api/users`, the lock that replaces the delete button on the
    admin's own row, the user and admin totals, and the guarded delete
    flow. */
module Admin {
  import opened Basics
  import opened Auth

  /** What the actions cell of a row holds. */
  datatype Action = Lock | DeleteButton(userId: int, username: string)

  /** One `table-row`, tagged with its `data-user-id`. */
  datatype Row = Row(userId: int, username: string, isAdmin: bool, action: Action)

  /** The `users-container`: as the page was served, the "No users found"
      state, or the table. */
  datatype Container = Blank | NoUsers | Table(rows: seq<Row>)

  /** The decoded body of `/auth/api/users`. */
  datatype UsersPayload = UsersPayload(users: seq<UserView>, currentUserId: int)

  /** The decoded body of a `DELETE /auth/api/users/<id>`. */
  datatype DeleteAnswer = Deleted(message: string) | Refused(error: string)

  /** The two totals of `updateStats`. */
  datatype Stats = Stats(totalUsers: nat, totalAdmins: nat)

  /** `renderUserRow`: a lock for the logged-in admin's own row (the id
      compared with `===`, so no row matches before the first load), a
      delete button for every other one. */
  function RenderUserRow(u: UserView, currentUserId: Option<int>): Row
  {
    Row(u.id, u.username, u.isAdmin,
        if currentUserId == Some(u.id) then Lock else DeleteButton(u.id, u.username))
  }

  /** `users.map(renderUserRow)`. */
  function RowsOf(users: seq<UserView>, currentUserId: Option<int>): (r: seq<Row>)
    ensures |r| == |users|
    ensures forall i :: 0 <= i < |users| ==> r[i] == RenderUserRow(users[i], currentUserId)
  {
    if users == [] then [] else [RenderUserRow(users[0], currentUserId)] + RowsOf(users[1..], currentUserId)
  }

  /** `renderUsers`. */
  function RenderUsers(users: seq<UserView>, currentUserId: Option<int>): Container
  {
    if |users| == 0 then NoUsers else Table(RowsOf(users, currentUserId))
  }

  /** `updateStats`. */
  function StatsOf(users: seq<UserView>): Stats
  {
    Stats(|users|, |Filter(users, (u: UserView) => u.isAdmin)|)
  }

  /** The rows after `removeUserRow`: the first row tagged with the id is
      gone, if there is one. */
  function RemoveFirstRow(rows: seq<Row>, userId: int): (r: seq<Row>)
    ensures |r| == |rows| || |r| == |rows| - 1
    ensures (forall w :: w in rows ==> w.userId != userId) ==> r == rows
  {
    if rows == [] then []
    else if rows[0].userId == userId then rows[1..]
    else [rows[0]] + RemoveFirstRow(rows[1..], userId)
  }

  /** When the first row tagged with the id is at `i`, exactly that row
      goes and the others keep their order. */
  lemma {:induction false} RemoveFirstRowExactly(rows: seq<Row>, userId: int, i: int)
    requires 0 <= i < |rows| && rows[i].userId == userId
    requires forall k :: 0 <= k < i ==> rows[k].userId != userId
    ensures RemoveFirstRow(rows, userId) == rows[..i] + rows[i+1..]
  {
    if i == 0 {
      assert rows[..0] + rows[1..] == rows[1..];
    } else {
      RemoveFirstRowExactly(rows[1..], userId, i - 1);
      assert rows[..i] == [rows[0]] + rows[1..][..i-1];
      assert rows[i+1..] == rows[1..][i..];
    }
  }

  // ---------------------------------------------------------------------
  // Rendering

  /** An empty list shows the empty state and no table; any other list
      shows one row per user, in list order, each tagged with its user's
      id, name and role; exactly the current user's row has the lock and
      every other row a delete button for its own user. */
  lemma RenderShowsEveryUser(users: seq<UserView>, currentUserId: Option<int>)
    ensures RenderUsers(users, currentUserId) == NoUsers <==> users == []
    ensures users != [] ==>
      var rows := RenderUsers(users, currentUserId).rows;
      |rows| == |users| &&
      forall i :: 0 <= i < |users| ==>
        rows[i].userId == users[i].id && rows[i].username == users[i].username &&
        rows[i].isAdmin == users[i].isAdmin &&
        (rows[i].action == Lock <==> currentUserId == Some(users[i].id)) &&
        (rows[i].action != Lock ==> rows[i].action == DeleteButton(users[i].id, users[i].username))
  {
  }

  predicate IsLocked(w: Row)
  {
    w.action == Lock
  }

  /** The number of locked rows is the number of users with the current
      id: at most one in a table with unique ids, none before the first
      load. */
  lemma {:induction false} LockCount(users: seq<UserView>, currentUserId: Option<int>)
    ensures |Filter(RowsOf(users, currentUserId), IsLocked)|
      == |Filter(users, (u: UserView) => currentUserId == Some(u.id))|
  {
    if users != [] {
      var rows := RowsOf(users, currentUserId);
      var isCurrent := (u: UserView) => currentUserId == Some(u.id);
      LockCount(users[1..], currentUserId);
      assert rows[1..] == RowsOf(users[1..], currentUserId);
      assert Filter(rows, IsLocked) ==
        (if IsLocked(rows[0]) then [rows[0]] else []) + Filter(rows[1..], IsLocked);
      assert Filter(users, isCurrent) ==
        (if isCurrent(users[0]) then [users[0]] else []) + Filter(users[1..], isCurrent);
    }
  }

  /** The totals: every user counts, and the admins are among them. */
  lemma StatsBounds(users: seq<UserView>)
    ensures StatsOf(users).totalUsers == |users|
    ensures StatsOf(users).totalAdmins <= StatsOf(users).totalUsers
    ensures (forall u :: u in users ==> !u.isAdmin) ==> StatsOf(users).totalAdmins == 0
    ensures (forall u :: u in users ==> u.isAdmin) ==> StatsOf(users).totalAdmins == |users|
  {
    if forall u :: u in users ==> !u.isAdmin {
      FilterKeepsNone(users, (u: UserView) => u.isAdmin);
    }
    if forall u :: u in users ==> u.isAdmin {
      FilterKeepsAll(users, (u: UserView) => u.isAdmin);
    }
  }

  // ---------------------------------------------------------------------
  // The client guard against the server's rules

  /** On the list the server sends an admin, the client's guard matches the
      server's: a row offers a delete button exactly when its user is not
      the admin asking, so the server would not refuse that delete as
      self-deletion, and the user it targets is in the table, so the server
      would not answer "not found" either. */
  lemma DeleteButtonsMatchServer(users: seq<UserRow>, admin: UserRow)
    requires admin in users
    ensures var rows := RowsOf(UserViews(users), Some(admin.id));
      forall w :: w in rows ==>
        (w.action.DeleteButton? <==> w.userId != admin.id) &&
        (w.action.DeleteButton? ==> w.action.userId == w.userId && FindById(users, w.userId).Some?)
  {
    var rows := RowsOf(UserViews(users), Some(admin.id));
    forall w | w in rows
      ensures (w.action.DeleteButton? <==> w.userId != admin.id)
      ensures w.action.DeleteButton? ==> w.action.userId == w.userId && FindById(users, w.userId).Some?
    {
      var i :| 0 <= i < |rows| && rows[i] == w;
      assert users[i] in users;
    }
  }

  /** The rows of a table that starts with `h`. */
  lemma RowsOfCons(h: UserRow, tl: seq<UserRow>, currentUserId: Option<int>)
    ensures RowsOf(UserViews([h] + tl), currentUserId)
      == [RenderUserRow(ViewOf(h), currentUserId)] + RowsOf(UserViews(tl), currentUserId)
  {
    assert UserViews([h] + tl) == [ViewOf(h)] + UserViews(tl);
    assert ([ViewOf(h)] + UserViews(tl))[1..] == UserViews(tl);
  }

  /** Deleting the first row's user drops the first rendered row. */
  lemma RemoveHeadRow(users: seq<UserRow>, currentUserId: Option<int>)
    requires WellFormed(users) && users != []
    ensures RemoveFirstRow(RowsOf(UserViews(users), currentUserId), users[0].id)
      == RowsOf(UserViews(WithoutUser(users, users[0].id)), currentUserId)
  {
    var h, tl := users[0], users[1..];
    assert users == [h] + tl;
    RowsOfCons(h, tl, currentUserId);
    WellFormedTail(users);
    WithoutAbsent(tl, h.id);
  }

  /** Removing the deleted user's row by hand leaves the rows the server's
      new table would render, so the reload only repeats what is already
      shown (unless the table had that one row only). */
  lemma {:induction false} RemoveRowMatchesServer(users: seq<UserRow>, userId: int, currentUserId: Option<int>)
    requires WellFormed(users)
    ensures RemoveFirstRow(RowsOf(UserViews(users), currentUserId), userId)
      == RowsOf(UserViews(WithoutUser(users, userId)), currentUserId)
  {
    if users != [] {
      var h, tl := users[0], users[1..];
      WellFormedTail(users);
      if h.id == userId {
        RemoveHeadRow(users, currentUserId);
      } else {
        assert users == [h] + tl;
        RowsOfCons(h, tl, currentUserId);
        RemoveRowMatchesServer(tl, userId, currentUserId);
        RowsOfCons(h, WithoutUser(tl, userId), currentUserId);
      }
    }
  }

  /** `AdminPanel`: what the admin page shows and the alerts it has
      raised. */
  class AdminPanel {
    var currentUserId: Option<int>
    var container: Container
    var stats: Option<Stats>
    var alerts: seq<Flash>

    /** `new AdminPanel()`: no current user yet, then the first
      `loadUsers` with the server's answer. */
    constructor(first: Reply<UsersPayload>)
      ensures first.Ok? ==>
        currentUserId == Some(first.value.currentUserId) &&
        container == RenderUsers(first.value.users, currentUserId) &&
        stats == Some(StatsOf(first.value.users)) && alerts == []
      ensures first.Failed? ==>
        currentUserId.None? && container == Blank && stats.None? &&
        alerts == [Flash(Error, "Failed to load users")]
    {
      currentUserId := None;
      container := Blank;
      stats := None;
      alerts := [];
      new;
      LoadUsers(first);
    }

    /** `loadUsers`: the current user's id is stored before the rows are
      rendered with it; a failed request leaves the page as it was and
      raises an alert. */
    method LoadUsers(reply: Reply<UsersPayload>)
      modifies this
      ensures reply.Ok? ==>
        currentUserId == Some(reply.value.currentUserId) &&
        container == RenderUsers(reply.value.users, Some(reply.value.currentUserId)) &&
        stats == Some(StatsOf(reply.value.users)) && alerts == old(alerts)
      ensures reply.Failed? ==>
        currentUserId == old(currentUserId) && container == old(container) && stats == old(stats) &&
        alerts == old(alerts) + [Flash(Error, "Failed to load users")]
    {
      if reply.Ok? {
        currentUserId := Some(reply.value.currentUserId);
        container := RenderUsers(reply.value.users, currentUserId);
        stats := Some(StatsOf(reply.value.users));
      } else {
        alerts := alerts + [Flash(Error, "Failed to load users")];
      }
    }

    /** `removeUserRow`: the first row tagged with the id goes; no row,
      no change. Removing the last row leaves an empty table, not the
      empty state. */
    method RemoveUserRow(userId: int)
      modifies this
      ensures container == (if old(container).Table? then Table(RemoveFirstRow(old(container).rows, userId))
                            else old(container))
      ensures currentUserId == old(currentUserId) && stats == old(stats) && alerts == old(alerts)
    {
      if container.Table? {
        container := Table(RemoveFirstRow(container.rows, userId));
      }
    }

    /** `deleteUser`: `sent` is the id of the `DELETE /auth/api/users/<id>`
      request, if one goes out. Declined, nothing is sent and nothing changes; a
      request that fails raises "Failed to delete user"; a refusal raises
      the server's error and leaves the rows; a deletion raises the
      server's message, removes the row and reloads the list with
      `reload`. */
    method DeleteUser(userId: int, username: string, confirmed: bool,
                      answer: Reply<DeleteAnswer>, reload: Reply<UsersPayload>)
      returns (sent: Option<int>)
      modifies this
      ensures sent == (if confirmed then Some(userId) else None)
      ensures !confirmed ==>
        currentUserId == old(currentUserId) && container == old(container) &&
        stats == old(stats) && alerts == old(alerts)
      ensures confirmed && answer.Failed? ==>
        currentUserId == old(currentUserId) && container == old(container) && stats == old(stats) &&
        alerts == old(alerts) + [Flash(Error, "Failed to delete user")]
      ensures confirmed && answer.Ok? && answer.value.Refused? ==>
        currentUserId == old(currentUserId) && container == old(container) && stats == old(stats) &&
        alerts == old(alerts) + [Flash(Error, answer.value.error)]
      ensures confirmed && answer.Ok? && answer.value.Deleted? && reload.Ok? ==>
        currentUserId == Some(reload.value.currentUserId) &&
        container == RenderUsers(reload.value.users, currentUserId) &&
        stats == Some(StatsOf(reload.value.users)) &&
        alerts == old(alerts) + [Flash(Success, answer.value.message)]
      ensures confirmed && answer.Ok? && answer.value.Deleted? && reload.Failed? ==>
        currentUserId == old(currentUserId) && stats == old(stats) &&
        container == (if old(container).Table? then Table(RemoveFirstRow(old(container).rows, userId))
                      else old(container)) &&
        alerts == old(alerts) + [Flash(Success, answer.value.message), Flash(Error, "Failed to load users")]
    {
      if !confirmed {
        return None;
      }
      sent := Some(userId);
      if answer.Failed? {
        alerts := alerts + [Flash(Error, "Failed to delete user")];
      } else if answer.value.Refused? {
        alerts := alerts + [Flash(Error, answer.value.error)];
      } else {
        alerts := alerts + [Flash(Success, answer.value.message)];
        RemoveUserRow(userId);
        LoadUsers(reload);
      }
    }
  }
}
