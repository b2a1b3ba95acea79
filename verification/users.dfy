/** The administrator's user endpoints: look-up, the filtered listing and
    the status change (back-end/controller/user.controller.js). */
module Users {
  import opened Wrappers
  import opened Strings
  import opened Store
  import opened Paging
  import opened Lists

  /** A user document as the endpoints return it: `select("-password")`. */
  datatype UserView = UserView(id: Id, fullName: string, email: string, role: string, status: string)

  function View(id: Id, u: User): (v: UserView)
    ensures v.id == id && v.fullName == u.fullName && v.email == u.email
    ensures v.role == u.role && v.status == u.status
  {
    UserView(id, u.fullName, u.email, u.role, u.status)
  }

  /** Viewing forgets exactly the password: two users that differ only in
      their passwords look the same. */
  lemma ViewForgetsPassword(id: Id, u: User, password: string)
    ensures View(id, u.(password := password)) == View(id, u)
  {
  }

  // ---------------------------------------------------------------------
  // getUserById
  // ---------------------------------------------------------------------

  datatype UserReply = UserNotFound | Found(user: UserView)
  {
    /** The HTTP status; the body of the 404 says 400. */
    function Code(): int
    {
      match this
      case UserNotFound => 404
      case Found(_) => 200
    }
  }

  /** `getUserById`.  For an unknown id the 404 is sent and the handler
      falls through to a second send that fails, so the client sees the 404. */
  function GetUser(st: Store, id: Id): (r: UserReply)
    ensures r.UserNotFound? <==> id !in st.users
    ensures r.Found? ==> r.user == View(id, st.users[id])
  {
    if id !in st.users then UserNotFound else Found(View(id, st.users[id]))
  }

  // ---------------------------------------------------------------------
  // getUsers
  // ---------------------------------------------------------------------

  /** The listing's filter: customers only, plus the optional email and
      status constraints (an empty value applies none). */
  predicate Listable(email: string, status: string, u: User)
  {
    && u.role == "USER"
    && (email == "" || ContainsIgnoreCase(u.email, email))
    && (status == "" || u.status == status)
  }

  function ListFilter(email: string, status: string): ((Id, User)) -> bool
  {
    (row: (Id, User)) => Listable(email, status, row.1)
  }

  datatype UserPage = UserPage(rows: seq<UserView>, totalUsers: nat, totalPages: JsCount, currentPage: int, pageSize: int)

  datatype ListReply = Users(page: UserPage) | ListFailed
  {
    function Code(): int
    {
      match this
      case Users(_) => 200
      case ListFailed => 500
    }
  }

  /** A listed row: the user document without its password. */
  function ViewRow(row: (Id, User)): UserView
  {
    View(row.0, row.1)
  }

  /** `getUsers`: `newestFirst` holds the user documents sorted newest
      first; `page` and `limit` are the query values after `parseInt`. */
  function ListUsers(newestFirst: seq<(Id, User)>, email: string, status: string, page: int, limit: int): (r: ListReply)
    ensures r.ListFailed? <==> (page - 1) * limit < 0
    ensures r.Users? ==>
      && r.page.totalUsers == |Filter(newestFirst, ListFilter(email, status))|
      && r.page.totalPages == PageCount(r.page.totalUsers, limit)
      && r.page.currentPage == page && r.page.pageSize == limit
      && (limit > 0 ==> |r.page.rows| <= limit)
      && forall i :: 0 <= i < |r.page.rows| ==>
           exists j :: (0 <= j < |newestFirst| && Listable(email, status, newestFirst[j].1) &&
                        r.page.rows[i] == View(newestFirst[j].0, newestFirst[j].1))
  {
    var keep := ListFilter(email, status);
    var matching := Filter(newestFirst, keep);
    match StorePage(matching, (page - 1) * limit, limit)
    case None => ListFailed
    case Some(w) =>
      var from := if (page - 1) * limit > |matching| then |matching| else (page - 1) * limit;
      var out := Map(w, ViewRow);
      assert forall i :: 0 <= i < |out| ==>
          exists j :: (0 <= j < |newestFirst| && Listable(email, status, newestFirst[j].1) &&
                       out[i] == View(newestFirst[j].0, newestFirst[j].1)) by {
        forall i | 0 <= i < |out|
          ensures exists j :: (0 <= j < |newestFirst| && Listable(email, status, newestFirst[j].1) &&
                               out[i] == View(newestFirst[j].0, newestFirst[j].1))
        {
          assert w[i] == matching[from + i];
          assert w[i] in newestFirst && keep(w[i]);
          var j :| 0 <= j < |newestFirst| && newestFirst[j] == w[i];
          assert out[i] == View(newestFirst[j].0, newestFirst[j].1);
        }
      }
      Users(UserPage(out, |matching|, PageCount(|matching|, limit), page, limit))
  }

  /** For a positive page and limit, the listing shows exactly the page's
      window of the matching users, newest first, without passwords. */
  lemma ListUsersWindow(newestFirst: seq<(Id, User)>, email: string, status: string, page: int, limit: int)
    requires page >= 1 && limit >= 1
    ensures var r := ListUsers(newestFirst, email, status, page, limit);
      r.Users? && PageOf(r.page.rows, Filter(newestFirst, ListFilter(email, status)), ViewRow, page, limit)
  {
    var matching := Filter(newestFirst, ListFilter(email, status));
    MulMonotone(0, page - 1, limit);
    PageWindow(matching, page, limit);
    PageOfSlice(ListUsers(newestFirst, email, status, page, limit).page.rows, matching, ViewRow, page, limit);
  }

  /** Administrators never appear in the listing, whatever the filters. */
  lemma AdminsNeverListed(newestFirst: seq<(Id, User)>, email: string, status: string, page: int, limit: int, id: Id)
    requires forall j :: 0 <= j < |newestFirst| && newestFirst[j].0 == id ==> newestFirst[j].1.role != "USER"
    ensures var r := ListUsers(newestFirst, email, status, page, limit);
      r.Users? ==> forall i :: 0 <= i < |r.page.rows| ==> r.page.rows[i].id != id
  {
  }

  /** The email filter ignores case on both sides. */
  lemma EmailFilterIgnoresCase(u: User, email: string)
    requires u.role == "USER"
    ensures Listable(email, "", u) <==> Listable(Lower(email), "", u)
  {
    LowerIdempotent(email);
  }

  // ---------------------------------------------------------------------
  // updateUserStatus
  // ---------------------------------------------------------------------

  predicate ValidUserStatus(status: string)
  {
    status == "ACTIVE" || status == "INACTIVE"
  }

  datatype StatusReply = InvalidStatus | StatusUserNotFound | StatusUpdated(user: User)
  {
    function Code(): int
    {
      match this
      case InvalidStatus => 400
      case StatusUserNotFound => 404
      case StatusUpdated(_) => 200
    }
  }

  /** `updateUserStatus`: the status is validated before the look-up, and
      a valid update changes that user's status alone.  The reply carries
      the updated document (password included, as `findByIdAndUpdate`
      returns it). */
  function UpdateUserStatus(st: Store, userId: Id, status: string): (o: Outcome<StatusReply>)
    ensures o.reply == InvalidStatus <==> !ValidUserStatus(status)
    ensures o.reply == StatusUserNotFound <==> ValidUserStatus(status) && userId !in st.users
    ensures !o.reply.StatusUpdated? ==> o.store == st
    ensures o.reply.StatusUpdated? ==>
      && o.reply.user == st.users[userId].(status := status)
      && o.store == st.(users := st.users[userId := o.reply.user])
  {
    if !ValidUserStatus(status) then Outcome(st, InvalidStatus)
    else if userId !in st.users then Outcome(st, StatusUserNotFound)
    else
      var u := st.users[userId].(status := status);
      Outcome(st.(users := st.users[userId := u]), StatusUpdated(u))
  }

  /** Setting a status twice is setting it once, and the status the user
      ends with is the one requested. */
  lemma UpdateUserStatusIdempotent(st: Store, userId: Id, status: string)
    requires ValidUserStatus(status) && userId in st.users
    ensures var once := UpdateUserStatus(st, userId, status).store;
      && once.users[userId].status == status
      && UpdateUserStatus(once, userId, status).store == once
  {
    var once := UpdateUserStatus(st, userId, status).store;
    assert once.users[userId := once.users[userId].(status := status)] == once.users;
  }

  /** Lower-case status names are rejected. */
  lemma LowerCaseUserStatusRejected(st: Store, userId: Id)
    ensures UpdateUserStatus(st, userId, "active") == Outcome(st, InvalidStatus)
  {
  }
}
