/**
 * The credential store: the three collections in insertion (natural) order, the avatar files
 * written so far, and the source of fresh document ids. `Valid` is the invariant every handler keeps.
 */
module Stores {
  import opened Wrappers
  import opened Collections
  import opened Models

  datatype Stores = Stores(
    users: seq<LocalUser>,
    pending: seq<PendingUser>,
    googleUsers: seq<GoogleUser>,
    uploads: set<string>,
    nextId: Id)

  const Empty := Stores([], [], [], {}, 0)

  /**
   * One local identity per username and per email: no two local accounts, no two pending
   * signups, and no account and pending signup share either; ids are distinct too.
   */
  ghost predicate LocalNamespace(users: seq<LocalUser>, pending: seq<PendingUser>)
  {
    && (forall i, j | 0 <= i < j < |users| ::
          users[i].id != users[j].id && users[i].username != users[j].username && users[i].email != users[j].email)
    && (forall i, j | 0 <= i < j < |pending| ::
          pending[i].id != pending[j].id && pending[i].username != pending[j].username && pending[i].email != pending[j].email)
    && (forall i, j | 0 <= i < |users| && 0 <= j < |pending| ::
          users[i].username != pending[j].username && users[i].email != pending[j].email)
  }

  /**
   * At most one Google account per googleId, at most one per chosen username, and a username
   * is present exactly when `isUsernameSet` says so.
   */
  ghost predicate GoogleNamespace(gs: seq<GoogleUser>)
  {
    && (forall i | 0 <= i < |gs| :: gs[i].isUsernameSet <==> gs[i].username.Some?)
    && (forall i, j | 0 <= i < j < |gs| ::
          gs[i].id != gs[j].id && gs[i].googleId != gs[j].googleId
          && (gs[i].username.Some? ==> gs[i].username != gs[j].username))
  }

  ghost predicate Valid(s: Stores)
  {
    && (forall u <- s.users :: u.id < s.nextId && ValidLocalUser(u))
    && (forall p <- s.pending :: p.id < s.nextId && ValidPendingUser(p))
    && (forall g <- s.googleUsers :: g.id < s.nextId && ValidGoogleUser(g))
    && LocalNamespace(s.users, s.pending)
    && GoogleNamespace(s.googleUsers)
  }

  lemma EmptyIsValid()
    ensures Valid(Empty)
  {
  }

  // ---- finders: `findById` and the `findOne` filters the handlers use ----

  function FindPending(ps: seq<PendingUser>, id: Id): (r: Option<nat>)
    ensures r.Some? ==> r.value < |ps| && ps[r.value].id == id
    ensures r.None? <==> forall p <- ps :: p.id != id
  {
    IndexWhere(ps, (p: PendingUser) => p.id == id)
  }

  function FindUser(us: seq<LocalUser>, id: Id): (r: Option<nat>)
    ensures r.Some? ==> r.value < |us| && us[r.value].id == id
    ensures r.None? <==> forall u <- us :: u.id != id
  {
    IndexWhere(us, (u: LocalUser) => u.id == id)
  }

  function FindGoogle(gs: seq<GoogleUser>, id: Id): (r: Option<nat>)
    ensures r.Some? ==> r.value < |gs| && gs[r.value].id == id
    ensures r.None? <==> forall g <- gs :: g.id != id
  {
    IndexWhere(gs, (g: GoogleUser) => g.id == id)
  }

  /** The first account whose username is `n` or whose email is `e`: a `findOne` with an `$or` filter. */
  function FirstLocalHolding(users: seq<LocalUser>, n: string, e: string): (r: Option<nat>)
    ensures r.Some? ==> r.value < |users| && (users[r.value].email == e || users[r.value].username == n)
    ensures r.Some? ==> forall j :: 0 <= j < r.value ==> users[j].email != e && users[j].username != n
    ensures r.None? <==> forall u <- users :: u.email != e && u.username != n
  {
    if users == [] then None
    else if users[0].email == e || users[0].username == n then Some(0)
    else
      match FirstLocalHolding(users[1..], n, e)
      case None => assert users == [users[0]] + users[1..]; None
      case Some(k) => Some(k + 1)
  }

  /** Account `k` is the first one whose email is `e` or whose username is `n`. */
  predicate IsFirstHolder(users: seq<LocalUser>, k: int, n: string, e: string)
  {
    && 0 <= k < |users| && (users[k].email == e || users[k].username == n)
    && forall j :: 0 <= j < k ==> users[j].email != e && users[j].username != n
  }

  /** The `$or` lookup answers the first holder and nothing else. */
  lemma FirstHolderFound(users: seq<LocalUser>, k: int, n: string, e: string)
    requires IsFirstHolder(users, k, n, e)
    ensures FirstLocalHolding(users, n, e) == Some(k)
  {
    assert users[k] in users;
  }

  /** The same filter on the pending signups. */
  function FirstPendingHolding(pending: seq<PendingUser>, n: string, e: string): (r: Option<nat>)
    ensures r.Some? ==> r.value < |pending| && (pending[r.value].email == e || pending[r.value].username == n)
    ensures r.Some? ==> forall j :: 0 <= j < r.value ==> pending[j].email != e && pending[j].username != n
    ensures r.None? <==> forall p <- pending :: p.email != e && p.username != n
  {
    if pending == [] then None
    else if pending[0].email == e || pending[0].username == n then Some(0)
    else
      match FirstPendingHolding(pending[1..], n, e)
      case None => assert pending == [pending[0]] + pending[1..]; None
      case Some(k) => Some(k + 1)
  }

  // ---- how each kind of write keeps the namespaces ----

  lemma AddPending(users: seq<LocalUser>, pending: seq<PendingUser>, p: PendingUser)
    requires LocalNamespace(users, pending)
    requires forall u <- users :: u.username != p.username && u.email != p.email
    requires forall q <- pending :: q.id != p.id && q.username != p.username && q.email != p.email
    ensures LocalNamespace(users, pending + [p])
  {
    var ps := pending + [p];
    forall i, j | 0 <= i < j < |ps|
      ensures ps[i].id != ps[j].id && ps[i].username != ps[j].username && ps[i].email != ps[j].email
    {
      if j == |pending| { assert ps[i] in pending; }
    }
    forall i, j | 0 <= i < |users| && 0 <= j < |ps|
      ensures users[i].username != ps[j].username && users[i].email != ps[j].email
    {
      assert users[i] in users;
    }
  }

  lemma RemovePending(users: seq<LocalUser>, pending: seq<PendingUser>, k: nat)
    requires k < |pending| && LocalNamespace(users, pending)
    ensures LocalNamespace(users, RemoveAt(pending, k))
    ensures forall q <- RemoveAt(pending, k) :: q.id != pending[k].id
  {
    var ps := RemoveAt(pending, k);
    forall i, j | 0 <= i < j < |ps|
      ensures ps[i].id != ps[j].id && ps[i].username != ps[j].username && ps[i].email != ps[j].email
    {
      var i', j' := if i < k then i else i + 1, if j < k then j else j + 1;
      assert ps[i] == pending[i'] && ps[j] == pending[j'] && i' < j';
    }
    forall i, j | 0 <= i < |users| && 0 <= j < |ps|
      ensures users[i].username != ps[j].username && users[i].email != ps[j].email
    {
      var j' := if j < k then j else j + 1;
      assert ps[j] == pending[j'];
    }
    forall q <- ps ensures q.id != pending[k].id {
      var j :| 0 <= j < |ps| && ps[j] == q;
      var j' := if j < k then j else j + 1;
      assert ps[j] == pending[j'] && j' != k;
    }
  }

  /** Turning pending signup `k` into the account `u` that carries its username and email. */
  lemma Promote(users: seq<LocalUser>, pending: seq<PendingUser>, k: nat, u: LocalUser)
    requires k < |pending| && LocalNamespace(users, pending)
    requires u.username == pending[k].username && u.email == pending[k].email
    requires forall v <- users :: v.id != u.id
    ensures LocalNamespace(users + [u], RemoveAt(pending, k))
  {
    RemovePending(users, pending, k);
    var us, ps := users + [u], RemoveAt(pending, k);
    forall i, j | 0 <= i < j < |us|
      ensures us[i].id != us[j].id && us[i].username != us[j].username && us[i].email != us[j].email
    {
      if j == |users| { assert us[i] in users; }
    }
    forall i, j | 0 <= i < |us| && 0 <= j < |ps|
      ensures us[i].username != ps[j].username && us[i].email != ps[j].email
    {
      var j' := if j < k then j else j + 1;
      assert ps[j] == pending[j'] && j' != k;
      if i == |users| {
        if j' < k {
          assert pending[j'].username != pending[k].username && pending[j'].email != pending[k].email;
        } else {
          assert pending[k].username != pending[j'].username && pending[k].email != pending[j'].email;
        }
      }
    }
  }

  /** Rewriting account `k` without touching its id, username or email. */
  lemma UpdateUser(users: seq<LocalUser>, pending: seq<PendingUser>, k: nat, u: LocalUser)
    requires k < |users| && LocalNamespace(users, pending)
    requires u.id == users[k].id && u.username == users[k].username && u.email == users[k].email
    ensures LocalNamespace(users[k := u], pending)
  {
    var us := users[k := u];
    forall i, j | 0 <= i < j < |us|
      ensures us[i].id != us[j].id && us[i].username != us[j].username && us[i].email != us[j].email
    {
      assert users[i].id != users[j].id && users[i].username != users[j].username && users[i].email != users[j].email;
    }
    forall i, j | 0 <= i < |us| && 0 <= j < |pending|
      ensures us[i].username != pending[j].username && us[i].email != pending[j].email
    {
      assert users[i].username != pending[j].username && users[i].email != pending[j].email;
    }
  }

  lemma AddGoogle(gs: seq<GoogleUser>, g: GoogleUser)
    requires GoogleNamespace(gs)
    requires g.username.None? && !g.isUsernameSet
    requires forall h <- gs :: h.id != g.id && h.googleId != g.googleId
    ensures GoogleNamespace(gs + [g])
  {
    var gs' := gs + [g];
    forall i, j | 0 <= i < j < |gs'|
      ensures gs'[i].id != gs'[j].id && gs'[i].googleId != gs'[j].googleId
      ensures gs'[i].username.Some? ==> gs'[i].username != gs'[j].username
    {
      if j == |gs| { assert gs'[i] in gs; }
    }
  }

  /**
   * Rewriting Google account `k` without touching its id or googleId; its username either stays,
   * or goes from unset to a name no other Google account holds.
   */
  lemma UpdateGoogle(gs: seq<GoogleUser>, k: nat, g: GoogleUser)
    requires k < |gs| && GoogleNamespace(gs)
    requires g.id == gs[k].id && g.googleId == gs[k].googleId
    requires g.isUsernameSet <==> g.username.Some?
    requires g.username == gs[k].username || (gs[k].username.None? && forall h <- gs :: h.username != g.username)
    ensures GoogleNamespace(gs[k := g])
  {
    var gs' := gs[k := g];
    forall i, j | 0 <= i < j < |gs'|
      ensures gs'[i].id != gs'[j].id && gs'[i].googleId != gs'[j].googleId
      ensures gs'[i].username.Some? ==> gs'[i].username != gs'[j].username
    {
      assert gs[i].id != gs[j].id && gs[i].googleId != gs[j].googleId;
      assert gs[i].username.Some? ==> gs[i].username != gs[j].username;
      if g.username != gs[k].username {
        if i == k { assert gs[j] in gs; }
        if j == k { assert gs[i] in gs; }
      }
    }
  }
}
