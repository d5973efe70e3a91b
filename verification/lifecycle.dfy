/** Properties that relate several requests: a project's life from creation
    to deletion, and what a sequence of requests by other users can do to
    one user's projects.
 */
module Lifecycle {
  import opened Domain
  import opened Handlers

  /** A created project is immediately visible by id and in its owner's list. */
  lemma CreateThenRead(s: Store, caller: ClerkId, body: Body, newId: ProjectId, now: Timestamp)
    requires newId !in s.projects
    requires !Falsy(body.title) && caller in s.users
    ensures Create(s, caller, body, newId, now).reply.Created?
    ensures GetById(Create(s, caller, body, newId, now).store, newId)
              == Found(Create(s, caller, body, newId, now).reply.created)
    ensures newId in ListMine(Create(s, caller, body, newId, now).store, caller).owned
  {
  }

  /** Deletion is terminal: once the owner has deleted a project, a read of
      that id reports it missing, and so does a delete or an update of it by
      any caller who resolves to a local user. */
  lemma DeleteIsTerminal(s: Store, caller: ClerkId, id: ProjectId, other: ClerkId, body: Body)
    requires Delete(s, caller, id).reply == Deleted
    requires other in s.users
    ensures Delete(Delete(s, caller, id).store, other, id).reply == Failed(ProjectNotFound)
    ensures GetById(Delete(s, caller, id).store, id) == Failed(ProjectNotFound)
    ensures Update(Delete(s, caller, id).store, other, id, body).reply == Failed(ProjectNotFound)
  {
  }

  /** A request to one of the mutating routes. */
  datatype Request =
    | CreateReq(caller: ClerkId, body: Body, newId: ProjectId, now: Timestamp)
    | UpdateReq(caller: ClerkId, id: ProjectId, body: Body)
    | DeleteReq(caller: ClerkId, id: ProjectId)

  /** The storage layer hands out an id not in use. */
  predicate Applicable(s: Store, r: Request) {
    r.CreateReq? ==> r.newId !in s.projects
  }

  function Step(s: Store, r: Request): Store
    requires Applicable(s, r)
  {
    match r
    case CreateReq(c, b, n, t) => Create(s, c, b, n, t).store
    case UpdateReq(c, i, b) => Update(s, c, i, b).store
    case DeleteReq(c, i) => Delete(s, c, i).store
  }

  /** Every create in the trace gets a fresh id when it runs. */
  predicate ValidTrace(s: Store, rs: seq<Request>)
    decreases |rs|
  {
    |rs| == 0 || (Applicable(s, rs[0]) && ValidTrace(Step(s, rs[0]), rs[1..]))
  }

  /** The store after handling the requests one at a time, in order. */
  function Run(s: Store, rs: seq<Request>): Store
    requires ValidTrace(s, rs)
    decreases |rs|
  {
    if |rs| == 0 then s else Run(Step(s, rs[0]), rs[1..])
  }

  /** No handler adds, removes or remaps a local user. */
  lemma {:induction false} RunKeepsUsers(s: Store, rs: seq<Request>)
    requires ValidTrace(s, rs)
    ensures Run(s, rs).users == s.users
    decreases |rs|
  {
    if |rs| > 0 {
      RunKeepsUsers(Step(s, rs[0]), rs[1..]);
    }
  }

  /** The foreign key from a project to its owner survives any trace: a new
      project's owner is always the resolved caller. */
  lemma {:induction false} RunKeepsOwnersAreUsers(s: Store, rs: seq<Request>)
    requires ValidTrace(s, rs)
    requires OwnersAreUsers(s)
    ensures OwnersAreUsers(Run(s, rs))
    decreases |rs|
  {
    if |rs| > 0 {
      var t := Step(s, rs[0]);
      assert OwnersAreUsers(t) by {
        match rs[0]
        case CreateReq(c, b, n, now) =>
          var o := Create(s, c, b, n, now);
          if o.reply.Created? {
            assert o.store.projects[n].userId == s.users[c];
          }
        case UpdateReq(c, i, b) =>
        case DeleteReq(c, i) =>
      }
      RunKeepsOwnersAreUsers(t, rs[1..]);
    }
  }

  /** The caller of `r` does not resolve to local user `uid`. */
  predicate NotFrom(s: Store, uid: UserId, r: Request) {
    r.caller !in s.users || s.users[r.caller] != uid
  }

  /** One request by anybody but `uid` leaves `uid`'s projects as they were. */
  lemma StepByOtherKeepsOwned(s: Store, uid: UserId, r: Request)
    requires Applicable(s, r) && NotFrom(s, uid, r)
    ensures OwnedBy(Step(s, r), uid) == OwnedBy(s, uid)
  {
  }

  /** No sequence of requests by other users (or by callers with no local
      user) creates, changes or deletes any project of `uid`. */
  lemma {:induction false} OthersCannotTouchOwned(s: Store, uid: UserId, rs: seq<Request>)
    requires ValidTrace(s, rs)
    requires forall k :: 0 <= k < |rs| ==> NotFrom(s, uid, rs[k])
    ensures OwnedBy(Run(s, rs), uid) == OwnedBy(s, uid)
    decreases |rs|
  {
    if |rs| > 0 {
      var t := Step(s, rs[0]);
      assert NotFrom(s, uid, rs[0]);
      StepByOtherKeepsOwned(s, uid, rs[0]);
      assert t.users == s.users;
      assert forall k :: 0 <= k < |rs[1..]| ==> NotFrom(t, uid, rs[1..][k]) by {
        forall k | 0 <= k < |rs[1..]|
          ensures NotFrom(t, uid, rs[1..][k])
        {
          assert rs[1..][k] == rs[k + 1];
        }
      }
      OthersCannotTouchOwned(t, uid, rs[1..]);
    }
  }

  /** A user's own-projects reply is the same after any sequence of requests
      by other users (or by callers with no local user). */
  lemma {:induction false} ListMineUnaffectedByOthers(s: Store, caller: ClerkId, rs: seq<Request>)
    requires ValidTrace(s, rs) && caller in s.users
    requires forall k :: 0 <= k < |rs| ==> NotFrom(s, s.users[caller], rs[k])
    ensures ListMine(Run(s, rs), caller) == ListMine(s, caller)
  {
    RunKeepsUsers(s, rs);
    OthersCannotTouchOwned(s, s.users[caller], rs);
  }
}
