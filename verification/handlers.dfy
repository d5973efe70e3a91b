/** The per-request decisions of the project routes: validate, resolve the
    caller, look the project up, check ownership, and only then mutate.
    Every handler here is a pure function of the store and the request; the
    public list, whose order among equal timestamps is not determined, is the
    method `Listing.ListAll`.
 */
module Handlers {
  import opened Domain

  /** The owner check shared by update and delete: resolve the caller, fetch
      the project, compare its owner with the resolved user. Each failure is
      the first check that does not pass. */
  function AuthorizeOwner(s: Store, caller: ClerkId, id: ProjectId): (r: Option<Failure>)
    ensures r.None? <==> IsOwner(s, caller, id)
    ensures caller !in s.users ==> r == Some(UserNotFound)
    ensures caller in s.users && id !in s.projects ==> r == Some(ProjectNotFound)
    ensures OwnedByOther(s, caller, id) ==> r == Some(Forbidden)
  {
    match ResolveUser(s, caller)
    case None => Some(UserNotFound)
    case Some(uid) =>
      if id !in s.projects then Some(ProjectNotFound)
      else if s.projects[id].userId != uid then Some(Forbidden)
      else None
  }

  /** `POST /api/v1/projects`. `newId` and `now` are the id and creation
      time the storage layer assigns; the id is fresh. */
  function Create(s: Store, caller: ClerkId, body: Body, newId: ProjectId, now: Timestamp): (o: Outcome)
    requires newId !in s.projects
    // the title check comes before the user lookup, so it holds for any caller
    ensures Falsy(body.title) ==> o == Outcome(Failed(TitleRequired), s)
    ensures !Falsy(body.title) && caller !in s.users ==> o == Outcome(Failed(UserNotFound), s)
    ensures o.reply.Created? <==> !Falsy(body.title) && caller in s.users
    ensures o.reply.Created? ==>
      && StatusCode(o.reply) == 201
      && o.reply.created.id == newId
      && o.reply.created.project.userId == s.users[caller]
      && ContentFrom(o.reply.created.project, body)
      && o.reply.created.project.title != ""
      && o.reply.created.project.createdAt == now
      && o.store.users == s.users
      && o.store.projects.Keys == s.projects.Keys + {newId}
      && o.store.projects[newId] == o.reply.created.project
      && OthersUnchanged(s.projects, o.store.projects, newId)
  {
    if Falsy(body.title) then Outcome(Failed(TitleRequired), s)
    else
      match ResolveUser(s, caller)
      case None => Outcome(Failed(UserNotFound), s)
      case Some(uid) =>
        var p := Project(body.title.value, body.description, body.techStack,
                         body.githubUrl, body.liveUrl, body.imageUrl, uid, now);
        Outcome(Created(Entry(newId, p)), s.(projects := s.projects[newId := p]))
  }

  /** `GET /api/v1/project/:id`: public, no ownership check. */
  function GetById(s: Store, id: ProjectId): (r: Reply)
    ensures r == Failed(ProjectNotFound) <==> id !in s.projects
    ensures r.Failed? || r.Found?
    ensures r.Found? ==> r.found.id == id && id in s.projects && r.found.project == s.projects[id]
  {
    if id in s.projects then Found(Entry(id, s.projects[id])) else Failed(ProjectNotFound)
  }

  /** `GET /api/v1/projects/me`: the resolved user's own projects. */
  function ListMine(s: Store, caller: ClerkId): (r: Reply)
    ensures caller !in s.users <==> r == Failed(UserNotFound)
    ensures caller in s.users ==> r.OwnedProjects?
    ensures r.OwnedProjects? ==>
      && caller in s.users
      && (forall id :: id in r.owned <==> id in s.projects && s.projects[id].userId == s.users[caller])
      && (forall id :: id in r.owned ==> r.owned[id] == s.projects[id])
  {
    match ResolveUser(s, caller)
    case None => Failed(UserNotFound)
    case Some(uid) =>
      OwnedProjects(OwnedBy(s, uid))
  }

  /** The project after an update's data is applied: the six content fields
      the body supplies replace the stored ones; the owner and the creation
      time are not part of the data. An absent field keeps its stored value. */
  function ApplyUpdate(p: Project, b: Body): Project {
    p.(title := if b.title.Some? then b.title.value else p.title,
       description := if b.description.Some? then b.description else p.description,
       techStack := if b.techStack.Some? then b.techStack else p.techStack,
       githubUrl := if b.githubUrl.Some? then b.githubUrl else p.githubUrl,
       liveUrl := if b.liveUrl.Some? then b.liveUrl else p.liveUrl,
       imageUrl := if b.imageUrl.Some? then b.imageUrl else p.imageUrl)
  }

  /** `PATCH /api/v1/projects/:id`, owner only. */
  function Update(s: Store, caller: ClerkId, id: ProjectId, body: Body): (o: Outcome)
    ensures o.reply.Failed? || o.reply.Updated?
    ensures o.reply.Failed? ==> o.store == s && Some(o.reply.failure) == AuthorizeOwner(s, caller, id)
    ensures caller !in s.users ==> o.reply == Failed(UserNotFound)
    ensures caller in s.users && id !in s.projects ==> o.reply == Failed(ProjectNotFound)
    ensures OwnedByOther(s, caller, id) ==> o.reply == Failed(Forbidden)
    ensures o.reply.Updated? <==> IsOwner(s, caller, id)
    ensures o.reply.Updated? ==>
      && id in s.projects
      && o.reply.updated.id == id
      && TakesSupplied(o.reply.updated.project, body)
      && o.reply.updated.project.userId == s.projects[id].userId
      && o.reply.updated.project.createdAt == s.projects[id].createdAt
      && o.store.users == s.users
      && o.store.projects.Keys == s.projects.Keys
      && o.store.projects[id] == o.reply.updated.project
      && OthersUnchanged(s.projects, o.store.projects, id)
  {
    match AuthorizeOwner(s, caller, id)
    case Some(f) => Outcome(Failed(f), s)
    case None =>
      var p := ApplyUpdate(s.projects[id], body);
      Outcome(Updated(Entry(id, p)), s.(projects := s.projects[id := p]))
  }

  /** `DELETE /api/v1/projects/:id`, owner only; replies `{success: true}`. */
  function Delete(s: Store, caller: ClerkId, id: ProjectId): (o: Outcome)
    ensures o.reply.Failed? || o.reply == Deleted
    ensures o.reply.Failed? ==> o.store == s && Some(o.reply.failure) == AuthorizeOwner(s, caller, id)
    ensures caller !in s.users ==> o.reply == Failed(UserNotFound)
    ensures caller in s.users && id !in s.projects ==> o.reply == Failed(ProjectNotFound)
    ensures OwnedByOther(s, caller, id) ==> o.reply == Failed(Forbidden)
    ensures o.reply == Deleted <==> IsOwner(s, caller, id)
    ensures o.reply == Deleted ==>
      && o.store.users == s.users
      && o.store.projects.Keys == s.projects.Keys - {id}
      && OthersUnchanged(s.projects, o.store.projects, id)
  {
    match AuthorizeOwner(s, caller, id)
    case Some(f) => Outcome(Failed(f), s)
    case None => Outcome(Deleted, s.(projects := s.projects - {id}))
  }
}
