/** The records the project store handlers read and write, the request bodies
    they accept and the replies they produce.

    Storage is an in-memory value: one map from the identity provider's
    subject id to the local user id (the unique `clerkId` lookup) and one map
    from project id to project row. Each handler is a pure transition over
    this value, so "the store is unchanged" is plain equality.
 */
module Domain {

  /** An optional value: a JSON field that may be absent, or a nullable column. */
  datatype Option<+T> = None | Some(value: T)

  /** The external identity provider's subject id of the authenticated caller. */
  type ClerkId = string
  /** The primary key of a local user row. */
  type UserId = string
  /** The primary key of a project row. */
  type ProjectId = string
  /** A creation time; larger is newer. */
  type Timestamp = int

  /** A stored project row. `userId` is the owning user's local id. */
  datatype Project = Project(
    title: string,
    description: Option<string>,
    techStack: Option<seq<string>>,
    githubUrl: Option<string>,
    liveUrl: Option<string>,
    imageUrl: Option<string>,
    userId: UserId,
    createdAt: Timestamp)

  /** A project together with its primary key, as it appears in a JSON reply. */
  datatype Entry = Entry(id: ProjectId, project: Project)

  /** The JSON body of a create or update request: every field may be absent.
      There is deliberately no `userId` field: the handlers never read one. */
  datatype Body = Body(
    title: Option<string>,
    description: Option<string>,
    techStack: Option<seq<string>>,
    githubUrl: Option<string>,
    liveUrl: Option<string>,
    imageUrl: Option<string>)

  /** The persistent state the handlers see. `users` is keyed by the unique
      subject id, so at most one local user resolves for a caller. */
  datatype Store = Store(users: map<ClerkId, UserId>, projects: map<ProjectId, Project>)

  /** The error replies the handlers produce, each sent as a JSON body whose
      `error` field reads "Title is required" (400), "User not found" (404),
      "Project not found" (404) or "Forbidden" (403). */
  datatype Failure = TitleRequired | UserNotFound | ProjectNotFound | Forbidden

  /** A handler's reply: the JSON payload's shape; `StatusCode` gives its HTTP status. */
  datatype Reply =
    | ProjectList(entries: seq<Entry>)
    | OwnedProjects(owned: map<ProjectId, Project>)
    | Created(created: Entry)
    | Found(found: Entry)
    | Updated(updated: Entry)
    | Deleted
    | Failed(failure: Failure)

  /** A mutating handler's result: its reply and the store after the request. */
  datatype Outcome = Outcome(reply: Reply, store: Store)

  /** JavaScript truthiness of the `title` field, for a string-valued field:
      an absent title and the empty string are both falsy. */
  predicate Falsy(title: Option<string>) {
    title.None? || title.value == ""
  }

  function StatusCode(r: Reply): int {
    match r
    case Created(_) => 201
    case Failed(f) =>
      (match f
       case TitleRequired => 400
       case UserNotFound => 404
       case ProjectNotFound => 404
       case Forbidden => 403)
    case _ => 200
  }

  /** The local user a caller resolves to, if any. */
  function ResolveUser(s: Store, caller: ClerkId): Option<UserId> {
    if caller in s.users then Some(s.users[caller]) else None
  }

  /** The caller resolves to the local user that owns project `id`. */
  predicate IsOwner(s: Store, caller: ClerkId, id: ProjectId) {
    caller in s.users && id in s.projects && s.projects[id].userId == s.users[caller]
  }

  /** The caller resolves to a local user and project `id` exists, but
      another user owns it. */
  predicate OwnedByOther(s: Store, caller: ClerkId, id: ProjectId) {
    caller in s.users && id in s.projects && s.projects[id].userId != s.users[caller]
  }

  /** The projects whose owner is local user `uid`. */
  function OwnedBy(s: Store, uid: UserId): map<ProjectId, Project> {
    map id | id in s.projects && s.projects[id].userId == uid :: s.projects[id]
  }

  /** Every project row's owner is a local user: the foreign key holds. */
  predicate OwnersAreUsers(s: Store) {
    forall id :: id in s.projects ==> s.projects[id].userId in s.users.Values
  }

  /** `p` holds every field the body supplies (the fields of an update's data). */
  predicate TakesSupplied(p: Project, b: Body) {
    && (b.title.Some? ==> p.title == b.title.value)
    && (b.description.Some? ==> p.description == b.description)
    && (b.techStack.Some? ==> p.techStack == b.techStack)
    && (b.githubUrl.Some? ==> p.githubUrl == b.githubUrl)
    && (b.liveUrl.Some? ==> p.liveUrl == b.liveUrl)
    && (b.imageUrl.Some? ==> p.imageUrl == b.imageUrl)
  }

  /** `p`'s content is exactly the body's: the data of a create. The model
      assumes an absent optional field is stored as an empty (null) column;
      the storage schema's column defaults are not part of this model. */
  predicate ContentFrom(p: Project, b: Body) {
    && b.title == Some(p.title)
    && p.description == b.description
    && p.techStack == b.techStack
    && p.githubUrl == b.githubUrl
    && p.liveUrl == b.liveUrl
    && p.imageUrl == b.imageUrl
  }

  /** `after` differs from `before` at most at key `id`. */
  predicate OthersUnchanged(before: map<ProjectId, Project>, after: map<ProjectId, Project>, id: ProjectId) {
    forall k :: k in before && k != id ==> k in after && after[k] == before[k]
  }
}
