# Project store API: a model of its request handlers

The project store is a small HTTP API in which users, identified by an external
identity provider (Clerk), keep a portfolio of "projects" (title, description,
tech stack, GitHub, live and image URLs). The logic it owns is the decision
procedure of its route handlers in `src/index.ts`:

1. the title check on create, before any storage access;
2. resolution of the caller's Clerk subject id to a local user (an unknown
   caller is "User not found");
3. lookup of the target project ("Project not found");
4. the ownership check on update and delete (a mismatch is "Forbidden");
5. only then the create, update or delete.

This project models storage as an immutable value,
`Store(users: map<ClerkId, UserId>, projects: map<ProjectId, Project>)`, and
each handler as a pure function from the store and the request to a reply
(the JSON payload's shape, with `StatusCode` giving its HTTP status) and, for
the mutating routes, the store afterwards. The one exception is the public
list: the storage layer fixes no order among projects with equal creation
times, so `Listing.ListAll` is a method whose reply is any newest-first
listing of the store.

Files:

- `domain.dfy` (module `Domain`): the project row, the request body, the
  store, the replies and failures, and the predicates the contracts use
  (`IsOwner`, `OwnedByOther`, `TakesSupplied`, `ContentFrom`, ...).
- `listing.dfy` (module `Listing`): the public list, built by inserting every
  row into a newest-first sequence.
- `handlers.dfy` (module `Handlers`): create, get-by-id, list-mine, update,
  delete, and the shared owner check `AuthorizeOwner`.
- `lifecycle.dfy` (module `Lifecycle`): properties across requests: read after
  create, delete is terminal, and traces of requests (`Run`) by other users
  never touch one user's projects.

The creation time and the new project's id, both assigned by the storage
layer, are parameters of `Create`; the id is required to be fresh.

## Model

| member | source | states |
|---|---|---|
| Handlers.AuthorizeOwner | src/index.ts:118-137 | The owner check fails with "User not found" for an unknown caller, else "Project not found" for a missing id, else "Forbidden" when another user owns the project; it passes exactly when the caller resolves to the project's owner. |
| Handlers.Create | src/index.ts:38-72 | A falsy title (absent or empty) gives 400 "Title is required" with the store unchanged, whoever the caller is. A title with an unknown caller gives 404 "User not found" with no project added. Otherwise it replies 201. The new project's owner is the resolved user's id, its content is the body's, and its title is non-empty. Exactly the new id is added; users and every earlier project are unchanged. |
| Handlers.GetById | src/index.ts:75-89 | Public read with no ownership check: "Project not found" exactly when the id is absent, otherwise the stored project under that id. |
| Handlers.ListMine | src/index.ts:92-108 | An unknown caller gets 404 "User not found". A known caller gets exactly the stored projects whose owner is the resolved user, with their stored content. |
| Handlers.Update | src/index.ts:111-148 | Errors come in the order user, project, owner, and every error leaves the store unchanged. It succeeds exactly for the owner. The updated project takes every supplied content field, keeps its owner and creation time, and stays under its id. No other project changes and no project is added or removed. |
| Handlers.Delete | src/index.ts:151-179 | Same error precedence as update, and errors leave the store unchanged. It replies `{success: true}` exactly for the owner, and then removes exactly that id; users and every other project are unchanged. |
| Listing.Insert | src/index.ts:27-30 | Inserting into a newest-first sequence keeps it newest-first, adds exactly the one entry (the result is the input plus that entry, as a multiset), and keeps ids distinct when the new id is new. |
| Listing.ListAll | src/index.ts:25-35 | The public list holds every stored project once, under its id and with its stored content, ordered by creation time, newest first. |
| Listing.ListingUnique | src/index.ts:27-31 | When no two stored projects share a creation time, any two newest-first listings of the same store are equal, so repeated public lists with no write in between return the same sequence. |
| Listing.ListingCountsEveryProject | src/index.ts:27-31 | A newest-first listing has exactly as many entries as there are stored projects. |
| Lifecycle.CreateThenRead | src/index.ts:56-85 | After a successful create, reading the new id returns the created project, and the new id is in the creator's own list. |
| Lifecycle.DeleteIsTerminal | src/index.ts:163-175 | After the owner deletes a project, a read of that id gives "Project not found", and so does a delete or an update of it by any caller who resolves to a local user. |
| Lifecycle.RunKeepsUsers | src/index.ts:48-50 | No sequence of create, update and delete requests changes the users map: the handlers only look users up. |
| Lifecycle.RunKeepsOwnersAreUsers | src/index.ts:56-65 | Every project's owner stays a local user across any sequence of requests, because a new project's owner is always the resolved caller. |
| Lifecycle.StepByOtherKeepsOwned | src/index.ts:134-137 | One request whose caller does not resolve to user U leaves U's projects exactly as they were. |
| Lifecycle.OthersCannotTouchOwned | src/index.ts:169-172 | No sequence of create, update and delete requests from callers other than user U adds, changes or removes any of U's projects. |
| Lifecycle.ListMineUnaffectedByOthers | src/index.ts:96-104 | A known caller's own-projects reply is identical after any sequence of create, update and delete requests from callers who do not resolve to the same user. |

## Left out

- HTTP and Express plumbing (`src/index.ts:8-12`, `182-184`): routing, CORS, JSON parsing and the listener. Only the reply's shape and status code are modelled.
- The health route (`src/index.ts:18-20`): a constant reply with no logic.
- Clerk's `requireAuth` and `getAuth`: the caller's subject id is an input that has already been authenticated, so the 401 reply is not modelled.
- Prisma query execution and every `catch` that replies 500: these are foreign-library and I/O failures. Create's requirement that the new id is fresh stands for the storage layer's id generation.
- The embedded `user` row (`include: { user: true }`) in the public list and in get-by-id: replies carry the project with its `userId` only.
- The storage default order of a user's own projects: `ListMine` replies with the owned projects as a map, so their order is not modelled.
- Handlers.Update: fields absent from the body are kept in the model's `ApplyUpdate`, but no contract relies on that. Whether the storage layer keeps or clears them is library behaviour the source does not show. The contract states only that supplied fields are taken and that the owner and creation time are kept.
- Handlers.Create: an optional field absent from the body is stored as an empty (null) column. This is an assumption: the storage schema's column defaults are not part of this model.
- Request bodies whose fields are not strings (a numeric or boolean `title`, JSON `null`): fields are either absent or strings. For a string title, JavaScript falsiness means absent or empty.
- The update route does not re-check the title, so an owner may store an empty title. This is modelled: `TakesSupplied` holds for `Some("")`. Only `Create` promises a non-empty title.
- The scheduled job started in production (`src/index.ts:6`, `22`): it does not touch handler data.
- Races between the fetch, the check and the write of update and delete: each handler is modelled as one atomic transition.
- Listing.ListAll: projects with equal creation times may come in any order, because the storage layer promises no order among them. `Listing.ListingUnique` fixes the reply only when creation times are distinct.
