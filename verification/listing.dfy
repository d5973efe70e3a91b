/** The public project list: every row, newest first (`orderBy: createdAt desc`).
    Rows with equal timestamps may come in any order, as the storage layer
    promises nothing about ties.
 */
module Listing {
  import opened Domain

  /** Creation times never increase along the sequence. */
  predicate NewestFirst(es: seq<Entry>) {
    forall i, j :: 0 <= i < j < |es| ==> es[i].project.createdAt >= es[j].project.createdAt
  }

  /** No project id occurs twice. */
  predicate DistinctIds(es: seq<Entry>) {
    forall i, j :: 0 <= i < j < |es| ==> es[i].id != es[j].id
  }

  function IdsOf(es: seq<Entry>): set<ProjectId> {
    set e | e in es :: e.id
  }

  /** `es` lists every row of `projects` exactly once, each with its stored
      content, newest first. */
  predicate IsNewestFirstListing(projects: map<ProjectId, Project>, es: seq<Entry>) {
    && NewestFirst(es)
    && DistinctIds(es)
    && IdsOf(es) == projects.Keys
    && (forall e :: e in es ==> e.id in projects && projects[e.id] == e.project)
  }

  /** Places `e` before the first entry that is not newer than it. */
  function Insert(es: seq<Entry>, e: Entry): (r: seq<Entry>)
    requires NewestFirst(es)
    ensures NewestFirst(r)
    ensures |r| == |es| + 1
    ensures multiset(r) == multiset(es) + multiset{e}
    // membership, a corollary of the multiset clause, stated for callers
    ensures forall x :: x in r <==> x in es || x == e
    ensures DistinctIds(es) && (forall x :: x in es ==> x.id != e.id) ==> DistinctIds(r)
    decreases |es|
  {
    if |es| == 0 then [e]
    else if es[0].project.createdAt <= e.project.createdAt then
      ConsNewestFirst(e, es);
      ConsDistinct(e, es);
      [e] + es
    else
      var h, t := es[0], es[1..];
      assert es == [h] + t;
      TailOf(es);
      var rest := Insert(t, e);
      ConsNewestFirst(h, rest);
      ConsDistinct(h, rest);
      [h] + rest
  }

  /** `h` may head `s` when it is not older than anything in `s`. */
  lemma ConsNewestFirst(h: Entry, s: seq<Entry>)
    requires NewestFirst(s)
    requires forall x :: x in s ==> h.project.createdAt >= x.project.createdAt
    ensures NewestFirst([h] + s)
  {
  }

  lemma ConsDistinct(h: Entry, s: seq<Entry>)
    ensures DistinctIds(s) && (forall x :: x in s ==> x.id != h.id) ==> DistinctIds([h] + s)
  {
  }

  /** Dropping the head keeps both orderings, and the head is not older than
      anything after it. */
  lemma TailOf(es: seq<Entry>)
    requires |es| > 0 && NewestFirst(es)
    ensures NewestFirst(es[1..])
    ensures forall x :: x in es[1..] ==> es[0].project.createdAt >= x.project.createdAt
    ensures DistinctIds(es) ==> DistinctIds(es[1..]) && forall x :: x in es[1..] ==> x.id != es[0].id
  {
  }

  /** The handler for `GET /api/v1/projects`: all rows, newest first. */
  method ListAll(s: Store) returns (r: Reply)
    ensures r.ProjectList?
    ensures IsNewestFirstListing(s.projects, r.entries)
  {
    var es: seq<Entry> := [];
    var pending := s.projects.Keys;
    while pending != {}
      invariant pending <= s.projects.Keys
      invariant NewestFirst(es)
      invariant DistinctIds(es)
      invariant IdsOf(es) == s.projects.Keys - pending
      invariant forall e :: e in es ==> e.id in s.projects && s.projects[e.id] == e.project
      decreases pending
    {
      var id :| id in pending;
      var e := Entry(id, s.projects[id]);
      assert forall x :: x in es ==> x.id != id;
      var before := es;
      es := Insert(es, e);
      assert IdsOf(es) == IdsOf(before) + {id};
      pending := pending - {id};
    }
    r := ProjectList(es);
  }

  /** A newest-first listing has one entry per stored project: nothing is
      dropped and nothing is repeated. */
  lemma {:induction false} ListingCountsEveryProject(projects: map<ProjectId, Project>, es: seq<Entry>)
    requires IsNewestFirstListing(projects, es)
    ensures |es| == |projects|
  {
    DistinctIdsCount(es);
    assert projects.Keys == IdsOf(es);
  }

  lemma {:induction false} DistinctIdsCount(es: seq<Entry>)
    requires DistinctIds(es)
    ensures |IdsOf(es)| == |es|
  {
    if |es| > 0 {
      var h, t := es[0], es[1..];
      assert es == [h] + t;
      assert DistinctIds(t) && forall x :: x in t ==> x.id != h.id by {
        forall x | x in t
          ensures x.id != h.id
        {
          var k :| 0 <= k < |t| && t[k] == x;
          assert es[k + 1] == x;
        }
        forall i, j | 0 <= i < j < |t|
          ensures t[i].id != t[j].id
        {
          assert t[i] == es[i + 1] && t[j] == es[j + 1];
        }
      }
      DistinctIdsCount(t);
      IdsOfCons(h, t);
    }
  }

  lemma IdsOfCons(h: Entry, t: seq<Entry>)
    requires forall x :: x in t ==> x.id != h.id
    ensures IdsOf([h] + t) == {h.id} + IdsOf(t)
    ensures h.id !in IdsOf(t)
  {
  }

  /** No two stored projects share a creation time. */
  predicate DistinctTimes(projects: map<ProjectId, Project>) {
    forall i, j :: i in projects && j in projects && i != j ==> projects[i].createdAt != projects[j].createdAt
  }

  /** When creation times are distinct, the newest-first listing of a store
      is unique: repeated public lists with no write in between are equal. */
  lemma {:induction false} ListingUnique(projects: map<ProjectId, Project>, a: seq<Entry>, b: seq<Entry>)
    requires IsNewestFirstListing(projects, a) && IsNewestFirstListing(projects, b)
    requires DistinctTimes(projects)
    ensures a == b
    decreases |a|
  {
    if |a| == 0 || |b| == 0 {
      EmptyListing(projects, a);
      EmptyListing(projects, b);
    } else {
      HeadsEqual(projects, a, b);
      TailListing(projects, a);
      TailListing(projects, b);
      var rest := projects - {a[0].id};
      assert IsNewestFirstListing(rest, b[1..]);
      ListingUnique(rest, a[1..], b[1..]);
      ConsEqual(a, b);
    }
  }

  lemma ConsEqual(a: seq<Entry>, b: seq<Entry>)
    requires |a| > 0 && |b| > 0 && a[0] == b[0] && a[1..] == b[1..]
    ensures a == b
  {
    assert a == [a[0]] + a[1..] && b == [b[0]] + b[1..];
  }

  lemma EmptyListing(projects: map<ProjectId, Project>, es: seq<Entry>)
    requires IsNewestFirstListing(projects, es)
    ensures |es| == 0 <==> |projects| == 0
  {
    if |es| > 0 {
      assert es[0].id in IdsOf(es);
    }
  }

  /** The head of a newest-first listing is not older than any stored project. */
  lemma HeadIsNewest(projects: map<ProjectId, Project>, es: seq<Entry>, id: ProjectId)
    requires IsNewestFirstListing(projects, es) && |es| > 0 && id in projects
    ensures es[0].project.createdAt >= projects[id].createdAt
  {
    assert id in IdsOf(es);
    var x :| x in es && x.id == id;
    var k :| 0 <= k < |es| && es[k] == x;
  }

  /** With distinct creation times, two listings start with the same entry. */
  lemma HeadsEqual(projects: map<ProjectId, Project>, a: seq<Entry>, b: seq<Entry>)
    requires IsNewestFirstListing(projects, a) && IsNewestFirstListing(projects, b)
    requires DistinctTimes(projects) && |a| > 0 && |b| > 0
    ensures a[0] == b[0]
  {
    assert a[0] in a && b[0] in b;
    HeadIsNewest(projects, a, b[0].id);
    HeadIsNewest(projects, b, a[0].id);
  }

  /** Dropping the head of a listing lists the store without that project. */
  lemma TailListing(projects: map<ProjectId, Project>, es: seq<Entry>)
    requires IsNewestFirstListing(projects, es) && |es| > 0
    ensures IsNewestFirstListing(projects - {es[0].id}, es[1..])
    ensures DistinctTimes(projects) ==> DistinctTimes(projects - {es[0].id})
  {
    var h, t := es[0], es[1..];
    assert es == [h] + t;
    TailOf(es);
    IdsOfCons(h, t);
    forall x | x in t
      ensures x in es
    {
    }
  }
}
