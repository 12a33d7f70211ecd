/** The `articles` and `users` collections as objects whose methods are the
    request handlers that read or change them. */
module Stores {
  import opened Options
  import opened Records
  import opened Search
  import Paging
  import Auth
  import Grouping

  predicate Distinct(ids: seq<Id>) {
    forall i, j :: 0 <= i < j < |ids| ==> ids[i] != ids[j]
  }

  /** The documents of `docs` in the order `ids` lists them. */
  function InOrder(ids: seq<Id>, docs: map<Id, Article>): (r: seq<Article>)
    requires forall i :: 0 <= i < |ids| ==> ids[i] in docs
    ensures |r| == |ids|
    ensures forall i :: 0 <= i < |ids| ==> r[i] == docs[ids[i]]
  {
    if ids == [] then [] else [docs[ids[0]]] + InOrder(ids[1..], docs)
  }

  /** `ids` with `x` taken out. */
  function Without(ids: seq<Id>, x: Id): (r: seq<Id>)
    ensures forall y :: y in r <==> y in ids && y != x
  {
    if ids == [] then []
    else if ids[0] == x then Without(ids[1..], x)
    else [ids[0]] + Without(ids[1..], x)
  }

  lemma {:induction false} WithoutDistinct(ids: seq<Id>, x: Id)
    requires Distinct(ids)
    ensures Distinct(Without(ids, x))
  {
    if ids != [] {
      WithoutDistinct(ids[1..], x);
      var rest := Without(ids[1..], x);
      assert ids[0] !in ids[1..] by {
        forall j | 0 <= j < |ids[1..]| ensures ids[1..][j] != ids[0] {
          assert ids[1..][j] == ids[j + 1];
        }
      }
      if ids[0] != x {
        var r := [ids[0]] + rest;
        forall i, j | 0 <= i < j < |r| ensures r[i] != r[j] {
          if i == 0 {
            assert r[j] == rest[j - 1] && r[j] in rest;
          } else {
            assert r[i] == rest[i - 1] && r[j] == rest[j - 1];
          }
        }
      }
    }
  }

  /** The documents whose `_id` is not `x`. */
  function OtherThan(x: Id): Article -> bool {
    (a: Article) => a.id != x
  }

  /** Taking an id out of the order is filtering its document out of the
      listing, when every document is stored under its own id. */
  lemma {:induction false} InOrderWithout(ids: seq<Id>, docs: map<Id, Article>, x: Id)
    requires forall i :: 0 <= i < |ids| ==> ids[i] in docs
    requires forall k :: k in docs ==> docs[k].id == k
    ensures forall i :: 0 <= i < |Without(ids, x)| ==> Without(ids, x)[i] in docs - {x}
    ensures InOrder(Without(ids, x), docs - {x}) == Where(InOrder(ids, docs), OtherThan(x))
  {
    var w := Without(ids, x);
    assert forall i :: 0 <= i < |w| ==> w[i] in w;
    if ids != [] {
      InOrderWithout(ids[1..], docs, x);
      var listing := InOrder(ids, docs);
      assert listing[0] == docs[ids[0]];
      assert listing[1..] == InOrder(ids[1..], docs);
      assert OtherThan(x)(listing[0]) == (ids[0] != x);
    }
  }

  /** Appending a new id appends its document to the listing. */
  lemma InOrderAppend(ids: seq<Id>, docs: map<Id, Article>, x: Id, a: Article)
    requires forall i :: 0 <= i < |ids| ==> ids[i] in docs
    requires x !in ids
    ensures forall i :: 0 <= i < |ids + [x]| ==> (ids + [x])[i] in docs[x := a]
    ensures InOrder(ids + [x], docs[x := a]) == InOrder(ids, docs) + [a]
  {
    var l, r := InOrder(ids + [x], docs[x := a]), InOrder(ids, docs) + [a];
    forall i | 0 <= i < |ids| ensures l[i] == r[i] {
      assert ids[i] in ids;
    }
  }

  /** What `updateOne` reports: documents matched, documents changed, and the
      id of a document an upsert inserted. */
  datatype UpdateResult = UpdateResult(matchedCount: nat, modifiedCount: nat, upsertedId: Option<Id>)

  /** A `$set` that leaves the document as it was modifies nothing. */
  function Modified(before: Article, after: Article): nat {
    if before == after then 0 else 1
  }

  datatype InsertResult = Inserted(insertedId: Id) | DuplicateKey(id: Id)
  datatype DeleteResult = DeleteResult(deletedCount: nat)

  /** The response of the view-count route: 404 "Article not found" when no
      document matched, 500 "Internal Server Error" when the database refused
      the update, else 200 with the update result. */
  datatype ViewResponse = NotFound | ServerError | Counted(result: UpdateResult)

  /** The `articles` collection: the documents by `_id`, and their natural
      (insertion) order, in which `find` returns them. */
  class ArticleStore {
    var ids: seq<Id>
    var docs: map<Id, Article>

    ghost predicate Valid()
      reads this
    {
      && Distinct(ids)
      && (forall i :: 0 <= i < |ids| ==> ids[i] in docs)
      && (forall k :: k in docs ==> k in ids)
      && (forall k :: k in docs ==> docs[k].id == k)
    }

    constructor ()
      ensures Valid() && ids == [] && docs == map[]
    {
      ids, docs := [], map[];
    }

    /** The stored documents in natural order. */
    function Listing(): seq<Article>
      reads this
      requires Valid()
    {
      InOrder(ids, docs)
    }

    /** `POST /articles`: the body is stored under its `_id` (the driver's
        fresh one, or the client's); a taken `_id` is a duplicate-key error. */
    method Insert(a: Article) returns (r: InsertResult)
      requires Valid()
      modifies this
      ensures Valid()
      ensures a.id in old(docs) ==> r == DuplicateKey(a.id) && ids == old(ids) && docs == old(docs)
      ensures a.id !in old(docs) ==> r == Inserted(a.id) && ids == old(ids) + [a.id] && docs == old(docs)[a.id := a]
      ensures Listing() == if a.id in old(docs) then old(Listing()) else old(Listing()) + [a]
    {
      if a.id in docs {
        r := DuplicateKey(a.id);
      } else {
        InOrderAppend(ids, docs, a.id, a);
        AppendDistinct(ids, a.id);
        ids, docs := ids + [a.id], docs[a.id := a];
        r := Inserted(a.id);
      }
    }

    /** `PUT /news/:id`: `$inc` the view counter of one article. */
    method IncrementViews(id: Id) returns (r: ViewResponse)
      requires Valid()
      modifies this
      ensures Valid() && ids == old(ids)
      ensures id !in old(docs) ==> r == NotFound && docs == old(docs)
      ensures id in old(docs) && !Incrementable(old(docs)[id]) ==> r == ServerError && docs == old(docs)
      ensures id in old(docs) && Incrementable(old(docs)[id])
              ==> (r == Counted(UpdateResult(1, 1, None))
                   && docs == old(docs)[id := Viewed(old(docs)[id])])
    {
      if id !in docs {
        r := NotFound;
      } else if !Incrementable(docs[id]) {
        r := ServerError;
      } else {
        docs := docs[id := Viewed(docs[id])];
        r := Counted(UpdateResult(1, 1, None));
      }
    }

    /** `PUT /approve-article/:id`. */
    method Approve(id: Id) returns (r: UpdateResult)
      requires Valid()
      modifies this
      ensures Valid() && ids == old(ids)
      ensures id !in old(docs) ==> r == UpdateResult(0, 0, None) && docs == old(docs)
      ensures id in old(docs) ==> (docs == old(docs)[id := WithApproval(old(docs)[id])]
                               && r == UpdateResult(1, Modified(old(docs)[id], docs[id]), None))
    {
      if id !in docs {
        r := UpdateResult(0, 0, None);
      } else {
        var before := docs[id];
        docs := docs[id := WithApproval(before)];
        r := UpdateResult(1, Modified(before, docs[id]), None);
      }
    }

    /** `PUT /update-article-premium/:id`. */
    method Promote(id: Id) returns (r: UpdateResult)
      requires Valid()
      modifies this
      ensures Valid() && ids == old(ids)
      ensures id !in old(docs) ==> r == UpdateResult(0, 0, None) && docs == old(docs)
      ensures id in old(docs) ==> (docs == old(docs)[id := WithPremium(old(docs)[id])]
                               && r == UpdateResult(1, Modified(old(docs)[id], docs[id]), None))
    {
      if id !in docs {
        r := UpdateResult(0, 0, None);
      } else {
        var before := docs[id];
        docs := docs[id := WithPremium(before)];
        r := UpdateResult(1, Modified(before, docs[id]), None);
      }
    }

    /** `PUT /reason-decline/:id`, an upsert: an unknown id gets a new document
        holding only the two fields, at the end of the natural order. */
    method Decline(id: Id, reason: Option<string>) returns (r: UpdateResult)
      requires Valid()
      modifies this
      ensures Valid()
      ensures id in old(docs) ==> (ids == old(ids)
                               && docs == old(docs)[id := WithDecline(old(docs)[id], reason)]
                               && r == UpdateResult(1, Modified(old(docs)[id], docs[id]), None))
      ensures id !in old(docs) ==> (ids == old(ids) + [id]
                                && docs == old(docs)[id := DeclinedStub(id, reason)]
                                && r == UpdateResult(0, 0, Some(id)))
      ensures id !in old(docs) ==> Listing() == old(Listing()) + [DeclinedStub(id, reason)]
    {
      if id in docs {
        var before := docs[id];
        docs := docs[id := WithDecline(before, reason)];
        r := UpdateResult(1, Modified(before, docs[id]), None);
      } else {
        InOrderAppend(ids, docs, id, DeclinedStub(id, reason));
        AppendDistinct(ids, id);
        ids, docs := ids + [id], docs[id := DeclinedStub(id, reason)];
        r := UpdateResult(0, 0, Some(id));
      }
    }

    /** `PUT /update-article/:id`. */
    method Edit(id: Id, e: EditBody) returns (r: UpdateResult)
      requires Valid()
      modifies this
      ensures Valid() && ids == old(ids)
      ensures id !in old(docs) ==> r == UpdateResult(0, 0, None) && docs == old(docs)
      ensures id in old(docs) ==> (docs == old(docs)[id := Edited(old(docs)[id], e)]
                               && r == UpdateResult(1, Modified(old(docs)[id], docs[id]), None))
    {
      if id !in docs {
        r := UpdateResult(0, 0, None);
      } else {
        var before := docs[id];
        docs := docs[id := Edited(before, e)];
        r := UpdateResult(1, Modified(before, docs[id]), None);
      }
    }

    /** `DELETE /delete-article/:id`. */
    method Delete(id: Id) returns (r: DeleteResult)
      requires Valid()
      modifies this
      ensures Valid()
      ensures docs == old(docs) - {id} && ids == Without(old(ids), id)
      ensures r == DeleteResult(if id in old(docs) then 1 else 0)
      ensures Listing() == Where(old(Listing()), OtherThan(id))
    {
      r := DeleteResult(if id in docs then 1 else 0);
      InOrderWithout(ids, docs, id);
      WithoutDistinct(ids, id);
      ids, docs := Without(ids, id), docs - {id};
    }

    /** `GET /getRecentQueries`. */
    method RecentQueries(title: Option<string>, publisher: Option<string>, tag: Option<string>, matches: Matcher)
      returns (r: seq<Article>)
      requires Valid()
      ensures r == Find(Listing(), RecentQuery(title, publisher, tag), matches)
      ensures forall a :: a in r ==> a in Listing() && a.status == Value(Approved)
    {
      r := Find(Listing(), RecentQuery(title, publisher, tag), matches);
      forall a | a in r ensures a in Listing() && a.status == Value(Approved) {
        RecentResultsApproved(Listing(), title, publisher, tag, matches, a);
      }
    }

    /** `GET /getAuthorQueries`. */
    method AuthorQueries(author: Option<string>, matches: Matcher) returns (r: seq<Article>)
      requires Valid()
      ensures r == Find(Listing(), AuthorQuery(author), matches)
      ensures forall a :: a in r ==> a in Listing() && a.status == Value(Approved) && a.isPremium == Value(Yes)
    {
      r := Find(Listing(), AuthorQuery(author), matches);
      forall a | a in r ensures a in Listing() && a.status == Value(Approved) && a.isPremium == Value(Yes) {
        AuthorResultsPremium(Listing(), author, matches, a);
      }
    }

    /** `GET /my-articles/:email`, behind `verifyToken`. */
    method MyArticles(header: Option<string>, email: string, verify: Auth.Verifier) returns (r: Auth.OwnResponse)
      requires Valid()
      ensures r == Auth.MyArticles(header, email, verify, Listing())
    {
      r := Auth.MyArticles(header, email, verify, Listing());
    }

    /** `GET /admin-all-articles`: six per page unless asked otherwise. */
    method AdminAllArticles(pageParam: Option<string>, limitParam: Option<string>) returns (r: Paging.Page<Article>)
      requires Valid()
      ensures r == Paging.Paginate(Listing(), pageParam, limitParam, 6)
    {
      r := Paging.Paginate(Listing(), pageParam, limitParam, 6);
    }

    /** `GET /articles-status-count`, as counts by key. */
    method StatusCounts() returns (r: map<Grouping.Key, nat>)
      requires Valid()
      ensures r == Grouping.StatusCounts(Listing())
    {
      r := Grouping.StatusCounts(Listing());
    }

    /** `GET /articles-publisher`, as counts by key. */
    method PublisherCounts() returns (r: map<Grouping.Key, nat>)
      requires Valid()
      ensures r == Grouping.PublisherCounts(Listing())
    {
      r := Grouping.PublisherCounts(Listing());
    }
  }

  lemma AppendDistinct(ids: seq<Id>, x: Id)
    requires Distinct(ids) && x !in ids
    ensures Distinct(ids + [x])
  {
    var r := ids + [x];
    forall i, j | 0 <= i < j < |r| ensures r[i] != r[j] {
      if j == |ids| {
        assert r[i] == ids[i] && ids[i] in ids;
      }
    }
  }

  /** No two users share an email. */
  predicate UniqueEmails(users: seq<User>) {
    forall i, j :: 0 <= i < j < |users| ==> users[i].email != users[j].email
  }

  /** `findOne({ email })`: the first user with that email (`None` matches
      users without one, since the driver sends `undefined` as `null`). */
  function IndexOfEmail(users: seq<User>, email: Option<string>): (r: Option<nat>)
    ensures r.Some? ==> r.value < |users| && users[r.value].email == email
    ensures r.Some? ==> forall j :: 0 <= j < r.value ==> users[j].email != email
    ensures r.None? ==> forall j :: 0 <= j < |users| ==> users[j].email != email
  {
    if users == [] then None
    else if users[0].email == email then Some(0)
    else match IndexOfEmail(users[1..], email)
      case None => None
      case Some(i) => Some(i + 1)
  }

  /** A user whose email is new keeps the emails unique. */
  lemma AppendNewEmail(users: seq<User>, u: User)
    requires UniqueEmails(users)
    requires forall j :: 0 <= j < |users| ==> users[j].email != u.email
    ensures UniqueEmails(users + [u])
  {
    var r := users + [u];
    forall i, j | 0 <= i < j < |r| ensures r[i].email != r[j].email {
      assert r[i] == users[i];
    }
  }

  datatype SignUp = AlreadyExists | Created

  /** The `users` collection, in natural order. */
  class UserStore {
    var users: seq<User>

    constructor ()
      ensures users == []
    {
      users := [];
    }

    /** `POST /users`: "user already exist" when a user has the email,
        otherwise the body is inserted. */
    method Register(u: User) returns (r: SignUp)
      modifies this
      ensures (exists i :: 0 <= i < |old(users)| && old(users)[i].email == u.email)
              ==> r == AlreadyExists && users == old(users)
      ensures (forall i :: 0 <= i < |old(users)| ==> old(users)[i].email != u.email)
              ==> r == Created && users == old(users) + [u]
      ensures UniqueEmails(old(users)) ==> UniqueEmails(users)
    {
      match IndexOfEmail(users, u.email)
      case Some(_) =>
        r := AlreadyExists;
      case None =>
        if UniqueEmails(users) {
          AppendNewEmail(users, u);
        }
        users := users + [u];
        r := Created;
    }

    /** `GET /admin-users`: ten per page unless asked otherwise. */
    method AdminUsers(pageParam: Option<string>, limitParam: Option<string>) returns (r: Paging.Page<User>)
      ensures r == Paging.Paginate(users, pageParam, limitParam, 10)
    {
      r := Paging.Paginate(users, pageParam, limitParam, 10);
    }
  }

  /** Two visits to an article raise its count by two and change nothing else. */
  method ViewTwice(s: ArticleStore, id: Id) returns (first: ViewResponse, second: ViewResponse)
    requires s.Valid() && id in s.docs && Incrementable(s.docs[id])
    modifies s
    ensures s.Valid() && s.ids == old(s.ids)
    ensures first == second == Counted(UpdateResult(1, 1, None))
    ensures s.docs == old(s.docs)[id := Viewed(Viewed(old(s.docs)[id]))]
    ensures s.docs[id].count == Value(ViewCount(old(s.docs)[id]) + 2)
  {
    first := s.IncrementViews(id);
    second := s.IncrementViews(id);
    ViewedTwice(old(s.docs)[id]);
  }

  /** A second approval matches the article but modifies nothing. */
  method ApproveTwice(s: ArticleStore, id: Id) returns (first: UpdateResult, second: UpdateResult)
    requires s.Valid() && id in s.docs
    modifies s
    ensures s.Valid() && s.ids == old(s.ids)
    ensures s.docs == old(s.docs)[id := WithApproval(old(s.docs)[id])]
    ensures second == UpdateResult(1, 0, None)
  {
    first := s.Approve(id);
    ApproveIdempotent(old(s.docs)[id]);
    second := s.Approve(id);
  }

  /** A new article that is not approved stays out of the unfiltered recent
      listing. */
  method SubmitPending(s: ArticleStore, a: Article, matches: Matcher) returns (shown: seq<Article>)
    requires s.Valid() && a.id !in s.docs && a.status != Value(Approved)
    modifies s
    ensures s.Valid() && s.Listing() == old(s.Listing()) + [a]
    ensures a !in shown
  {
    var inserted := s.Insert(a);
    shown := s.RecentQueries(None, None, None, matches);
  }

  /** Once approved, an article shows up in the unfiltered recent listing. */
  method ApproveShows(s: ArticleStore, id: Id, matches: Matcher) returns (shown: seq<Article>)
    requires s.Valid() && id in s.docs
    modifies s
    ensures s.Valid()
    ensures WithApproval(old(s.docs)[id]) in shown
  {
    ghost var b := WithApproval(s.docs[id]);
    ghost var k :| 0 <= k < |s.ids| && s.ids[k] == id;
    var approved := s.Approve(id);
    assert s.docs[s.ids[k]] == b;
    shown := s.RecentQueries(None, None, None, matches);
    ApprovedIsRecent(s.Listing(), k, matches);
  }

  /** An approved article is in the unfiltered recent listing. */
  lemma ApprovedIsRecent(listing: seq<Article>, k: nat, matches: Matcher)
    requires k < |listing| && listing[k].status == Value(Approved)
    ensures listing[k] in Find(listing, RecentQuery(None, None, None), matches)
  {
    NoFilter(None, None, None);
    FindMembers(listing, [StatusIs(Approved)], matches, listing[k]);
  }


  /** Signing up twice with the same email stores the user once. */
  method RegisterTwice(s: UserStore, u: User) returns (first: SignUp, second: SignUp)
    modifies s
    ensures second == AlreadyExists
    ensures first == Created ==> s.users == old(s.users) + [u]
    ensures first == AlreadyExists ==> s.users == old(s.users)
  {
    first := s.Register(u);
    if first == Created {
      assert s.users[|s.users| - 1].email == u.email;
    }
    second := s.Register(u);
  }
}
