/** The documents of the `articles` and `users` collections, and the
    field-level updates the handlers apply to one article. */
module Records {
  import opened Options

  /** An article's `_id`; the parsing of its hexadecimal form is not modelled. */
  type Id = nat

  const Approved: string := "approved"
  const Declined: string := "declined"
  const Yes: string := "yes"

  /** A field of a stored document as MongoDB keeps it: absent, `null`, or a
      value. Filters on a value match neither of the first two, but an update
      that writes `null` over an absent field changes the document, and `$inc`
      refuses a `null` field while it starts an absent one from zero. */
  datatype Field<+T> = Missing | Null | Value(value: T)

  /** What a request-body property becomes when `$set` writes it: the driver
      serialises `undefined` (and JSON `null`) as `null`. */
  function Written<T>(p: Option<T>): (f: Field<T>)
    ensures !f.Missing?
    ensures f.Value? <==> p.Some?
    ensures f.Value? ==> f.value == p.value
  {
    if p.Some? then Value(p.value) else Null
  }

  /** An article document. Every field but `_id` may be missing or `null`:
      documents are stored as the client sent them, and the decline upsert
      creates one holding only `status` and `declineReason`. */
  datatype Article = Article(
    id: Id,
    title: Field<string>,
    author: Field<string>,
    publisher: Field<string>,
    tags: Field<seq<string>>,
    photo: Field<string>,
    description: Field<string>,
    status: Field<string>,
    isPremium: Field<string>,
    declineReason: Field<string>,
    count: Field<int>)

  /** A user document; `email` is the key the sign-up handler looks up. No
      handler in this model updates a user, and `findOne({ email: null })`
      matches an absent email and a `null` one alike, so `None` stands for
      both here. */
  datatype User = User(
    email: Option<string>,
    name: Option<string>,
    photo: Option<string>,
    role: Option<string>,
    premiumTaken: Option<string>)

  /** `$inc` works on a number and on an absent field; on `null` (or any
      other non-number) the database refuses the update. */
  predicate Incrementable(a: Article) {
    !a.count.Null?
  }

  /** The counter `$inc` starts from: a missing `count` counts as zero. */
  function ViewCount(a: Article): int {
    if a.count.Value? then a.count.value else 0
  }

  /** `$inc: { count: 1 }`. */
  function Viewed(a: Article): (r: Article)
    requires Incrementable(a)
    ensures r.count.Value? && ViewCount(r) == ViewCount(a) + 1
    ensures Incrementable(r)
    ensures r.(count := a.count) == a
  {
    a.(count := Value(ViewCount(a) + 1))
  }

  /** `$set: { status: "approved" }`. */
  function WithApproval(a: Article): (r: Article)
    ensures r.status == Value(Approved)
    ensures r.(status := a.status) == a
  {
    a.(status := Value(Approved))
  }

  /** `$set: { isPremium: "yes" }`. */
  function WithPremium(a: Article): (r: Article)
    ensures r.isPremium == Value(Yes)
    ensures r.(isPremium := a.isPremium) == a
  {
    a.(isPremium := Value(Yes))
  }

  /** `$set: { declineReason: reason, status: "declined" }`; a reason the
      request body leaves out is written as `null`. */
  function WithDecline(a: Article, reason: Option<string>): (r: Article)
    ensures r.status == Value(Declined) && r.declineReason == Written(reason)
    ensures r.(status := a.status, declineReason := a.declineReason) == a
  {
    a.(status := Value(Declined), declineReason := Written(reason))
  }

  /** The document the decline upsert inserts when no article has the id: the
      `_id` of the filter and the two `$set` fields, nothing else. */
  function DeclinedStub(id: Id, reason: Option<string>): (r: Article)
    ensures r.id == id && r.status == Value(Declined) && r.declineReason == Written(reason)
    ensures r.title.Missing? && r.author.Missing? && r.publisher.Missing? && r.tags.Missing?
    ensures r.photo.Missing? && r.description.Missing? && r.isPremium.Missing? && r.count.Missing?
  {
    Article(id, Missing, Missing, Missing, Missing, Missing, Missing, Value(Declined), Missing, Written(reason), Missing)
  }

  /** The body of an article edit. `tags` must be an array (the handler maps
      over it); the other properties may be left out. */
  datatype EditBody = EditBody(
    title: Option<string>,
    publisher: Option<string>,
    tags: seq<string>,
    photo: Option<string>,
    description: Option<string>)

  /** `$set` of the five edited fields; a property the body leaves out is
      written as `null`. */
  function Edited(a: Article, e: EditBody): (r: Article)
    ensures r.title == Written(e.title) && r.publisher == Written(e.publisher) && r.tags == Value(e.tags)
    ensures r.photo == Written(e.photo) && r.description == Written(e.description)
    ensures r.id == a.id && r.author == a.author && r.status == a.status
    ensures r.isPremium == a.isPremium && r.declineReason == a.declineReason && r.count == a.count
  {
    a.(title := Written(e.title), publisher := Written(e.publisher), tags := Value(e.tags),
       photo := Written(e.photo), description := Written(e.description))
  }

  /** Two view increments add exactly two. */
  lemma ViewedTwice(a: Article)
    requires Incrementable(a)
    ensures Viewed(Viewed(a)).count == Value(ViewCount(a) + 2)
    ensures Viewed(Viewed(a)).(count := a.count) == a
  {
  }

  /** Approving twice is approving once; the decline reason survives. */
  lemma ApproveIdempotent(a: Article)
    ensures WithApproval(WithApproval(a)) == WithApproval(a)
    ensures WithApproval(a).declineReason == a.declineReason
  {
  }

  /** Approval wins over an earlier decline but keeps its reason; a later
      decline overwrites both fields. */
  lemma DeclineThenApprove(a: Article, reason: Option<string>)
    ensures WithApproval(WithDecline(a, reason)).status == Value(Approved)
    ensures WithApproval(WithDecline(a, reason)).declineReason == Written(reason)
    ensures WithDecline(WithApproval(a), reason) == WithDecline(a, reason)
  {
  }

  /** Declining with no reason still changes a document that had no
      `declineReason` field: the field is now `null`. */
  lemma DeclineWritesNull(a: Article)
    requires a.status == Value(Declined) && a.declineReason.Missing?
    ensures WithDecline(a, None) != a && WithDecline(a, None).declineReason == Null
  {
  }

  /** Promotion does not depend on, or change, the moderation status. */
  lemma PromoteCommutes(a: Article, reason: Option<string>)
    ensures WithPremium(WithApproval(a)) == WithApproval(WithPremium(a))
    ensures WithPremium(WithDecline(a, reason)) == WithDecline(WithPremium(a), reason)
  {
  }
}
