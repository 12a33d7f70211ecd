/** The two aggregations: approved articles counted by publisher
    (`/articles-publisher`) and all articles counted by status
    (`/articles-status-count`). */
module Grouping {
  import opened Options
  import opened Records
  import opened Search

  /** A group key: the field's value, or `None` for the `null` group. */
  type Key = Option<string>

  /** `$group` puts an absent field and a `null` one in the same `null` group. */
  function AsKey(f: Field<string>): (k: Key)
    ensures k.Some? <==> f.Value?
    ensures k.Some? ==> k.value == f.value
  {
    if f.Value? then Some(f.value) else None
  }

  /** How many times `k` occurs in `keys`. */
  function Occurrences(keys: seq<Key>, k: Key): nat {
    if keys == [] then 0 else (if keys[0] == k then 1 else 0) + Occurrences(keys[1..], k)
  }

  lemma {:induction false} OccurrencesAbsent(keys: seq<Key>, k: Key)
    requires k !in keys
    ensures Occurrences(keys, k) == 0
  {
    if keys != [] {
      OccurrencesAbsent(keys[1..], k);
    }
  }

  /** `$group` on a key with `count: { $sum: 1 }`: one entry per distinct key,
      holding the number of documents that have it. */
  function Tally(keys: seq<Key>): (r: map<Key, nat>)
    ensures forall k :: k in r <==> k in keys
    ensures forall k :: k in r ==> r[k] == Occurrences(keys, k)
  {
    if keys == [] then map[]
    else
      var m := Tally(keys[1..]);
      var k := keys[0];
      if k in m then m[k := m[k] + 1]
      else
        OccurrencesAbsent(keys[1..], k);
        m[k := 1]
  }

  /** The value of one field in every document, in storage order. */
  function KeysOf(stored: seq<Article>, field: Article -> Key): (r: seq<Key>)
    ensures |r| == |stored|
    ensures forall i :: 0 <= i < |stored| ==> r[i] == field(stored[i])
  {
    if stored == [] then [] else [field(stored[0])] + KeysOf(stored[1..], field)
  }

  /** The documents whose `field` is `k`. */
  function HasKey(field: Article -> Key, k: Key): Article -> bool {
    (a: Article) => field(a) == k
  }

  /** A key occurs among the projected values exactly when a document has it. */
  lemma {:induction false} KeysOfMembers(stored: seq<Article>, field: Article -> Key, k: Key)
    ensures k in KeysOf(stored, field) <==> exists a :: a in stored && field(a) == k
  {
    if stored != [] {
      KeysOfMembers(stored[1..], field, k);
      assert KeysOf(stored, field) == [field(stored[0])] + KeysOf(stored[1..], field);
      assert forall a :: a in stored <==> a == stored[0] || a in stored[1..];
    }
  }

  /** Counting a key among the projected values is counting the documents
      whose field has that value. */
  lemma {:induction false} OccurrencesOfField(stored: seq<Article>, field: Article -> Key, k: Key)
    ensures Occurrences(KeysOf(stored, field), k) == |Where(stored, HasKey(field, k))|
  {
    if stored != [] {
      OccurrencesOfField(stored[1..], field, k);
      assert KeysOf(stored, field)[1..] == KeysOf(stored[1..], field);
    }
  }

  function Status(a: Article): Key { AsKey(a.status) }
  function PublisherOf(a: Article): Key { AsKey(a.publisher) }

  /** `/articles-status-count` before sorting. */
  function StatusCounts(stored: seq<Article>): map<Key, nat> {
    Tally(KeysOf(stored, Status))
  }

  /** The approved articles, `{ $match: { status: "approved" } }`. */
  function ApprovedOnly(stored: seq<Article>): seq<Article> {
    Where(stored, HasKey(Status, Some(Approved)))
  }

  /** `/articles-publisher` before sorting. */
  function PublisherCounts(stored: seq<Article>): map<Key, nat> {
    Tally(KeysOf(ApprovedOnly(stored), PublisherOf))
  }

  /** A status has an entry exactly when some article has it, and the entry
      counts those articles. */
  lemma StatusCountsMeaning(stored: seq<Article>, k: Key)
    ensures k in StatusCounts(stored) <==> exists a :: a in stored && Status(a) == k
    ensures k in StatusCounts(stored) ==> StatusCounts(stored)[k] == |Where(stored, HasKey(Status, k))|
  {
    KeysOfMembers(stored, Status, k);
    OccurrencesOfField(stored, Status, k);
  }

  /** A publisher has an entry exactly when some approved article names it,
      and the entry counts the approved articles that do. */
  lemma PublisherCountsMeaning(stored: seq<Article>, k: Key)
    ensures k in PublisherCounts(stored) <==> exists a :: a in stored && a.status == Value(Approved) && PublisherOf(a) == k
    ensures k in PublisherCounts(stored)
        ==> PublisherCounts(stored)[k] == |Where(ApprovedOnly(stored), HasKey(PublisherOf, k))|
  {
    var approved := ApprovedOnly(stored);
    KeysOfMembers(approved, PublisherOf, k);
    OccurrencesOfField(approved, PublisherOf, k);
    forall a ensures a in approved <==> a in stored && a.status == Value(Approved) {
      assert HasKey(Status, Some(Approved))(a) == (Status(a) == Some(Approved));
    }
  }
}
