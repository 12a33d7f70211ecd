/** The queries of the public search (`/getRecentQueries`) and of the premium
    author search (`/getAuthorQueries`), and what it means for a stored article
    to satisfy one. */
module Search {
  import opened Options
  import opened JsText
  import opened Records

  /** One condition of a MongoDB filter document. The `*Like` conditions are
      `{ $regex: pattern, $options: 'i' }`; `HasTag(t)` is `tags: { $in: [t] }`. */
  datatype Cond =
    | TitleLike(pattern: string)
    | PublisherLike(pattern: string)
    | AuthorLike(pattern: string)
    | HasTag(tag: string)
    | StatusIs(status: string)
    | PremiumIs(flag: string)

  /** A filter document: the conjunction of its conditions. */
  type Query = seq<Cond>

  /** Case-insensitive regular-expression matching of a field, which this model
      takes as a parameter: `matches(pattern, value)`. */
  type Matcher = (string, string) -> bool

  /** A missing or `null` field matches neither a pattern nor a value. */
  predicate Holds(c: Cond, a: Article, matches: Matcher) {
    match c
    case TitleLike(p) => a.title.Value? && matches(p, a.title.value)
    case PublisherLike(p) => a.publisher.Value? && matches(p, a.publisher.value)
    case AuthorLike(p) => a.author.Value? && matches(p, a.author.value)
    case HasTag(t) => a.tags.Value? && t in a.tags.value
    case StatusIs(s) => a.status == Value(s)
    case PremiumIs(f) => a.isPremium == Value(f)
  }

  predicate Satisfies(q: Query, a: Article, matches: Matcher) {
    forall i :: 0 <= i < |q| ==> Holds(q[i], a, matches)
  }

  /** The elements of `s` that `keep` accepts, in their order. */
  function Where<T(!new)>(s: seq<T>, keep: T -> bool): (r: seq<T>)
    ensures |r| <= |s|
    ensures forall x :: x in r <==> x in s && keep(x)
  {
    if s == [] then []
    else if keep(s[0]) then [s[0]] + Where(s[1..], keep)
    else Where(s[1..], keep)
  }

  /** Filtering keeps the order of the input: filtering a concatenation is
      concatenating the filtered parts. */
  lemma {:induction false} WhereAppend<T(!new)>(s1: seq<T>, s2: seq<T>, keep: T -> bool)
    ensures Where(s1 + s2, keep) == Where(s1, keep) + Where(s2, keep)
  {
    if s1 == [] {
      assert s1 + s2 == s2;
    } else {
      WhereAppend(s1[1..], s2, keep);
      assert (s1 + s2)[0] == s1[0];
      assert (s1 + s2)[1..] == s1[1..] + s2;
    }
  }

  /** `find(q)` over the stored documents, in storage order. */
  function Find(stored: seq<Article>, q: Query, matches: Matcher): seq<Article> {
    Where(stored, a => Satisfies(q, a, matches))
  }

  lemma FindMembers(stored: seq<Article>, q: Query, matches: Matcher, a: Article)
    ensures a in Find(stored, q, matches) <==> a in stored && Satisfies(q, a, matches)
  {
  }

  /** The first-match-wins chain of `/getRecentQueries`: title, then publisher,
      then tag, then none; `"all"` switches the publisher and tag filters off. */
  function RecentQuery(title: Option<string>, publisher: Option<string>, tag: Option<string>): Query {
    if Present(title) then [TitleLike(title.value), StatusIs(Approved)]
    else if Present(publisher) then
      if publisher.value == "all" then [StatusIs(Approved)]
      else [PublisherLike(publisher.value), StatusIs(Approved)]
    else if Present(tag) then
      if tag.value == "all" then [StatusIs(Approved)]
      else [HasTag(tag.value), StatusIs(Approved)]
    else [StatusIs(Approved)]
  }

  /** The chain of `/getAuthorQueries`: an author pattern unless the parameter
      is blank or `"all"`, always restricted to approved premium articles. */
  function AuthorQuery(author: Option<string>): Query {
    if Present(author) && author.value != "all" then
      [AuthorLike(author.value), StatusIs(Approved), PremiumIs(Yes)]
    else [StatusIs(Approved), PremiumIs(Yes)]
  }

  /** An absent parameter, or one of only white space, does not filter. */
  predicate Unset(p: Option<string>) {
    p.None? || Blank(p.value)
  }

  /** A title with any non-blank character decides the query, whatever the
      publisher and tag parameters hold. */
  lemma TitleWins(title: Option<string>, publisher: Option<string>, tag: Option<string>)
    requires !Unset(title)
    ensures RecentQuery(title, publisher, tag) == [TitleLike(title.value), StatusIs(Approved)]
  {
    PresentIff(title);
  }

  /** `"all"` as a title is a pattern like any other. */
  lemma TitleAllIsPattern(publisher: Option<string>, tag: Option<string>)
    ensures RecentQuery(Some("all"), publisher, tag) == [TitleLike("all"), StatusIs(Approved)]
  {
    assert !Blank("all") by { assert !IsWhiteSpace("all"[0]); }
    TitleWins(Some("all"), publisher, tag);
  }

  /** The publisher filter is used exactly when the title does not filter and
      the publisher parameter is neither blank nor `"all"`. */
  lemma PublisherFilterIff(title: Option<string>, publisher: Option<string>, tag: Option<string>, p: string)
    ensures PublisherLike(p) in RecentQuery(title, publisher, tag)
        <==> Unset(title) && !Unset(publisher) && publisher.value != "all" && p == publisher.value
  {
    PresentIff(title);
    PresentIff(publisher);
  }

  /** The tag filter is used exactly when neither title nor publisher filters
      and the tag parameter is neither blank nor `"all"`. */
  lemma TagFilterIff(title: Option<string>, publisher: Option<string>, tag: Option<string>, t: string)
    ensures HasTag(t) in RecentQuery(title, publisher, tag)
        <==> Unset(title) && Unset(publisher) && !Unset(tag) && tag.value != "all" && t == tag.value
  {
    PresentIff(title);
    PresentIff(publisher);
    PresentIff(tag);
  }

  /** `"all"` as the deciding publisher or tag gives the approved-only query. */
  lemma AllSentinel(title: Option<string>, publisher: Option<string>, tag: Option<string>)
    requires Unset(title)
    requires publisher == Some("all") || (Unset(publisher) && tag == Some("all"))
    ensures RecentQuery(title, publisher, tag) == [StatusIs(Approved)]
  {
    PresentIff(title);
    PresentIff(publisher);
    assert !Blank("all") by { assert !IsWhiteSpace("all"[0]); }
    PresentIff(tag);
  }

  /** With no parameter that filters, every approved article is selected. */
  lemma NoFilter(title: Option<string>, publisher: Option<string>, tag: Option<string>)
    requires Unset(title) && Unset(publisher) && Unset(tag)
    ensures RecentQuery(title, publisher, tag) == [StatusIs(Approved)]
  {
    PresentIff(title);
    PresentIff(publisher);
    PresentIff(tag);
  }

  /** A chosen filter is one condition at most, and the approval condition is
      always the last one. */
  lemma RecentQueryShape(title: Option<string>, publisher: Option<string>, tag: Option<string>)
    ensures var q := RecentQuery(title, publisher, tag);
      1 <= |q| <= 2 && q[|q| - 1] == StatusIs(Approved)
  {
  }

  /** Every article the public search returns is approved. */
  lemma RecentResultsApproved(stored: seq<Article>, title: Option<string>, publisher: Option<string>,
                              tag: Option<string>, matches: Matcher, a: Article)
    requires a in Find(stored, RecentQuery(title, publisher, tag), matches)
    ensures a in stored && a.status == Value(Approved)
  {
    var q := RecentQuery(title, publisher, tag);
    RecentQueryShape(title, publisher, tag);
    assert Holds(q[|q| - 1], a, matches);
  }

  /** A blank, absent or `"all"` author gives the approved-and-premium query. */
  lemma AuthorSentinel(author: Option<string>)
    requires Unset(author) || author == Some("all")
    ensures AuthorQuery(author) == [StatusIs(Approved), PremiumIs(Yes)]
  {
    PresentIff(author);
  }

  /** Any other author is a pattern on the `author` field. */
  lemma AuthorPattern(author: Option<string>)
    requires !Unset(author) && author.value != "all"
    ensures AuthorQuery(author) == [AuthorLike(author.value), StatusIs(Approved), PremiumIs(Yes)]
  {
    PresentIff(author);
  }

  /** Every article the author search returns is approved and premium. */
  lemma AuthorResultsPremium(stored: seq<Article>, author: Option<string>, matches: Matcher, a: Article)
    requires a in Find(stored, AuthorQuery(author), matches)
    ensures a in stored && a.status == Value(Approved) && a.isPremium == Value(Yes)
  {
    var q := AuthorQuery(author);
    assert Holds(q[|q| - 2], a, matches) && Holds(q[|q| - 1], a, matches);
  }
}
