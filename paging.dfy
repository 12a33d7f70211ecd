/** The pagination of the two admin listings, `/admin-users` (ten per page
    unless asked otherwise) and `/admin-all-articles` (six per page). */
module Paging {
  import opened Options
  import opened JsText

  /** `parseInt(param)`: an absent parameter is first converted to the string
      "undefined". */
  function ParseParam(param: Option<string>): Number {
    ParseInt(if param.Some? then param.value else "undefined")
  }

  /** `parseInt(param) || fallback`: `NaN` and zero are falsy and give way to
      the fallback. */
  function ParamOr(param: Option<string>, fallback: int): (r: int)
    ensures fallback != 0 ==> r != 0
  {
    var n := ParseParam(param);
    if n.Int? && n.value != 0 then n.value else fallback
  }

  /** A missing parameter takes the fallback. */
  lemma ParamMissing(fallback: int)
    ensures ParamOr(None, fallback) == fallback
  {
    ParseIntUndefined();
  }

  /** A parameter in which `parseInt` finds no number takes the fallback:
      its first character after white space and one sign is not a decimal
      digit, or a `0x` prefix is followed by no hex digit. */
  lemma ParamNotNumeric(s: string, fallback: int)
    requires NoNumber(Unsigned(s))
    ensures ParamOr(Some(s), fallback) == fallback
  {
    ParseIntNaNIff(s);
  }

  /** Digits after a first letter are not read: `"x5"` takes the fallback. */
  lemma LetterFirst(fallback: int)
    ensures ParamOr(Some("x5"), fallback) == fallback
  {
    var s := "x5";
    assert !IsWhiteSpace(s[0]) && TrimStart(s) == s;
    assert Unsigned(s) == s && !HexPrefixed(s) && DigitValue(s[0]) == 33;
    ParamNotNumeric(s, fallback);
  }

  /** A sign before a letter: `"-a1"` takes the fallback. */
  lemma SignThenLetter(fallback: int)
    ensures ParamOr(Some("-a1"), fallback) == fallback
  {
    var s := "-a1";
    assert !IsWhiteSpace(s[0]) && TrimStart(s) == s && HasSign(s);
    var u := s[1..];
    assert u == "a1" && Unsigned(s) == u;
    assert !HexPrefixed(u) && DigitValue(u[0]) == 10;
    ParamNotNumeric(s, fallback);
  }

  /** A hex prefix with nothing after it: `"0x"` takes the fallback. */
  lemma BareHexPrefix(fallback: int)
    ensures ParamOr(Some("0x"), fallback) == fallback
  {
    var s := "0x";
    assert !IsWhiteSpace(s[0]) && TrimStart(s) == s && !HasSign(s);
    assert NoNumber(Unsigned(s));
    ParamNotNumeric(s, fallback);
  }

  /** A hex prefix followed by a non-hex letter: `"0xg"` takes the fallback. */
  lemma HexPrefixThenLetter(fallback: int)
    ensures ParamOr(Some("0xg"), fallback) == fallback
  {
    var s := "0xg";
    assert !IsWhiteSpace(s[0]) && TrimStart(s) == s && !HasSign(s);
    assert DigitValue(s[2]) == 16;
    assert NoNumber(Unsigned(s));
    ParamNotNumeric(s, fallback);
  }

  /** A decimal number, followed by anything `parseInt` stops at, is taken as
      it is unless it is zero, which takes the fallback. */
  lemma ParamDecimal(n: int, rest: string, fallback: int)
    requires rest == [] || (DigitValue(rest[0]) >= 10 && rest[0] != 'x' && rest[0] != 'X')
    ensures ParamOr(Some(DecimalString(n) + rest), fallback) == if n == 0 then fallback else n
  {
    ParseIntDecimal(n, rest);
  }

  function Min(a: int, b: int): int {
    if a <= b then a else b
  }

  /** `Math.ceil(total / limit)`, the least integer at or above the quotient. */
  function CeilDiv(total: nat, limit: int): (r: int)
    requires limit != 0
    ensures limit > 0 ==> (r - 1) * limit < total <= r * limit
    ensures limit < 0 ==> r * limit <= total < (r - 1) * limit
  {
    if limit > 0 then
      var q := (total + limit - 1) / limit;
      assert q * limit <= total + limit - 1 < (q + 1) * limit;
      q
    else
      var q := total / -limit;
      assert q * -limit <= total < (q + 1) * -limit;
      -q
  }

  /** `find().skip(skip).limit(limit)`: at most |limit| documents from position
      `skip` on (the driver reads a negative limit as "that many, in one
      batch"; a zero limit cannot reach it). */
  function Window<T>(all: seq<T>, skip: nat, limit: int): (r: seq<T>)
    requires limit != 0
    ensures |r| == if skip >= |all| then 0 else Min(if limit < 0 then -limit else limit, |all| - skip)
    ensures forall i :: 0 <= i < |r| ==> r[i] == all[skip + i]
  {
    var n := if limit < 0 then -limit else limit;
    all[Min(skip, |all|)..Min(skip + n, |all|)]
  }

  /** The response of a listing, or the database's refusal of a negative skip,
      which the handlers do not catch. */
  datatype Page<T> =
    | Page(items: seq<T>, page: int, limit: int, total: nat, totalPages: int)
    | SkipRejected(skip: int)

  /** One listing over the stored documents `all`, once `page` and `limit`
      are known. */
  function Listing<T>(all: seq<T>, page: int, limit: int): Page<T>
    requires limit != 0
  {
    var skip := (page - 1) * limit;
    if skip < 0 then SkipRejected(skip)
    else Page(Window(all, skip, limit), page, limit, |all|, CeilDiv(|all|, limit))
  }

  /** An admin listing as the handlers compute it from the query parameters. */
  function Paginate<T>(all: seq<T>, pageParam: Option<string>, limitParam: Option<string>, fallback: int): Page<T>
    requires fallback != 0
  {
    Listing(all, ParamOr(pageParam, 1), ParamOr(limitParam, fallback))
  }

  /** With neither parameter, the first `fallback` documents are listed. */
  lemma PaginateDefaults<T>(all: seq<T>, fallback: int)
    requires fallback > 0
    ensures Paginate(all, None, None, fallback)
         == Page(all[..Min(fallback, |all|)], 1, fallback, |all|, CeilDiv(|all|, fallback))
  {
    ParamMissing(1);
    ParamMissing(fallback);
  }

  /** For a positive page and limit, the listing is the slice
      `[(page - 1) * limit, page * limit)` of the stored documents. */
  lemma ListingPositive<T>(all: seq<T>, page: int, limit: int)
    requires page >= 1 && limit >= 1
    ensures Listing(all, page, limit)
         == Page(all[Min((page - 1) * limit, |all|)..Min(page * limit, |all|)], page, limit, |all|, CeilDiv(|all|, limit))
  {
    assert (page - 1) * limit >= 0;
    assert (page - 1) * limit + limit == page * limit;
  }

  /** A page after the last one is empty. */
  lemma PastLastPage<T>(all: seq<T>, page: int, limit: int)
    requires limit > 0 && page > CeilDiv(|all|, limit)
    ensures Listing(all, page, limit).Page? && Listing(all, page, limit).items == []
  {
    var t := CeilDiv(|all|, limit);
    assert t * limit >= |all|;
    assert (page - 1) * limit >= t * limit;
  }

  /** A negative page with a positive limit passes the `|| 1` default and gets
      a negative skip, which the database refuses; so does a page above 1 with
      a negative limit. */
  lemma NegativeSkipRejected<T>(all: seq<T>, page: int, limit: int)
    requires limit != 0
    requires (page < 1 && limit > 0) || (page > 1 && limit < 0)
    ensures Listing(all, page, limit) == SkipRejected((page - 1) * limit)
  {
    if limit > 0 {
      assert (page - 1) * limit < 0;
    } else {
      assert (page - 1) * limit < 0;
    }
  }

  /** The first page is never refused, whatever the limit. */
  lemma FirstPageAccepted<T>(all: seq<T>, limit: int)
    requires limit != 0
    ensures Listing(all, 1, limit).Page? && Listing(all, 1, limit).items == Window(all, 0, limit)
  {
  }

  /** The first `k` pages of `limit` documents, one after the other. */
  function Pages<T>(all: seq<T>, limit: int, k: nat): seq<T>
    requires limit > 0
  {
    if k == 0 then [] else Pages(all, limit, k - 1) + Window(all, (k - 1) * limit, limit)
  }

  /** The first `k` pages are the first `k * limit` documents. */
  lemma {:induction false} PagesPrefix<T>(all: seq<T>, limit: int, k: nat)
    requires limit > 0
    ensures Pages(all, limit, k) == all[..Min(k * limit, |all|)]
  {
    if k > 0 {
      PagesPrefix(all, limit, k - 1);
      var lo, hi := Min((k - 1) * limit, |all|), Min(k * limit, |all|);
      assert (k - 1) * limit + limit == k * limit;
      assert Window(all, (k - 1) * limit, limit) == all[lo..hi];
      assert all[..lo] + all[lo..hi] == all[..hi];
    }
  }

  /** Pages 1 to `totalPages` list every stored document once, in order. */
  lemma PagesCoverAll<T>(all: seq<T>, limit: int)
    requires limit > 0
    ensures Pages(all, limit, CeilDiv(|all|, limit)) == all
  {
    var t := CeilDiv(|all|, limit);
    PagesPrefix(all, limit, t);
    assert all[..|all|] == all;
  }

  /** Twenty-five documents at ten per page make three pages; a fourth page
      requested as "4" is empty. */
  lemma TwentyFiveByTen<T>(all: seq<T>)
    requires |all| == 25
    ensures CeilDiv(|all|, 10) == 3
    ensures Paginate(all, Some("4"), None, 10) == Page([], 4, 10, 25, 3)
  {
    ParamDecimal(4, "", 1);
    assert DecimalString(4) + "" == "4";
    ParamMissing(10);
    PastLastPage(all, 4, 10);
  }
}
