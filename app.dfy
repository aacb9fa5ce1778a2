/**
 * The HTTP handlers over the article table: the filtered, newest-first listing with its
 * lazy warm-up, the distinct categories and sources, and the bookmark handler. Request
 * parameters arrive already decoded; the JSON body of a response is its rows passed
 * through `ToDict` (see Serialize).
 */
module App {
  import opened Wrappers
  import opened Timestamps
  import opened Models
  import Fetcher

  // ----- SQLite's LIKE, as `Article.title.ilike('%q%')` renders it -----

  /** SQLite's `lower()`: only the ASCII letters A-Z are folded. */
  function LowerChar(c: char): char {
    if 'A' <= c <= 'Z' then (c as int - 'A' as int + 'a' as int) as char else c
  }

  function Lower(s: string): (r: string)
    ensures |r| == |s| && forall i :: 0 <= i < |s| ==> r[i] == LowerChar(s[i])
  {
    seq(|s|, i requires 0 <= i < |s| => LowerChar(s[i]))
  }

  /** `t LIKE p`: `%` matches any run of characters, `_` any one character, anything else itself. */
  predicate LikeMatch(p: string, t: string)
    decreases |p| + |t|
  {
    if p == [] then t == []
    else if p[0] == '%' then LikeMatch(p[1..], t) || (t != [] && LikeMatch(p, t[1..]))
    else t != [] && (p[0] == '_' || p[0] == t[0]) && LikeMatch(p[1..], t[1..])
  }

  /** `lower(title) LIKE lower('%' || keyword || '%')`; the keyword is not escaped. */
  predicate TitleMatches(title: string, keyword: string) {
    LikeMatch(Lower("%" + keyword + "%"), Lower(title))
  }

  /** A keyword with no LIKE wildcard in it. */
  predicate Literal(p: string) {
    forall i :: 0 <= i < |p| ==> p[i] != '%' && p[i] != '_'
  }

  /** `q` occurs in `t` at some position. */
  predicate IsSubstring(q: string, t: string) {
    exists i :: 0 <= i <= |t| && q <= t[i..]
  }

  /** Folding distributes over concatenation. */
  lemma LowerAppend(a: string, b: string)
    ensures Lower(a + b) == Lower(a) + Lower(b)
  {
    var l, r := Lower(a + b), Lower(a) + Lower(b);
    forall i | 0 <= i < |a + b|
      ensures l[i] == r[i]
    {
      if i < |a| {
        assert (a + b)[i] == a[i];
      } else {
        assert (a + b)[i] == b[i - |a|];
      }
    }
  }

  /** Folding a folded text changes nothing. */
  lemma LowerIdempotent(s: string)
    ensures Lower(Lower(s)) == Lower(s)
  {
    var l := Lower(s);
    forall i | 0 <= i < |s|
      ensures Lower(l)[i] == l[i]
    {
    }
  }

  /** Folding neither creates nor removes the LIKE wildcards, which are not letters. */
  lemma LowerKeepsWildcards(s: string)
    ensures Literal(Lower(s)) <==> Literal(s)
  {
    var l := Lower(s);
    assert forall i :: 0 <= i < |s| ==> (l[i] == '%' <==> s[i] == '%') && (l[i] == '_' <==> s[i] == '_');
  }

  lemma {:induction false} PercentMatchesAll(t: string)
    ensures LikeMatch("%", t)
    decreases |t|
  {
    assert "%"[1..] == [];
    if t != [] {
      PercentMatchesAll(t[1..]);
    }
  }

  /** A leading `%` lets the rest of the pattern match any suffix. */
  lemma {:induction false} LeadingPercent(p: string, t: string)
    ensures LikeMatch("%" + p, t) <==> exists i :: 0 <= i <= |t| && LikeMatch(p, t[i..])
    decreases |t|
  {
    var pp := "%" + p;
    assert pp[0] == '%' && pp[1..] == p;
    assert t[0..] == t;
    if t != [] {
      LeadingPercent(p, t[1..]);
      assert forall i :: 1 <= i <= |t| ==> t[1..][i - 1..] == t[i..];
      if LikeMatch(pp, t[1..]) {
        var i :| 0 <= i <= |t[1..]| && LikeMatch(p, t[1..][i..]);
        assert LikeMatch(p, t[i + 1..]);
      }
      if exists i :: 0 <= i <= |t| && LikeMatch(p, t[i..]) {
        var i :| 0 <= i <= |t| && LikeMatch(p, t[i..]);
        if i > 0 {
          assert LikeMatch(p, t[1..][i - 1..]);
        }
      }
    }
  }

  /** A literal pattern followed by `%` matches exactly the texts it is a prefix of. */
  lemma {:induction false} LiteralThenPercent(p: string, t: string)
    requires Literal(p)
    ensures LikeMatch(p + "%", t) <==> p <= t
    decreases |p|
  {
    if p == [] {
      assert p + "%" == "%";
      PercentMatchesAll(t);
    } else {
      var pp := p + "%";
      assert pp[0] == p[0] && pp[1..] == p[1..] + "%";
      if t != [] {
        LiteralThenPercent(p[1..], t[1..]);
      }
    }
  }

  /** For a keyword without wildcards, the listing's keyword filter is a case-folded substring test. */
  lemma KeywordIsSubstring(title: string, keyword: string)
    requires Literal(keyword)
    ensures TitleMatches(title, keyword) <==> IsSubstring(Lower(keyword), Lower(title))
  {
    var q, t := Lower(keyword), Lower(title);
    LowerAppend("%" + keyword, "%");
    LowerAppend("%", keyword);
    assert Lower("%") == "%";
    assert Lower("%" + keyword + "%") == "%" + (q + "%");
    LowerKeepsWildcards(keyword);
    LeadingPercent(q + "%", t);
    forall i | 0 <= i <= |t|
      ensures LikeMatch(q + "%", t[i..]) <==> q <= t[i..]
    {
      LiteralThenPercent(q, t[i..]);
    }
  }

  /** The keyword is not escaped: `q=_` lists every article, though no title need contain `_`. */
  lemma UnderscoreMatchesAnyTitle(title: string)
    requires title != []
    ensures TitleMatches(title, "_")
  {
    var t := Lower(title);
    assert "%" + "_" + "%" == "%_%";
    assert LowerChar('%') == '%' && LowerChar('_') == '_';
    assert Lower("%_%") == "%" + "_%";
    assert "_%"[0] == '_' && "_%"[1..] == "%";
    PercentMatchesAll(t[1..]);
    assert t[0..] == t;
    assert LikeMatch("_%", t[0..]);
    LeadingPercent("_%", t);
  }

  // ----- the listing -----

  /**
   * The decoded query string of `/api/articles`: `None` for an absent parameter. For `days`,
   * `None` also stands for a value that is not an integer, which the lookup replaces by its default.
   */
  datatype ListingQuery = ListingQuery(keyword: Option<string>, category: Option<string>, source: Option<string>, days: Option<int>)

  /** A string parameter narrows the listing only when it is present and non-empty. */
  predicate Active(p: Option<string>) {
    p.Some? && p.value != []
  }

  /** The `days` window: 7 unless given; 0 switches the date filter off. */
  function Window(days: Option<int>): int {
    days.GetOr(7)
  }

  /** The conjunction of the active filters for a listing requested at `now`. */
  predicate Matches(a: Article, query: ListingQuery, now: int) {
    && (Active(query.keyword) ==> TitleMatches(a.title, query.keyword.value))
    && (Active(query.category) ==> a.category == query.category)
    && (Active(query.source) ==> a.source == query.source)
    && (Window(query.days) != 0 ==> a.publishedAt >= now - Window(query.days) * SECONDS_PER_DAY)
  }

  predicate NewestFirst(s: seq<Article>) {
    forall i, j :: 0 <= i < j < |s| ==> s[i].publishedAt >= s[j].publishedAt
  }

  /** Puts `a` before the first row that is not newer than it. */
  function InsertNewest(a: Article, s: seq<Article>): (r: seq<Article>)
    requires NewestFirst(s)
    ensures NewestFirst(r) && multiset(r) == multiset(s) + multiset{a}
    ensures forall x :: x in r ==> x == a || x in s
    decreases |s|
  {
    if s == [] || a.publishedAt >= s[0].publishedAt then [a] + s
    else
      var rest := InsertNewest(a, s[1..]);
      InsertNewestStep(a, s, rest);
      [s[0]] + rest
  }

  lemma InsertNewestStep(a: Article, s: seq<Article>, rest: seq<Article>)
    requires NewestFirst(s) && s != [] && a.publishedAt < s[0].publishedAt
    requires NewestFirst(rest) && multiset(rest) == multiset(s[1..]) + multiset{a}
    requires forall x :: x in rest ==> x == a || x in s[1..]
    ensures NewestFirst([s[0]] + rest) && multiset([s[0]] + rest) == multiset(s) + multiset{a}
    ensures forall x :: x in [s[0]] + rest ==> x == a || x in s
  {
    assert s == [s[0]] + s[1..];
    assert forall x :: x in s[1..] ==> s[0].publishedAt >= x.publishedAt;
    ConsNewestFirst(s[0], rest);
  }

  lemma ConsNewestFirst(a: Article, s: seq<Article>)
    requires NewestFirst(s) && forall x :: x in s ==> a.publishedAt >= x.publishedAt
    ensures NewestFirst([a] + s)
  {
    var r := [a] + s;
    forall i, j | 0 <= i < j < |r|
      ensures r[i].publishedAt >= r[j].publishedAt
    {
      assert r[j] == s[j - 1];
      if i > 0 {
        assert r[i] == s[i - 1];
      } else {
        assert s[j - 1] in s;
      }
    }
  }

  /** `ORDER BY published_at DESC`; rows with equal timestamps keep their table order. */
  function SortNewestFirst(s: seq<Article>): (r: seq<Article>)
    ensures NewestFirst(r) && multiset(r) == multiset(s)
    decreases |s|
  {
    if s == [] then []
    else
      assert s == [s[0]] + s[1..];
      InsertNewest(s[0], SortNewestFirst(s[1..]))
  }

  /** The rows the listing query returns. */
  function Listing(s: seq<Article>, query: ListingQuery, now: int): seq<Article> {
    SortNewestFirst(Select(s, (a: Article) => Matches(a, query, now)))
  }

  /** A handler's answer: rows, one row, or an error status with its message. */
  datatype Response = Rows(rows: seq<Article>) | Row(row: Article) | Error(status: int, message: string)

  const FETCH_FAILED: string := "Failed to fetch articles from news API"
  const LISTING_FAILED: string := "Failed to fetch articles"

  /**
   * The listing's answer. A date cutoff outside the years a `datetime` can hold (before year 1
   * for a large `days`, after year 9999 for a large negative one) raises and is reported as a
   * 500; otherwise the answer is the matching rows, newest first.
   */
  function ListingResponse(s: seq<Article>, query: ListingQuery, now: int): (r: Response)
    ensures r.Error? <==> Window(query.days) != 0 && !InRange(now - Window(query.days) * SECONDS_PER_DAY)
    ensures r.Error? ==> r == Error(500, LISTING_FAILED)
    ensures !r.Error? ==> r.Rows? && NewestFirst(r.rows)
    ensures r.Rows? ==> forall a :: a in r.rows <==> a in s && Matches(a, query, now)
  {
    var w := Window(query.days);
    if w != 0 && !InRange(now - w * SECONDS_PER_DAY) then Error(500, LISTING_FAILED)
    else
      ListingExact(s, query, now);
      Rows(Listing(s, query, now))
  }

  /** The listing holds exactly the matching rows of the table, newest first, each once. */
  lemma ListingExact(s: seq<Article>, query: ListingQuery, now: int)
    ensures var r := Listing(s, query, now);
      && NewestFirst(r)
      && (forall a :: a in r <==> a in s && Matches(a, query, now))
      && multiset(r) == multiset(Select(s, (a: Article) => Matches(a, query, now)))
  {
    var sel := Select(s, (a: Article) => Matches(a, query, now));
    var r := Listing(s, query, now);
    forall a
      ensures a in r <==> a in sel
    {
      assert a in r <==> a in multiset(r);
      assert a in sel <==> a in multiset(sel);
    }
  }

  /**
   * The filters in plain terms, for a keyword without wildcards: a row is listed exactly when
   * its lower-cased title contains the lower-cased keyword, its category and source equal the
   * given ones, and it was published no earlier than `days` (7 by default) days before `now`;
   * an absent or empty parameter and `days=0` impose nothing.
   */
  lemma ListingFilters(s: seq<Article>, query: ListingQuery, now: int, a: Article)
    requires Active(query.keyword) ==> Literal(query.keyword.value)
    ensures a in Listing(s, query, now) <==>
      && a in s
      && (Active(query.keyword) ==> IsSubstring(Lower(query.keyword.value), Lower(a.title)))
      && (Active(query.category) ==> a.category == Some(query.category.value))
      && (Active(query.source) ==> a.source == Some(query.source.value))
      && (query.days.None? ==> a.publishedAt >= now - 7 * SECONDS_PER_DAY)
      && (query.days.Some? && query.days.value != 0 ==> a.publishedAt >= now - query.days.value * SECONDS_PER_DAY)
  {
    ListingExact(s, query, now);
    if Active(query.keyword) {
      KeywordIsSubstring(a.title, query.keyword.value);
    }
  }

  // ----- categories and sources -----

  /**
   * `SELECT DISTINCT column` without the null and empty values, in order of first appearance.
   */
  function DistinctValues(s: seq<Article>, column: Article -> Option<string>): (r: seq<string>)
    ensures forall v :: v in r <==> v != [] && exists a :: a in s && column(a) == Some(v)
    ensures forall i, j :: 0 <= i < j < |r| ==> r[i] != r[j]
    decreases |s|
  {
    if s == [] then []
    else
      var init := s[..|s| - 1];
      var last := s[|s| - 1];
      assert forall a :: a in s <==> a in init || a == last;
      var r := DistinctValues(init, column);
      var v := column(last);
      if v.Some? && v.value != [] && v.value !in r then r + [v.value] else r
  }

  /** `/api/categories`: every non-empty category in the table, once. */
  function Categories(s: seq<Article>): (r: seq<string>)
    ensures forall c :: c in r <==> c != [] && exists a :: a in s && a.category == Some(c)
    ensures forall i, j :: 0 <= i < j < |r| ==> r[i] != r[j]
  {
    DistinctValues(s, (a: Article) => a.category)
  }

  /** `/api/sources`: every non-empty source name in the table, once. */
  function Sources(s: seq<Article>): (r: seq<string>)
    ensures forall c :: c in r <==> c != [] && exists a :: a in s && a.source == Some(c)
    ensures forall i, j :: 0 <= i < j < |r| ==> r[i] != r[j]
  {
    DistinctValues(s, (a: Article) => a.source)
  }

  /** Every category a sync pass stores is one of the fixed categories. */
  lemma CategoriesAfterSync(s: seq<Article>, fetch: string -> Fetcher.Headlines, now: int, sweepFails: bool)
    requires forall a :: a in s && a.category.Some? ==> a.category.value in Fetcher.CATEGORIES
    ensures forall c :: c in Categories(Fetcher.SyncPass(s, fetch, now, sweepFails).articles) ==> c in Fetcher.CATEGORIES
  {
    Fetcher.SyncPassNewRows(s, fetch, now, sweepFails);
  }

  // ----- bookmarks -----

  datatype HttpMethod = Get | Post | Delete

  /** The rows `filter_by(is_bookmarked=True)` returns. */
  function Bookmarked(s: seq<Article>): seq<Article> {
    Select(s, (a: Article) => a.isBookmarked)
  }

  /** The table after the flag of the row keyed `id` is set to `value`; other tables stay as they are. */
  function Flagged(s: seq<Article>, id: int, value: bool): seq<Article> {
    match FirstIndex(s, (a: Article) => a.id == id)
    case Some(i) => WithBookmark(s, i, value)
    case None => s
  }

  /**
   * `/api/bookmarks`. GET lists the bookmarked rows. POST and DELETE need a non-zero
   * `article_id` (400 otherwise) naming a row (404 otherwise), set or clear its flag,
   * commit, and answer with the updated row.
   */
  method HandleBookmarks(db: Database, m: HttpMethod, articleId: Option<int>) returns (resp: Response)
    requires db.Valid()
    modifies db
    ensures db.Valid()
    ensures m == Get ==> resp == Rows(Bookmarked(old(db.articles))) && db.articles == old(db.articles)
    ensures m != Get && (articleId.None? || articleId.value == 0) ==>
      resp == Error(400, "article_id is required") && db.articles == old(db.articles)
    ensures m != Get && articleId.Some? && articleId.value != 0 && !HasId(old(db.articles), articleId.value) ==>
      resp == Error(404, "Article not found") && db.articles == old(db.articles)
    ensures m != Get && articleId.Some? && articleId.value != 0 && HasId(old(db.articles), articleId.value) ==>
      && db.articles == Flagged(old(db.articles), articleId.value, m == Post)
      && resp.Row? && resp.row in db.articles && resp.row.id == articleId.value && resp.row.isBookmarked == (m == Post)
  {
    if m == Get {
      return Rows(Bookmarked(db.articles));
    }
    if articleId.None? || articleId.value == 0 {
      return Error(400, "article_id is required");
    }
    var id := articleId.value;
    var index := db.IndexOfId(id);
    if index.None? {
      return Error(404, "Article not found");
    }
    var i := index.value;
    db.SetBookmark(i, m == Post);
    assert db.articles[i] in db.articles;
    return Row(db.articles[i]);
  }

  /** The row keyed `id` is the only one that changes, and only its flag changes. */
  lemma FlaggedTouchesOneRow(s: seq<Article>, id: int, value: bool)
    requires WellFormed(s)
    ensures var r := Flagged(s, id, value);
      && |r| == |s| && WellFormed(r)
      && forall i :: 0 <= i < |s| ==> r[i] == if s[i].id == id then s[i].(isBookmarked := value) else s[i]
  {
    match FirstIndex(s, (a: Article) => a.id == id)
    case Some(k) =>
      forall i | 0 <= i < |s| && s[i].id == id
        ensures i == k
      {
      }
    case None =>
  }

  /** Setting or clearing a bookmark twice is the same as doing it once. */
  lemma {:induction false} FlaggedIdempotent(s: seq<Article>, id: int, value: bool)
    requires WellFormed(s)
    ensures Flagged(Flagged(s, id, value), id, value) == Flagged(s, id, value)
  {
    var r := Flagged(s, id, value);
    FlaggedTouchesOneRow(s, id, value);
    FlaggedTouchesOneRow(r, id, value);
  }

  /** Clearing a bookmark that was just set restores a row that was not bookmarked. */
  lemma {:induction false} PostThenDelete(s: seq<Article>, id: int)
    requires WellFormed(s)
    requires forall a :: a in s && a.id == id ==> !a.isBookmarked
    ensures Flagged(Flagged(s, id, true), id, false) == s
  {
    var r := Flagged(s, id, true);
    FlaggedTouchesOneRow(s, id, true);
    FlaggedTouchesOneRow(r, id, false);
    forall i | 0 <= i < |s| && s[i].id == id
      ensures s[i].(isBookmarked := true).(isBookmarked := false) == s[i]
    {
      assert s[i] in s;
    }
  }

  /** After POST the row is among the bookmarks; after DELETE no row with that key is. */
  lemma BookmarksAfterUpdate(s: seq<Article>, id: int, value: bool)
    requires WellFormed(s) && HasId(s, id)
    ensures value ==> exists a :: a in Bookmarked(Flagged(s, id, value)) && a.id == id
    ensures !value ==> forall a :: a in Bookmarked(Flagged(s, id, value)) ==> a.id != id
  {
    var r := Flagged(s, id, value);
    FlaggedTouchesOneRow(s, id, value);
    var k :| 0 <= k < |s| && s[k].id == id;
    assert r[k] in r;
  }

  // ----- the listing handler -----

  /** The table after the listing handler: a sync pass runs only when the table is empty. */
  function WarmedUp(s: seq<Article>, apiKey: string, fetch: string -> Fetcher.Headlines, now: int, sweepFails: bool): seq<Article> {
    if s == [] && apiKey != [] then Fetcher.SyncPass(s, fetch, now, sweepFails).articles else s
  }

  /**
   * `/api/articles`. An empty table is first filled by a sync pass; if that raises, the
   * answer is a 500. The listing then filters and orders the table.
   */
  method GetArticles(db: Database, query: ListingQuery, apiKey: string, fetch: string -> Fetcher.Headlines,
                     now: int, sweepFails: bool) returns (resp: Response)
    requires db.Valid() && InRange(now)
    modifies db
    ensures db.Valid()
    ensures db.articles == WarmedUp(old(db.articles), apiKey, fetch, now, sweepFails)
    ensures old(db.articles) == [] && apiKey == [] ==> resp == Error(500, FETCH_FAILED)
    ensures old(db.articles) != [] || apiKey != [] ==> resp == ListingResponse(db.articles, query, now)
  {
    if |db.articles| == 0 {
      var r := Fetcher.FetchAndStoreArticles(db, apiKey, fetch, now, sweepFails);
      if r.Failure? {
        return Error(500, FETCH_FAILED);
      }
    }
    return ListingResponse(db.articles, query, now);
  }

  // ----- JSON bodies -----

  /** `[a.to_dict() for a in rows]`: one dictionary per row, in the rows' order. */
  function ToDicts(rows: seq<Article>): (r: seq<map<Key, Json>>)
    requires forall a :: a in rows ==> InRange(a.publishedAt) && InRange(a.createdAt)
    ensures |r| == |rows| && forall i :: 0 <= i < |rows| ==> r[i] == ToDict(rows[i])
  {
    seq(|rows|, i requires 0 <= i < |rows| => assert rows[i] in rows; ToDict(rows[i]))
  }

  /** The JSON list loses nothing: two row lists with the same dictionaries are the same rows in the same order. */
  lemma ToDictsInjective(r1: seq<Article>, r2: seq<Article>)
    requires forall a :: a in r1 ==> InRange(a.publishedAt) && InRange(a.createdAt)
    requires forall a :: a in r2 ==> InRange(a.publishedAt) && InRange(a.createdAt)
    requires ToDicts(r1) == ToDicts(r2)
    ensures r1 == r2
  {
    forall i | 0 <= i < |r1|
      ensures r1[i] == r2[i]
    {
      assert r1[i] in r1 && r2[i] in r2;
      ToDictInjective(r1[i], r2[i]);
    }
  }

  /** The body `jsonify` sends: rows as a list of `to_dict()` results, errors as `{"error": message}`. */
  datatype Body = List(items: seq<map<Key, Json>>) | Object(item: map<Key, Json>) | ErrorObject(error: string)

  function Serialize(resp: Response): Body
    requires resp.Rows? ==> forall a :: a in resp.rows ==> InRange(a.publishedAt) && InRange(a.createdAt)
    requires resp.Row? ==> InRange(resp.row.publishedAt) && InRange(resp.row.createdAt)
  {
    match resp
    case Rows(rows) => List(ToDicts(rows))
    case Row(row) => Object(ToDict(row))
    case Error(_, message) => ErrorObject(message)
  }
}
