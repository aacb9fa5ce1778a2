/**
 * The `Article` table: one record type, the invariants the table keeps (primary key,
 * unique non-null url, non-null title), the defaults of a new row, `to_dict`, and the
 * table itself as an object whose rows the sync pass and the bookmark handler change in place.
 */
module Models {
  import opened Wrappers
  import opened Timestamps

  /**
   * One row. Nullable columns are Options; `published_at` and `created_at` are whole
   * seconds (see Timestamps). `id` is 0 until the database assigns the row its key.
   */
  datatype Article = Article(
    id: int,
    title: string,
    url: string,
    source: Option<string>,
    author: Option<string>,
    category: Option<string>,
    publishedAt: int,
    description: Option<string>,
    content: Option<string>,
    imageUrl: Option<string>,
    isBookmarked: bool,
    createdAt: int)

  /**
   * `Article(title=..., url=..., ...)` as the fetcher builds it, before the database assigns
   * its key: `published_at` and `created_at` default to the time of creation and
   * `is_bookmarked` to false.
   */
  function NewArticle(title: string, url: string, source: Option<string>, author: Option<string>,
                      category: Option<string>, publishedAt: Option<int>, description: Option<string>,
                      content: Option<string>, imageUrl: Option<string>, now: int): (a: Article)
    ensures !a.isBookmarked && a.createdAt == now && a.id == 0
    ensures publishedAt.None? ==> a.publishedAt == now
    ensures publishedAt.Some? ==> a.publishedAt == publishedAt.value
    ensures a.title == title && a.url == url && a.category == category
  {
    Article(0, title, url, source, author, category, publishedAt.GetOr(now), description, content, imageUrl, false, now)
  }

  /** A row the table can hold: a key, a non-empty title and url, and timestamps a `datetime` can represent. */
  predicate StorableArticle(a: Article) {
    a.id >= 1 && a.title != [] && a.url != [] && InRange(a.publishedAt) && InRange(a.createdAt)
  }

  /** The table's constraints: `id` is the primary key and `url` is unique. */
  predicate WellFormed(s: seq<Article>) {
    && (forall a :: a in s ==> StorableArticle(a))
    && (forall i, j :: 0 <= i < |s| && 0 <= j < |s| && s[i].id == s[j].id ==> i == j)
    && (forall i, j :: 0 <= i < |s| && 0 <= j < |s| && s[i].url == s[j].url ==> i == j)
  }

  predicate HasUrl(s: seq<Article>, url: string) {
    exists i :: 0 <= i < |s| && s[i].url == url
  }

  predicate HasId(s: seq<Article>, id: int) {
    exists i :: 0 <= i < |s| && s[i].id == id
  }

  /** The position of the first row satisfying `p`, as `query.filter(...).first()` finds it. */
  function FirstIndex(s: seq<Article>, p: Article -> bool): (r: Option<nat>)
    ensures r.Some? <==> exists i :: 0 <= i < |s| && p(s[i])
    ensures r.Some? ==> r.value < |s| && p(s[r.value]) && forall i :: 0 <= i < r.value ==> !p(s[i])
    decreases |s|
  {
    if s == [] then None
    else if p(s[0]) then Some(0)
    else
      match FirstIndex(s[1..], p)
      case None => assert forall i :: 1 <= i < |s| ==> s[i] == s[1..][i - 1]; None
      case Some(k) => assert forall i :: 1 <= i < k + 1 ==> s[i] == s[1..][i - 1]; Some(k + 1)
  }

  /** The largest key in the table, 0 when it is empty. */
  function MaxId(s: seq<Article>): (m: int)
    ensures m >= 0
    ensures forall a :: a in s ==> a.id <= m
    ensures m == 0 || exists a :: a in s && a.id == m
    decreases |s|
  {
    if s == [] then 0
    else
      var m := MaxId(s[..|s| - 1]);
      var last := s[|s| - 1];
      assert forall a :: a in s ==> a in s[..|s| - 1] || a == last;
      if last.id > m then last.id else m
  }

  /**
   * The key SQLite gives a new row of a table whose INTEGER PRIMARY KEY is not declared
   * AUTOINCREMENT: one more than the largest key present, or 1 in an empty table.
   */
  function NextId(s: seq<Article>): int {
    MaxId(s) + 1
  }

  /** The table after `session.add(a)` and `commit()`. */
  function Inserted(s: seq<Article>, a: Article): seq<Article> {
    s + [a.(id := NextId(s))]
  }

  lemma {:induction false} InsertedWellFormed(s: seq<Article>, a: Article)
    requires WellFormed(s) && !HasUrl(s, a.url)
    requires a.title != [] && a.url != [] && InRange(a.publishedAt) && InRange(a.createdAt)
    ensures WellFormed(Inserted(s, a))
    ensures HasUrl(Inserted(s, a), a.url)
  {
    var r := Inserted(s, a);
    var n := |s|;
    assert r[n] == a.(id := NextId(s));
    forall i | 0 <= i < n
      ensures r[i].id != r[n].id && r[i].url != r[n].url
    {
      assert r[i] in s;
    }
  }

  /** The rows, in table order, that satisfy `keep`: what a filtered query returns. */
  function Select(s: seq<Article>, keep: Article -> bool): (r: seq<Article>)
    ensures |r| <= |s|
    ensures forall a :: a in r <==> a in s && keep(a)
    decreases |s|
  {
    if s == [] then []
    else
      var last := s[|s| - 1];
      assert forall a :: a in s <==> a in s[..|s| - 1] || a == last;
      Select(s[..|s| - 1], keep) + (if keep(last) then [last] else [])
  }

  lemma {:induction false} SelectAll(s: seq<Article>, keep: Article -> bool)
    requires forall a :: a in s ==> keep(a)
    ensures Select(s, keep) == s
    decreases |s|
  {
    if s != [] {
      var init := s[..|s| - 1];
      assert forall a :: a in init ==> a in s;
      SelectAll(init, keep);
      assert s[|s| - 1] in s;
      assert s == init + [s[|s| - 1]];
    }
  }

  /** Selecting rows keeps the table's constraints: a selection is an order-preserving subsequence. */
  lemma {:induction false} SelectWellFormed(s: seq<Article>, keep: Article -> bool)
    requires WellFormed(s)
    ensures WellFormed(Select(s, keep))
    decreases |s|
  {
    if s != [] {
      var init, last := s[..|s| - 1], s[|s| - 1];
      assert WellFormed(init) by {
        forall i, j | 0 <= i < |init| && 0 <= j < |init|
          ensures init[i] == s[i] && init[j] == s[j]
        {
        }
      }
      SelectWellFormed(init, keep);
      var p := Select(init, keep);
      if keep(last) {
        var r := p + [last];
        forall i | 0 <= i < |p|
          ensures r[i].id != last.id && r[i].url != last.url
        {
          assert p[i] in init;
          var k :| 0 <= k < |init| && init[k] == p[i];
          assert s[k] == p[i];
        }
        assert Select(s, keep) == r;
      }
    }
  }

  /** Two filters that agree on every row of the table select the same rows. */
  lemma {:induction false} SelectAgree(s: seq<Article>, p: Article -> bool, q: Article -> bool)
    requires forall a :: a in s ==> p(a) == q(a)
    ensures Select(s, p) == Select(s, q)
    decreases |s|
  {
    if s != [] {
      var init := s[..|s| - 1];
      assert forall a :: a in init ==> a in s;
      SelectAgree(init, p, q);
      assert s[|s| - 1] in s;
    }
  }

  /** Appending rows keeps every url the table holds. */
  lemma HasUrlPrefix(s: seq<Article>, t: seq<Article>, url: string)
    requires s <= t && HasUrl(s, url)
    ensures HasUrl(t, url)
  {
    var i :| 0 <= i < |s| && s[i].url == url;
    assert t[i] == s[i];
  }

  /** In a well-formed table a key identifies one row. */
  lemma SameIdSameRow(s: seq<Article>, a: Article, b: Article)
    requires WellFormed(s) && a in s && b in s && a.id == b.id
    ensures a == b
  {
    var i :| 0 <= i < |s| && s[i] == a;
    var j :| 0 <= j < |s| && s[j] == b;
  }

  /** In a well-formed table a url identifies one row. */
  lemma SameUrlSameRow(s: seq<Article>, a: Article, b: Article)
    requires WellFormed(s) && a in s && b in s && a.url == b.url
    ensures a == b
  {
    var i :| 0 <= i < |s| && s[i] == a;
    var j :| 0 <= j < |s| && s[j] == b;
  }

  /** Removes the rows whose key is in `ids`: what committing the session's pending deletions does. */
  function RemoveIds(s: seq<Article>, ids: set<int>): (r: seq<Article>)
    ensures forall a :: a in r <==> a in s && a.id !in ids
    ensures WellFormed(s) ==> WellFormed(r)
  {
    var keep := (a: Article) => a.id !in ids;
    if WellFormed(s) then SelectWellFormed(s, keep); Select(s, keep) else Select(s, keep)
  }

  /** The rows with the flag of the row at position `i` set to `value`. */
  function WithBookmark(s: seq<Article>, i: nat, value: bool): (r: seq<Article>)
    requires i < |s|
    ensures |r| == |s| && r[i].isBookmarked == value
    ensures forall j :: 0 <= j < |s| && j != i ==> r[j] == s[j]
    ensures r[i] == s[i].(isBookmarked := value)
    ensures WellFormed(s) ==> WellFormed(r)
  {
    var r := s[i := s[i].(isBookmarked := value)];
    assert forall j :: 0 <= j < |s| ==> r[j].id == s[j].id && r[j].url == s[j].url;
    assert forall a :: a in r ==> a in s || a == r[i];
    assert s[i] in s;
    r
  }

  /** A JSON value as `jsonify` writes it. */
  datatype Json = JNull | JBool(b: bool) | JInt(i: int) | JString(s: string)

  function NullableString(o: Option<string>): Json {
    match o
    case None => JNull
    case Some(s) => JString(s)
  }

  /** The keys of the dictionary `to_dict` builds, one per column. */
  datatype Key = Id | Title | Url | Source | Author | Category | PublishedAt | Description
               | Content | ImageUrl | IsBookmarked | CreatedAt

  /** The JSON member name of each key. */
  function KeyName(k: Key): string {
    match k
    case Id => "id"
    case Title => "title"
    case Url => "url"
    case Source => "source"
    case Author => "author"
    case Category => "category"
    case PublishedAt => "published_at"
    case Description => "description"
    case Content => "content"
    case ImageUrl => "image_url"
    case IsBookmarked => "is_bookmarked"
    case CreatedAt => "created_at"
  }

  /** The dictionary `to_dict` builds once the two timestamps are rendered: every column under its own key. */
  function DictOf(a: Article, published: string, created: string): (d: map<Key, Json>)
    ensures Id in d && Title in d && Url in d && Source in d && Author in d && Category in d
    ensures PublishedAt in d && Description in d && Content in d && ImageUrl in d
    ensures IsBookmarked in d && CreatedAt in d
    ensures d[Id] == JInt(a.id) && d[Title] == JString(a.title) && d[Url] == JString(a.url)
    ensures d[Source] == NullableString(a.source) && d[Author] == NullableString(a.author)
    ensures d[Category] == NullableString(a.category)
    ensures d[Description] == NullableString(a.description) && d[Content] == NullableString(a.content)
    ensures d[ImageUrl] == NullableString(a.imageUrl) && d[IsBookmarked] == JBool(a.isBookmarked)
    ensures d[PublishedAt] == JString(published) && d[CreatedAt] == JString(created)
  {
    map[
      Id := JInt(a.id),
      Title := JString(a.title),
      Url := JString(a.url),
      Source := NullableString(a.source),
      Author := NullableString(a.author),
      Category := NullableString(a.category),
      PublishedAt := JString(published),
      Description := NullableString(a.description),
      Content := NullableString(a.content),
      ImageUrl := NullableString(a.imageUrl),
      IsBookmarked := JBool(a.isBookmarked),
      CreatedAt := JString(created)
    ]
  }

  /** `Article.to_dict()`: the timestamps rendered by `isoformat()`. */
  function ToDict(a: Article): map<Key, Json>
    requires InRange(a.publishedAt) && InRange(a.createdAt)
  {
    DictOf(a, IsoFormat(a.publishedAt), IsoFormat(a.createdAt))
  }

  lemma NullableStringInjective(x: Option<string>, y: Option<string>)
    requires NullableString(x) == NullableString(y)
    ensures x == y
  {
  }

  /** Two dictionaries agree only if the rows agree on every column and the rendered timestamps agree. */
  lemma DictOfDetermines(a: Article, b: Article, pa: string, ca: string, pb: string, cb: string)
    requires DictOf(a, pa, ca) == DictOf(b, pb, cb)
    ensures pa == pb && ca == cb
    ensures a.(publishedAt := 0, createdAt := 0) == b.(publishedAt := 0, createdAt := 0)
  {
    var da, db := DictOf(a, pa, ca), DictOf(b, pb, cb);
    assert da[Id] == db[Id] && da[Title] == db[Title] && da[Url] == db[Url];
    assert da[IsBookmarked] == db[IsBookmarked];
    assert da[PublishedAt] == db[PublishedAt] && da[CreatedAt] == db[CreatedAt];
    NullableStringInjective(a.source, b.source);
    NullableStringInjective(a.author, b.author);
    NullableStringInjective(a.category, b.category);
    NullableStringInjective(a.description, b.description);
    NullableStringInjective(a.content, b.content);
    NullableStringInjective(a.imageUrl, b.imageUrl);
  }

  /** `to_dict` loses nothing: two rows with the same dictionary are the same row. */
  lemma ToDictInjective(a: Article, b: Article)
    requires InRange(a.publishedAt) && InRange(a.createdAt)
    requires InRange(b.publishedAt) && InRange(b.createdAt)
    requires ToDict(a) == ToDict(b)
    ensures a == b
  {
    DictOfDetermines(a, b, IsoFormat(a.publishedAt), IsoFormat(a.createdAt), IsoFormat(b.publishedAt), IsoFormat(b.createdAt));
    IsoFormatInjective(a.publishedAt, b.publishedAt);
    IsoFormatInjective(a.createdAt, b.createdAt);
    assert a.(publishedAt := 0, createdAt := 0).(publishedAt := a.publishedAt, createdAt := a.createdAt) == a;
  }

  /** The `article` table: its rows in storage order. */
  class Database {
    var articles: seq<Article>

    ghost predicate Valid()
      reads this
    {
      WellFormed(articles)
    }

    constructor ()
      ensures Valid() && articles == []
    {
      articles := [];
    }

    /** `Article.query.filter_by(url=url).first()` */
    function FindByUrl(url: string): (r: Option<Article>)
      reads this
      ensures r.Some? <==> HasUrl(articles, url)
      ensures r.Some? ==> r.value in articles && r.value.url == url
    {
      match FirstIndex(articles, (a: Article) => a.url == url)
      case Some(i) => Some(articles[i])
      case None => None
    }

    /** `Article.query.get(id)`: the position of the row with key `id`. */
    function IndexOfId(id: int): (r: Option<nat>)
      reads this
      ensures r.Some? <==> HasId(articles, id)
      ensures r.Some? ==> r.value < |articles| && articles[r.value].id == id
    {
      FirstIndex(articles, (a: Article) => a.id == id)
    }

    /** `session.add(a)` followed by `commit()`: the row is stored under the next key. */
    method Insert(a: Article) returns (stored: Article)
      requires Valid() && !HasUrl(articles, a.url)
      requires a.title != [] && a.url != [] && InRange(a.publishedAt) && InRange(a.createdAt)
      modifies this
      ensures Valid()
      ensures articles == Inserted(old(articles), a)
      ensures stored == a.(id := NextId(old(articles)))
    {
      InsertedWellFormed(articles, a);
      stored := a.(id := NextId(articles));
      articles := articles + [stored];
    }

    /** Sets `is_bookmarked` on the row at position `i` and commits; no other row or column changes. */
    method SetBookmark(i: nat, value: bool)
      requires Valid() && i < |articles|
      modifies this
      ensures Valid()
      ensures articles == WithBookmark(old(articles), i, value)
    {
      articles := WithBookmark(articles, i, value);
    }

    /** Commits the pending deletion of every row whose key is in `ids`, keeping the others in order. */
    method DeleteIds(ids: set<int>)
      requires Valid()
      modifies this
      ensures Valid()
      ensures articles == RemoveIds(old(articles), ids)
    {
      var kept: seq<Article> := [];
      var i := 0;
      while i < |articles|
        invariant 0 <= i <= |articles|
        invariant kept == RemoveIds(articles[..i], ids)
      {
        assert articles[..i + 1][..i] == articles[..i];
        if articles[i].id !in ids {
          kept := kept + [articles[i]];
        }
        i := i + 1;
      }
      assert articles[..i] == articles;
      articles := kept;
    }
  }
}
