/**
 * `fetch_and_store_articles`: one sync pass over the fixed categories. The NewsAPI call is
 * replaced by `fetch`, the provider's answer for each category; `now` stands for every
 * `datetime.utcnow()` of the pass. The pass is specified by the functions ItemStep, RunItems,
 * CategoryStep, RunCategories and SyncPass; the method FetchAndStoreArticles performs it on
 * a Database and is proved to leave exactly what SyncPass describes.
 */
module Fetcher {
  import opened Wrappers
  import opened Timestamps
  import opened Models

  /** The categories, in the order the pass requests them. */
  const CATEGORIES: seq<string> := ["business", "technology", "science", "health", "entertainment", "sports", "general"]

  /** Unbookmarked rows published more than seven days before the pass are deleted. */
  const RETENTION: int := 7 * SECONDS_PER_DAY

  /** One member of a NewsAPI item: missing from the dict, JSON null, or a string. */
  datatype Field = Absent | Null | Text(text: string)

  /** The item's `source` member: missing, null, or an object with optional `id` and `name`. */
  datatype SourceField = SourceAbsent | SourceNull | SourceObject(id: Field, name: Field)

  /** One element of the response's `articles` list. */
  datatype RawItem = RawItem(
    url: Field,
    title: Field,
    source: SourceField,
    author: Field,
    publishedAt: Field,
    description: Field,
    content: Field,
    urlToImage: Field)

  /**
   * What `get_top_headlines` gives for one category: a response with status 'ok' and its
   * `articles` list (an absent list reads as empty), a response with another status, or an exception.
   */
  datatype Headlines = Headlines(items: seq<RawItem>) | ErrorStatus(message: string) | Raised(message: string)

  datatype FetchError = MissingApiKey

  /** Python truthiness of a member that is present. */
  predicate Truthy(f: Field) {
    f.Text? && f.text != []
  }

  function Nullable(f: Field): Option<string>
    requires !f.Absent?
  {
    if f.Null? then None else Some(f.text)
  }

  /** `not item['url'] or not item['title']` raises KeyError, which ends the whole category. */
  predicate AbortsCategory(item: RawItem) {
    item.url.Absent? || (Truthy(item.url) && item.title.Absent?)
  }

  /** `item['source']['name'] if item['source'] else None` raises nothing (an empty dict is falsy). */
  predicate SourceReadable(s: SourceField) {
    match s
    case SourceAbsent => false
    case SourceNull => true
    case SourceObject(id, name) => !name.Absent? || id.Absent?
  }

  function SourceName(s: SourceField): Option<string>
    requires SourceReadable(s)
  {
    match s
    case SourceObject(_, name) => if name.Absent? then None else Nullable(name)
    case _ => None
  }

  /** Every key the per-item `try` block reads is present, so building the row raises no KeyError. */
  predicate Complete(item: RawItem) {
    && !item.publishedAt.Absent?
    && SourceReadable(item.source)
    && !item.author.Absent?
    && !item.description.Absent?
    && !item.content.Absent?
    && !item.urlToImage.Absent?
  }

  /** The item passes the empty-field check and can be turned into a row. */
  predicate Storable(item: RawItem) {
    Truthy(item.url) && Truthy(item.title) && Complete(item)
  }

  /** `publishedAt` parsed with the NewsAPI pattern, or `now` when it is empty, null or unparseable. */
  function PublishedAt(f: Field, now: int): (t: int)
    requires !f.Absent?
    ensures InRange(now) ==> InRange(t)
    ensures Truthy(f) && ParseTimestamp(f.text).Some? ==> t == ParseTimestamp(f.text).value
    ensures !(Truthy(f) && ParseTimestamp(f.text).Some?) ==> t == now
  {
    if Truthy(f) then ParseTimestamp(f.text).GetOr(now) else now
  }

  /** The row built from an item fetched for `category`; the database assigns its key. */
  function ToArticle(item: RawItem, category: string, now: int): Article
    requires Storable(item)
  {
    NewArticle(item.title.text, item.url.text, SourceName(item.source), Nullable(item.author),
               Some(category), Some(PublishedAt(item.publishedAt, now)), Nullable(item.description),
               Nullable(item.content), Nullable(item.urlToImage), now)
  }

  // ----- specification of the pass -----

  /** The table and `articles_added` while one category's list is walked; `aborted` once a KeyError left the loop. */
  datatype CategoryRun = CategoryRun(articles: seq<Article>, added: nat, aborted: bool)

  /** One iteration of the inner loop. */
  function ItemStep(run: CategoryRun, item: RawItem, category: string, now: int): CategoryRun {
    if run.aborted || AbortsCategory(item) then run.(aborted := true)
    else if !Storable(item) || HasUrl(run.articles, item.url.text) then run
    else CategoryRun(Inserted(run.articles, ToArticle(item, category, now)), run.added + 1, false)
  }

  function RunItems(run: CategoryRun, items: seq<RawItem>, category: string, now: int): CategoryRun
    decreases |items|
  {
    if items == [] then run
    else ItemStep(RunItems(run, items[..|items| - 1], category, now), items[|items| - 1], category, now)
  }

  /** The table and `articles_added` between categories. */
  datatype Pass = Pass(articles: seq<Article>, added: nat)

  /** One iteration of the outer loop: a bad status or an exception skips the category. */
  function CategoryStep(pass: Pass, category: string, response: Headlines, now: int): Pass {
    match response
    case Headlines(items) =>
      var run := RunItems(CategoryRun(pass.articles, pass.added, false), items, category, now);
      Pass(run.articles, run.added)
    case _ => pass
  }

  function RunCategories(pass: Pass, categories: seq<string>, fetch: string -> Headlines, now: int): Pass
    decreases |categories|
  {
    if categories == [] then pass
    else
      var last := categories[|categories| - 1];
      CategoryStep(RunCategories(pass, categories[..|categories| - 1], fetch, now), last, fetch(last), now)
  }

  /** The retention rule: a row survives the sweep when it is bookmarked or not older than `cutoff`. */
  predicate Keep(a: Article, cutoff: int) {
    a.isBookmarked || a.publishedAt >= cutoff
  }

  /** The rows the cleanup query selects: unbookmarked and published before `cutoff`. */
  function Stale(s: seq<Article>, cutoff: int): seq<Article> {
    Select(s, (a: Article) => !Keep(a, cutoff))
  }

  /** The table after a committed sweep. */
  function Retained(s: seq<Article>, cutoff: int): seq<Article> {
    Select(s, (a: Article) => Keep(a, cutoff))
  }

  /** The table and the returned count after a pass with a non-empty key; `sweepFails` rolls the sweep back. */
  function SyncPass(s: seq<Article>, fetch: string -> Headlines, now: int, sweepFails: bool): Pass {
    var p := RunCategories(Pass(s, 0), CATEGORIES, fetch, now);
    Pass(if sweepFails then p.articles else Retained(p.articles, now - RETENTION), p.added)
  }

  // ----- the pass on a database -----

  /**
   * The cleanup at the end of a pass: select the stale rows, mark each for deletion and commit.
   * When the commit fails the session is rolled back and no row is deleted.
   */
  method DeleteOldArticles(db: Database, cutoff: int, commitFails: bool)
    requires db.Valid()
    modifies db
    ensures db.Valid()
    ensures db.articles == if commitFails then old(db.articles) else Retained(old(db.articles), cutoff)
  {
    var oldArticles := Stale(db.articles, cutoff);
    var pending: set<int> := {};
    var k := 0;
    while k < |oldArticles|
      invariant 0 <= k <= |oldArticles|
      invariant forall x :: x in pending <==> exists m :: 0 <= m < k && oldArticles[m].id == x
    {
      pending := pending + {oldArticles[k].id};
      k := k + 1;
    }
    if !commitFails {
      StaleIdsSelectStale(db.articles, pending, cutoff);
      db.DeleteIds(pending);
    }
  }

  lemma StaleIdsSelectStale(s: seq<Article>, ids: set<int>, cutoff: int)
    requires WellFormed(s)
    requires forall x :: x in ids <==> exists m :: 0 <= m < |Stale(s, cutoff)| && Stale(s, cutoff)[m].id == x
    ensures RemoveIds(s, ids) == Retained(s, cutoff)
  {
    var victims := Stale(s, cutoff);
    forall a | a in s
      ensures (a.id !in ids) == Keep(a, cutoff)
    {
      if a.id in ids {
        var m :| 0 <= m < |victims| && victims[m].id == a.id;
        assert victims[m] in victims;
        SameIdSameRow(s, a, victims[m]);
      }
    }
    SelectAgree(s, (a: Article) => a.id !in ids, (a: Article) => Keep(a, cutoff));
  }

  /**
   * The inner loop of `fetch_and_store_articles` over one category's `articles` list, starting
   * from the running count `added`: each item is checked, looked up by url, and inserted and
   * committed on its own. A KeyError at the empty-field check leaves the loop; what was
   * committed stays.
   */
  method StoreItems(db: Database, items: seq<RawItem>, category: string, now: int, added: nat) returns (total: nat)
    requires db.Valid() && InRange(now)
    modifies db
    ensures db.Valid()
    ensures var run := RunItems(CategoryRun(old(db.articles), added, false), items, category, now);
      db.articles == run.articles && total == run.added
  {
    ghost var run0 := CategoryRun(db.articles, added, false);
    total := added;
    var j := 0;
    while j < |items|
      invariant 0 <= j <= |items|
      invariant db.Valid()
      invariant CategoryRun(db.articles, total, false) == RunItems(run0, items[..j], category, now)
    {
      var item := items[j];
      if AbortsCategory(item) {
        AbortFreezes(run0, items, j, category, now);
        return;
      }
      assert items[..j + 1][..j] == items[..j];
      if Truthy(item.url) && Truthy(item.title) {
        var existing := db.FindByUrl(item.url.text);
        // a missing key while the row is built raises inside the per-item `try`: the item is skipped
        if existing.None? && Complete(item) {
          var stored := db.Insert(ToArticle(item, category, now));
          total := total + 1;
        }
      }
      j := j + 1;
    }
    assert items[..j] == items;
  }

  /**
   * `fetch_and_store_articles(api_key)`. An empty key raises before the table is touched.
   * Otherwise every category is requested in order and its items stored; a bad status or an
   * exception skips the category. The stale rows are then swept, and the number of inserted
   * rows is returned.
   */
  method FetchAndStoreArticles(db: Database, apiKey: string, fetch: string -> Headlines, now: int, sweepFails: bool)
    returns (r: Result<nat, FetchError>)
    requires db.Valid() && InRange(now)
    modifies db
    ensures db.Valid()
    ensures apiKey == [] ==> r == Failure(MissingApiKey) && db.articles == old(db.articles)
    ensures apiKey != [] ==>
      var p := SyncPass(old(db.articles), fetch, now, sweepFails);
      r == Success(p.added) && db.articles == p.articles
  {
    if apiKey == [] {
      return Failure(MissingApiKey);
    }
    var added: nat := 0;
    var i := 0;
    while i < |CATEGORIES|
      invariant 0 <= i <= |CATEGORIES|
      invariant db.Valid()
      invariant Pass(db.articles, added) == RunCategories(Pass(old(db.articles), 0), CATEGORIES[..i], fetch, now)
    {
      var category := CATEGORIES[i];
      var response := fetch(category);
      if response.Headlines? {
        added := StoreItems(db, response.items, category, now, added);
      }
      assert CATEGORIES[..i + 1][..i] == CATEGORIES[..i];
      i := i + 1;
    }
    assert CATEGORIES[..i] == CATEGORIES;
    DeleteOldArticles(db, now - RETENTION, sweepFails);
    return Success(added);
  }

  // ----- properties of one category's loop -----

  /** No item before position `k` raised at the empty-field check, so the loop reaches item `k`. */
  predicate Reached(items: seq<RawItem>, k: int)
    requires 0 <= k <= |items|
  {
    forall m :: 0 <= m < k ==> !AbortsCategory(items[m])
  }

  /** Once a KeyError has left the item loop, the remaining items change nothing. */
  lemma {:induction false} AbortFreezes(run: CategoryRun, items: seq<RawItem>, j: nat, category: string, now: int)
    requires j < |items| && AbortsCategory(items[j])
    ensures RunItems(run, items, category, now) == RunItems(run, items[..j], category, now).(aborted := true)
    decreases |items|
  {
    var n := |items|;
    if n - 1 == j {
      assert items[..n - 1] == items[..j];
    } else {
      AbortFreezes(run, items[..n - 1], j, category, now);
      assert items[..n - 1][..j] == items[..j];
    }
  }

  /** Walking the list is walking it up to item `k`, taking item `k`, and walking the rest. */
  lemma RunItemsSplitAt(run: CategoryRun, items: seq<RawItem>, k: nat, category: string, now: int)
    requires k < |items|
    ensures RunItems(run, items, category, now)
         == RunItems(ItemStep(RunItems(run, items[..k], category, now), items[k], category, now), items[k + 1..], category, now)
  {
    assert items[..k + 1][..k] == items[..k];
    assert items == items[..k + 1] + items[k + 1..];
    RunItemsAppend(run, items[..k + 1], items[k + 1..], category, now);
  }

  /** Walking `a + b` is walking `a`, then `b` from where `a` left off. */
  lemma {:induction false} RunItemsAppend(run: CategoryRun, a: seq<RawItem>, b: seq<RawItem>, category: string, now: int)
    ensures RunItems(run, a + b, category, now) == RunItems(RunItems(run, a, category, now), b, category, now)
    decreases |b|
  {
    if b == [] {
      assert a + b == a;
    } else {
      var init := b[..|b| - 1];
      assert (a + b)[..|a + b| - 1] == a + init;
      assert (a + b)[|a + b| - 1] == b[|b| - 1];
      RunItemsAppend(run, a, init, category, now);
    }
  }

  /** The loop only appends rows, and `articles_added` counts exactly the rows it appended. */
  lemma {:induction false} RunItemsGrows(run: CategoryRun, items: seq<RawItem>, category: string, now: int)
    ensures var r := RunItems(run, items, category, now);
      run.articles <= r.articles && r.added == run.added + (|r.articles| - |run.articles|)
    decreases |items|
  {
    if items != [] {
      RunItemsGrows(run, items[..|items| - 1], category, now);
    }
  }

  /** The category is abandoned exactly when some item raised at the empty-field check. */
  lemma {:induction false} RunItemsAborted(run: CategoryRun, items: seq<RawItem>, category: string, now: int)
    ensures RunItems(run, items, category, now).aborted <==> run.aborted || !Reached(items, |items|)
    decreases |items|
  {
    if items != [] {
      var n := |items|;
      var init := items[..n - 1];
      RunItemsAborted(run, init, category, now);
      ReachedSnoc(items);
    }
  }

  /** The loop reaches the end of a list when it reaches its last item and that item does not raise. */
  lemma ReachedSnoc(items: seq<RawItem>)
    requires items != []
    ensures Reached(items, |items|) == (Reached(items[..|items| - 1], |items| - 1) && !AbortsCategory(items[|items| - 1]))
  {
    var init := items[..|items| - 1];
    assert forall m :: 0 <= m < |init| ==> init[m] == items[m];
  }

  /** An item the loop reaches and can store ends up with its url in the table. */
  lemma {:induction false} RunItemsStoresOffers(run: CategoryRun, items: seq<RawItem>, category: string, now: int)
    requires !run.aborted
    ensures forall m :: 0 <= m < |items| && Reached(items, m) && Storable(items[m]) ==>
      HasUrl(RunItems(run, items, category, now).articles, items[m].url.text)
    decreases |items|
  {
    if items != [] {
      var n := |items|;
      var init := items[..n - 1];
      var prev := RunItems(run, init, category, now);
      var r := RunItems(run, items, category, now);
      RunItemsStoresOffers(run, init, category, now);
      RunItemsAborted(run, init, category, now);
      assert prev.articles <= r.articles;
      forall m | 0 <= m < n && Reached(items, m) && Storable(items[m])
        ensures HasUrl(r.articles, items[m].url.text)
      {
        if m < n - 1 {
          assert init[m] == items[m];
          assert Reached(init, m) by {
            assert forall k :: 0 <= k < m ==> init[k] == items[k];
          }
          var k :| 0 <= k < |prev.articles| && prev.articles[k].url == items[m].url.text;
          assert r.articles[k] == prev.articles[k];
        } else {
          assert Reached(init, n - 1) by {
            assert forall k :: 0 <= k < n - 1 ==> init[k] == items[k];
          }
          if !HasUrl(prev.articles, items[m].url.text) {
            assert r.articles[|prev.articles|].url == items[m].url.text;
          } else {
            var k :| 0 <= k < |prev.articles| && prev.articles[k].url == items[m].url.text;
            assert r.articles[k] == prev.articles[k];
          }
        }
      }
    }
  }

  /** When the table already holds the url of every item the loop could store, the loop changes nothing. */
  lemma {:induction false} RunItemsUnchanged(run: CategoryRun, items: seq<RawItem>, category: string, now: int)
    requires forall m :: 0 <= m < |items| && Reached(items, m) && Storable(items[m]) ==>
      HasUrl(run.articles, items[m].url.text)
    ensures RunItems(run, items, category, now).articles == run.articles
    ensures RunItems(run, items, category, now).added == run.added
    decreases |items|
  {
    if items != [] {
      var n := |items|;
      var init := items[..n - 1];
      forall m | 0 <= m < n - 1 && Reached(init, m) && Storable(init[m])
        ensures HasUrl(run.articles, init[m].url.text)
      {
        assert init[m] == items[m];
        assert forall k :: 0 <= k < m ==> init[k] == items[k];
      }
      RunItemsUnchanged(run, init, category, now);
      RunItemsAborted(run, init, category, now);
      assert forall k :: 0 <= k < n - 1 ==> init[k] == items[k];
    }
  }

  /** The loop keeps the table's constraints. */
  lemma {:induction false} RunItemsWellFormed(run: CategoryRun, items: seq<RawItem>, category: string, now: int)
    requires WellFormed(run.articles) && InRange(now)
    ensures WellFormed(RunItems(run, items, category, now).articles)
    decreases |items|
  {
    if items != [] {
      var init := items[..|items| - 1];
      var prev := RunItems(run, init, category, now);
      var item := items[|items| - 1];
      RunItemsWellFormed(run, init, category, now);
      if !prev.aborted && !AbortsCategory(item) && Storable(item) && !HasUrl(prev.articles, item.url.text) {
        InsertedWellFormed(prev.articles, ToArticle(item, category, now));
      }
    }
  }

  /** The loop leaves the table's rows inside the retention window when the items it stores are. */
  lemma {:induction false} RunItemsKept(run: CategoryRun, items: seq<RawItem>, category: string, now: int, cutoff: int)
    requires forall a :: a in run.articles ==> Keep(a, cutoff)
    requires forall item :: item in items && Storable(item) ==> PublishedAt(item.publishedAt, now) >= cutoff
    ensures forall a :: a in RunItems(run, items, category, now).articles ==> Keep(a, cutoff)
    decreases |items|
  {
    if items != [] {
      var init := items[..|items| - 1];
      assert forall item :: item in init ==> item in items;
      RunItemsKept(run, init, category, now, cutoff);
      assert items[|items| - 1] in items;
    }
  }

  /** `a` is the row the loop builds from an item of `items` it reaches and can store. */
  ghost predicate BuiltFrom(a: Article, items: seq<RawItem>, category: string, now: int) {
    exists m :: 0 <= m < |items| && Reached(items, m) && Storable(items[m]) && a == ToArticle(items[m], category, now).(id := a.id)
  }

  /** A row built from an item of a prefix of the list is built from an item of the list. */
  lemma BuiltFromPrefix(a: Article, items: seq<RawItem>, j: nat, category: string, now: int)
    requires j <= |items| && BuiltFrom(a, items[..j], category, now)
    ensures BuiltFrom(a, items, category, now)
  {
    var m :| 0 <= m < j && Reached(items[..j], m) && Storable(items[..j][m])
      && a == ToArticle(items[..j][m], category, now).(id := a.id);
    assert forall i :: 0 <= i < j ==> items[..j][i] == items[i];
    assert Reached(items, m);
  }

  /** Every row of `s` from position `lo` on is built from an item of `items`. */
  ghost predicate AllBuiltFrom(s: seq<Article>, lo: nat, items: seq<RawItem>, category: string, now: int) {
    forall k :: lo <= k < |s| ==> BuiltFrom(s[k], items, category, now)
  }

  /** Every row the loop appends is built from an item it reached, under the category being walked. */
  lemma {:induction false} RunItemsProvenance(run: CategoryRun, items: seq<RawItem>, category: string, now: int)
    ensures AllBuiltFrom(RunItems(run, items, category, now).articles, |run.articles|, items, category, now)
    decreases |items|
  {
    if items != [] {
      var n := |items|;
      RunItemsProvenance(run, items[..n - 1], category, now);
      RunItemsGrows(run, items[..n - 1], category, now);
      ProvenanceStep(run, items, category, now);
    }
  }

  lemma ProvenanceStep(run: CategoryRun, items: seq<RawItem>, category: string, now: int)
    requires items != []
    requires var prev := RunItems(run, items[..|items| - 1], category, now);
      run.articles <= prev.articles && AllBuiltFrom(prev.articles, |run.articles|, items[..|items| - 1], category, now)
    ensures AllBuiltFrom(RunItems(run, items, category, now).articles, |run.articles|, items, category, now)
  {
    var n := |items|;
    var prev := RunItems(run, items[..n - 1], category, now);
    var item := items[n - 1];
    AllBuiltFromPrefix(prev.articles, |run.articles|, items, n - 1, category, now);
    if !prev.aborted && !AbortsCategory(item) && Storable(item) && !HasUrl(prev.articles, item.url.text) {
      LastItemBuilt(run, items, category, now);
      var r := RunItems(run, items, category, now);
      assert r.articles == prev.articles + [r.articles[|prev.articles|]];
      AllBuiltFromSnoc(prev.articles, r.articles[|prev.articles|], |run.articles|, items, category, now);
    }
  }

  lemma AllBuiltFromPrefix(s: seq<Article>, lo: nat, items: seq<RawItem>, j: nat, category: string, now: int)
    requires j <= |items| && AllBuiltFrom(s, lo, items[..j], category, now)
    ensures AllBuiltFrom(s, lo, items, category, now)
  {
    forall k | lo <= k < |s|
      ensures BuiltFrom(s[k], items, category, now)
    {
      BuiltFromPrefix(s[k], items, j, category, now);
    }
  }

  lemma AllBuiltFromSnoc(s: seq<Article>, x: Article, lo: nat, items: seq<RawItem>, category: string, now: int)
    requires lo <= |s| && AllBuiltFrom(s, lo, items, category, now) && BuiltFrom(x, items, category, now)
    ensures AllBuiltFrom(s + [x], lo, items, category, now)
  {
    var t := s + [x];
    forall k | lo <= k < |t|
      ensures BuiltFrom(t[k], items, category, now)
    {
      if k < |s| {
        assert t[k] == s[k];
      }
    }
  }

  /** The row the last iteration appends is built from the last item, which the loop reached. */
  lemma LastItemBuilt(run: CategoryRun, items: seq<RawItem>, category: string, now: int)
    requires items != []
    requires var prev := RunItems(run, items[..|items| - 1], category, now);
      var item := items[|items| - 1];
      !prev.aborted && !AbortsCategory(item) && Storable(item) && !HasUrl(prev.articles, item.url.text)
    ensures var prev := RunItems(run, items[..|items| - 1], category, now);
      BuiltFrom(RunItems(run, items, category, now).articles[|prev.articles|], items, category, now)
  {
    var n := |items|;
    var init := items[..n - 1];
    var prev := RunItems(run, init, category, now);
    var a := ToArticle(items[n - 1], category, now);
    var r := RunItems(run, items, category, now);
    assert r.articles == prev.articles + [a.(id := NextId(prev.articles))];
    RunItemsAborted(run, init, category, now);
    assert forall j :: 0 <= j < n - 1 ==> init[j] == items[j];
    assert Reached(items, n - 1);
  }

  /**
   * An item that does not end the loop and that the loop would skip (an empty url or title, a
   * missing key, or a url the table already holds) can be dropped from the list without effect.
   */
  lemma DroppingSkippedItem(run: CategoryRun, items: seq<RawItem>, k: nat, category: string, now: int)
    requires k < |items| && !AbortsCategory(items[k])
    requires !Storable(items[k]) || HasUrl(run.articles, items[k].url.text)
    ensures RunItems(run, items, category, now) == RunItems(run, items[..k] + items[k + 1..], category, now)
  {
    var prev := RunItems(run, items[..k], category, now);
    RunItemsGrows(run, items[..k], category, now);
    if Storable(items[k]) {
      HasUrlPrefix(run.articles, prev.articles, items[k].url.text);
    }
    assert ItemStep(prev, items[k], category, now) == prev;
    RunItemsSplitAt(run, items, k, category, now);
    RunItemsAppend(run, items[..k], items[k + 1..], category, now);
  }

  // ----- properties of the loop over categories -----

  lemma {:induction false} RunCategoriesAppend(pass: Pass, a: seq<string>, b: seq<string>, fetch: string -> Headlines, now: int)
    ensures RunCategories(pass, a + b, fetch, now) == RunCategories(RunCategories(pass, a, fetch, now), b, fetch, now)
    decreases |b|
  {
    if b == [] {
      assert a + b == a;
    } else {
      var init := b[..|b| - 1];
      assert (a + b)[..|a + b| - 1] == a + init;
      assert (a + b)[|a + b| - 1] == b[|b| - 1];
      RunCategoriesAppend(pass, a, init, fetch, now);
    }
  }

  /** The pass only appends rows, and the returned count is the number of rows it appended. */
  lemma {:induction false} RunCategoriesGrows(pass: Pass, categories: seq<string>, fetch: string -> Headlines, now: int)
    ensures var r := RunCategories(pass, categories, fetch, now);
      pass.articles <= r.articles && r.added == pass.added + (|r.articles| - |pass.articles|)
    decreases |categories|
  {
    if categories != [] {
      var init := categories[..|categories| - 1];
      var prev := RunCategories(pass, init, fetch, now);
      RunCategoriesGrows(pass, init, fetch, now);
      var response := fetch(categories[|categories| - 1]);
      if response.Headlines? {
        RunItemsGrows(CategoryRun(prev.articles, prev.added, false), response.items, categories[|categories| - 1], now);
      }
    }
  }

  lemma {:induction false} RunCategoriesWellFormed(pass: Pass, categories: seq<string>, fetch: string -> Headlines, now: int)
    requires WellFormed(pass.articles) && InRange(now)
    ensures WellFormed(RunCategories(pass, categories, fetch, now).articles)
    decreases |categories|
  {
    if categories != [] {
      var init := categories[..|categories| - 1];
      var prev := RunCategories(pass, init, fetch, now);
      RunCategoriesWellFormed(pass, init, fetch, now);
      var response := fetch(categories[|categories| - 1]);
      if response.Headlines? {
        RunItemsWellFormed(CategoryRun(prev.articles, prev.added, false), response.items, categories[|categories| - 1], now);
      }
    }
  }

  /** A category whose request failed or returned a bad status can be left out of the list without effect. */
  lemma SkippedCategory(pass: Pass, categories: seq<string>, i: nat, fetch: string -> Headlines, now: int)
    requires i < |categories| && !fetch(categories[i]).Headlines?
    ensures RunCategories(pass, categories, fetch, now)
         == RunCategories(pass, categories[..i] + categories[i + 1..], fetch, now)
  {
    assert categories[..i + 1] == categories[..i] + [categories[i]];
    RunCategoriesAppend(pass, categories[..i], [categories[i]], fetch, now);
    assert [categories[i]][..0] == [];
    assert categories == categories[..i + 1] + categories[i + 1..];
    RunCategoriesAppend(pass, categories[..i + 1], categories[i + 1..], fetch, now);
    RunCategoriesAppend(pass, categories[..i], categories[i + 1..], fetch, now);
  }

  /** The response offers `url`: the item loop reaches an item with that url that it can store. */
  ghost predicate Offers(response: Headlines, url: string) {
    && response.Headlines?
    && exists m :: 0 <= m < |response.items| && Reached(response.items, m) && Storable(response.items[m])
         && response.items[m].url.text == url
  }

  /** After the pass the table holds every url some category offered. */
  lemma {:induction false} RunCategoriesStoresOffers(pass: Pass, categories: seq<string>, fetch: string -> Headlines, now: int)
    ensures forall j, url :: 0 <= j < |categories| && Offers(fetch(categories[j]), url) ==>
      HasUrl(RunCategories(pass, categories, fetch, now).articles, url)
    decreases |categories|
  {
    if categories != [] {
      var n := |categories|;
      var init := categories[..n - 1];
      var last := categories[n - 1];
      var prev := RunCategories(pass, init, fetch, now);
      var r := RunCategories(pass, categories, fetch, now);
      RunCategoriesStoresOffers(pass, init, fetch, now);
      var response := fetch(last);
      if response.Headlines? {
        var run0 := CategoryRun(prev.articles, prev.added, false);
        RunItemsGrows(run0, response.items, last, now);
        RunItemsStoresOffers(run0, response.items, last, now);
      }
      assert prev.articles <= r.articles;
      forall j, url | 0 <= j < n && Offers(fetch(categories[j]), url)
        ensures HasUrl(r.articles, url)
      {
        if j < n - 1 {
          assert init[j] == categories[j];
          HasUrlPrefix(prev.articles, r.articles, url);
        }
      }
    }
  }

  /** When the table already holds every url the categories offer, the pass adds nothing. */
  lemma {:induction false} RunCategoriesUnchanged(pass: Pass, categories: seq<string>, fetch: string -> Headlines, now: int)
    requires forall j, url :: 0 <= j < |categories| && Offers(fetch(categories[j]), url) ==> HasUrl(pass.articles, url)
    ensures RunCategories(pass, categories, fetch, now) == pass
    decreases |categories|
  {
    if categories != [] {
      var n := |categories|;
      var init := categories[..n - 1];
      var last := categories[n - 1];
      assert forall j :: 0 <= j < n - 1 ==> init[j] == categories[j];
      RunCategoriesUnchanged(pass, init, fetch, now);
      var response := fetch(last);
      if response.Headlines? {
        var items := response.items;
        forall m | 0 <= m < |items| && Reached(items, m) && Storable(items[m])
          ensures HasUrl(pass.articles, items[m].url.text)
        {
          assert Offers(fetch(categories[n - 1]), items[m].url.text);
        }
        RunItemsUnchanged(CategoryRun(pass.articles, pass.added, false), items, last, now);
      }
    }
  }

  /** Every row every response would produce lies at or after `cutoff`. */
  ghost predicate FreshOffers(categories: seq<string>, fetch: string -> Headlines, now: int, cutoff: int) {
    forall c, item :: c in categories && fetch(c).Headlines? && item in fetch(c).items && Storable(item) ==>
      PublishedAt(item.publishedAt, now) >= cutoff
  }

  lemma {:induction false} RunCategoriesKept(pass: Pass, categories: seq<string>, fetch: string -> Headlines, now: int, cutoff: int)
    requires forall a :: a in pass.articles ==> Keep(a, cutoff)
    requires FreshOffers(categories, fetch, now, cutoff)
    ensures forall a :: a in RunCategories(pass, categories, fetch, now).articles ==> Keep(a, cutoff)
    decreases |categories|
  {
    if categories != [] {
      var n := |categories|;
      var init := categories[..n - 1];
      var last := categories[n - 1];
      assert forall c :: c in init ==> c in categories;
      RunCategoriesKept(pass, init, fetch, now, cutoff);
      var prev := RunCategories(pass, init, fetch, now);
      var response := fetch(last);
      if response.Headlines? {
        assert last in categories;
        RunItemsKept(CategoryRun(prev.articles, prev.added, false), response.items, last, now, cutoff);
      }
    }
  }

  /** `a` is built from an item some category's response offered, and carries that category. */
  ghost predicate FromSomeCategory(a: Article, categories: seq<string>, fetch: string -> Headlines, now: int) {
    exists j :: 0 <= j < |categories| && fetch(categories[j]).Headlines?
      && BuiltFrom(a, fetch(categories[j]).items, categories[j], now)
  }

  /** Every row the pass appends is built from an item of some category's response. */
  lemma {:induction false} RunCategoriesProvenance(pass: Pass, categories: seq<string>, fetch: string -> Headlines, now: int)
    ensures var r := RunCategories(pass, categories, fetch, now);
      forall k :: |pass.articles| <= k < |r.articles| ==> FromSomeCategory(r.articles[k], categories, fetch, now)
    decreases |categories|
  {
    if categories != [] {
      var n := |categories|;
      var init := categories[..n - 1];
      var last := categories[n - 1];
      var prev := RunCategories(pass, init, fetch, now);
      var r := RunCategories(pass, categories, fetch, now);
      RunCategoriesProvenance(pass, init, fetch, now);
      RunCategoriesGrows(pass, init, fetch, now);
      var response := fetch(last);
      if response.Headlines? {
        var run0 := CategoryRun(prev.articles, prev.added, false);
        RunItemsGrows(run0, response.items, last, now);
        RunItemsProvenance(run0, response.items, last, now);
      }
      assert prev.articles <= r.articles;
      forall k | |pass.articles| <= k < |r.articles|
        ensures FromSomeCategory(r.articles[k], categories, fetch, now)
      {
        if k < |prev.articles| {
          var j :| 0 <= j < n - 1 && fetch(init[j]).Headlines? && BuiltFrom(prev.articles[k], fetch(init[j]).items, init[j], now);
          assert init[j] == categories[j];
        } else {
          assert BuiltFrom(r.articles[k], fetch(categories[n - 1]).items, categories[n - 1], now);
        }
      }
    }
  }

  // ----- properties of a whole pass -----

  /** A pass keeps the table's constraints, whether or not the sweep commits. */
  lemma SyncPassWellFormed(s: seq<Article>, fetch: string -> Headlines, now: int, sweepFails: bool)
    requires WellFormed(s) && InRange(now)
    ensures WellFormed(SyncPass(s, fetch, now, sweepFails).articles)
  {
    var p := RunCategories(Pass(s, 0), CATEGORIES, fetch, now);
    RunCategoriesWellFormed(Pass(s, 0), CATEGORIES, fetch, now);
    SelectWellFormed(p.articles, (a: Article) => Keep(a, now - RETENTION));
  }

  /**
   * The returned count is the number of rows the pass inserted: with the sweep rolled back,
   * the table is the old table followed by exactly that many new rows.
   */
  lemma SyncPassCount(s: seq<Article>, fetch: string -> Headlines, now: int)
    ensures var p := SyncPass(s, fetch, now, true);
      s <= p.articles && |p.articles| == |s| + p.added
  {
    RunCategoriesGrows(Pass(s, 0), CATEGORIES, fetch, now);
  }

  /**
   * The sweep deletes exactly the stale rows: afterwards every row is bookmarked or recent,
   * and every bookmarked or recent row of the old table is still there.
   */
  lemma SyncPassRetention(s: seq<Article>, fetch: string -> Headlines, now: int)
    ensures var r := SyncPass(s, fetch, now, false).articles;
      && (forall a :: a in r ==> Keep(a, now - RETENTION))
      && (forall a :: a in s && Keep(a, now - RETENTION) ==> a in r)
  {
    var p := RunCategories(Pass(s, 0), CATEGORIES, fetch, now);
    RunCategoriesGrows(Pass(s, 0), CATEGORIES, fetch, now);
    forall a | a in s
      ensures a in p.articles
    {
      var i :| 0 <= i < |s| && s[i] == a;
      assert p.articles[i] == a;
    }
  }

  /**
   * Every row a pass adds is built from an item some category offered: it carries that
   * category, is not bookmarked, and was created at the time of the pass.
   */
  lemma SyncPassNewRows(s: seq<Article>, fetch: string -> Headlines, now: int, sweepFails: bool)
    ensures forall a :: a in SyncPass(s, fetch, now, sweepFails).articles && a !in s ==>
      && FromSomeCategory(a, CATEGORIES, fetch, now)
      && a.category.Some? && a.category.value in CATEGORIES
      && !a.isBookmarked && a.createdAt == now
  {
    var p := RunCategories(Pass(s, 0), CATEGORIES, fetch, now);
    RunCategoriesGrows(Pass(s, 0), CATEGORIES, fetch, now);
    RunCategoriesProvenance(Pass(s, 0), CATEGORIES, fetch, now);
    forall a | a in SyncPass(s, fetch, now, sweepFails).articles && a !in s
      ensures FromSomeCategory(a, CATEGORIES, fetch, now)
    {
      assert a in p.articles;
      var k :| 0 <= k < |p.articles| && p.articles[k] == a;
    }
    forall a | a in SyncPass(s, fetch, now, sweepFails).articles && a !in s
      ensures a.category.Some? && a.category.value in CATEGORIES && !a.isBookmarked && a.createdAt == now
    {
      FreshRow(a, fetch, now);
    }
  }

  /** A row built from a response carries one of the categories, no bookmark, and the time of the pass. */
  lemma FreshRow(a: Article, fetch: string -> Headlines, now: int)
    requires FromSomeCategory(a, CATEGORIES, fetch, now)
    ensures a.category.Some? && a.category.value in CATEGORIES && !a.isBookmarked && a.createdAt == now
  {
    var j :| 0 <= j < |CATEGORIES| && fetch(CATEGORIES[j]).Headlines?
      && BuiltFrom(a, fetch(CATEGORIES[j]).items, CATEGORIES[j], now);
    var items := fetch(CATEGORIES[j]).items;
    var m :| 0 <= m < |items| && Reached(items, m) && Storable(items[m])
      && a == ToArticle(items[m], CATEGORIES[j], now).(id := a.id);
  }

  /** With the sweep rolled back, the table holds every url some category offered. */
  lemma SyncPassStoresOffers(s: seq<Article>, fetch: string -> Headlines, now: int)
    ensures forall c, url :: c in CATEGORIES && Offers(fetch(c), url) ==>
      HasUrl(SyncPass(s, fetch, now, true).articles, url)
  {
    RunCategoriesStoresOffers(Pass(s, 0), CATEGORIES, fetch, now);
    forall c, url | c in CATEGORIES && Offers(fetch(c), url)
      ensures HasUrl(SyncPass(s, fetch, now, true).articles, url)
    {
      var j :| 0 <= j < |CATEGORIES| && CATEGORIES[j] == c;
    }
  }

  /**
   * A second pass over the same responses at the same instant inserts nothing and leaves the
   * table as the first pass left it, provided no row of the table and no row the responses
   * produce is already older than the retention window.
   */
  lemma SecondPassAddsNothing(s: seq<Article>, fetch: string -> Headlines, now: int)
    requires forall a :: a in s ==> Keep(a, now - RETENTION)
    requires FreshOffers(CATEGORIES, fetch, now, now - RETENTION)
    ensures var first := SyncPass(s, fetch, now, false);
      SyncPass(first.articles, fetch, now, false) == Pass(first.articles, 0)
  {
    var cutoff := now - RETENTION;
    var keep := (a: Article) => Keep(a, cutoff);
    var p := RunCategories(Pass(s, 0), CATEGORIES, fetch, now);
    RunCategoriesKept(Pass(s, 0), CATEGORIES, fetch, now, cutoff);
    SelectAll(p.articles, keep);
    assert SyncPass(s, fetch, now, false).articles == p.articles;
    RunCategoriesStoresOffers(Pass(s, 0), CATEGORIES, fetch, now);
    RunCategoriesUnchanged(Pass(p.articles, 0), CATEGORIES, fetch, now);
  }

  /** Only `business` answers, with a single item whose url is "u" and whose other members are null. */
  function OnlyBusiness(c: string): Headlines {
    if c == "business" then Headlines([StaleFeedItem()]) else ErrorStatus("")
  }

  function StaleFeedItem(): RawItem {
    RawItem(Text("u"), Text("t"), SourceNull, Null, Null, Null, Null, Null)
  }

  /** The stale row the feed still offers: unbookmarked, url "u", one second past the retention window. */
  function StaleRow(now: int): Article {
    Article(1, "t", "u", None, None, None, now - RETENTION - 1, None, None, None, false, now - RETENTION - 1)
  }

  /**
   * The retention condition of SecondPassAddsNothing is needed: a stale row whose url the feed
   * still offers blocks the item in the first pass (its url is known) and is then swept, so the
   * second pass stores the item again as a new row and counts it.
   */
  lemma StaleRowReinserted(now: int)
    ensures var first := SyncPass([StaleRow(now)], OnlyBusiness, now, false);
      var second := SyncPass(first.articles, OnlyBusiness, now, false);
      && first == Pass([], 0)
      && second.added == 1
      && second.articles == [ToArticle(StaleFeedItem(), "business", now).(id := 1)]
  {
    StaleRowSwept(now);
    StaleFeedStored(now);
  }

  /** The first pass skips the item, whose url the stale row holds, and then sweeps the stale row. */
  lemma StaleRowSwept(now: int)
    ensures SyncPass([StaleRow(now)], OnlyBusiness, now, false) == Pass([], 0)
  {
    var x := StaleRow(now);
    OnlyBusinessPass(Pass([x], 0), now);
    assert [StaleFeedItem()][..0] == [];
    assert HasUrl([x], "u") by { assert [x][0].url == "u"; }
    assert RunItems(CategoryRun([x], 0, false), [StaleFeedItem()], "business", now) == CategoryRun([x], 0, false);
    assert Select([x], (a: Article) => Keep(a, now - RETENTION)) == [];
  }

  /** On an empty table the pass stores the item under key 1, and the sweep keeps it. */
  lemma StaleFeedStored(now: int)
    ensures var p := SyncPass([], OnlyBusiness, now, false);
      p.added == 1 && p.articles == [ToArticle(StaleFeedItem(), "business", now).(id := 1)]
  {
    var item := StaleFeedItem();
    OnlyBusinessPass(Pass([], 0), now);
    var row := ToArticle(item, "business", now).(id := 1);
    assert [item][..0] == [];
    assert RunItems(CategoryRun([], 0, false), [item], "business", now) == CategoryRun([row], 1, false);
    assert Select([row], (a: Article) => Keep(a, now - RETENTION)) == [row] by {
      assert [row][..0] == [];
    }
  }

  /** With only `business` answering, the pass over all categories is that one category's loop. */
  lemma OnlyBusinessPass(pass: Pass, now: int)
    ensures RunCategories(pass, CATEGORIES, OnlyBusiness, now) == CategoryStep(pass, "business", OnlyBusiness("business"), now)
  {
    var c := CATEGORIES;
    assert c[..1][..0] == [] && c[..1][0] == "business";
    assert RunCategories(pass, c[..1], OnlyBusiness, now) == CategoryStep(pass, "business", OnlyBusiness("business"), now);
    for k := 2 to 8
      invariant RunCategories(pass, c[..k - 1], OnlyBusiness, now) == CategoryStep(pass, "business", OnlyBusiness("business"), now)
    {
      assert c[..k][..k - 1] == c[..k - 1];
      assert |c[k - 1]| != |"business"|;
    }
    assert c[..7] == c;
  }

  /** A url the table lacks and no reached, storable item carries is still missing after the loop. */
  lemma NoOfferNoUrlItems(run: CategoryRun, items: seq<RawItem>, category: string, now: int, url: string)
    requires !HasUrl(run.articles, url)
    requires forall m :: 0 <= m < |items| && Reached(items, m) && Storable(items[m]) ==> items[m].url.text != url
    ensures !HasUrl(RunItems(run, items, category, now).articles, url)
  {
    var r := RunItems(run, items, category, now);
    RunItemsGrows(run, items, category, now);
    RunItemsProvenance(run, items, category, now);
    forall k | 0 <= k < |r.articles|
      ensures r.articles[k].url != url
    {
      if k < |run.articles| {
        assert r.articles[k] == run.articles[k];
      } else {
        assert BuiltFrom(r.articles[k], items, category, now);
      }
    }
  }

  /** A url the table lacks and no category offers is still missing after the pass. */
  lemma NoOfferNoUrl(pass: Pass, categories: seq<string>, fetch: string -> Headlines, now: int, url: string)
    requires !HasUrl(pass.articles, url)
    requires forall j :: 0 <= j < |categories| ==> !Offers(fetch(categories[j]), url)
    ensures !HasUrl(RunCategories(pass, categories, fetch, now).articles, url)
  {
    var r := RunCategories(pass, categories, fetch, now);
    RunCategoriesGrows(pass, categories, fetch, now);
    RunCategoriesProvenance(pass, categories, fetch, now);
    forall k | 0 <= k < |r.articles|
      ensures r.articles[k].url != url
    {
      if k < |pass.articles| {
        assert r.articles[k] == pass.articles[k];
      } else {
        var j :| 0 <= j < |categories| && fetch(categories[j]).Headlines?
          && BuiltFrom(r.articles[k], fetch(categories[j]).items, categories[j], now);
        var items := fetch(categories[j]).items;
        var m :| 0 <= m < |items| && Reached(items, m) && Storable(items[m])
          && r.articles[k] == ToArticle(items[m], categories[j], now).(id := r.articles[k].id);
      }
    }
  }

  /**
   * Inside one category: when item `k` is reached and storable, the table lacks its url and no
   * earlier storable item carries it, the loop stores the row built from item `k`.
   */
  lemma ItemStoredInCategory(run0: CategoryRun, items: seq<RawItem>, k: nat, category: string, now: int)
    requires !run0.aborted && k < |items| && Reached(items, k) && Storable(items[k])
    requires !HasUrl(run0.articles, items[k].url.text)
    requires forall m :: 0 <= m < k && Storable(items[m]) ==> items[m].url.text != items[k].url.text
    ensures exists a :: a in RunItems(run0, items, category, now).articles && a == ToArticle(items[k], category, now).(id := a.id)
  {
    var url := items[k].url.text;
    var built := ToArticle(items[k], category, now);
    assert forall m :: 0 <= m < k ==> items[..k][m] == items[m];
    NoOfferNoUrlItems(run0, items[..k], category, now, url);
    RunItemsAborted(run0, items[..k], category, now);
    var atK := RunItems(run0, items[..k], category, now);
    var afterK := ItemStep(atK, items[k], category, now);
    var stored := built.(id := NextId(atK.articles));
    assert afterK.articles == atK.articles + [stored];
    RunItemsSplitAt(run0, items, k, category, now);
    RunItemsGrows(afterK, items[k + 1..], category, now);
    var r := RunItems(run0, items, category, now).articles;
    assert r[|atK.articles|] == stored;
  }

  /** A row present after the first `i + 1` categories is present after all of them. */
  lemma RowSurvivesLaterCategories(pass: Pass, categories: seq<string>, i: nat, fetch: string -> Headlines, now: int, a: Article)
    requires i < |categories| && a in RunCategories(pass, categories[..i + 1], fetch, now).articles
    ensures a in RunCategories(pass, categories, fetch, now).articles
  {
    assert categories == categories[..i + 1] + categories[i + 1..];
    RunCategoriesAppend(pass, categories[..i + 1], categories[i + 1..], fetch, now);
    var mid := RunCategories(pass, categories[..i + 1], fetch, now);
    RunCategoriesGrows(mid, categories[i + 1..], fetch, now);
    var k :| 0 <= k < |mid.articles| && mid.articles[k] == a;
    assert RunCategories(pass, categories, fetch, now).articles[k] == a;
  }

  /**
   * The first offer of a url wins: when category `i` offers a url at item `k`, the table did
   * not hold it, and no earlier category and no earlier item of category `i` carried it, then
   * after the pass the only row with that url is the one built from item `k` under category `i`.
   */
  lemma FirstCategoryWins(s: seq<Article>, fetch: string -> Headlines, now: int, i: nat, items: seq<RawItem>, k: nat)
    requires WellFormed(s) && InRange(now)
    requires i < |CATEGORIES| && fetch(CATEGORIES[i]) == Headlines(items)
    requires k < |items| && Reached(items, k) && Storable(items[k])
    requires !HasUrl(s, items[k].url.text)
    requires forall j :: 0 <= j < i ==> !Offers(fetch(CATEGORIES[j]), items[k].url.text)
    requires forall m :: 0 <= m < k && Storable(items[m]) ==> items[m].url.text != items[k].url.text
    ensures var r := SyncPass(s, fetch, now, true).articles;
      && HasUrl(r, items[k].url.text)
      && forall a :: a in r && a.url == items[k].url.text ==> a == ToArticle(items[k], CATEGORIES[i], now).(id := a.id)
  {
    var url := items[k].url.text;
    var category := CATEGORIES[i];
    var built := ToArticle(items[k], category, now);
    var before := CATEGORIES[..i];
    assert forall j :: 0 <= j < i ==> before[j] == CATEGORIES[j];
    NoOfferNoUrl(Pass(s, 0), before, fetch, now, url);
    var mid := RunCategories(Pass(s, 0), before, fetch, now);
    var run0 := CategoryRun(mid.articles, mid.added, false);
    ItemStoredInCategory(run0, items, k, category, now);
    var stored :| stored in RunItems(run0, items, category, now).articles && stored == built.(id := stored.id);
    assert CATEGORIES[..i + 1][..i] == before;
    RowSurvivesLaterCategories(Pass(s, 0), CATEGORIES, i, fetch, now, stored);
    var r := RunCategories(Pass(s, 0), CATEGORIES, fetch, now).articles;
    RunCategoriesWellFormed(Pass(s, 0), CATEGORIES, fetch, now);
    var idx :| 0 <= idx < |r| && r[idx] == stored;
    forall a | a in r && a.url == url
      ensures a == built.(id := a.id)
    {
      SameUrlSameRow(r, a, stored);
    }
  }
}
