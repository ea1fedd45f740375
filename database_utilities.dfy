/** The queries of src/utils/database_utilities.py, run against the
    in-memory tables of `Models.Db`. SQL `IN` is sequence membership,
    `ORDER BY published_time` is a sort on the integer timestamp, and an
    unordered `.all()` yields rows in table order. */
module DatabaseUtilities {
  import opened Common
  import opened Models

  // ---------------------------------------------------------------------
  // ORDER BY published_time

  /** `a` may come before `b` in the requested direction. */
  predicate Before(a: int, b: int, desc: bool) {
    if desc then a >= b else a <= b
  }

  predicate SortedByTime(rows: seq<ArticleRow>, desc: bool) {
    forall i, j :: 0 <= i < j < |rows| ==> Before(rows[i].publishedTime, rows[j].publishedTime, desc)
  }

  function InsertByTime(x: ArticleRow, s: seq<ArticleRow>, desc: bool): (r: seq<ArticleRow>)
    ensures multiset(r) == multiset(s) + multiset{x}
  {
    if s == [] || Before(x.publishedTime, s[0].publishedTime, desc) then
      [x] + s
    else
      assert s == [s[0]] + s[1..];
      [s[0]] + InsertByTime(x, s[1..], desc)
  }

  lemma {:induction false} InsertSorted(x: ArticleRow, s: seq<ArticleRow>, desc: bool)
    requires SortedByTime(s, desc)
    ensures SortedByTime(InsertByTime(x, s, desc), desc)
  {
    if s == [] || Before(x.publishedTime, s[0].publishedTime, desc) {
      var r := [x] + s;
      forall i, j | 0 <= i < j < |r|
        ensures Before(r[i].publishedTime, r[j].publishedTime, desc)
      {
        if i == 0 && j > 1 {
          assert Before(s[0].publishedTime, s[j - 1].publishedTime, desc);
        }
      }
    } else {
      InsertSorted(x, s[1..], desc);
      var t := InsertByTime(x, s[1..], desc);
      var r := [s[0]] + t;
      forall j | 0 < j < |r|
        ensures Before(s[0].publishedTime, r[j].publishedTime, desc)
      {
        var y := t[j - 1];
        assert y in multiset(t);
        if y != x {
          assert y in multiset(s[1..]);
          var k :| 0 <= k < |s[1..]| && s[1..][k] == y;
          assert Before(s[0].publishedTime, s[k + 1].publishedTime, desc);
        }
      }
      assert SortedByTime(r, desc);
    }
  }

  lemma {:induction false} InsertDistinct(x: ArticleRow, s: seq<ArticleRow>, desc: bool)
    requires DistinctIds(s)
    requires forall y :: y in s ==> y.articleId != x.articleId
    ensures DistinctIds(InsertByTime(x, s, desc))
  {
    if !(s == [] || Before(x.publishedTime, s[0].publishedTime, desc)) {
      InsertDistinct(x, s[1..], desc);
      var t := InsertByTime(x, s[1..], desc);
      forall y | y in t ensures y.articleId != s[0].articleId {
        assert y in multiset(t);
        if y != x {
          assert y in multiset(s[1..]);
          var k :| 0 <= k < |s[1..]| && s[1..][k] == y;
          assert s[k + 1] == y;
        }
      }
      var r := [s[0]] + t;
      forall i, j | 0 <= i < j < |r| ensures r[i].articleId != r[j].articleId {
        if i == 0 {
          assert r[j] in t;
        }
      }
    }
  }

  /** The database's sort: the same rows, ordered by publication time.
      Rows with equal times keep an order the source leaves open. */
  function SortByTime(s: seq<ArticleRow>, desc: bool): (r: seq<ArticleRow>)
    ensures SortedByTime(r, desc)
    ensures |r| == |s| && multiset(r) == multiset(s)
  {
    if s == [] then []
    else
      assert s == [s[0]] + s[1..];
      var t := SortByTime(s[1..], desc);
      InsertSorted(s[0], t, desc);
      var r := InsertByTime(s[0], t, desc);
      assert |multiset(r)| == |multiset(t)| + 1;
      r
  }

  lemma {:induction false} SortDistinct(s: seq<ArticleRow>, desc: bool)
    requires DistinctIds(s)
    ensures DistinctIds(SortByTime(s, desc))
  {
    if s != [] {
      SortDistinct(s[1..], desc);
      var t := SortByTime(s[1..], desc);
      forall y | y in t ensures y.articleId != s[0].articleId {
        assert y in multiset(s[1..]);
        var k :| 0 <= k < |s[1..]| && s[1..][k] == y;
        assert s[k + 1] == y;
      }
      InsertDistinct(s[0], t, desc);
    }
  }

  // ---------------------------------------------------------------------
  // query_all_articles

  function Summaries(rows: seq<ArticleRow>): (r: seq<ArticleSummary>)
    ensures |r| == |rows|
    ensures forall i :: 0 <= i < |rows| ==> r[i] == Summary(rows[i])
  {
    if rows == [] then [] else [Summary(rows[0])] + Summaries(rows[1..])
  }

  lemma {:induction false} InsertKeepsSummaries(x: ArticleRow, s: seq<ArticleRow>, desc: bool)
    ensures multiset(Summaries(InsertByTime(x, s, desc))) == multiset(Summaries(s)) + multiset{Summary(x)}
  {
    if s == [] || Before(x.publishedTime, s[0].publishedTime, desc) {
      assert ([x] + s)[1..] == s;
    } else {
      var t := InsertByTime(x, s[1..], desc);
      InsertKeepsSummaries(x, s[1..], desc);
      assert ([s[0]] + t)[1..] == t;
    }
  }

  lemma {:induction false} SortKeepsSummaries(s: seq<ArticleRow>, desc: bool)
    ensures multiset(Summaries(SortByTime(s, desc))) == multiset(Summaries(s))
  {
    if s != [] {
      SortKeepsSummaries(s[1..], desc);
      InsertKeepsSummaries(s[0], SortByTime(s[1..], desc), desc);
    }
  }

  /** Every article once, as (id, headline, published time), latest first. */
  function QueryAllArticles(db: Db): (r: seq<ArticleSummary>)
    ensures |r| == |db.articles|
    ensures forall i, j :: 0 <= i < j < |r| ==> r[i].publishedTime >= r[j].publishedTime
    ensures multiset(r) == multiset(Summaries(db.articles))
  {
    SortKeepsSummaries(db.articles, true);
    Summaries(SortByTime(db.articles, true))
  }

  // ---------------------------------------------------------------------
  // query_by_article

  /** `.filter(Article.article_id.in_(ids))` */
  function WithIdIn(rows: seq<ArticleRow>, ids: seq<string>): (r: seq<ArticleRow>)
    ensures |r| <= |rows|
    ensures forall row :: row in r <==> row in rows && row.articleId in ids
    ensures DistinctIds(rows) ==> DistinctIds(r)
  {
    if rows == [] then []
    else
      assert rows == [rows[0]] + rows[1..];
      assert forall y :: y in rows[1..] ==> exists k :: 1 <= k < |rows| && rows[k] == y;
      (if rows[0].articleId in ids then [rows[0]] else []) + WithIdIn(rows[1..], ids)
  }

  /** `.filter(Article.headline.in_(headlines))` */
  function WithHeadlineIn(rows: seq<ArticleRow>, headlines: seq<string>): (r: seq<ArticleRow>)
    ensures |r| <= |rows|
    ensures forall row :: row in r <==> row in rows && row.headline in headlines
  {
    if rows == [] then []
    else
      assert rows == [rows[0]] + rows[1..];
      (if rows[0].headline in headlines then [rows[0]] else []) + WithHeadlineIn(rows[1..], headlines)
  }

  /** `[article.article_id for article in articles]` */
  function IdsOf(rows: seq<ArticleRow>): (r: seq<string>)
    ensures |r| == |rows|
    ensures forall id :: id in r <==> exists row :: row in rows && row.articleId == id
  {
    if rows == [] then []
    else
      assert rows == [rows[0]] + rows[1..];
      [rows[0].articleId] + IdsOf(rows[1..])
  }

  /** A row passes an attribute filter when the filter's list is absent or
      empty, or holds the row's value; both filters must pass. */
  predicate PassesArticleFilters(s: Searched, row: ArticleRow) {
    && (Truthy(s.articleId) ==> row.articleId in s.articleId.value)
    && (Truthy(s.headline) ==> row.headline in s.headline.value)
  }

  /** The two `.filter` calls are chained, so an id must satisfy both. */
  function QueryByArticle(db: Db, s: Searched): (r: seq<string>)
    ensures |r| <= |db.articles|
    ensures forall id :: id in r <==>
      exists row :: row in db.articles && row.articleId == id && PassesArticleFilters(s, row)
  {
    var byId := if Truthy(s.articleId) then WithIdIn(db.articles, s.articleId.value) else db.articles;
    var byHeadline := if Truthy(s.headline) then WithHeadlineIn(byId, s.headline.value) else byId;
    assert forall row :: row in byHeadline <==> row in db.articles && PassesArticleFilters(s, row);
    IdsOf(byHeadline)
  }

  /** The reading in which the two attribute lists are alternatives. */
  predicate PassesEitherArticleFilter(s: Searched, row: ArticleRow) {
    if Truthy(s.articleId) && Truthy(s.headline) then
      row.articleId in s.articleId.value || row.headline in s.headline.value
    else
      PassesArticleFilters(s, row)
  }

  function WithEitherIn(rows: seq<ArticleRow>, s: Searched): (r: seq<ArticleRow>)
    ensures forall row :: row in r <==> row in rows && PassesEitherArticleFilter(s, row)
  {
    if rows == [] then []
    else
      assert rows == [rows[0]] + rows[1..];
      (if PassesEitherArticleFilter(s, rows[0]) then [rows[0]] else []) + WithEitherIn(rows[1..], s)
  }

  /** The attribute lookup with identifier matches OR headline matches. */
  function QueryByArticleUnion(db: Db, s: Searched): (r: seq<string>)
    ensures forall id :: id in r <==>
      exists row :: row in db.articles && row.articleId == id && PassesEitherArticleFilter(s, row)
  {
    IdsOf(WithEitherIn(db.articles, s))
  }

  /** The chained filters never match more than the union reading, and
      the two agree unless both lists are given. */
  lemma ChainedFiltersWithinUnion(db: Db, s: Searched)
    ensures forall id :: id in QueryByArticle(db, s) ==> id in QueryByArticleUnion(db, s)
    ensures !(Truthy(s.articleId) && Truthy(s.headline)) ==>
      forall id :: id in QueryByArticle(db, s) <==> id in QueryByArticleUnion(db, s)
  {
    forall id | id in QueryByArticle(db, s)
      ensures id in QueryByArticleUnion(db, s)
    {
      var row :| row in db.articles && row.articleId == id && PassesArticleFilters(s, row);
      assert PassesEitherArticleFilter(s, row);
    }
  }

  /** Identifier a1 and headline of a2 given together: the chained
      filters find nothing, the union reading finds both. */
  lemma ChainedFiltersCounterexample()
    ensures var a1 := ArticleRow("a1", "h1", 1, "UTC", None, 0, "u");
            var a2 := ArticleRow("a2", "h2", 2, "UTC", None, 0, "u");
            var db := Db([a1, a2], [], []);
            var s := Searched(Some(["a1"]), Some(["h2"]), None, None, None);
            QueryByArticle(db, s) == [] && "a1" in QueryByArticleUnion(db, s) && "a2" in QueryByArticleUnion(db, s)
  {
    var a1 := ArticleRow("a1", "h1", 1, "UTC", None, 0, "u");
    var a2 := ArticleRow("a2", "h2", 2, "UTC", None, 0, "u");
    var db := Db([a1, a2], [], []);
    var s := Searched(Some(["a1"]), Some(["h2"]), None, None, None);
    assert PassesEitherArticleFilter(s, a1) && PassesEitherArticleFilter(s, a2);
    assert !PassesArticleFilters(s, a1) && !PassesArticleFilters(s, a2);
  }

  // ---------------------------------------------------------------------
  // query_by_tags

  /** The number of tag rows of article `id` whose tag is listed. */
  function MatchingTagRows(rows: seq<TagRow>, id: string, tags: seq<string>): nat {
    if rows == [] then 0
    else (if rows[0].articleId == id && rows[0].tag in tags then 1 else 0) + MatchingTagRows(rows[1..], id, tags)
  }

  function TagIdsMatching(rows: seq<TagRow>, tags: seq<string>): (r: seq<string>)
    ensures forall id :: id in r <==> exists row :: row in rows && row.articleId == id && row.tag in tags
    ensures forall id :: multiset(r)[id] == MatchingTagRows(rows, id, tags)
  {
    if rows == [] then []
    else
      assert rows == [rows[0]] + rows[1..];
      (if rows[0].tag in tags then [rows[0].articleId] else []) + TagIdsMatching(rows[1..], tags)
  }

  /** One id per tag row whose tag is listed: an article appears once for
      each of its matching tag rows. */
  function QueryByTags(db: Db, tags: seq<string>): (r: seq<string>)
    ensures forall id :: id in r <==> exists row :: row in db.tags && row.articleId == id && row.tag in tags
    ensures forall id :: multiset(r)[id] == MatchingTagRows(db.tags, id, tags)
  {
    TagIdsMatching(db.tags, tags)
  }

  // ---------------------------------------------------------------------
  // query_by_entities

  /** The ids of entity rows of `kind` whose value is listed (with
      repetitions, in table order). */
  function KindMatches(db: Db, kind: string, values: seq<string>): (r: seq<string>)
    ensures forall id :: id in r <==>
      exists row :: row in db.entities && row.articleId == id && row.entity == kind && row.entityValue in values
  {
    EntityIdsMatching(db.entities, kind, values)
  }

  function EntityIdsMatching(rows: seq<EntityRow>, kind: string, values: seq<string>): (r: seq<string>)
    ensures forall id :: id in r <==>
      exists row :: row in rows && row.articleId == id && row.entity == kind && row.entityValue in values
  {
    if rows == [] then []
    else
      assert rows == [rows[0]] + rows[1..];
      var row := rows[0];
      (if row.entity == kind && row.entityValue in values then [row.articleId] else [])
        + EntityIdsMatching(rows[1..], kind, values)
  }

  /** `id` matches every kind of `kinds` that the criteria name. */
  predicate MatchesKinds(db: Db, criteria: map<string, seq<string>>, kinds: set<string>, id: string) {
    forall kind :: kind in kinds && kind in criteria ==> id in KindMatches(db, kind, criteria[kind])
  }

  predicate MatchesEveryKind(db: Db, criteria: map<string, seq<string>>, id: string) {
    MatchesKinds(db, criteria, criteria.Keys, id)
  }

  /** What the entity lookup promises about its result `r`: no criteria
      give no ids; otherwise `r` holds exactly the articles matching every
      kind; a kind matching nothing gives no ids; a single kind gives that
      kind's matches as fetched (one per matching row); two kinds or more
      give each id once. */
  ghost predicate EntityLookupResult(db: Db, criteria: map<string, seq<string>>, r: seq<string>) {
    && (criteria == map[] ==> r == [])
    && (criteria != map[] ==> forall id :: id in r <==> MatchesEveryKind(db, criteria, id))
    && ((exists kind :: kind in criteria && KindMatches(db, kind, criteria[kind]) == []) ==> r == [])
    && (forall kind :: kind in criteria && |criteria| == 1 ==> r == KindMatches(db, kind, criteria[kind]))
    && (|criteria| >= 2 ==> Distinct(r))
  }

  /** Kinds are resolved one at a time and intersected; an empty kind or
      an empty intersection ends the search with no ids. */
  method QueryByEntities(db: Db, criteria: map<string, seq<string>>) returns (r: seq<string>)
    ensures EntityLookupResult(db, criteria, r)
  {
    var articleIds: seq<string> := [];
    var pending := criteria.Keys;
    ghost var done: set<string> := {};
    ghost var first: string := "";
    ghost var second: Option<string> := None;  // a second kind, once one was intersected
    while pending != {}
      invariant pending + done == criteria.Keys && pending !! done
      invariant Narrowing(db, criteria, done, first, second, articleIds)
      decreases pending
    {
      var kind :| kind in pending;
      var current := KindMatches(db, kind, criteria[kind]);
      if current == [] {
        EmptyKindMatchesNothing(db, criteria, kind);
        EmptyLookup(db, criteria, kind);
        return [];
      } else if articleIds == [] {
        NarrowingFirst(db, criteria, done, first, second, articleIds, kind);
        articleIds := articleIds + current;
        first := kind;
      } else {
        var next := NarrowByKind(db, criteria, done, articleIds, kind);
        if next == [] {
          EmptyIntersectionMatchesNothing(db, criteria, done + {kind});
          EmptyLookup(db, criteria, kind);
          return [];
        }
        NarrowingStep(db, criteria, done, first, second, articleIds, kind, next);
        articleIds := next;
        second := if second == None then Some(kind) else second;
      }
      pending := pending - {kind};
      done := done + {kind};
    }
    FinishedLookup(db, criteria, first, second, articleIds);
    return articleIds;
  }

  /** `ids` holds exactly the articles matching every kind of `kinds`. */
  ghost predicate ExactlyMatching(db: Db, criteria: map<string, seq<string>>, kinds: set<string>, ids: seq<string>) {
    forall id :: id in ids <==> MatchesKinds(db, criteria, kinds, id)
  }

  /** The lookup after resolving the kinds of `done`: `ids` holds the
      articles matching all of them, as fetched for the single kind
      `first` until a `second` kind is intersected, each once after. */
  ghost predicate Narrowing(db: Db, criteria: map<string, seq<string>>, done: set<string>, first: string,
                            second: Option<string>, ids: seq<string>) {
    && done <= criteria.Keys
    && (done == {} <==> ids == [])
    && (done != {} ==> ExactlyMatching(db, criteria, done, ids))
    && (done != {} && second == None ==> done == {first} && ids == KindMatches(db, first, criteria[first]))
    && (second != None ==> first in done && second.value in done && first != second.value && Distinct(ids))
  }

  lemma NarrowingFirst(db: Db, criteria: map<string, seq<string>>, done: set<string>, first: string,
                       second: Option<string>, ids: seq<string>, kind: string)
    requires Narrowing(db, criteria, done, first, second, ids) && ids == []
    requires kind in criteria && kind !in done && KindMatches(db, kind, criteria[kind]) != []
    ensures Narrowing(db, criteria, done + {kind}, kind, second, ids + KindMatches(db, kind, criteria[kind]))
  {
    assert done + {kind} == {kind};
    assert ids + KindMatches(db, kind, criteria[kind]) == KindMatches(db, kind, criteria[kind]);
  }

  lemma NarrowingStep(db: Db, criteria: map<string, seq<string>>, done: set<string>, first: string,
                      second: Option<string>, ids: seq<string>, kind: string, next: seq<string>)
    requires Narrowing(db, criteria, done, first, second, ids) && ids != []
    requires kind in criteria && kind !in done
    requires ExactlyMatching(db, criteria, done + {kind}, next) && Distinct(next) && next != []
    ensures Narrowing(db, criteria, done + {kind}, first, if second == None then Some(kind) else second, next)
  {
  }

  /** When every kind is resolved, the lookup's result keeps its promises. */
  lemma FinishedLookup(db: Db, criteria: map<string, seq<string>>, first: string, second: Option<string>,
                       ids: seq<string>)
    requires Narrowing(db, criteria, criteria.Keys, first, second, ids)
    ensures EntityLookupResult(db, criteria, ids)
  {
    if second != None {
      SubsetCard({first, second.value}, criteria.Keys);
    } else if criteria != map[] {
      forall kind | kind in criteria && |criteria| == 1
        ensures ids == KindMatches(db, kind, criteria[kind])
      {
        assert kind == first;
      }
    }
    if kind :| kind in criteria && KindMatches(db, kind, criteria[kind]) == [] {
      EmptyKindMatchesNothing(db, criteria, kind);
      if ids != [] {
        assert MatchesEveryKind(db, criteria, ids[0]);
      }
    }
  }

  /** With no id matching every kind, the empty result keeps the lookup's
      promises, whichever kind ended it. */
  lemma EmptyLookup(db: Db, criteria: map<string, seq<string>>, kind: string)
    requires kind in criteria
    requires forall id :: !MatchesEveryKind(db, criteria, id)
    ensures EntityLookupResult(db, criteria, [])
  {
    forall other | other in criteria && |criteria| == 1
      ensures [] == KindMatches(db, other, criteria[other])
    {
      SingletonKeys(criteria.Keys, kind, other);
      var m := KindMatches(db, kind, criteria[kind]);
      if m != [] {
        assert MatchesEveryKind(db, criteria, m[0]) by {
          forall k | k in criteria.Keys && k in criteria ensures m[0] in KindMatches(db, k, criteria[k]) {
            SingletonKeys(criteria.Keys, kind, k);
          }
        }
      }
    }
  }

  /** One step of the lookup: keep the ids that also match `kind`, each
      once. */
  method NarrowByKind(db: Db, criteria: map<string, seq<string>>, ghost done: set<string>,
                      ids: seq<string>, kind: string) returns (r: seq<string>)
    requires kind in criteria
    requires ExactlyMatching(db, criteria, done, ids)
    ensures Distinct(r)
    ensures ExactlyMatching(db, criteria, done + {kind}, r)
  {
    var common := SetOf(ids) * SetOf(KindMatches(db, kind, criteria[kind]));
    IntersectionAddsKind(db, criteria, done, kind, ids, common);
    r := ListOfSet(common);
  }

  lemma EmptyKindMatchesNothing(db: Db, criteria: map<string, seq<string>>, kind: string)
    requires kind in criteria && KindMatches(db, kind, criteria[kind]) == []
    ensures forall id :: !MatchesEveryKind(db, criteria, id)
  {
    forall id ensures !MatchesEveryKind(db, criteria, id) {
      assert id !in KindMatches(db, kind, criteria[kind]);
    }
  }

  lemma EmptyIntersectionMatchesNothing(db: Db, criteria: map<string, seq<string>>, kinds: set<string>)
    requires kinds <= criteria.Keys
    requires forall id :: !MatchesKinds(db, criteria, kinds, id)
    ensures forall id :: !MatchesEveryKind(db, criteria, id)
  {
    forall id | MatchesEveryKind(db, criteria, id) ensures false {
      assert MatchesKinds(db, criteria, kinds, id);
    }
  }

  /** Intersecting the ids matching `done` with one more kind's ids gives
      the ids matching `done` and that kind. */
  lemma IntersectionAddsKind(db: Db, criteria: map<string, seq<string>>, done: set<string>, kind: string,
                             ids: seq<string>, common: set<string>)
    requires kind in criteria
    requires forall id :: id in ids <==> MatchesKinds(db, criteria, done, id)
    requires common == SetOf(ids) * SetOf(KindMatches(db, kind, criteria[kind]))
    ensures forall id :: id in common <==> MatchesKinds(db, criteria, done + {kind}, id)
  {
    forall id ensures id in common <==> MatchesKinds(db, criteria, done + {kind}, id) {
      if MatchesKinds(db, criteria, done + {kind}, id) {
        assert MatchesKinds(db, criteria, done, id);
      }
    }
  }

  lemma SingletonKeys<T>(keys: set<T>, a: T, b: T)
    requires |keys| == 1 && a in keys && b in keys
    ensures a == b
  {
    if a != b {
      SubsetCard({a, b}, keys);
    }
  }

  lemma {:induction false} SubsetCard<T>(a: set<T>, b: set<T>)
    requires a <= b
    ensures |a| <= |b|
  {
    if a != {} {
      var x :| x in a;
      SubsetCard(a - {x}, b - {x});
    }
  }

  // ---------------------------------------------------------------------
  // query_article_by_article_id

  /** One value of the ordered result dict: the selected columns, plus
      the sparse `entity` and `tags` keys the search handler adds. */
  datatype ArticleEntry = ArticleEntry(
    fields: ArticleFields,
    entity: Option<map<string, seq<string>>>,
    tags: Option<seq<string>>)

  /** An insertion-ordered dict from article id to its entry. */
  datatype ArticlesDict = ArticlesDict(order: seq<string>, entries: map<string, ArticleEntry>)

  ghost predicate WellFormed(d: ArticlesDict) {
    Distinct(d.order) && forall id :: id in d.entries <==> id in d.order
  }

  predicate OrderedByTime(d: ArticlesDict, desc: bool) {
    forall a, b :: 0 <= a < b < |d.order| && d.order[a] in d.entries && d.order[b] in d.entries ==>
      Before(d.entries[d.order[a]].fields.publishedTime, d.entries[d.order[b]].fields.publishedTime, desc)
  }

  /** The ordered dict built from the fetched rows: a row whose id is
      already a key replaces that key's value and keeps its position. */
  function DictOf(rows: seq<ArticleRow>): ArticlesDict {
    if rows == [] then ArticlesDict([], map[])
    else
      var d := DictOf(rows[..|rows| - 1]);
      var row := rows[|rows| - 1];
      ArticlesDict(if row.articleId in d.entries then d.order else d.order + [row.articleId],
                   d.entries[row.articleId := ArticleEntry(Fields(row), None, None)])
  }

  /** Every key comes from a fetched row, appears once in the order, and
      carries that row's columns and no attachments. */
  lemma {:induction false} DictOfEntries(rows: seq<ArticleRow>)
    ensures WellFormed(DictOf(rows))
    ensures forall id :: id in DictOf(rows).entries <==> exists row :: row in rows && row.articleId == id
    ensures forall id :: id in DictOf(rows).entries ==>
      && DictOf(rows).entries[id].entity.None? && DictOf(rows).entries[id].tags.None?
      && exists row :: row in rows && row.articleId == id && DictOf(rows).entries[id].fields == Fields(row)
  {
    if rows != [] {
      var init := rows[..|rows| - 1];
      var row := rows[|rows| - 1];
      assert rows == init + [row];
      DictOfEntries(init);
      var d := DictOf(init);
      forall id | id in DictOf(rows).entries && id != row.articleId
        ensures exists r :: r in rows && r.articleId == id && DictOf(rows).entries[id].fields == Fields(r)
      {
        var r :| r in init && r.articleId == id && d.entries[id].fields == Fields(r);
        assert r in rows;
      }
      forall id | (exists r :: r in rows && r.articleId == id) ensures id in DictOf(rows).entries {
        var r :| r in rows && r.articleId == id;
        if r != row {
          assert r in init;
        }
      }
    }
  }

  /** With distinct ids, the dict keeps one entry per row, in row order. */
  lemma {:induction false} DictOfDistinct(rows: seq<ArticleRow>)
    requires DistinctIds(rows)
    ensures |DictOf(rows).order| == |rows|
    ensures forall k :: 0 <= k < |rows| ==>
      && DictOf(rows).order[k] == rows[k].articleId
      && rows[k].articleId in DictOf(rows).entries
      && DictOf(rows).entries[rows[k].articleId].fields == Fields(rows[k])
  {
    if rows != [] {
      var init := rows[..|rows| - 1];
      var row := rows[|rows| - 1];
      assert rows == init + [row];
      DictOfDistinct(init);
      LastIdFresh(rows);
      DictOfFreshAppend(init, row);
      AppendFreshRow(init, row, DictOf(init));
    }
  }

  lemma LastIdFresh(rows: seq<ArticleRow>)
    requires rows != [] && DistinctIds(rows)
    ensures forall r :: r in rows[..|rows| - 1] ==> r.articleId != rows[|rows| - 1].articleId
  {
    forall r | r in rows[..|rows| - 1] ensures r.articleId != rows[|rows| - 1].articleId {
      var k :| 0 <= k < |rows| - 1 && rows[..|rows| - 1][k] == r;
      assert rows[k] == r;
    }
  }

  /** A row with a fresh id is appended to the order. */
  lemma DictOfFreshAppend(init: seq<ArticleRow>, row: ArticleRow)
    requires forall r :: r in init ==> r.articleId != row.articleId
    ensures DictOf(init + [row]) ==
      ArticlesDict(DictOf(init).order + [row.articleId],
                   DictOf(init).entries[row.articleId := ArticleEntry(Fields(row), None, None)])
  {
    DictOfEntries(init);
    assert (init + [row])[..|init|] == init;
  }

  /** Adding a row with a fresh id to a dict holding one entry per row,
      in row order, keeps it so. */
  lemma AppendFreshRow(init: seq<ArticleRow>, row: ArticleRow, d: ArticlesDict)
    requires |d.order| == |init|
    requires forall k :: 0 <= k < |init| ==>
      && d.order[k] == init[k].articleId
      && init[k].articleId in d.entries
      && d.entries[init[k].articleId].fields == Fields(init[k])
    requires forall r :: r in init ==> r.articleId != row.articleId
    ensures var rows, e := init + [row], d.entries[row.articleId := ArticleEntry(Fields(row), None, None)];
      && |d.order + [row.articleId]| == |rows|
      && forall k :: 0 <= k < |rows| ==>
           && (d.order + [row.articleId])[k] == rows[k].articleId
           && rows[k].articleId in e
           && e[rows[k].articleId].fields == Fields(rows[k])
  {
    var rows := init + [row];
    forall k | 0 <= k < |rows| - 1 ensures rows[k] == init[k] && rows[k].articleId != row.articleId {
      assert init[k] in init;
    }
  }

  /** Rows in publication order with distinct ids give a dict in that order. */
  lemma DictOfOrdered(rows: seq<ArticleRow>, desc: bool)
    requires DistinctIds(rows) && SortedByTime(rows, desc)
    ensures OrderedByTime(DictOf(rows), desc)
  {
    DictOfDistinct(rows);
  }

  /** What the article lookup promises about its dict `d`: its keys are
      exactly the requested ids that exist, each once in the order; each
      entry holds the columns of a row of that article and no entity or
      tag attachment yet; with unique ids the order is by publication time. */
  ghost predicate ArticleLookupResult(db: Db, ids: seq<string>, desc: bool, d: ArticlesDict) {
    && WellFormed(d)
    && (forall id :: id in d.entries <==> id in ids && ArticleExists(db, id))
    && (forall id :: id in d.entries ==> d.entries[id].entity.None? && d.entries[id].tags.None?)
    && (forall id :: id in d.entries ==>
          exists row :: row in db.articles && row.articleId == id && d.entries[id].fields == Fields(row))
    && (UniqueArticleIds(db) ==> OrderedByTime(d, desc))
  }

  /** The requested articles that exist, in publication order, each with
      its five selected columns and no entity or tag attachment yet. */
  method QueryArticleByArticleId(db: Db, ids: seq<string>, desc: bool) returns (d: ArticlesDict)
    ensures d == DictOf(SortByTime(WithIdIn(db.articles, ids), desc))
    ensures ArticleLookupResult(db, ids, desc, d)
  {
    var rows := SortByTime(WithIdIn(db.articles, ids), desc);
    var order: seq<string> := [];
    var entries: map<string, ArticleEntry> := map[];
    for i := 0 to |rows|
      invariant ArticlesDict(order, entries) == DictOf(rows[..i])
    {
      var row := rows[i];
      assert rows[..i + 1][..i] == rows[..i];
      if row.articleId !in entries {
        order := order + [row.articleId];
      }
      entries := entries[row.articleId := ArticleEntry(Fields(row), None, None)];
    }
    assert rows[..|rows|] == rows;
    d := ArticlesDict(order, entries);
    ArticleDictFacts(db, ids, desc);
  }

  /** What the fetched dict holds, stated on the database. */
  lemma ArticleDictFacts(db: Db, ids: seq<string>, desc: bool)
    ensures ArticleLookupResult(db, ids, desc, DictOf(SortByTime(WithIdIn(db.articles, ids), desc)))
  {
    var filtered := WithIdIn(db.articles, ids);
    var rows := SortByTime(filtered, desc);
    var d := DictOf(rows);
    DictOfEntries(rows);
    assert forall row :: row in rows <==> row in filtered by {
      assert multiset(rows) == multiset(filtered);
      forall row ensures row in rows <==> row in filtered {
        assert row in rows <==> row in multiset(rows);
      }
    }
    forall id | id in d.entries
      ensures exists row :: row in db.articles && row.articleId == id && d.entries[id].fields == Fields(row)
    {
      var row :| row in rows && row.articleId == id && d.entries[id].fields == Fields(row);
      assert row in db.articles;
    }
    if UniqueArticleIds(db) {
      SortDistinct(filtered, desc);
      DictOfOrdered(rows, desc);
    }
  }

  // ---------------------------------------------------------------------
  // Grouping rows by article: shared definitions

  /** The first index of the trailing run of rows sharing the last row's
      article id. */
  function RunStart<R>(rows: seq<R>, idOf: R -> string): (start: nat)
    requires rows != []
    ensures start < |rows|
    ensures forall k :: start <= k < |rows| ==> idOf(rows[k]) == idOf(rows[|rows| - 1])
    ensures start == 0 || idOf(rows[start - 1]) != idOf(rows[|rows| - 1])
  {
    if |rows| == 1 || idOf(rows[|rows| - 2]) != idOf(rows[|rows| - 1]) then |rows| - 1
    else RunStart(rows[..|rows| - 1], idOf)
  }

  function EntityRowArticle(row: EntityRow): string { row.articleId }

  function TagRowArticle(row: TagRow): string { row.articleId }

  /** `.filter(Entity.article_id.in_(ids))` and
      `.filter(Tag.article_id.in_(ids))`: the rows of the requested
      articles, in table order. */
  function RowsFor<R(!new)>(rows: seq<R>, idOf: R -> string, ids: seq<string>): (r: seq<R>)
    ensures forall row :: row in r <==> row in rows && idOf(row) in ids
  {
    if rows == [] then []
    else
      var last := rows[|rows| - 1];
      assert rows == rows[..|rows| - 1] + [last];
      RowsFor(rows[..|rows| - 1], idOf, ids) + (if idOf(last) in ids then [last] else [])
  }

  // ---------------------------------------------------------------------
  // query_entities_by_article_id

  /** The values of `kind` annotating article `id`, in row order. */
  function EntityValues(rows: seq<EntityRow>, id: string, kind: string): seq<string> {
    if rows == [] then []
    else
      var last := rows[|rows| - 1];
      EntityValues(rows[..|rows| - 1], id, kind)
        + (if last.articleId == id && last.entity == kind then [last.entityValue] else [])
  }

  /** `group` maps each kind annotating `id` in `rows` to its values. */
  ghost predicate IsKindGroup(rows: seq<EntityRow>, id: string, group: map<string, seq<string>>) {
    && (forall kind :: kind in group <==> exists row :: row in rows && row.articleId == id && row.entity == kind)
    && (forall kind :: kind in group ==> group[kind] == EntityValues(rows, id, kind))
  }

  /** The group after appending `row`'s value under its kind. */
  function AddEntityValue(group: map<string, seq<string>>, row: EntityRow): map<string, seq<string>> {
    if row.entity in group then group[row.entity := group[row.entity] + [row.entityValue]]
    else group[row.entity := [row.entityValue]]
  }

  lemma EntityValuesAppend(rows: seq<EntityRow>, row: EntityRow, id: string, kind: string)
    ensures EntityValues(rows + [row], id, kind) ==
      EntityValues(rows, id, kind) + (if row.articleId == id && row.entity == kind then [row.entityValue] else [])
  {
    assert (rows + [row])[..|rows|] == rows;
  }

  /** Appending a row of `id` adds its value under its kind; a row of
      another article leaves the group of `id` as it is. */
  lemma KindGroupAppend(rows: seq<EntityRow>, row: EntityRow, id: string, group: map<string, seq<string>>)
    requires IsKindGroup(rows, id, group)
    ensures row.articleId == id ==> IsKindGroup(rows + [row], id, AddEntityValue(group, row))
    ensures row.articleId != id ==> IsKindGroup(rows + [row], id, group)
  {
    var rs := rows + [row];
    var g := if row.articleId == id then AddEntityValue(group, row) else group;
    forall kind ensures kind in g <==> exists w :: w in rs && w.articleId == id && w.entity == kind {
      if kind in g && !(row.articleId == id && row.entity == kind) {
        var w :| w in rows && w.articleId == id && w.entity == kind;
        assert w in rs;
      }
      if row.articleId == id && row.entity == kind {
        assert row in rs;
      }
    }
    forall kind | kind in g ensures g[kind] == EntityValues(rs, id, kind) {
      EntityValuesAppend(rows, row, id, kind);
      if row.articleId == id && kind == row.entity && kind !in group && EntityValues(rows, id, kind) != [] {
        NonEmptyValuesHaveRow(rows, id, kind);
      }
    }
    assert IsKindGroup(rs, id, g);
  }

  lemma {:induction false} NonEmptyValuesHaveRow(rows: seq<EntityRow>, id: string, kind: string)
    requires EntityValues(rows, id, kind) != []
    ensures exists row :: row in rows && row.articleId == id && row.entity == kind
  {
    var last := rows[|rows| - 1];
    assert rows == rows[..|rows| - 1] + [last];
    if !(last.articleId == id && last.entity == kind) {
      NonEmptyValuesHaveRow(rows[..|rows| - 1], id, kind);
    }
  }

  lemma {:induction false} FilterKeepsEntityValues(rows: seq<EntityRow>, ids: seq<string>, id: string, kind: string)
    requires id in ids
    ensures EntityValues(RowsFor(rows, EntityRowArticle, ids), id, kind) == EntityValues(rows, id, kind)
  {
    if rows != [] {
      var init, last := rows[..|rows| - 1], rows[|rows| - 1];
      FilterKeepsEntityValues(init, ids, id, kind);
      var f := RowsFor(init, EntityRowArticle, ids);
      if last.articleId in ids {
        assert (f + [last])[..|f|] == f;
      } else {
        assert f + [] == f;
      }
    }
  }

  /** One pass of the grouping loop as written: a row of an article that
      has no (non-empty) entry replaces the whole dict. */
  function EntityStepAsWritten(r: map<string, map<string, seq<string>>>, row: EntityRow)
    : map<string, map<string, seq<string>>>
  {
    if row.articleId in r && r[row.articleId] != map[] then r[row.articleId := AddEntityValue(r[row.articleId], row)]
    else map[row.articleId := map[row.entity := [row.entityValue]]]
  }

  /** One pass of the corrected loop: such a row adds its article's entry. */
  function EntityStepIntended(r: map<string, map<string, seq<string>>>, row: EntityRow)
    : map<string, map<string, seq<string>>>
  {
    if row.articleId in r && r[row.articleId] != map[] then r[row.articleId := AddEntityValue(r[row.articleId], row)]
    else r[row.articleId := map[row.entity := [row.entityValue]]]
  }

  /** The dict the loop as written builds from `rows`. */
  function EntitiesAsWritten(rows: seq<EntityRow>): map<string, map<string, seq<string>>> {
    if rows == [] then map[]
    else EntityStepAsWritten(EntitiesAsWritten(rows[..|rows| - 1]), rows[|rows| - 1])
  }

  /** The dict the corrected loop builds from `rows`. */
  function EntitiesIntended(rows: seq<EntityRow>): map<string, map<string, seq<string>>> {
    if rows == [] then map[]
    else EntityStepIntended(EntitiesIntended(rows[..|rows| - 1]), rows[|rows| - 1])
  }

  lemma RunStartAppend<R>(init: seq<R>, row: R, idOf: R -> string)
    requires init != []
    ensures RunStart(init + [row], idOf) ==
      if idOf(row) == idOf(init[|init| - 1]) then RunStart(init, idOf) else |init|
  {
    assert (init + [row])[..|init|] == init;
  }

  lemma EntitiesAsWrittenAppend(init: seq<EntityRow>, row: EntityRow)
    ensures EntitiesAsWritten(init + [row]) == EntityStepAsWritten(EntitiesAsWritten(init), row)
  {
    assert (init + [row])[..|init|] == init;
  }

  /** `r` has the last row's article as its only key, holding the kinds
      of that article's trailing run of rows. */
  ghost predicate LastRunOnly(rows: seq<EntityRow>, r: map<string, map<string, seq<string>>>) {
    && rows != []
    && r.Keys == {rows[|rows| - 1].articleId}
    && IsKindGroup(rows[RunStart(rows, EntityRowArticle)..], rows[|rows| - 1].articleId, r[rows[|rows| - 1].articleId])
  }

  /** As written, only the last row's article is a key, and it holds the
      kinds of that article's trailing run of rows only. */
  lemma {:induction false} EntitiesAsWrittenKeepLastRun(rows: seq<EntityRow>)
    requires rows != []
    ensures LastRunOnly(rows, EntitiesAsWritten(rows))
  {
    var init, row := rows[..|rows| - 1], rows[|rows| - 1];
    assert rows == init + [row];
    EntitiesAsWrittenAppend(init, row);
    if init != [] {
      EntitiesAsWrittenKeepLastRun(init);
    }
    if init != [] && row.articleId == init[|init| - 1].articleId {
      SameRunStep(rows, init, row, EntitiesAsWritten(init));
    } else {
      NewRunStep(rows, init, row, EntitiesAsWritten(init));
    }
  }

  /** A row of another article than the previous row starts a new run and
      a new dict. */
  lemma NewRunStep(rows: seq<EntityRow>, init: seq<EntityRow>, row: EntityRow, r0: map<string, map<string, seq<string>>>)
    requires rows == init + [row]
    requires init == [] || row.articleId != init[|init| - 1].articleId
    requires init == [] ==> r0 == map[]
    requires init != [] ==> LastRunOnly(init, r0)
    ensures LastRunOnly(rows, EntityStepAsWritten(r0, row))
  {
    if init == [] {
      assert rows == [row];
    } else {
      RunStartAppend(init, row, EntityRowArticle);
    }
    assert rows[|rows| - 1] == row && row.articleId !in r0;
    assert rows[RunStart(rows, EntityRowArticle)..] == [row];
    SingleRowGroup(row);
  }

  lemma SingleRowGroup(row: EntityRow)
    ensures IsKindGroup([row], row.articleId, map[row.entity := [row.entityValue]])
  {
    assert [row] == [] + [row];
    KindGroupAppend([], row, row.articleId, map[]);
    assert AddEntityValue(map[], row) == map[row.entity := [row.entityValue]];
  }

  /** A row continuing the current run extends the run's group. */
  lemma SameRunStep(rows: seq<EntityRow>, init: seq<EntityRow>, row: EntityRow, r0: map<string, map<string, seq<string>>>)
    requires rows == init + [row] && init != [] && row.articleId == init[|init| - 1].articleId
    requires LastRunOnly(init, r0)
    ensures LastRunOnly(rows, EntityStepAsWritten(r0, row))
  {
    RunStartAppend(init, row, EntityRowArticle);
    var start := RunStart(init, EntityRowArticle);
    var g := r0[row.articleId];
    var prev := init[|init| - 1];
    assert prev in init[start..];
    assert prev.entity in g;
    KindGroupAppend(init[start..], row, row.articleId, g);
    assert rows[start..] == init[start..] + [row];
  }

  lemma EntitiesIntendedAppend(init: seq<EntityRow>, row: EntityRow)
    ensures EntitiesIntended(init + [row]) == EntityStepIntended(EntitiesIntended(init), row)
  {
    assert (init + [row])[..|init|] == init;
  }

  /** Corrected, every article of `rows` is a key, holding all its kinds. */
  lemma {:induction false} EntitiesIntendedGroupAll(rows: seq<EntityRow>)
    ensures forall id :: id in EntitiesIntended(rows) <==> exists row :: row in rows && row.articleId == id
    ensures forall id :: id in EntitiesIntended(rows) ==> IsKindGroup(rows, id, EntitiesIntended(rows)[id])
  {
    if rows != [] {
      var init, row := rows[..|rows| - 1], rows[|rows| - 1];
      assert rows == init + [row];
      EntitiesIntendedGroupAll(init);
      EntitiesIntendedAppend(init, row);
      IntendedStep(init, row, EntitiesIntended(init));
    }
  }

  /** One corrected step keeps every article's group complete. */
  lemma IntendedStep(init: seq<EntityRow>, row: EntityRow, r0: map<string, map<string, seq<string>>>)
    requires forall id :: id in r0 <==> exists w :: w in init && w.articleId == id
    requires forall id :: id in r0 ==> IsKindGroup(init, id, r0[id])
    ensures forall id :: id in EntityStepIntended(r0, row) <==> exists w :: w in init + [row] && w.articleId == id
    ensures forall id :: id in EntityStepIntended(r0, row) ==>
      IsKindGroup(init + [row], id, EntityStepIntended(r0, row)[id])
  {
    var rs := init + [row];
    var r := EntityStepIntended(r0, row);
    forall id ensures id in r <==> exists w :: w in rs && w.articleId == id {
      if id in r0 {
        var w :| w in init && w.articleId == id;
        assert w in rs;
      }
      if id == row.articleId {
        assert row in rs;
      } else if exists w :: w in rs && w.articleId == id {
        var w :| w in rs && w.articleId == id;
        assert w in init;
      }
    }
    forall id | id in r ensures IsKindGroup(rs, id, r[id]) {
      if id != row.articleId {
        KindGroupAppend(init, row, id, r0[id]);
      } else if id in r0 {
        var w :| w in init && w.articleId == id;
        assert w.entity in r0[id];
        KindGroupAppend(init, row, id, r0[id]);
      } else {
        assert IsKindGroup(init, id, map[]);
        KindGroupAppend(init, row, id, map[]);
        assert AddEntityValue(map[], row) == map[row.entity := [row.entityValue]];
      }
    }
  }

  /** As written: each row whose article is not the dict's current key
      replaces the whole dict, so only the last row's article survives,
      holding the kinds of its trailing run of rows. */
  method QueryEntitiesByArticleId(db: Db, ids: seq<string>) returns (r: map<string, map<string, seq<string>>>)
    ensures r == EntitiesAsWritten(RowsFor(db.entities, EntityRowArticle, ids))
    ensures RowsFor(db.entities, EntityRowArticle, ids) == [] ==> r == map[]
    ensures RowsFor(db.entities, EntityRowArticle, ids) != [] ==> LastRunOnly(RowsFor(db.entities, EntityRowArticle, ids), r)
  {
    var rows := RowsFor(db.entities, EntityRowArticle, ids);
    r := map[];
    for i := 0 to |rows|
      invariant r == EntitiesAsWritten(rows[..i])
    {
      var row := rows[i];
      assert rows[..i + 1][..i] == rows[..i];
      assert EntitiesAsWritten(rows[..i + 1]) == EntityStepAsWritten(r, row);
      if row.articleId in r && r[row.articleId] != map[] {
        var articleEntities := r[row.articleId];
        if row.entity in articleEntities {
          articleEntities := articleEntities[row.entity := articleEntities[row.entity] + [row.entityValue]];
        } else {
          articleEntities := articleEntities[row.entity := [row.entityValue]];
        }
        r := r[row.articleId := articleEntities];
      } else {
        r := map[row.articleId := map[row.entity := [row.entityValue]]];
      }
    }
    assert rows[..|rows|] == rows;
    if rows != [] {
      EntitiesAsWrittenKeepLastRun(rows);
    }
  }

  /** Corrected: one key per article with entity rows, holding every kind
      of that article with its values in row order. */
  method QueryEntitiesByArticleIdIntended(db: Db, ids: seq<string>) returns (r: map<string, map<string, seq<string>>>)
    ensures r == EntitiesIntended(RowsFor(db.entities, EntityRowArticle, ids))
    ensures forall id :: id in r <==> id in ids && HasEntityRows(db, id)
    ensures forall id :: id in r ==> IsKindGroup(db.entities, id, r[id])
  {
    var rows := RowsFor(db.entities, EntityRowArticle, ids);
    r := map[];
    for i := 0 to |rows|
      invariant r == EntitiesIntended(rows[..i])
    {
      var row := rows[i];
      assert rows[..i + 1][..i] == rows[..i];
      assert EntitiesIntended(rows[..i + 1]) == EntityStepIntended(r, row);
      if row.articleId in r && r[row.articleId] != map[] {
        var articleEntities := r[row.articleId];
        if row.entity in articleEntities {
          articleEntities := articleEntities[row.entity := articleEntities[row.entity] + [row.entityValue]];
        } else {
          articleEntities := articleEntities[row.entity := [row.entityValue]];
        }
        r := r[row.articleId := articleEntities];
      } else {
        r := r[row.articleId := map[row.entity := [row.entityValue]]];
      }
    }
    assert rows[..|rows|] == rows;
    EntityGroupsOnDb(db, ids);
  }

  /** The corrected grouping of the fetched rows, stated on the database. */
  lemma EntityGroupsOnDb(db: Db, ids: seq<string>)
    ensures var r := EntitiesIntended(RowsFor(db.entities, EntityRowArticle, ids));
      && (forall id :: id in r <==> id in ids && HasEntityRows(db, id))
      && (forall id :: id in r ==> IsKindGroup(db.entities, id, r[id]))
  {
    var rows := RowsFor(db.entities, EntityRowArticle, ids);
    var r := EntitiesIntended(rows);
    EntitiesIntendedGroupAll(rows);
    forall id | id in r ensures id in ids && IsKindGroup(db.entities, id, r[id]) {
      var w :| w in rows && w.articleId == id;
      forall kind ensures EntityValues(rows, id, kind) == EntityValues(db.entities, id, kind) {
        FilterKeepsEntityValues(db.entities, ids, id, kind);
      }
    }
    forall id | id in ids && HasEntityRows(db, id) ensures id in r {
      var w :| w in db.entities && w.articleId == id;
      assert w in rows;
    }
  }

  // ---------------------------------------------------------------------
  // query_tag_by_article_id

  /** The tags of article `id`, in row order. */
  function TagValues(rows: seq<TagRow>, id: string): seq<string> {
    if rows == [] then []
    else
      var last := rows[|rows| - 1];
      TagValues(rows[..|rows| - 1], id) + (if last.articleId == id then [last.tag] else [])
  }

  lemma {:induction false} TagValuesNonEmpty(rows: seq<TagRow>, id: string)
    ensures TagValues(rows, id) != [] <==> exists row :: row in rows && row.articleId == id
  {
    if rows != [] {
      var last := rows[|rows| - 1];
      assert rows == rows[..|rows| - 1] + [last];
      TagValuesNonEmpty(rows[..|rows| - 1], id);
    }
  }

  lemma {:induction false} FilterKeepsTagValues(rows: seq<TagRow>, ids: seq<string>, id: string)
    requires id in ids
    ensures TagValues(RowsFor(rows, TagRowArticle, ids), id) == TagValues(rows, id)
  {
    if rows != [] {
      var init, last := rows[..|rows| - 1], rows[|rows| - 1];
      FilterKeepsTagValues(init, ids, id);
      var f := RowsFor(init, TagRowArticle, ids);
      if last.articleId in ids {
        assert (f + [last])[..|f|] == f;
      } else {
        assert f + [] == f;
      }
    }
  }

  /** One pass of the tag loop as written: a row of an article that has
      no (non-empty) entry replaces the whole dict. */
  function TagStepAsWritten(r: map<string, seq<string>>, row: TagRow): map<string, seq<string>> {
    if row.articleId in r && r[row.articleId] != [] then r[row.articleId := r[row.articleId] + [row.tag]]
    else map[row.articleId := [row.tag]]
  }

  /** One pass of the corrected loop: such a row adds its article's entry. */
  function TagStepIntended(r: map<string, seq<string>>, row: TagRow): map<string, seq<string>> {
    if row.articleId in r && r[row.articleId] != [] then r[row.articleId := r[row.articleId] + [row.tag]]
    else r[row.articleId := [row.tag]]
  }

  function TagsAsWritten(rows: seq<TagRow>): map<string, seq<string>> {
    if rows == [] then map[]
    else TagStepAsWritten(TagsAsWritten(rows[..|rows| - 1]), rows[|rows| - 1])
  }

  function TagsIntended(rows: seq<TagRow>): map<string, seq<string>> {
    if rows == [] then map[]
    else TagStepIntended(TagsIntended(rows[..|rows| - 1]), rows[|rows| - 1])
  }

  lemma TagValuesAppend(init: seq<TagRow>, row: TagRow, id: string)
    ensures TagValues(init + [row], id) == TagValues(init, id) + (if row.articleId == id then [row.tag] else [])
  {
    assert (init + [row])[..|init|] == init;
  }

  /** As written, only the last row's article is a key, holding the tags
      of that article's trailing run of rows only. */
  lemma {:induction false} TagsAsWrittenKeepLastRun(rows: seq<TagRow>)
    requires rows != []
    ensures var id := rows[|rows| - 1].articleId;
      TagsAsWritten(rows) == map[id := TagValues(rows[RunStart(rows, TagRowArticle)..], id)]
  {
    var init, row := rows[..|rows| - 1], rows[|rows| - 1];
    var id := row.articleId;
    assert rows == init + [row];
    assert TagsAsWritten(rows) == TagStepAsWritten(TagsAsWritten(init), row);
    if init == [] {
      assert rows[RunStart(rows, TagRowArticle)..] == [row];
      SingleRowTags(row);
    } else {
      TagsAsWrittenKeepLastRun(init);
      RunStartAppend(init, row, TagRowArticle);
      var prev := init[|init| - 1];
      var start := RunStart(init, TagRowArticle);
      if id == prev.articleId {
        assert rows[start..] == init[start..] + [row];
        assert prev in init[start..];
        TagSameRunStep(init[start..], row, TagsAsWritten(init));
      } else {
        assert rows[|init|..] == [row];
        SingleRowTags(row);
      }
    }
  }

  /** A row continuing the current run extends the run's tags. */
  lemma TagSameRunStep(run: seq<TagRow>, row: TagRow, r0: map<string, seq<string>>)
    requires exists w :: w in run && w.articleId == row.articleId
    requires r0 == map[row.articleId := TagValues(run, row.articleId)]
    ensures TagStepAsWritten(r0, row) == map[row.articleId := TagValues(run + [row], row.articleId)]
  {
    var id := row.articleId;
    TagValuesNonEmpty(run, id);
    TagValuesAppend(run, row, id);
    assert r0[id] != [];
    assert TagStepAsWritten(r0, row) == r0[id := r0[id] + [row.tag]];
  }

  lemma SingleRowTags(row: TagRow)
    ensures TagValues([row], row.articleId) == [row.tag]
  {
    assert [row] == [] + [row];
    TagValuesAppend([], row, row.articleId);
  }

  /** Corrected, every article of `rows` is a key, holding all its tags. */
  lemma {:induction false} TagsIntendedGroupAll(rows: seq<TagRow>)
    ensures forall id :: id in TagsIntended(rows) <==> exists row :: row in rows && row.articleId == id
    ensures forall id :: id in TagsIntended(rows) ==> TagsIntended(rows)[id] == TagValues(rows, id)
  {
    if rows != [] {
      var init, row := rows[..|rows| - 1], rows[|rows| - 1];
      assert rows == init + [row];
      TagsIntendedGroupAll(init);
      assert TagsIntended(rows) == TagStepIntended(TagsIntended(init), row);
      var r0, r := TagsIntended(init), TagsIntended(rows);
      forall id ensures id in r <==> exists w :: w in rows && w.articleId == id {
        if id in r0 {
          var w :| w in init && w.articleId == id;
          assert w in rows;
        }
        if id != row.articleId && exists w :: w in rows && w.articleId == id {
          var w :| w in rows && w.articleId == id;
          assert w in init;
        }
      }
      forall id | id in r ensures r[id] == TagValues(rows, id) {
        TagValuesAppend(init, row, id);
        TagValuesNonEmpty(init, id);
      }
    }
  }

  /** As written: a row of a new article replaces the whole dict, so only
      the last row's article survives, with the tags of its trailing run. */
  method QueryTagByArticleId(db: Db, ids: seq<string>) returns (r: map<string, seq<string>>)
    ensures r == TagsAsWritten(RowsFor(db.tags, TagRowArticle, ids))
    ensures RowsFor(db.tags, TagRowArticle, ids) == [] ==> r == map[]
    ensures var rows := RowsFor(db.tags, TagRowArticle, ids);
      rows != [] ==>
        var id := rows[|rows| - 1].articleId;
        r == map[id := TagValues(rows[RunStart(rows, TagRowArticle)..], id)]
  {
    var rows := RowsFor(db.tags, TagRowArticle, ids);
    r := map[];
    for i := 0 to |rows|
      invariant r == TagsAsWritten(rows[..i])
    {
      var row := rows[i];
      assert rows[..i + 1][..i] == rows[..i];
      if row.articleId in r && r[row.articleId] != [] {
        r := r[row.articleId := r[row.articleId] + [row.tag]];
      } else {
        r := map[row.articleId := [row.tag]];
      }
    }
    assert rows[..|rows|] == rows;
    if rows != [] {
      TagsAsWrittenKeepLastRun(rows);
    }
  }

  /** Corrected: one key per article with tag rows, holding all its tags
      in row order. */
  method QueryTagByArticleIdIntended(db: Db, ids: seq<string>) returns (r: map<string, seq<string>>)
    ensures r == TagsIntended(RowsFor(db.tags, TagRowArticle, ids))
    ensures forall id :: id in r <==> id in ids && HasTagRows(db, id)
    ensures forall id :: id in r ==> r[id] == TagValues(db.tags, id)
  {
    var rows := RowsFor(db.tags, TagRowArticle, ids);
    r := map[];
    for i := 0 to |rows|
      invariant r == TagsIntended(rows[..i])
    {
      var row := rows[i];
      assert rows[..i + 1][..i] == rows[..i];
      if row.articleId in r && r[row.articleId] != [] {
        r := r[row.articleId := r[row.articleId] + [row.tag]];
      } else {
        r := r[row.articleId := [row.tag]];
      }
    }
    assert rows[..|rows|] == rows;
    TagGroupsOnDb(db, ids);
  }

  /** The corrected tag grouping of the fetched rows, stated on the database. */
  lemma TagGroupsOnDb(db: Db, ids: seq<string>)
    ensures var r := TagsIntended(RowsFor(db.tags, TagRowArticle, ids));
      && (forall id :: id in r <==> id in ids && HasTagRows(db, id))
      && (forall id :: id in r ==> r[id] == TagValues(db.tags, id))
  {
    var rows := RowsFor(db.tags, TagRowArticle, ids);
    var r := TagsIntended(rows);
    TagsIntendedGroupAll(rows);
    forall id | id in r ensures id in ids && r[id] == TagValues(db.tags, id) {
      var w :| w in rows && w.articleId == id;
      FilterKeepsTagValues(db.tags, ids, id);
    }
    forall id | id in ids && HasTagRows(db, id) ensures id in r {
      var w :| w in db.tags && w.articleId == id;
      assert w in rows;
    }
  }

  // ---------------------------------------------------------------------
  // The grouping loops as written lose every article but the last

  /** Entity rows of two articles, A then B, as fetched for ids [A, B]. */
  function TwoArticleEntityRows(): seq<EntityRow> {
    [EntityRow("A", "city", "toronto"), EntityRow("B", "city", "montreal")]
  }

  /** Tag rows of two articles, A then B, as fetched for ids [A, B]. */
  function TwoArticleTagRows(): seq<TagRow> {
    [TagRow("A", "news", "u"), TagRow("B", "travel", "u")]
  }

  /** Both rows pass the filter for ids [A, B]. */
  lemma TwoArticleEntityRowsFetched()
    ensures RowsFor(TwoArticleEntityRows(), EntityRowArticle, ["A", "B"]) == TwoArticleEntityRows()
  {
    var rows := TwoArticleEntityRows();
    assert rows[..1] == [rows[0]] && [rows[0]][..0] == [];
    assert RowsFor(rows[..1], EntityRowArticle, ["A", "B"]) == [rows[0]];
  }

  /** The entity loop as written keeps only B; the corrected loop keeps A
      and B. */
  lemma EntityGroupingCounterexample()
    ensures RowsFor(TwoArticleEntityRows(), EntityRowArticle, ["A", "B"]) == TwoArticleEntityRows()
    ensures EntitiesAsWritten(TwoArticleEntityRows()).Keys == {"B"}
    ensures EntitiesIntended(TwoArticleEntityRows()).Keys == {"A", "B"}
  {
    TwoArticleEntityRowsFetched();
    var rows := TwoArticleEntityRows();
    var a := map["A" := map["city" := ["toronto"]]];
    var b := map["city" := ["montreal"]];
    assert EntitiesAsWritten(rows[..1]) == a && EntitiesIntended(rows[..1]) == a by {
      assert rows[..1][..0] == [];
    }
    assert "B" !in a;
    assert EntitiesAsWritten(rows) == map["B" := b];
    assert EntitiesIntended(rows) == a["B" := b];
  }

  lemma TagGroupingCounterexample()
    ensures RowsFor(TwoArticleTagRows(), TagRowArticle, ["A", "B"]) == TwoArticleTagRows()
    ensures TagsAsWritten(TwoArticleTagRows()).Keys == {"B"}
    ensures TagsIntended(TwoArticleTagRows()).Keys == {"A", "B"}
  {
    TwoArticleTagRowsFetched();
    var rows := TwoArticleTagRows();
    var a := map["A" := ["news"]];
    assert TagsAsWritten(rows[..1]) == a && TagsIntended(rows[..1]) == a by {
      assert rows[..1][..0] == [];
    }
    assert "B" !in a;
    assert TagsAsWritten(rows) == map["B" := ["travel"]];
    assert TagsIntended(rows) == a["B" := ["travel"]];
  }

  /** Both rows pass the filter for ids [A, B]. */
  lemma TwoArticleTagRowsFetched()
    ensures RowsFor(TwoArticleTagRows(), TagRowArticle, ["A", "B"]) == TwoArticleTagRows()
  {
    var rows := TwoArticleTagRows();
    assert rows[..1] == [rows[0]] && [rows[0]][..0] == [];
    assert RowsFor(rows[..1], TagRowArticle, ["A", "B"]) == [rows[0]];
  }

  // ---------------------------------------------------------------------
  // insert_tags

  function TagRowsOf(records: seq<TagInsert>): (r: seq<TagRow>)
    ensures |r| == |records|
    ensures forall k :: 0 <= k < |records| ==>
      r[k] == TagRow(records[k].articleId, records[k].tag, records[k].taggedBy)
  {
    seq(|records|, k requires 0 <= k < |records| => TagRow(records[k].articleId, records[k].tag, records[k].taggedBy))
  }

  /** One transaction: every record is appended to `tags`, or, when the
      connection fails or a record names a missing article (the foreign
      key), none is. */
  function InsertTags(storage: Storage, records: seq<TagInsert>): (r: Outcome<Db>)
    ensures r.Ok? <==> storage.Online? && forall rec :: rec in records ==> ArticleExists(storage.db, rec.articleId)
    ensures r.Raised? ==> r.failure == StorageError
    ensures r.Ok? ==> r.value.articles == storage.db.articles && r.value.entities == storage.db.entities
    ensures r.Ok? ==> r.value.tags == storage.db.tags + TagRowsOf(records)
  {
    if storage.Offline? then Raised(StorageError)
    else if forall rec :: rec in records ==> ArticleExists(storage.db, rec.articleId) then
      Ok(storage.db.(tags := storage.db.tags + TagRowsOf(records)))
    else Raised(StorageError)
  }
}
