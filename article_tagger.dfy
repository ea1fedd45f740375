/** src/article_tagger.py: the three request handlers of the service. Each
    handler runs its database work inside a `try` and answers 200 with the
    result, or 500 with a message when anything in the `try` raises; the
    request parsing before the `try` is not guarded. */
module ArticleTagger {
  import opened Common
  import opened Models
  import opened DatabaseUtilities
  import opened RequestParser

  /** The answer of `get_all_articles`: `content` is absent on failure. */
  datatype AllArticlesResponse = AllArticlesResponse(content: Option<seq<ArticleSummary>>, message: string, status: int)

  /** The answer of `search_articles`. */
  datatype SearchResponse = SearchResponse(content: Option<ArticlesDict>, message: string, status: int)

  /** The answer of `tag_article`: `inserted_tags` is absent on failure. */
  datatype TagResponse = TagResponse(insertedTags: Option<seq<TagInsert>>, message: string, status: int)

  /** A handler either answers, or an exception escapes it (the web
      framework then answers with its own error page). */
  datatype Handled<T> = Responded(response: T) | Escaped(failure: Failure)

  const FetchFailedMessage: string := "Unable to fetch articles! Here is the traceback:\n"
  const SearchFailedMessage: string := "Unable to perform search! Here is the traceback:\n"
  const TaggingFailedMessage: string := "Tagging unsuccessful! Here is the traceback:\n"

  // ---------------------------------------------------------------------
  // get_all_articles

  /** Every article once, latest first, or 500 when the database cannot be
      reached. */
  function GetAllArticles(storage: Storage): (r: AllArticlesResponse)
    ensures r.status == 200 <==> storage.Online?
    ensures r.status != 200 ==> r == AllArticlesResponse(None, FetchFailedMessage, 500)
    ensures r.status == 200 ==> r.message == "All articles returned" && r.content.Some?
    ensures r.status == 200 ==> multiset(r.content.value) == multiset(Summaries(storage.db.articles))
    ensures r.status == 200 ==> forall i, j :: 0 <= i < j < |r.content.value| ==>
      r.content.value[i].publishedTime >= r.content.value[j].publishedTime
  {
    if storage.Online? then
      AllArticlesResponse(Some(QueryAllArticles(storage.db)), "All articles returned", 200)
    else
      AllArticlesResponse(None, FetchFailedMessage, 500)
  }

  // ---------------------------------------------------------------------
  // search_articles: attaching the groups to the fetched articles

  /** Every article of `groups` gets its kinds under "entity"; nothing
      else changes. */
  function WithEntities(d: ArticlesDict, groups: map<string, map<string, seq<string>>>): (r: ArticlesDict)
    ensures r.order == d.order && r.entries.Keys == d.entries.Keys
    ensures forall id :: id in r.entries ==>
      && r.entries[id].fields == d.entries[id].fields
      && r.entries[id].tags == d.entries[id].tags
      && r.entries[id].entity == (if id in groups then Some(groups[id]) else d.entries[id].entity)
  {
    ArticlesDict(d.order, map id | id in d.entries ::
      if id in groups then d.entries[id].(entity := Some(groups[id])) else d.entries[id])
  }

  /** Every article of `groups` gets its tags under "tags"; nothing else
      changes. */
  function WithTags(d: ArticlesDict, groups: map<string, seq<string>>): (r: ArticlesDict)
    ensures r.order == d.order && r.entries.Keys == d.entries.Keys
    ensures forall id :: id in r.entries ==>
      && r.entries[id].fields == d.entries[id].fields
      && r.entries[id].entity == d.entries[id].entity
      && r.entries[id].tags == (if id in groups then Some(groups[id]) else d.entries[id].tags)
  {
    ArticlesDict(d.order, map id | id in d.entries ::
      if id in groups then d.entries[id].(tags := Some(groups[id])) else d.entries[id])
  }

  /** The dict after the articles in `done` got their entity groups. */
  ghost predicate EntitiesAttached(d: ArticlesDict, groups: map<string, map<string, seq<string>>>,
                                   done: set<string>, cur: ArticlesDict) {
    && cur.order == d.order && cur.entries.Keys == d.entries.Keys
    && forall id :: id in cur.entries ==>
         cur.entries[id] == if id in done && id in groups then d.entries[id].(entity := Some(groups[id])) else d.entries[id]
  }

  /** Lines 74-76: looking up an article missing from the dict raises
      KeyError; otherwise every group is attached. */
  method AttachEntityGroups(d: ArticlesDict, groups: map<string, map<string, seq<string>>>)
    returns (r: Outcome<ArticlesDict>)
    ensures r.Raised? <==> !(groups.Keys <= d.entries.Keys)
    ensures r.Raised? ==> r.failure == KeyError
    ensures r.Ok? ==> r.value == WithEntities(d, groups)
  {
    var articlesDict := d;
    var pending := groups.Keys;
    ghost var done: set<string> := {};
    while pending != {}
      invariant pending + done == groups.Keys && pending !! done
      invariant done <= d.entries.Keys
      invariant EntitiesAttached(d, groups, done, articlesDict)
      decreases pending
    {
      var articleId :| articleId in pending;
      if articleId !in articlesDict.entries {
        return Raised(KeyError);
      }
      var entry := articlesDict.entries[articleId].(entity := Some(map[]));
      assert entry.entity.value + groups[articleId] == groups[articleId];
      entry := entry.(entity := Some(entry.entity.value + groups[articleId]));
      articlesDict := articlesDict.(entries := articlesDict.entries[articleId := entry]);
      pending := pending - {articleId};
      done := done + {articleId};
    }
    EntitiesAllAttached(d, groups, articlesDict);
    return Ok(articlesDict);
  }

  lemma EntitiesAllAttached(d: ArticlesDict, groups: map<string, map<string, seq<string>>>, cur: ArticlesDict)
    requires EntitiesAttached(d, groups, groups.Keys, cur)
    ensures cur == WithEntities(d, groups)
  {
    var w := WithEntities(d, groups);
    assert cur.entries == w.entries;
  }

  /** The dict after the articles in `done` got their tags. */
  ghost predicate TagsAttached(d: ArticlesDict, groups: map<string, seq<string>>, done: set<string>, cur: ArticlesDict) {
    && cur.order == d.order && cur.entries.Keys == d.entries.Keys
    && forall id :: id in cur.entries ==>
         cur.entries[id] == if id in done && id in groups then d.entries[id].(tags := Some(groups[id])) else d.entries[id]
  }

  /** Lines 79-80: looking up an article missing from the dict raises
      KeyError; otherwise every article's tags are attached. */
  method AttachTagGroups(d: ArticlesDict, groups: map<string, seq<string>>) returns (r: Outcome<ArticlesDict>)
    ensures r.Raised? <==> !(groups.Keys <= d.entries.Keys)
    ensures r.Raised? ==> r.failure == KeyError
    ensures r.Ok? ==> r.value == WithTags(d, groups)
  {
    var articlesDict := d;
    var pending := groups.Keys;
    ghost var done: set<string> := {};
    while pending != {}
      invariant pending + done == groups.Keys && pending !! done
      invariant done <= d.entries.Keys
      invariant TagsAttached(d, groups, done, articlesDict)
      decreases pending
    {
      var articleId :| articleId in pending;
      if articleId !in articlesDict.entries {
        return Raised(KeyError);
      }
      var entry := articlesDict.entries[articleId].(tags := Some(groups[articleId]));
      articlesDict := articlesDict.(entries := articlesDict.entries[articleId := entry]);
      pending := pending - {articleId};
      done := done + {articleId};
    }
    TagsAllAttached(d, groups, articlesDict);
    return Ok(articlesDict);
  }

  lemma TagsAllAttached(d: ArticlesDict, groups: map<string, seq<string>>, cur: ArticlesDict)
    requires TagsAttached(d, groups, groups.Keys, cur)
    ensures cur == WithTags(d, groups)
  {
    var w := WithTags(d, groups);
    assert cur.entries == w.entries;
  }

  // ---------------------------------------------------------------------
  // search_articles

  /** The content of a successful search for the ids `ids`. */
  function SearchContent(db: Db, ids: seq<string>, desc: bool): ArticlesDict {
    WithTags(WithEntities(DictOf(SortByTime(WithIdIn(db.articles, ids), desc)),
                          EntitiesIntended(RowsFor(db.entities, EntityRowArticle, ids))),
             TagsIntended(RowsFor(db.tags, TagRowArticle, ids)))
  }

  /** Every article that matches the search and has entity or tag rows is
      itself in `articles`; otherwise attaching its rows raises KeyError. */
  ghost predicate GroupsFit(db: Db, s: Searched) {
    forall id :: Resolved(db, s, id) && (HasEntityRows(db, id) || HasTagRows(db, id)) ==> ArticleExists(db, id)
  }

  /** The search result: exactly the existing articles meeting every
      criterion, once each, with their columns, all their entity kinds
      and all their tags, in publication order. */
  ghost predicate SearchAnswered(db: Db, s: Searched, d: ArticlesDict) {
    && WellFormed(d)
    && (forall id :: id in d.entries <==> Resolved(db, s, id) && ArticleExists(db, id))
    && (forall id :: id in d.entries ==>
          exists row :: row in db.articles && row.articleId == id && d.entries[id].fields == Fields(row))
    && (forall id :: id in d.entries ==> (d.entries[id].entity.Some? <==> HasEntityRows(db, id)))
    && (forall id :: id in d.entries && d.entries[id].entity.Some? ==>
          IsKindGroup(db.entities, id, d.entries[id].entity.value))
    && (forall id :: id in d.entries ==>
          d.entries[id].tags == if HasTagRows(db, id) then Some(TagValues(db.tags, id)) else None)
    && (UniqueArticleIds(db) ==> OrderedByTime(d, IsDesc(s)))
  }

  /** What `search_articles` answers. */
  ghost predicate SearchHandled(storage: Storage, s: Searched, h: Handled<SearchResponse>) {
    && (storage.Offline? && HasCriteria(s) ==> h == Escaped(StorageError))
    && (storage.Offline? && !HasCriteria(s) ==> h == Responded(SearchResponse(None, SearchFailedMessage, 500)))
    && (storage.Online? ==> h.Responded? && (h.response.status == 200 <==> GroupsFit(storage.db, s)))
    && (storage.Online? && h.Responded? && h.response.status == 200 ==>
          && h.response.message == "Search results returned" && h.response.content.Some?
          && SearchAnswered(storage.db, s, h.response.content.value))
    && (storage.Online? && h.Responded? && h.response.status != 200 ==>
          h.response == SearchResponse(None, SearchFailedMessage, 500))
    && (storage.Online? && ReferentialIntegrity(storage.db) ==> h.Responded? && h.response.status == 200)
  }

  /** Resolves the search, fetches the articles, their entities and tags,
      and attaches the groups to the articles. The search itself runs
      outside the `try`, so its failures escape. */
  method SearchArticles(storage: Storage, s: Searched) returns (h: Handled<SearchResponse>)
    ensures SearchHandled(storage, s, h)
  {
    var parsed := ParseSearchedIntended(storage, s);
    if parsed.Raised? {
      return Escaped(parsed.failure);
    }
    var articleIds := parsed.value;
    // try
    if storage.Offline? {
      return Responded(SearchResponse(None, SearchFailedMessage, 500));
    }
    var db := storage.db;
    var desc := IsDesc(s);
    var articlesDict := QueryArticleByArticleId(db, articleIds, desc);
    var entitiesDict := QueryEntitiesByArticleIdIntended(db, articleIds);
    var tagsDict := QueryTagByArticleIdIntended(db, articleIds);
    ghost var fetched := articlesDict;
    if entitiesDict != map[] {
      var attached := AttachEntityGroups(articlesDict, entitiesDict);
      if attached.Raised? {
        EntityGroupsMisfit(db, s, articleIds);
        return Responded(SearchResponse(None, SearchFailedMessage, 500));
      }
      articlesDict := attached.value;
    } else {
      NoEntityGroups(fetched);
    }
    assert articlesDict == WithEntities(fetched, entitiesDict);
    ghost var withEntities := articlesDict;
    if tagsDict != map[] {
      var attached := AttachTagGroups(articlesDict, tagsDict);
      if attached.Raised? {
        TagGroupsMisfit(db, s, articleIds, withEntities);
        return Responded(SearchResponse(None, SearchFailedMessage, 500));
      }
      articlesDict := attached.value;
    } else {
      NoTagGroups(withEntities);
    }
    SearchSucceeds(db, s, articleIds, entitiesDict.Keys <= fetched.entries.Keys);
    return Responded(SearchResponse(Some(articlesDict), "Search results returned", 200));
  }

  lemma NoEntityGroups(d: ArticlesDict)
    ensures WithEntities(d, map[]) == d
  {
    assert WithEntities(d, map[]).entries == d.entries;
  }

  lemma NoTagGroups(d: ArticlesDict)
    ensures WithTags(d, map[]) == d
  {
    assert WithTags(d, map[]).entries == d.entries;
  }

  /** The entity groups fit the fetched articles exactly when every
      matching article with entity rows exists. */
  lemma EntityGroupsMisfit(db: Db, s: Searched, ids: seq<string>)
    requires forall id :: id in ids <==> Resolved(db, s, id)
    requires !(EntitiesIntended(RowsFor(db.entities, EntityRowArticle, ids)).Keys <=
               DictOf(SortByTime(WithIdIn(db.articles, ids), IsDesc(s))).entries.Keys)
    ensures SearchHandled(Online(db), s, Responded(SearchResponse(None, SearchFailedMessage, 500)))
  {
    ArticleDictFacts(db, ids, IsDesc(s));
    EntityGroupsOnDb(db, ids);
  }

  lemma TagGroupsMisfit(db: Db, s: Searched, ids: seq<string>, d: ArticlesDict)
    requires forall id :: id in ids <==> Resolved(db, s, id)
    requires d.entries.Keys == DictOf(SortByTime(WithIdIn(db.articles, ids), IsDesc(s))).entries.Keys
    requires !(TagsIntended(RowsFor(db.tags, TagRowArticle, ids)).Keys <= d.entries.Keys)
    ensures SearchHandled(Online(db), s, Responded(SearchResponse(None, SearchFailedMessage, 500)))
  {
    ArticleDictFacts(db, ids, IsDesc(s));
    TagGroupsOnDb(db, ids);
  }

  /** With every group fitting, the search answers 200 with the merged
      content. */
  lemma SearchSucceeds(db: Db, s: Searched, ids: seq<string>, entitiesFit: bool)
    requires forall id :: id in ids <==> Resolved(db, s, id)
    requires entitiesFit ==
      (EntitiesIntended(RowsFor(db.entities, EntityRowArticle, ids)).Keys <=
       DictOf(SortByTime(WithIdIn(db.articles, ids), IsDesc(s))).entries.Keys)
    requires entitiesFit
    requires TagsIntended(RowsFor(db.tags, TagRowArticle, ids)).Keys <=
             DictOf(SortByTime(WithIdIn(db.articles, ids), IsDesc(s))).entries.Keys
    ensures SearchHandled(Online(db), s,
      Responded(SearchResponse(Some(SearchContent(db, ids, IsDesc(s))), "Search results returned", 200)))
  {
    ArticleDictFacts(db, ids, IsDesc(s));
    EntityGroupsOnDb(db, ids);
    TagGroupsOnDb(db, ids);
    SearchContentAnswers(db, s, ids);
  }

  /** Attaching groups keeps the keys, their order and the columns, so a
      well-formed dict in publication order stays so. */
  lemma MergeKeepsArticles(d: ArticlesDict, entities: map<string, map<string, seq<string>>>,
                           tags: map<string, seq<string>>, desc: bool)
    requires WellFormed(d)
    ensures WellFormed(WithTags(WithEntities(d, entities), tags))
    ensures OrderedByTime(d, desc) ==> OrderedByTime(WithTags(WithEntities(d, entities), tags), desc)
  {
    var t := WithTags(WithEntities(d, entities), tags);
    assert forall id :: id in t.entries ==> t.entries[id].fields == d.entries[id].fields;
  }

  /** Attaching the groups of the requested articles to their fetched
      entries answers the search. */
  lemma MergedAnswers(db: Db, s: Searched, ids: seq<string>, d: ArticlesDict,
                      entities: map<string, map<string, seq<string>>>, tags: map<string, seq<string>>)
    requires forall id :: id in ids <==> Resolved(db, s, id)
    requires ArticleLookupResult(db, ids, IsDesc(s), d)
    requires forall id :: id in entities <==> id in ids && HasEntityRows(db, id)
    requires forall id :: id in entities ==> IsKindGroup(db.entities, id, entities[id])
    requires forall id :: id in tags <==> id in ids && HasTagRows(db, id)
    requires forall id :: id in tags ==> tags[id] == TagValues(db.tags, id)
    ensures SearchAnswered(db, s, WithTags(WithEntities(d, entities), tags))
  {
    var t := WithTags(WithEntities(d, entities), tags);
    MergeKeepsArticles(d, entities, tags, IsDesc(s));
    assert forall id :: id in t.entries ==> id in ids by {
      assert forall id :: id in t.entries ==> id in d.entries;
    }
    MergedGroups(db, ids, d, entities, tags);
  }

  /** The attached groups are all of each article's entity and tag rows. */
  lemma MergedGroups(db: Db, ids: seq<string>, d: ArticlesDict,
                     entities: map<string, map<string, seq<string>>>, tags: map<string, seq<string>>)
    requires forall id :: id in d.entries ==> id in ids && d.entries[id].entity.None? && d.entries[id].tags.None?
    requires forall id :: id in entities <==> id in ids && HasEntityRows(db, id)
    requires forall id :: id in entities ==> IsKindGroup(db.entities, id, entities[id])
    requires forall id :: id in tags <==> id in ids && HasTagRows(db, id)
    requires forall id :: id in tags ==> tags[id] == TagValues(db.tags, id)
    ensures var t := WithTags(WithEntities(d, entities), tags);
      && (forall id :: id in t.entries ==> (t.entries[id].entity.Some? <==> HasEntityRows(db, id)))
      && (forall id :: id in t.entries && t.entries[id].entity.Some? ==>
            IsKindGroup(db.entities, id, t.entries[id].entity.value))
      && (forall id :: id in t.entries ==>
            t.entries[id].tags == if HasTagRows(db, id) then Some(TagValues(db.tags, id)) else None)
  {
  }

  /** The merged content answers the search. */
  lemma SearchContentAnswers(db: Db, s: Searched, ids: seq<string>)
    requires forall id :: id in ids <==> Resolved(db, s, id)
    ensures SearchAnswered(db, s, SearchContent(db, ids, IsDesc(s)))
  {
    var desc := IsDesc(s);
    ArticleDictFacts(db, ids, desc);
    EntityGroupsOnDb(db, ids);
    TagGroupsOnDb(db, ids);
    MergedAnswers(db, s, ids, DictOf(SortByTime(WithIdIn(db.articles, ids), desc)),
                  EntitiesIntended(RowsFor(db.entities, EntityRowArticle, ids)), TagsIntended(RowsFor(db.tags, TagRowArticle, ids)));
  }

  // ---------------------------------------------------------------------
  // search_articles as written: lines 67, 70-71 and the merge

  /** Row `k` is the last row whose article the search as written accepts. */
  ghost predicate IsLastMatch<R>(rows: seq<R>, idOf: R -> string, db: Db, s: Searched, k: int) {
    && 0 <= k < |rows|
    && ResolvedAsWritten(db, s, idOf(rows[k]))
    && forall j :: k < j < |rows| ==> !ResolvedAsWritten(db, s, idOf(rows[j]))
  }

  /** The article of the last accepted row, if any: the only key the
      groupings as written keep. */
  ghost function LastMatchKeys<R>(rows: seq<R>, idOf: R -> string, db: Db, s: Searched): set<string> {
    set k | 0 <= k < |rows| && IsLastMatch(rows, idOf, db, s, k) :: idOf(rows[k])
  }

  /** The last row of the filtered rows, with no requested article after
      it in the table. */
  lemma {:induction false} LastRowFor<R(!new)>(rows: seq<R>, idOf: R -> string, ids: seq<string>) returns (k: nat)
    requires RowsFor(rows, idOf, ids) != []
    ensures k < |rows| && idOf(rows[k]) in ids
    ensures rows[k] == RowsFor(rows, idOf, ids)[|RowsFor(rows, idOf, ids)| - 1]
    ensures forall j :: k < j < |rows| ==> idOf(rows[j]) !in ids
    decreases |rows|
  {
    var n := |rows| - 1;
    if idOf(rows[n]) in ids {
      k := n;
    } else {
      var prefix := rows[..n];
      assert RowsFor(rows, idOf, ids) == RowsFor(prefix, idOf, ids);
      k := LastRowFor(prefix, idOf, ids);
      assert forall j :: k < j < n ==> rows[j] == prefix[j];
    }
  }

  /** With `ids` the accepted articles, the filtered rows' last article is
      the one key of `LastMatchKeys`, and there is none without rows. */
  lemma LastMatchKeysOfRows<R(!new)>(rows: seq<R>, idOf: R -> string, db: Db, s: Searched, ids: seq<string>)
    requires forall id :: id in ids <==> ResolvedAsWritten(db, s, id)
    ensures var f := RowsFor(rows, idOf, ids);
      LastMatchKeys(rows, idOf, db, s) == if f == [] then {} else {idOf(f[|f| - 1])}
  {
    var f := RowsFor(rows, idOf, ids);
    if f == [] {
      forall k | 0 <= k < |rows| && ResolvedAsWritten(db, s, idOf(rows[k])) ensures rows[k] in f {
      }
    } else {
      var k0 := LastRowFor(rows, idOf, ids);
      assert IsLastMatch(rows, idOf, db, s, k0);
      forall k | IsLastMatch(rows, idOf, db, s, k) ensures k == k0 {
        assert ResolvedAsWritten(db, s, idOf(rows[k0]));
        assert idOf(rows[k]) in ids;
      }
    }
  }

  /** At most one article is the last accepted one. */
  lemma LastMatchAtMostOne<R>(rows: seq<R>, idOf: R -> string, db: Db, s: Searched)
    ensures forall a, b :: a in LastMatchKeys(rows, idOf, db, s) && b in LastMatchKeys(rows, idOf, db, s) ==> a == b
  {
    forall a, b | a in LastMatchKeys(rows, idOf, db, s) && b in LastMatchKeys(rows, idOf, db, s) ensures a == b {
      var ka :| 0 <= ka < |rows| && IsLastMatch(rows, idOf, db, s, ka) && idOf(rows[ka]) == a;
      var kb :| 0 <= kb < |rows| && IsLastMatch(rows, idOf, db, s, kb) && idOf(rows[kb]) == b;
      assert ResolvedAsWritten(db, s, idOf(rows[ka])) && ResolvedAsWritten(db, s, idOf(rows[kb]));
    }
  }

  /** The articles that line 140 and line 164 as written leave a group for
      each name an existing article. */
  ghost predicate GroupsFitAsWritten(db: Db, s: Searched) {
    && (forall id :: id in LastMatchKeys(db.entities, EntityRowArticle, db, s) ==> ArticleExists(db, id))
    && (forall id :: id in LastMatchKeys(db.tags, TagRowArticle, db, s) ==> ArticleExists(db, id))
  }

  /** The search result as written: the existing articles the search as
      written accepts, in publication order, with `entity` on the article
      of the last accepted entity row only and `tags` on the article of the
      last accepted tag row only. */
  ghost predicate SearchAnsweredAsWritten(db: Db, s: Searched, d: ArticlesDict) {
    && WellFormed(d)
    && (forall id :: id in d.entries <==> ResolvedAsWritten(db, s, id) && ArticleExists(db, id))
    && (forall id :: id in d.entries ==>
          exists row :: row in db.articles && row.articleId == id && d.entries[id].fields == Fields(row))
    && (forall id :: id in d.entries ==>
          (d.entries[id].entity.Some? <==> id in LastMatchKeys(db.entities, EntityRowArticle, db, s)))
    && (forall id :: id in d.entries ==>
          (d.entries[id].tags.Some? <==> id in LastMatchKeys(db.tags, TagRowArticle, db, s)))
    && (forall a, b :: a in d.entries && b in d.entries && d.entries[a].entity.Some? && d.entries[b].entity.Some? ==> a == b)
    && (forall a, b :: a in d.entries && b in d.entries && d.entries[a].tags.Some? && d.entries[b].tags.Some? ==> a == b)
    && (UniqueArticleIds(db) ==> OrderedByTime(d, IsDesc(s)))
  }

  /** What `search_articles` as written answers. */
  ghost predicate SearchHandledAsWritten(storage: Storage, s: Searched, h: Handled<SearchResponse>) {
    && (storage.Offline? && HasCriteria(s) ==> h == Escaped(StorageError))
    && (storage.Offline? && !HasCriteria(s) ==> h == Responded(SearchResponse(None, SearchFailedMessage, 500)))
    && (storage.Online? ==> (h.Escaped? <==> ReadsUnassignedTags(storage.db, s)))
    && (storage.Online? && h.Escaped? ==> h.failure == UnboundLocal)
    && (storage.Online? && h.Responded? ==> (h.response.status == 200 <==> GroupsFitAsWritten(storage.db, s)))
    && (storage.Online? && h.Responded? && h.response.status == 200 ==>
          && h.response.message == "Search results returned" && h.response.content.Some?
          && SearchAnsweredAsWritten(storage.db, s, h.response.content.value))
    && (storage.Online? && h.Responded? && h.response.status != 200 ==>
          h.response == SearchResponse(None, SearchFailedMessage, 500))
    && (storage.Online? && ReferentialIntegrity(storage.db) && h.Responded? ==> h.response.status == 200)
  }

  /** The handler as written: the search of line 67 and the groupings of
      lines 70-71 as the repository has them. */
  method SearchArticlesAsWritten(storage: Storage, s: Searched) returns (h: Handled<SearchResponse>)
    ensures SearchHandledAsWritten(storage, s, h)
  {
    var parsed := ParseSearched(storage, s);
    if parsed.Raised? {
      return Escaped(parsed.failure);
    }
    var articleIds := parsed.value;
    // try
    if storage.Offline? {
      return Responded(SearchResponse(None, SearchFailedMessage, 500));
    }
    var db := storage.db;
    var articlesDict := QueryArticleByArticleId(db, articleIds, IsDesc(s));
    var entitiesDict := QueryEntitiesByArticleId(db, articleIds);
    var tagsDict := QueryTagByArticleId(db, articleIds);
    ghost var fetched := articlesDict;
    EntityKeysAsWritten(db, s, articleIds);
    TagKeysAsWritten(db, s, articleIds);
    if entitiesDict != map[] {
      var attached := AttachEntityGroups(articlesDict, entitiesDict);
      if attached.Raised? {
        AsWrittenMisfit(db, s, articleIds, fetched, entitiesDict.Keys);
        return Responded(SearchResponse(None, SearchFailedMessage, 500));
      }
      articlesDict := attached.value;
    } else {
      NoEntityGroups(fetched);
    }
    if tagsDict != map[] {
      var attached := AttachTagGroups(articlesDict, tagsDict);
      if attached.Raised? {
        AsWrittenMisfit(db, s, articleIds, fetched, tagsDict.Keys);
        return Responded(SearchResponse(None, SearchFailedMessage, 500));
      }
      articlesDict := attached.value;
    } else {
      NoTagGroups(articlesDict);
    }
    AsWrittenSucceeds(db, s, articleIds, fetched, entitiesDict, tagsDict);
    return Responded(SearchResponse(Some(articlesDict), "Search results returned", 200));
  }

  /** A group left for an article missing from `articles` raises KeyError,
      answered with 500. */
  lemma AsWrittenMisfit(db: Db, s: Searched, ids: seq<string>, fetched: ArticlesDict, keys: set<string>)
    requires !ReadsUnassignedTags(db, s)
    requires forall id :: id in ids <==> ResolvedAsWritten(db, s, id)
    requires ArticleLookupResult(db, ids, IsDesc(s), fetched)
    requires keys == LastMatchKeys(db.entities, EntityRowArticle, db, s) || keys == LastMatchKeys(db.tags, TagRowArticle, db, s)
    requires !(keys <= fetched.entries.Keys)
    ensures SearchHandledAsWritten(Online(db), s, Responded(SearchResponse(None, SearchFailedMessage, 500)))
  {
    var id :| id in keys && id !in fetched.entries;
    if keys == LastMatchKeys(db.entities, EntityRowArticle, db, s) {
      var k :| 0 <= k < |db.entities| && IsLastMatch(db.entities, EntityRowArticle, db, s, k) && EntityRowArticle(db.entities[k]) == id;
      assert db.entities[k] in db.entities;
    } else {
      var k :| 0 <= k < |db.tags| && IsLastMatch(db.tags, TagRowArticle, db, s, k) && TagRowArticle(db.tags[k]) == id;
      assert db.tags[k] in db.tags;
    }
  }

  /** With both groups fitting, the merged content answers the search as
      written. */
  lemma AsWrittenSucceeds(db: Db, s: Searched, ids: seq<string>, fetched: ArticlesDict,
                          entities: map<string, map<string, seq<string>>>, tags: map<string, seq<string>>)
    requires !ReadsUnassignedTags(db, s)
    requires forall id :: id in ids <==> ResolvedAsWritten(db, s, id)
    requires ArticleLookupResult(db, ids, IsDesc(s), fetched)
    requires entities.Keys == LastMatchKeys(db.entities, EntityRowArticle, db, s)
    requires tags.Keys == LastMatchKeys(db.tags, TagRowArticle, db, s)
    requires entities.Keys <= fetched.entries.Keys && tags.Keys <= fetched.entries.Keys
    ensures SearchHandledAsWritten(Online(db), s,
      Responded(SearchResponse(Some(WithTags(WithEntities(fetched, entities), tags)), "Search results returned", 200)))
  {
    AnsweredAsWritten(db, s, ids, fetched, entities, tags);
  }

  lemma AnsweredAsWritten(db: Db, s: Searched, ids: seq<string>, fetched: ArticlesDict,
                          entities: map<string, map<string, seq<string>>>, tags: map<string, seq<string>>)
    requires forall id :: id in ids <==> ResolvedAsWritten(db, s, id)
    requires ArticleLookupResult(db, ids, IsDesc(s), fetched)
    requires entities.Keys == LastMatchKeys(db.entities, EntityRowArticle, db, s)
    requires tags.Keys == LastMatchKeys(db.tags, TagRowArticle, db, s)
    requires entities.Keys <= fetched.entries.Keys && tags.Keys <= fetched.entries.Keys
    ensures GroupsFitAsWritten(db, s)
    ensures SearchAnsweredAsWritten(db, s, WithTags(WithEntities(fetched, entities), tags))
  {
    MergeKeepsArticles(fetched, entities, tags, IsDesc(s));
    LastMatchAtMostOne(db.entities, EntityRowArticle, db, s);
    LastMatchAtMostOne(db.tags, TagRowArticle, db, s);
    MergedSingleGroups(fetched, entities, tags);
  }

  /** Attaching groups of at most one key each to a dict without
      attachments leaves `entity` and `tags` on at most one article each. */
  lemma MergedSingleGroups(d: ArticlesDict, entities: map<string, map<string, seq<string>>>, tags: map<string, seq<string>>)
    requires forall id :: id in d.entries ==> d.entries[id].entity.None? && d.entries[id].tags.None?
    requires forall a, b :: a in entities && b in entities ==> a == b
    requires forall a, b :: a in tags && b in tags ==> a == b
    ensures var t := WithTags(WithEntities(d, entities), tags);
      && (forall id :: id in t.entries ==> (t.entries[id].entity.Some? <==> id in entities))
      && (forall id :: id in t.entries ==> (t.entries[id].tags.Some? <==> id in tags))
      && (forall a, b :: a in t.entries && b in t.entries && t.entries[a].entity.Some? && t.entries[b].entity.Some? ==> a == b)
      && (forall a, b :: a in t.entries && b in t.entries && t.entries[a].tags.Some? && t.entries[b].tags.Some? ==> a == b)
  {
  }

  /** The keys of the entity grouping as written are `LastMatchKeys`. */
  lemma EntityKeysAsWritten(db: Db, s: Searched, ids: seq<string>)
    requires forall id :: id in ids <==> ResolvedAsWritten(db, s, id)
    ensures EntitiesAsWritten(RowsFor(db.entities, EntityRowArticle, ids)).Keys ==
            LastMatchKeys(db.entities, EntityRowArticle, db, s)
  {
    var f := RowsFor(db.entities, EntityRowArticle, ids);
    LastMatchKeysOfRows(db.entities, EntityRowArticle, db, s, ids);
    if f != [] {
      EntitiesAsWrittenKeepLastRun(f);
    }
  }

  /** The keys of the tag grouping as written are `LastMatchKeys`. */
  lemma TagKeysAsWritten(db: Db, s: Searched, ids: seq<string>)
    requires forall id :: id in ids <==> ResolvedAsWritten(db, s, id)
    ensures TagsAsWritten(RowsFor(db.tags, TagRowArticle, ids)).Keys == LastMatchKeys(db.tags, TagRowArticle, db, s)
  {
    var f := RowsFor(db.tags, TagRowArticle, ids);
    LastMatchKeysOfRows(db.tags, TagRowArticle, db, s, ids);
    if f != [] {
      TagsAsWrittenKeepLastRun(f);
    }
  }

  // ---------------------------------------------------------------------
  // tag_article

  /** Every article of the request that carries a tag exists. */
  predicate TaggedArticlesExist(db: Db, batch: seq<TaggedArticle>) {
    forall t :: t in batch && t.tags != [] ==> ArticleExists(db, t.articleId)
  }

  /** The records of a request name existing articles exactly when every
      tagged article of the request exists. */
  lemma RecordsNameTaggedArticles(db: Db, batch: seq<TaggedArticle>, username: string)
    ensures (forall rec :: rec in Flatten(batch, username) ==> ArticleExists(db, rec.articleId))
            <==> TaggedArticlesExist(db, batch)
  {
    if TaggedArticlesExist(db, batch) {
      forall rec | rec in Flatten(batch, username) ensures ArticleExists(db, rec.articleId) {
        FlattenSource(batch, username, rec);
      }
    } else {
      var t :| t in batch && t.tags != [] && !ArticleExists(db, t.articleId);
      var rec := TagInsert(t.articleId, t.tags[0], username);
      FlattenSource(batch, username, rec);
    }
  }

  /** Each (article, tag) pair of the request, credited to `username`, is
      a row of the new `tags` table. */
  lemma TaggedPairsStored(batch: seq<TaggedArticle>, username: string, rows: seq<TagRow>, t: TaggedArticle, tag: string)
    requires t in batch && tag in t.tags
    ensures TagRow(t.articleId, tag, username) in rows + TagRowsOf(Flatten(batch, username))
  {
    var records := Flatten(batch, username);
    var rec := TagInsert(t.articleId, tag, username);
    FlattenSource(batch, username, rec);
    var k :| 0 <= k < |records| && records[k] == rec;
    assert TagRowsOf(records)[k] == TagRow(t.articleId, tag, username);
  }

  /** Flattens the request (outside the `try`) and inserts every record in
      one transaction: 200 with the inserted records and the new table, or
      500 with the database unchanged. */
  method TagArticle(storage: Storage, batch: seq<TaggedArticle>, username: string)
    returns (response: TagResponse, stored: Storage)
    ensures response.status == 200 <==> storage.Online? && TaggedArticlesExist(storage.db, batch)
    ensures response.status == 200 ==>
      && response == TagResponse(Some(Flatten(batch, username)), "Tagging successful!", 200)
      && stored == Online(storage.db.(tags := storage.db.tags + TagRowsOf(Flatten(batch, username))))
    ensures response.status == 200 ==> forall t, tag :: t in batch && tag in t.tags ==>
      t.articleId in QueryByTags(stored.db, [tag])
    ensures response.status != 200 ==> response == TagResponse(None, TaggingFailedMessage, 500) && stored == storage
  {
    var tagsToInsert := ParseTagArticle(batch, username);
    if storage.Online? {
      RecordsNameTaggedArticles(storage.db, batch, username);
    }
    // try
    var inserted := InsertTags(storage, tagsToInsert);
    if inserted.Raised? {
      response := TagResponse(None, TaggingFailedMessage, 500);
      stored := storage;
      return;
    }
    response := TagResponse(Some(tagsToInsert), "Tagging successful!", 200);
    stored := Online(inserted.value);
    forall t, tag | t in batch && tag in t.tags ensures t.articleId in QueryByTags(stored.db, [tag]) {
      TaggedPairsStored(batch, username, storage.db.tags, t, tag);
    }
  }
}
