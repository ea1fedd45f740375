/** src/utils/request_parser.py: reading the search and tagging requests
    and resolving a search to article ids. */
module RequestParser {
  import opened Common
  import opened Models
  import opened DatabaseUtilities

  // ---------------------------------------------------------------------
  // is_desc

  /** Results are newest first unless the request asks for "asc"; an
      absent or empty `order_by_time`, or any other value, means newest
      first. */
  function IsDesc(s: Searched): (desc: bool)
    ensures !desc <==> s.orderByTime == Some("asc")
  {
    var desc := true;
    if s.orderByTime.Some? && s.orderByTime.value != [] then
      (if s.orderByTime.value == "asc" then false else desc)
    else desc
  }

  // ---------------------------------------------------------------------
  // parse_searched

  predicate HasArticleCriteria(s: Searched) {
    Truthy(s.articleId) || Truthy(s.headline)
  }

  predicate HasTagCriteria(s: Searched) {
    Truthy(s.tag)
  }

  predicate HasEntityCriteria(s: Searched) {
    TruthyMap(s.entity)
  }

  predicate HasCriteria(s: Searched) {
    HasArticleCriteria(s) || HasTagCriteria(s) || HasEntityCriteria(s)
  }

  /** Some article matches every entity kind of the request. */
  ghost predicate SomeEntityMatch(db: Db, s: Searched)
    requires HasEntityCriteria(s)
  {
    exists id :: MatchesEveryKind(db, s.entity.value, id)
  }

  /** The search the service means: an article satisfies every criterion
      given (attributes, tags and entities), and at least one is given. */
  predicate Resolved(db: Db, s: Searched, id: string) {
    && HasCriteria(s)
    && (HasArticleCriteria(s) ==> id in QueryByArticle(db, s))
    && (HasTagCriteria(s) ==> id in QueryByTags(db, s.tag.value))
    && (HasEntityCriteria(s) ==> MatchesEveryKind(db, s.entity.value, id))
  }

  /** What the search as written accepts when it returns normally: the
      entity stage intersects with the tag results again instead of the
      entity results, so once tags are given the entities only decide
      whether anything at all is returned. */
  ghost predicate ResolvedAsWritten(db: Db, s: Searched, id: string) {
    && HasCriteria(s)
    && (HasArticleCriteria(s) ==> id in QueryByArticle(db, s))
    && (HasTagCriteria(s) ==> id in QueryByTags(db, s.tag.value))
    && (HasEntityCriteria(s) ==> SomeEntityMatch(db, s))
    && (HasEntityCriteria(s) && !HasTagCriteria(s) ==> MatchesEveryKind(db, s.entity.value, id))
  }

  /** Attribute and entity criteria without tags, both finding articles:
      the entity stage reads the tag results, which were never assigned. */
  ghost predicate ReadsUnassignedTags(db: Db, s: Searched) {
    && HasArticleCriteria(s) && !HasTagCriteria(s) && HasEntityCriteria(s)
    && QueryByArticle(db, s) != [] && SomeEntityMatch(db, s)
  }

  /** What `parse_searched` as written promises, for each shape of request. */
  ghost predicate ParsedAsWritten(storage: Storage, s: Searched, r: Outcome<seq<string>>) {
    && (!HasCriteria(s) ==> r == Ok([]))
    && (storage.Offline? && HasCriteria(s) ==> r == Raised(StorageError))
    && (storage.Online? ==> (r.Raised? <==> ReadsUnassignedTags(storage.db, s)))
    && (storage.Online? && r.Raised? ==> r.failure == UnboundLocal)
    && (storage.Online? && r.Ok? ==> forall id :: id in r.value <==> ResolvedAsWritten(storage.db, s, id))
    && (storage.Online? && HasArticleCriteria(s) && !HasTagCriteria(s) && !HasEntityCriteria(s) ==>
          r == Ok(QueryByArticle(storage.db, s)))
    && (storage.Online? && !HasArticleCriteria(s) && HasTagCriteria(s) && !HasEntityCriteria(s) ==>
          r == Ok(QueryByTags(storage.db, s.tag.value)))
    && (storage.Online? && !HasArticleCriteria(s) && !HasTagCriteria(s) && HasEntityCriteria(s) ==>
          r.Ok? && EntityLookupResult(storage.db, s.entity.value, r.value))
    && (storage.Online? && HasArticleCriteria(s) && HasTagCriteria(s) ==> r.Ok? && Distinct(r.value))
    && (storage.Online? && HasTagCriteria(s) && HasEntityCriteria(s) ==> r.Ok? && Distinct(r.value))
  }

  /** As written: each table is searched in turn and the ids intersected;
      the entity stage intersects with the tag results (line 52). */
  method ParseSearched(storage: Storage, s: Searched) returns (r: Outcome<seq<string>>)
    ensures ParsedAsWritten(storage, s, r)
  {
    var articleIds: seq<string> := [];
    // Search by article
    if HasArticleCriteria(s) {
      if storage.Offline? {
        return Raised(StorageError);
      }
      var articleSearchedIds := QueryByArticle(storage.db, s);
      if articleSearchedIds == [] {
        ArticlesFoundNothing(storage.db, s);
        return Ok([]);
      }
      articleIds := articleIds + articleSearchedIds;
    }
    assert AfterArticleStage(storage, s, articleIds);
    // Search by tag; None while the name is unassigned
    var tagSearchedIds: Option<seq<string>> := None;
    if HasTagCriteria(s) {
      if storage.Offline? {
        return Raised(StorageError);
      }
      var found := QueryByTags(storage.db, s.tag.value);
      tagSearchedIds := Some(found);
      if found == [] {
        TagsFoundNothing(storage.db, s, articleIds);
        return Ok([]);
      } else if articleIds != [] {
        var common := ListOfSet(SetOf(articleIds) * SetOf(found));
        if common == [] {
          TagsFoundNothing(storage.db, s, articleIds);
          return Ok([]);
        }
        TagStageIntersect(storage.db, s, articleIds, common);
        articleIds := common;
      } else {
        TagStageExtend(storage.db, s, articleIds);
        articleIds := articleIds + found;
      }
    } else if storage.Online? {
      TagStageSkipped(storage.db, s, articleIds);
    }
    // Search by entity
    if HasEntityCriteria(s) {
      if storage.Offline? {
        return Raised(StorageError);
      }
      var entitySearchedIds := QueryByEntities(storage.db, s.entity.value);
      if entitySearchedIds == [] {
        EntitiesFoundNothing(storage.db, s);
        return Ok([]);
      } else if articleIds != [] {
        if tagSearchedIds.None? {
          UnassignedTagsRead(storage.db, s, articleIds, entitySearchedIds);
          return Raised(UnboundLocal);
        }
        var common := ListOfSet(SetOf(articleIds) * SetOf(tagSearchedIds.value));
        EntityStageKeepsTagResults(storage.db, s, articleIds, common, entitySearchedIds);
        if common == [] {
          // the ids so far are all tag results, so this never happens
          assert false;
          return Ok([]);
        }
        articleIds := common;
      } else {
        EntityStageOnly(storage.db, s, entitySearchedIds);
        articleIds := articleIds + entitySearchedIds;
      }
    } else if storage.Online? {
      NoEntityStage(storage.db, s, articleIds, tagSearchedIds);
    }
    return Ok(articleIds);
  }

  /** The ids after the attribute stage: its results, non-empty, or none
      when no attribute is searched. */
  ghost predicate AfterArticleStage(storage: Storage, s: Searched, ids: seq<string>) {
    if HasArticleCriteria(s) then storage.Online? && ids == QueryByArticle(storage.db, s) && ids != []
    else ids == []
  }

  /** Attribute and tag criteria both hold (entities aside). */
  ghost predicate ResolvedByStages(db: Db, s: Searched, id: string) {
    && (HasArticleCriteria(s) || HasTagCriteria(s))
    && (HasArticleCriteria(s) ==> id in QueryByArticle(db, s))
    && (HasTagCriteria(s) ==> id in QueryByTags(db, s.tag.value))
  }

  /** The ids and the tag results after the tag stage. */
  ghost predicate AfterTagStage(db: Db, s: Searched, ids: seq<string>, tagIds: Option<seq<string>>) {
    && (tagIds.Some? <==> HasTagCriteria(s))
    && (tagIds.Some? ==> tagIds.value == QueryByTags(db, s.tag.value))
    && ((HasArticleCriteria(s) || HasTagCriteria(s)) <==> ids != [])
    && (forall id :: id in ids <==> ResolvedByStages(db, s, id))
    && (HasArticleCriteria(s) && !HasTagCriteria(s) ==> ids == QueryByArticle(db, s))
    && (!HasArticleCriteria(s) && HasTagCriteria(s) ==> ids == QueryByTags(db, s.tag.value))
    && (HasArticleCriteria(s) && HasTagCriteria(s) ==> Distinct(ids))
  }

  lemma ArticlesFoundNothing(db: Db, s: Searched)
    requires HasArticleCriteria(s) && QueryByArticle(db, s) == []
    ensures ParsedAsWritten(Online(db), s, Ok([]))
    ensures ParsedIntended(Online(db), s, Ok([]))
  {
  }

  lemma TagsFoundNothing(db: Db, s: Searched, ids: seq<string>)
    requires HasTagCriteria(s) && AfterArticleStage(Online(db), s, ids)
    requires QueryByTags(db, s.tag.value) == [] || (ids != [] && SetOf(ids) * SetOf(QueryByTags(db, s.tag.value)) == {})
    ensures ParsedAsWritten(Online(db), s, Ok([]))
    ensures ParsedIntended(Online(db), s, Ok([]))
  {
    var tags := QueryByTags(db, s.tag.value);
    if tags != [] {
      forall id | id in ids ensures id !in tags {
        assert id !in SetOf(ids) * SetOf(tags);
      }
    }
  }

  lemma TagStageSkipped(db: Db, s: Searched, ids: seq<string>)
    requires !HasTagCriteria(s) && AfterArticleStage(Online(db), s, ids)
    ensures AfterTagStage(db, s, ids, None)
  {
  }

  lemma TagStageExtend(db: Db, s: Searched, ids: seq<string>)
    requires HasTagCriteria(s) && AfterArticleStage(Online(db), s, ids) && ids == []
    requires QueryByTags(db, s.tag.value) != []
    ensures AfterTagStage(db, s, ids + QueryByTags(db, s.tag.value), Some(QueryByTags(db, s.tag.value)))
  {
    assert ids + QueryByTags(db, s.tag.value) == QueryByTags(db, s.tag.value);
  }

  lemma TagStageIntersect(db: Db, s: Searched, ids: seq<string>, common: seq<string>)
    requires HasTagCriteria(s) && AfterArticleStage(Online(db), s, ids) && ids != []
    requires forall id :: id in common <==> id in SetOf(ids) * SetOf(QueryByTags(db, s.tag.value))
    requires Distinct(common) && common != []
    ensures AfterTagStage(db, s, common, Some(QueryByTags(db, s.tag.value)))
  {
  }

  lemma EntitiesFoundNothing(db: Db, s: Searched)
    requires HasEntityCriteria(s) && EntityLookupResult(db, s.entity.value, [])
    ensures ParsedAsWritten(Online(db), s, Ok([]))
    ensures ParsedIntended(Online(db), s, Ok([]))
  {
  }

  lemma UnassignedTagsRead(db: Db, s: Searched, ids: seq<string>, found: seq<string>)
    requires HasEntityCriteria(s) && AfterTagStage(db, s, ids, None) && ids != []
    requires EntityLookupResult(db, s.entity.value, found) && found != []
    ensures ParsedAsWritten(Online(db), s, Raised(UnboundLocal))
  {
    assert MatchesEveryKind(db, s.entity.value, found[0]);
  }

  /** With tags searched, the entity stage keeps every id found so far. */
  lemma EntityStageKeepsTagResults(db: Db, s: Searched, ids: seq<string>, common: seq<string>, found: seq<string>)
    requires HasEntityCriteria(s) && HasTagCriteria(s)
    requires AfterTagStage(db, s, ids, Some(QueryByTags(db, s.tag.value))) && ids != []
    requires forall id :: id in common <==> id in SetOf(ids) * SetOf(QueryByTags(db, s.tag.value))
    requires Distinct(common)
    requires EntityLookupResult(db, s.entity.value, found) && found != []
    ensures common != []
    ensures ParsedAsWritten(Online(db), s, Ok(common))
  {
    assert SomeEntityMatch(db, s) by {
      assert MatchesEveryKind(db, s.entity.value, found[0]);
    }
    var x := ids[0];
    assert ResolvedByStages(db, s, x);
    assert x in SetOf(ids) * SetOf(QueryByTags(db, s.tag.value));
    assert x in common;
    forall id ensures id in common <==> ResolvedAsWritten(db, s, id) {
      assert id in common <==> id in ids;
      assert id in ids <==> ResolvedByStages(db, s, id);
    }
  }

  lemma EntityStageOnly(db: Db, s: Searched, found: seq<string>)
    requires HasEntityCriteria(s) && !HasArticleCriteria(s) && !HasTagCriteria(s)
    requires EntityLookupResult(db, s.entity.value, found) && found != []
    ensures ParsedAsWritten(Online(db), s, Ok([] + found))
    ensures ParsedIntended(Online(db), s, Ok([] + found))
  {
    assert [] + found == found;
    assert MatchesEveryKind(db, s.entity.value, found[0]);
  }

  lemma NoEntityStage(db: Db, s: Searched, ids: seq<string>, tagIds: Option<seq<string>>)
    requires !HasEntityCriteria(s) && AfterTagStage(db, s, ids, tagIds)
    ensures ParsedAsWritten(Online(db), s, Ok(ids))
    ensures ParsedIntended(Online(db), s, Ok(ids))
  {
  }

  // ---------------------------------------------------------------------
  // parse_searched, corrected

  /** What a search promises once the entity stage intersects with the
      entity results: with the database reachable it returns exactly the
      articles meeting every criterion given. */
  ghost predicate ParsedIntended(storage: Storage, s: Searched, r: Outcome<seq<string>>) {
    && (!HasCriteria(s) ==> r == Ok([]))
    && (storage.Offline? && HasCriteria(s) ==> r == Raised(StorageError))
    && (storage.Online? ==> r.Ok? && forall id :: id in r.value <==> Resolved(storage.db, s, id))
    && (storage.Online? && HasArticleCriteria(s) && !HasTagCriteria(s) && !HasEntityCriteria(s) ==>
          r == Ok(QueryByArticle(storage.db, s)))
    && (storage.Online? && !HasArticleCriteria(s) && HasTagCriteria(s) && !HasEntityCriteria(s) ==>
          r == Ok(QueryByTags(storage.db, s.tag.value)))
    && (storage.Online? && !HasArticleCriteria(s) && !HasTagCriteria(s) && HasEntityCriteria(s) ==>
          EntityLookupResult(storage.db, s.entity.value, r.value))
    && (storage.Online? && HasEntityCriteria(s) && (HasArticleCriteria(s) || HasTagCriteria(s)) ==>
          Distinct(r.value))
  }

  /** `parse_searched` with line 52 intersecting the ids found so far with
      the entity results. */
  method ParseSearchedIntended(storage: Storage, s: Searched) returns (r: Outcome<seq<string>>)
    ensures ParsedIntended(storage, s, r)
  {
    var articleIds: seq<string> := [];
    // Search by article
    if HasArticleCriteria(s) {
      if storage.Offline? {
        return Raised(StorageError);
      }
      var articleSearchedIds := QueryByArticle(storage.db, s);
      if articleSearchedIds == [] {
        ArticlesFoundNothing(storage.db, s);
        return Ok([]);
      }
      articleIds := articleIds + articleSearchedIds;
    }
    assert AfterArticleStage(storage, s, articleIds);
    // Search by tag
    var tagSearchedIds: Option<seq<string>> := None;
    if HasTagCriteria(s) {
      if storage.Offline? {
        return Raised(StorageError);
      }
      var found := QueryByTags(storage.db, s.tag.value);
      tagSearchedIds := Some(found);
      if found == [] {
        TagsFoundNothing(storage.db, s, articleIds);
        return Ok([]);
      } else if articleIds != [] {
        var common := ListOfSet(SetOf(articleIds) * SetOf(found));
        if common == [] {
          TagsFoundNothing(storage.db, s, articleIds);
          return Ok([]);
        }
        TagStageIntersect(storage.db, s, articleIds, common);
        articleIds := common;
      } else {
        TagStageExtend(storage.db, s, articleIds);
        articleIds := articleIds + found;
      }
    } else if storage.Online? {
      TagStageSkipped(storage.db, s, articleIds);
    }
    // Search by entity
    if HasEntityCriteria(s) {
      if storage.Offline? {
        return Raised(StorageError);
      }
      var entitySearchedIds := QueryByEntities(storage.db, s.entity.value);
      if entitySearchedIds == [] {
        EntitiesFoundNothing(storage.db, s);
        return Ok([]);
      } else if articleIds != [] {
        var common := ListOfSet(SetOf(articleIds) * SetOf(entitySearchedIds));
        EntityStageIntersect(storage.db, s, articleIds, tagSearchedIds, entitySearchedIds, common);
        if common == [] {
          return Ok([]);
        }
        articleIds := common;
      } else {
        EntityStageOnly(storage.db, s, entitySearchedIds);
        articleIds := articleIds + entitySearchedIds;
      }
    } else if storage.Online? {
      NoEntityStage(storage.db, s, articleIds, tagSearchedIds);
    }
    return Ok(articleIds);
  }

  lemma EntityStageIntersect(db: Db, s: Searched, ids: seq<string>, tagIds: Option<seq<string>>,
                             found: seq<string>, common: seq<string>)
    requires HasEntityCriteria(s) && ids != [] && AfterTagStage(db, s, ids, tagIds)
    requires EntityLookupResult(db, s.entity.value, found)
    requires forall id :: id in common <==> id in SetOf(ids) * SetOf(found)
    requires Distinct(common)
    ensures ParsedIntended(Online(db), s, Ok(common))
  {
    forall id ensures id in common <==> Resolved(db, s, id) {
      assert id in common <==> id in ids && id in found;
      assert id in ids <==> ResolvedByStages(db, s, id);
    }
  }

  /** Every article the corrected search accepts, the search as written
      accepts too. */
  lemma ResolvedWithinAsWritten(db: Db, s: Searched, id: string)
    requires Resolved(db, s, id)
    ensures ResolvedAsWritten(db, s, id)
  {
  }

  /** Unless tags and entities are searched together, both searches accept
      the same articles. */
  lemma AsWrittenAgreesWithoutTagsAndEntities(db: Db, s: Searched, id: string)
    requires !(HasTagCriteria(s) && HasEntityCriteria(s))
    ensures ResolvedAsWritten(db, s, id) <==> Resolved(db, s, id)
  {
    if ResolvedAsWritten(db, s, id) && HasEntityCriteria(s) {
      assert MatchesEveryKind(db, s.entity.value, id);
    }
  }

  /** Two articles tagged "news", one in Toronto and one in Montreal. */
  function NewsDb(): Db {
    Db([ArticleRow("X", "Snow in Toronto", 2, "America/Toronto", None, 2, "u"),
        ArticleRow("Y", "Rain in Montreal", 1, "America/Toronto", None, 1, "u")],
       [EntityRow("X", "city", "toronto"), EntityRow("Y", "city", "montreal")],
       [TagRow("X", "news", "u"), TagRow("Y", "news", "u")])
  }

  /** A search for tag "news" and city Toronto. */
  function NewsInToronto(): Searched {
    Searched(None, None, Some(["news"]), Some(map["city" := ["toronto"]]), None)
  }

  /** Once tags and entities are both searched, a tagged article that
      misses an entity criterion is still returned as long as some other
      article meets them all. */
  lemma TagResultsPassEntityStage(db: Db, s: Searched, x: string, y: string, kind: string)
    requires !HasArticleCriteria(s) && HasTagCriteria(s) && HasEntityCriteria(s)
    requires y in QueryByTags(db, s.tag.value)
    requires MatchesEveryKind(db, s.entity.value, x)
    requires kind in s.entity.value && y !in KindMatches(db, kind, s.entity.value[kind])
    ensures ResolvedAsWritten(db, s, y) && !Resolved(db, s, y)
  {
  }

  /** What the tables of `NewsDb` give for the searched tag and city. */
  lemma NewsDbLookups()
    ensures "Y" in QueryByTags(NewsDb(), ["news"])
    ensures "X" in KindMatches(NewsDb(), "city", ["toronto"])
    ensures "Y" !in KindMatches(NewsDb(), "city", ["toronto"])
    ensures "X" in QueryByArticle(NewsDb(), XInToronto())
  {
    var db := NewsDb();
    assert db.articles[0] in db.articles && PassesArticleFilters(XInToronto(), db.articles[0]);
    assert db.tags[1] in db.tags;
    assert db.entities[0] in db.entities;
  }

  /** Article X meets the city criterion Toronto. */
  lemma XMatchesToronto()
    ensures MatchesEveryKind(NewsDb(), map["city" := ["toronto"]], "X")
  {
    var criteria := map["city" := ["toronto"]];
    assert "city" in criteria;
    NewsDbLookups();
  }

  /** The search as written accepts the Montreal article, which the
      request excludes. */
  lemma EntityStageCounterexample()
    ensures ReferentialIntegrity(NewsDb())
    ensures ResolvedAsWritten(NewsDb(), NewsInToronto(), "Y")
    ensures !Resolved(NewsDb(), NewsInToronto(), "Y")
  {
    NewsDbIntegrity();
    var s := NewsInToronto();
    var criteria := map["city" := ["toronto"]];
    assert s.entity.value == criteria && s.tag.value == ["news"] && "city" in criteria;
    NewsDbLookups();
    XMatchesToronto();
    TagResultsPassEntityStage(NewsDb(), s, "X", "Y", "city");
  }

  /** Every entity and tag row of `NewsDb` names one of its articles. */
  lemma NewsDbIntegrity()
    ensures ReferentialIntegrity(NewsDb())
  {
    var db := NewsDb();
    assert ArticleExists(db, "X") by { assert db.articles[0] in db.articles; }
    assert ArticleExists(db, "Y") by { assert db.articles[1] in db.articles; }
  }

  /** A search for article X and city Toronto. */
  function XInToronto(): Searched {
    Searched(Some(["X"]), None, None, Some(map["city" := ["toronto"]]), None)
  }

  /** Attribute and entity criteria without tags, both matching article X:
      the search as written reads the unassigned tag results, although X
      meets every criterion. */
  lemma UnassignedTagsExample()
    ensures ReadsUnassignedTags(NewsDb(), XInToronto())
    ensures Resolved(NewsDb(), XInToronto(), "X")
  {
    var s := XInToronto();
    assert s.entity.value == map["city" := ["toronto"]] && "city" in s.entity.value;
    assert HasArticleCriteria(s) && !HasTagCriteria(s) && HasEntityCriteria(s);
    NewsDbLookups();
    XMatchesToronto();
    MatchWithoutTags(NewsDb(), s, "X");
  }

  /** An article found by attributes that meets every entity criterion,
      with no tags searched, makes the search as written read the
      unassigned tag results. */
  lemma MatchWithoutTags(db: Db, s: Searched, x: string)
    requires HasArticleCriteria(s) && !HasTagCriteria(s) && HasEntityCriteria(s)
    requires x in QueryByArticle(db, s) && MatchesEveryKind(db, s.entity.value, x)
    ensures ReadsUnassignedTags(db, s) && Resolved(db, s, x)
  {
  }

  // ---------------------------------------------------------------------
  // parse_tag_article

  /** The records for one tagged article: one per tag, in the order given,
      each credited to `username`. */
  function TagRecords(t: TaggedArticle, username: string): (r: seq<TagInsert>)
    ensures |r| == |t.tags|
    ensures forall k :: 0 <= k < |r| ==> r[k] == TagInsert(t.articleId, t.tags[k], username)
  {
    seq(|t.tags|, k requires 0 <= k < |t.tags| => TagInsert(t.articleId, t.tags[k], username))
  }

  /** The records of a whole tagging request, article after article. */
  function Flatten(batch: seq<TaggedArticle>, username: string): seq<TagInsert> {
    if batch == [] then []
    else Flatten(batch[..|batch| - 1], username) + TagRecords(batch[|batch| - 1], username)
  }

  /** The number of tags in a tagging request. */
  function TagCount(batch: seq<TaggedArticle>): nat {
    if batch == [] then 0 else TagCount(batch[..|batch| - 1]) + |batch[|batch| - 1].tags|
  }

  /** One record per tag of the request. */
  lemma {:induction false} FlattenLength(batch: seq<TaggedArticle>, username: string)
    ensures |Flatten(batch, username)| == TagCount(batch)
  {
    if batch != [] {
      FlattenLength(batch[..|batch| - 1], username);
    }
  }

  /** The `k`-th tag of the `i`-th article lands after the tags of the
      articles before it. */
  lemma {:induction false} FlattenAt(batch: seq<TaggedArticle>, username: string, i: nat, k: nat)
    requires i < |batch| && k < |batch[i].tags|
    ensures TagCount(batch[..i]) + k < |Flatten(batch, username)|
    ensures Flatten(batch, username)[TagCount(batch[..i]) + k] == TagInsert(batch[i].articleId, batch[i].tags[k], username)
  {
    var init := batch[..|batch| - 1];
    FlattenLength(init, username);
    if i == |batch| - 1 {
      assert batch[..i] == init;
    } else {
      assert batch[..i] == init[..i];
      assert init[i] == batch[i];
      FlattenAt(init, username, i, k);
    }
  }

  /** A record is produced exactly when it pairs a requested article with
      one of its tags, credited to `username`. */
  lemma {:induction false} FlattenSource(batch: seq<TaggedArticle>, username: string, x: TagInsert)
    ensures x in Flatten(batch, username) <==>
      x.taggedBy == username && exists t :: t in batch && t.articleId == x.articleId && x.tag in t.tags
  {
    if batch != [] {
      var init, last := batch[..|batch| - 1], batch[|batch| - 1];
      FlattenSource(init, username, x);
      assert batch == init + [last];
      if x in TagRecords(last, username) {
        var k :| 0 <= k < |last.tags| && TagRecords(last, username)[k] == x;
        assert x.tag == last.tags[k];
      }
      if x.taggedBy == username && x.articleId == last.articleId && x.tag in last.tags {
        var k :| 0 <= k < |last.tags| && last.tags[k] == x.tag;
        assert TagRecords(last, username)[k] == x;
      }
    }
  }

  /** Flattens a tagging request into one record per (article, tag). */
  method ParseTagArticle(batch: seq<TaggedArticle>, username: string) returns (tagsToInsert: seq<TagInsert>)
    ensures tagsToInsert == Flatten(batch, username)
  {
    tagsToInsert := [];
    for i := 0 to |batch|
      invariant tagsToInsert == Flatten(batch[..i], username)
    {
      var flattened := TagRecords(batch[i], username);
      assert batch[..i + 1][..i] == batch[..i];
      tagsToInsert := tagsToInsert + flattened;
    }
    assert batch[..|batch|] == batch;
  }
}
