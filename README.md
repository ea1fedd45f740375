# Article tagger: search, grouping, merge and tagging, verified in Dafny

The article tagger is a small web service over three tables: `articles`, `entities` (kind/value annotations such as `city: toronto`) and `tags`. It offers three requests:
- return every article, latest first;
- search articles by attribute, tag and entity, returning each match with its entities and tags;
- tag a batch of articles on behalf of the service's database user.

This project models the service's logic against an in-memory database.
- Each table is a sequence of rows, in the order an unordered query returns them.
- SQL `IN` is sequence membership.
- `ORDER BY published_time` is an insertion sort on an integer timestamp.
- The connection is `Storage = Online(db) | Offline`. When it is `Offline`, every query raises.
- Python truthiness is modelled explicitly: an absent key, an empty list and an empty dict all count as "not given".
- `list(set(...))` is modelled by `Common.ListOfSet`, which picks elements in any order.

Modules, one per source file:
- `Common`: Option, the exceptions the code raises (`UnboundLocal`, `StorageError`, `KeyError`), `Outcome`, and `list(set(...))`.
- `Models`: the rows of `src/models/db_models.py` and the request shapes.
- `DatabaseUtilities` (`src/utils/database_utilities.py`):
  - The filter queries are functions.
  - The kind-by-kind narrowing of `query_by_entities` and the row-grouping loops are methods with loops. Each is proved against a fold function.
- `RequestParser` (`src/utils/request_parser.py`): `is_desc`, `parse_searched` as written and corrected, and `parse_tag_article`.
- `ArticleTagger` (`src/article_tagger.py`): the three handlers, including the loops that attach entity and tag groups to the fetched articles.

Three places in the code do not do what their comments and names say; see "## Findings".
- Each is modelled as written, with a lemma exhibiting the input that shows it.
- Each also has a corrected version with its intended property proved.
- The search handler `ArticleTagger.SearchArticles` is built from the corrected versions.
- `ArticleTagger.SearchArticlesAsWritten` is the same handler built from the versions as written. Its UnboundLocal error escapes, and `entity` and `tags` each reach at most one article.

The attribute search takes two lists, `article_id` and `headline`. Read as a union, an article would match when either list names it. The code chains two `.filter` calls, which is a conjunction: an article must be named by both lists.
- The model follows the code (`DatabaseUtilities.QueryByArticle`).
- The union reading is kept for comparison (`QueryByArticleUnion`).
- `ChainedFiltersWithinUnion` and `ChainedFiltersCounterexample` relate the two readings.

## Model

| member | source | states |
|---|---|---|
| Common.ListOfSet | src/utils/request_parser.py:38 | `list(set(...))`, as at request_parser.py lines 38 and 52 and database_utilities.py line 82: every element of the set exactly once, in any order |
| DatabaseUtilities.SortByTime | src/utils/database_utilities.py:32 | `ORDER BY published_time`: the result is sorted (descending or ascending as asked) and is a permutation of the input rows |
| DatabaseUtilities.InsertSorted | src/utils/database_utilities.py:32 | inserting a row into a sorted sequence keeps it sorted |
| DatabaseUtilities.SortDistinct | src/utils/database_utilities.py:99-104 | sorting rows with distinct ids keeps the ids distinct |
| DatabaseUtilities.SortKeepsSummaries | src/utils/database_utilities.py:30-34 | the selected (id, headline, time) triples of the sorted rows are those of the table, as a multiset |
| DatabaseUtilities.QueryAllArticles | src/utils/database_utilities.py:27-35 | one triple per article, every article's triple exactly once (multiset equality), latest `published_time` first |
| DatabaseUtilities.WithIdIn | src/utils/database_utilities.py:45 | `.filter(article_id.in_(ids))`: keeps exactly the rows whose id is listed; distinct ids stay distinct |
| DatabaseUtilities.WithHeadlineIn | src/utils/database_utilities.py:49 | keeps exactly the rows whose headline is listed |
| DatabaseUtilities.QueryByArticle | src/utils/database_utilities.py:37-52 | an id is returned iff some article row passes both filters (an absent or empty list does not filter) |
| DatabaseUtilities.ChainedFiltersWithinUnion | src/utils/database_utilities.py:43-49 | the chained filters never return more than the union reading, and the two agree unless both lists are given |
| DatabaseUtilities.ChainedFiltersCounterexample | src/utils/database_utilities.py:43-49 | id `a1` with headline `h2`: the chained filters return nothing, while the union reading returns both articles |
| DatabaseUtilities.QueryByTags | src/utils/database_utilities.py:54-59 | an id is returned iff a tag row of it has a listed tag, and it appears once per such row |
| DatabaseUtilities.KindMatches | src/utils/database_utilities.py:68-74 | the ids of exactly the entity rows of the kind whose value is listed |
| DatabaseUtilities.QueryByEntities | src/utils/database_utilities.py:61-85 | returns: `[]` for no kinds; otherwise exactly the articles matching every kind; `[]` if any kind matches nothing; a single kind's matches unchanged; each id once for two or more kinds |
| DatabaseUtilities.NarrowByKind | src/utils/database_utilities.py:82 | intersecting with the next kind's matches gives, once each, exactly the ids matching all kinds seen so far |
| DatabaseUtilities.IntersectionAddsKind | src/utils/database_utilities.py:82 | the set intersection matches one kind more than its left operand |
| DatabaseUtilities.EmptyKindMatchesNothing | src/utils/database_utilities.py:75-77 | a kind with no matching row rules out every article |
| DatabaseUtilities.QueryArticleByArticleId | src/utils/database_utilities.py:87-113 | the ordered dict built from the sorted rows; its keys are exactly the requested ids that exist, each once, carrying the five selected columns of a row with that id and no attachments; in publication order when ids are unique |
| DatabaseUtilities.DictOfEntries | src/utils/database_utilities.py:109-111 | the dict's keys are the fetched ids, each once in the order, and each value holds the columns of a row with that id |
| DatabaseUtilities.DictOfDistinct | src/utils/database_utilities.py:109-111 | with distinct ids the key order is the row order, and each key holds its own row |
| DatabaseUtilities.DictOfOrdered | src/utils/database_utilities.py:101-111 | sorted rows with distinct ids give a dict in publication order |
| DatabaseUtilities.RowsFor | src/utils/database_utilities.py:120-128 | `.filter(article_id.in_(ids))`: keeps exactly the rows of the requested articles, for the entity rows here and the tag rows at lines 148-155 |
| DatabaseUtilities.FilterKeepsEntityValues | src/utils/database_utilities.py:126 | filtering by requested ids keeps every value of a requested article, in order |
| DatabaseUtilities.KindGroupAppend | src/utils/database_utilities.py:133-138 | appending a row's value under its kind keeps the group equal to "every kind of the article with its values in row order" |
| DatabaseUtilities.QueryEntitiesByArticleId | src/utils/database_utilities.py:115-142 | as written: no rows give `{}`; otherwise the only key is the last row's article, holding the kinds of its trailing run of rows |
| DatabaseUtilities.EntitiesAsWrittenKeepLastRun | src/utils/database_utilities.py:132-140 | the fold of the loop as written keeps only the last row's article and its trailing run |
| DatabaseUtilities.QueryEntitiesByArticleIdIntended | src/utils/database_utilities.py:115-142 | corrected: one key per requested article with entity rows, holding every kind with its values in row order |
| DatabaseUtilities.EntitiesIntendedGroupAll | src/utils/database_utilities.py:132-140 | the corrected fold has one key per article in the rows, holding that article's kind group |
| DatabaseUtilities.EntityGroupsOnDb | src/utils/database_utilities.py:115-142 | the corrected grouping stated on the table: keys iff requested and annotated, each a full kind group |
| DatabaseUtilities.EntityGroupingCounterexample | src/utils/database_utilities.py:140 | rows of A then B: the loop as written keeps only B, the corrected loop keeps A and B |
| DatabaseUtilities.TagValuesNonEmpty | src/utils/database_utilities.py:159-164 | an article's tag list is non-empty iff it has a tag row |
| DatabaseUtilities.FilterKeepsTagValues | src/utils/database_utilities.py:153 | filtering by requested ids keeps every tag of a requested article, in order |
| DatabaseUtilities.QueryTagByArticleId | src/utils/database_utilities.py:144-166 | as written: no rows give `{}`; otherwise the only key is the last row's article, holding the tags of its trailing run |
| DatabaseUtilities.TagsAsWrittenKeepLastRun | src/utils/database_utilities.py:159-164 | the fold of the loop as written is a single-key dict for the last row's run |
| DatabaseUtilities.QueryTagByArticleIdIntended | src/utils/database_utilities.py:144-166 | corrected: one key per requested article with tag rows, holding all its tags in row order |
| DatabaseUtilities.TagsIntendedGroupAll | src/utils/database_utilities.py:159-164 | the corrected fold has one key per article in the rows, holding all its tags |
| DatabaseUtilities.TagGroupsOnDb | src/utils/database_utilities.py:144-166 | the corrected tag grouping stated on the table |
| DatabaseUtilities.TagGroupingCounterexample | src/utils/database_utilities.py:164 | rows of A then B: the loop as written keeps only B, the corrected loop keeps A and B |
| DatabaseUtilities.InsertTags | src/utils/database_utilities.py:168-172 | one transaction: every record is appended to `tags`, and the other tables are unchanged; it succeeds iff the connection works and every record names an existing article, and otherwise raises |
| RequestParser.IsDesc | src/utils/request_parser.py:6-15 | ascending iff `order_by_time` is exactly `"asc"`; absent, empty or any other value means descending |
| RequestParser.ParseSearched | src/utils/request_parser.py:18-58 | as written: no criteria give `[]`; with the connection down any criterion raises; it raises (UnboundLocal) iff attribute and entity criteria without tags both find articles; otherwise the ids are exactly those meeting the attribute and tag criteria, provided some article meets every entity criterion; a single category returns its lookup unchanged; attribute plus tag criteria, and tag plus entity criteria, give each id once |
| RequestParser.TagsFoundNothing | src/utils/request_parser.py:33-41 | no tag matches, or no common id with the attribute results: `[]` |
| RequestParser.TagStageIntersect | src/utils/request_parser.py:36-41 | after attribute and tag stages: exactly the ids found by both, each once |
| RequestParser.EntityStageKeepsTagResults | src/utils/request_parser.py:50-55 | with tags given, the entity stage returns the ids so far unchanged as a set (never empty) whenever some article matches every kind |
| RequestParser.UnassignedTagsRead | src/utils/request_parser.py:50-52 | attribute and entity criteria without tags, both finding articles: line 52 reads `tag_searched_ids` before it is assigned |
| RequestParser.ResolvedWithinAsWritten | src/utils/request_parser.py:52 | every article the corrected search accepts, the search as written accepts too |
| RequestParser.AsWrittenAgreesWithoutTagsAndEntities | src/utils/request_parser.py:52 | unless tags and entities are given together, both searches accept the same articles |
| RequestParser.TagResultsPassEntityStage | src/utils/request_parser.py:52 | with tags and entities given and no attribute criteria, a tagged article missing an entity criterion is still accepted once any article meets them all |
| RequestParser.NewsDbIntegrity | src/models/db_models.py:46 | every entity and tag row of the two-article example database names one of its articles, as the foreign keys require |
| RequestParser.MatchWithoutTags | src/utils/request_parser.py:47-52 | with attribute and entity criteria and no tags, an article found by attributes that meets every entity criterion makes line 52 read the unassigned tag results, and the intended search accepts it |
| RequestParser.UnassignedTagsExample | src/utils/request_parser.py:52 | article id `X` and city `toronto`, both matching article X: the search as written reads the unassigned tag results, though X meets every criterion |
| RequestParser.EntityStageCounterexample | src/utils/request_parser.py:52 | on a database whose entity and tag rows all name its two articles, tag `news` and city `toronto`: the Montreal article tagged `news` is accepted as written and rejected by the corrected search |
| RequestParser.ParseSearchedIntended | src/utils/request_parser.py:18-58 | corrected: no criteria give `[]`; with the connection down any criterion raises; otherwise it never raises and returns exactly the ids meeting every criterion given; a single category returns its lookup unchanged; entities with another category give each id once |
| RequestParser.EntityStageIntersect | src/utils/request_parser.py:50-55 | corrected entity stage: exactly the ids meeting every category given, each once |
| RequestParser.TagRecords | src/utils/request_parser.py:69-76 | one record per tag of the article, in order, each `{article_id, tag, tagged_by = username}` |
| RequestParser.FlattenLength | src/utils/request_parser.py:66-78 | one record per tag in the request |
| RequestParser.FlattenAt | src/utils/request_parser.py:66-78 | the k-th tag of the i-th article lands right after the tags of the articles before it (article-major, tag-minor) |
| RequestParser.FlattenSource | src/utils/request_parser.py:69-77 | a record is produced iff it pairs a requested article with one of its tags, credited to `username` |
| RequestParser.ParseTagArticle | src/utils/request_parser.py:61-78 | the loop's result is the flattening of the request |
| ArticleTagger.GetAllArticles | src/article_tagger.py:26-41 | 200 iff the database is reachable, with "All articles returned" and every article once, latest first; otherwise 500 with the failure message and no content |
| ArticleTagger.WithEntities | src/article_tagger.py:74-76 | attaching entity groups keeps keys, order, columns and tags, and sets `entity` exactly for the articles in the groups |
| ArticleTagger.WithTags | src/article_tagger.py:79-80 | attaching tag groups keeps keys, order, columns and entities, and sets `tags` exactly for the articles in the groups |
| ArticleTagger.AttachEntityGroups | src/article_tagger.py:72-76 | raises KeyError iff some grouped article is missing from the dict; otherwise returns the dict with every group attached |
| ArticleTagger.AttachTagGroups | src/article_tagger.py:77-80 | raises KeyError iff some grouped article is missing from the dict; otherwise returns the dict with every tag list attached |
| ArticleTagger.MergeKeepsArticles | src/article_tagger.py:72-80 | attaching groups keeps the dict well formed and in publication order |
| ArticleTagger.MergedGroups | src/article_tagger.py:72-80 | after the merge an article has `entity` iff it has entity rows (its full kind group) and `tags` iff it has tag rows (all its tags); otherwise the key is absent |
| ArticleTagger.SearchContentAnswers | src/article_tagger.py:68-82 | corrected: with the corrected groupings, the merged content holds exactly the existing articles meeting every criterion, with their columns, groups and publication order |
| ArticleTagger.SearchArticles | src/article_tagger.py:44-90 | corrected: built from the corrected search and groupings. A search failure escapes the handler; connection down with no criteria: 500; otherwise 200 iff every matching article with entity or tag rows exists (always so under referential integrity); 200 carries "Search results returned" and exactly the existing matches once each, with columns, all entity kinds and tags attached sparsely, in the requested publication order; otherwise 500 with the failure message and no content |
| ArticleTagger.LastMatchKeysOfRows | src/utils/database_utilities.py:126-141 | among the rows of the articles the search as written accepts, the last one's article is the only key `LastMatchKeys` holds, and there is none when no row is fetched |
| ArticleTagger.LastMatchAtMostOne | src/utils/database_utilities.py:140 | at most one article is the last accepted one |
| ArticleTagger.EntityKeysAsWritten | src/utils/database_utilities.py:115-142 | the entity grouping as written has exactly one key, the article of the last accepted entity row, or none |
| ArticleTagger.TagKeysAsWritten | src/utils/database_utilities.py:144-166 | the tag grouping as written has exactly one key, the article of the last accepted tag row, or none |
| ArticleTagger.AsWrittenMisfit | src/article_tagger.py:73-80 | a group kept for an article missing from `articles` raises KeyError, and the handler answers 500 |
| ArticleTagger.AnsweredAsWritten | src/article_tagger.py:68-84 | as written, the merged content holds exactly the existing articles the search as written accepts, with their columns, in publication order; `entity` is on the last accepted entity row's article only, `tags` on the last accepted tag row's article only, so at most one article carries each |
| ArticleTagger.SearchArticlesAsWritten | src/article_tagger.py:44-90 | the handler as written. With the connection up, it escapes with UnboundLocal exactly when attribute and entity criteria without tags both find articles. Connection down with criteria: StorageError escapes; with none: 500. Otherwise it answers 200 iff the one article keeping an entity group and the one keeping a tag group both exist (always so under referential integrity). A 200 carries "Search results returned" and the content above; any other answer is 500 with the failure message and no content |
| ArticleTagger.RecordsNameTaggedArticles | src/article_tagger.py:110-112 | the flattened records name existing articles iff every article given with a tag exists |
| ArticleTagger.TaggedPairsStored | src/article_tagger.py:110-112 | after the insert, every requested (article, tag) pair, credited to the user, is a tag row |
| ArticleTagger.TagArticle | src/article_tagger.py:93-121 | 200 iff the connection works and every article given with a tag exists; 200 carries "Tagging successful!", `inserted_tags` equal to the flattened request, the tags table extended by exactly those rows, and a tag search then finds each requested article under each of its tags; otherwise 500 with the failure message and the database unchanged |

## Left out

- The traceback text appended to each 500 message: it is runtime output. The model keeps the fixed message prefix.
- Logging (`init_logger`, every `logger.debug` call) and Flask routing and request objects. The request body is a typed `Searched` or `seq<TaggedArticle>` value.
- The `home` route's liveness string.
- A malformed request body: a missing `article_id` or `tags` key in a tagging request, non-list values, non-string `order_by_time`. The model's request types rule these out.
- `src/base_classes/engine_utils.py` is not part of this model. The engine, pool, credentials, and the session commit/rollback/close lifecycle are I/O. Every database failure is one `StorageError` raised while `Storage` is `Offline`.
- A connection that fails partway through a request is not modelled. `Storage` is either up or down for a whole request. So the model cannot express `search_articles` answering 500 because the database went down after `parse_searched` succeeded (`src/article_tagger.py` lines 84-88).
- The `username` attribute of the database utilities object, which comes from the environment: a parameter of `TagArticle`.
- `query_article_by_article_id` iterates its query after the session has closed (src/utils/database_utilities.py:105-110). The model treats the fetch as succeeding whenever the connection works.
- Order among articles with equal `published_time`: SQL leaves it open. The model uses one fixed insertion sort.
- String collation of MySQL `IN` and `=` (case and trailing-space folding): strings compare exactly.
- `DateTime` values: integer timestamps.
- The `tag_value` and `tagged_at` columns of `tags`: not modelled. The model assumes the deployed schema lets an insert leave them out. `src/models/db_models.py` declares both NOT NULL with no default.
- The `String(45)` widths of `tag` and `tagged_by` (`src/models/db_models.py` lines 47 and 50): not modelled. The model assumes every tag and the username fit. A longer value would make the insert raise under MySQL strict mode. Outside strict mode it would be truncated on storage, and a tag search for the full value would then miss it.
- DatabaseUtilities.InsertTags: succeeds whenever the connection works and every record names an existing article. This rests on both schema assumptions above. Under MySQL strict mode with the columns as declared, every non-empty insert would fail instead, and so would any insert with a tag or username longer than 45 characters.
- ArticleTagger.TagArticle: its 200 condition and its tag-search round trip rest on the same two schema assumptions as `InsertTags`. A tag longer than 45 characters would instead give 500 under strict mode, or be stored truncated so that the round trip fails.
- ArticleTagger.SearchArticles: states the handler over the corrected search and groupings, not the code as written. The as-written handler is `SearchArticlesAsWritten`.
- ArticleTagger.SearchContentAnswers: states the content merged from the corrected groupings. The as-written content, with `entity` and `tags` on at most one article each, is stated by `AnsweredAsWritten`.
- ArticleTagger.SearchArticlesAsWritten: states which article keeps each group, but not that group's contents. The contents are the trailing run of that article's rows, as stated by `DatabaseUtilities.QueryEntitiesByArticleId` and `DatabaseUtilities.QueryTagByArticleId`.
- The order of kinds inside an article's entity dict and of keys in a plain dict: maps are unordered. The article dict keeps its order.
- The order in which the merge visits grouped articles: the loops pick any pending article. Only which KeyError is raised first could depend on it, and the response does not.
- The partially updated `articles_dict` left behind by a KeyError: it is discarded, since the 500 response carries no content.
- Foreign keys are not enforced on the tables themselves. `ReferentialIntegrity` is a hypothesis where it matters, and `InsertTags` fails when a record names a missing article.
- Concurrency and the connection pool.

## Findings

| source | as written | input that shows it | evidently intended | confidence | as-written member | corrected member |
|---|---|---|---|---|---|---|
| src/utils/request_parser.py:52 | the entity stage intersects the ids so far with `tag_searched_ids` rather than with `entity_searched_ids`. With tags given, entities never narrow the result. Without tags but with attribute criteria, the name is unbound (shown by `RequestParser.UnassignedTagsExample`) | articles X and Y both tagged `news`, X in city `toronto`, Y in `montreal`; search `{"tag": ["news"], "entity": {"city": ["toronto"]}}` returns X and Y | intersect with `entity_searched_ids`, returning exactly the articles meeting every criterion | not executed | RequestParser.EntityStageCounterexample | RequestParser.ParseSearchedIntended |
| src/utils/database_utilities.py:140 | a row of an article without an entry replaces the whole `entities_dict`, so only the last row's article survives | entity rows `(A, city, toronto)`, `(B, city, montreal)` for ids `[A, B]` give keys `{B}` | add a key for the article, giving `{A, B}` | not executed | DatabaseUtilities.EntityGroupingCounterexample | DatabaseUtilities.QueryEntitiesByArticleIdIntended |
| src/utils/database_utilities.py:164 | a row of an article without an entry replaces the whole `tags_dict`, so only the last row's article survives | tag rows `(A, news)`, `(B, travel)` for ids `[A, B]` give keys `{B}` | add a key for the article, giving `{A, B}` | not executed | DatabaseUtilities.TagGroupingCounterexample | DatabaseUtilities.QueryTagByArticleIdIntended |
