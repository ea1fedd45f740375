/** The three tables of src/models/db_models.py as in-memory sequences of
    rows, and the shapes of the JSON requests the service accepts. */
module Models {
  import opened Common

  /** A row of `articles`; `published_time` and `updated_at` are integer
      timestamps. */
  datatype ArticleRow = ArticleRow(
    articleId: string,
    headline: string,
    publishedTime: int,
    publisherTimezone: string,
    articleContent: Option<string>,
    updatedAt: int,
    updatedBy: string)

  /** A row of `entities`: one (kind, value) annotation of an article. */
  datatype EntityRow = EntityRow(articleId: string, entity: string, entityValue: string)

  /** A row of `tags`, with the columns the tagging path writes. */
  datatype TagRow = TagRow(articleId: string, tag: string, taggedBy: string)

  /** The database: each table is its rows in the order an unordered
      query returns them. */
  datatype Db = Db(articles: seq<ArticleRow>, entities: seq<EntityRow>, tags: seq<TagRow>)

  /** The connection either works, or every query on it raises. */
  datatype Storage = Online(db: Db) | Offline

  predicate DistinctIds(rows: seq<ArticleRow>) {
    forall i, j :: 0 <= i < j < |rows| ==> rows[i].articleId != rows[j].articleId
  }

  /** `article_id` is the primary key of `articles`. */
  predicate UniqueArticleIds(db: Db) {
    DistinctIds(db.articles)
  }

  predicate ArticleExists(db: Db, id: string) {
    exists row :: row in db.articles && row.articleId == id
  }

  predicate HasEntityRows(db: Db, id: string) {
    exists row :: row in db.entities && row.articleId == id
  }

  predicate HasTagRows(db: Db, id: string) {
    exists row :: row in db.tags && row.articleId == id
  }

  /** The foreign keys of `entities` and `tags` onto `articles`. */
  predicate ReferentialIntegrity(db: Db) {
    && (forall row :: row in db.entities ==> ArticleExists(db, row.articleId))
    && (forall row :: row in db.tags ==> ArticleExists(db, row.articleId))
  }

  /** The body of a search request; an absent key is `None`. */
  datatype Searched = Searched(
    articleId: Option<seq<string>>,
    headline: Option<seq<string>>,
    tag: Option<seq<string>>,
    entity: Option<map<string, seq<string>>>,
    orderByTime: Option<string>)

  /** Python truthiness of an optional list: present and non-empty. */
  predicate Truthy(o: Option<seq<string>>) {
    o.Some? && o.value != []
  }

  /** Python truthiness of an optional dict: present and non-empty. */
  predicate TruthyMap(o: Option<map<string, seq<string>>>) {
    o.Some? && o.value != map[]
  }

  /** One element of a tagging request. */
  datatype TaggedArticle = TaggedArticle(articleId: string, tags: seq<string>)

  /** One record handed to the bulk insert of tags. */
  datatype TagInsert = TagInsert(articleId: string, tag: string, taggedBy: string)

  /** The three columns `query_all_articles` selects. */
  datatype ArticleSummary = ArticleSummary(articleId: string, headline: string, publishedTime: int)

  /** The five columns `query_article_by_article_id` selects. */
  datatype ArticleFields = ArticleFields(
    articleId: string,
    headline: string,
    publishedTime: int,
    publisherTimezone: string,
    articleContent: Option<string>)

  function Summary(row: ArticleRow): ArticleSummary {
    ArticleSummary(row.articleId, row.headline, row.publishedTime)
  }

  function Fields(row: ArticleRow): ArticleFields {
    ArticleFields(row.articleId, row.headline, row.publishedTime, row.publisherTimezone, row.articleContent)
  }
}
