# Magazine publishing persistence layer, in Dafny

This project models the object-relational core of a small Python persistence
layer for a magazine-publishing domain. There are three entity classes:

- `Author`: an optional key and a name that can be set only once.
- `Magazine`: an optional key, a name and a category, both reassignable.
- `Article`: an optional key, a title that can be set only once, and
  references to one author and one magazine.

Each class validates its fields, saves itself by insert-or-update, rebuilds
itself from a stored row, finds itself by key, and answers relationship
queries.

The SQLite database is replaced by an immutable `Db.Store`. It holds three
AUTOINCREMENT tables. Each table maps an integer key to a row and records the
largest key its sequence has handed out. Every SELECT the classes issue
becomes a pure function over the store:

- a filter on a foreign key;
- a DISTINCT inner join;
- a join grouped by author and kept when the group has more than two articles.

SQL `=` is modelled with NULL semantics (`Db.SqlEquals`): a `None` key
matches no row. Foreign keys are not enforced on the connections that save
rows, so article rows may hold NULL or dangling author and magazine keys.

Python's dynamic typing becomes `Values.Value = Str(s) | Other`. Raised
exceptions become `Values.Result` with `TypeErr | ValueErr | AttrErr`. A
setter that raises leaves the object as it was; `Result.GetOr(prior)` is the
object after the statement. Saving returns the new store together with the
saved entity, because `save()` mutates both the database and the instance's
key.

Files and modules:

| file | module | models |
|---|---|---|
| values.dfy | `Values` | `Option`, `Result`, `Value`, text validation, one-shot assignment |
| lists.dfy | `Lists` | order-preserving de-duplication (`topic_areas`) |
| store.dfy | `Db` | the tables, insert/update, the well-formedness invariant, the SELECTs |
| author.dfy | `Authors` | `lib/author.py` minus its relationship methods |
| magazine.dfy | `Magazines` | `lib/magazine.py` minus its relationship methods |
| article.dfy | `Articles` | `lib/article.py` |
| author_queries.dfy | `AuthorQueries` | `Author.articles`, `magazines`, `topic_areas`, `add_article` |
| magazine_queries.dfy | `MagazineQueries` | `Magazine.articles`, `contributors`, `article_titles`, `contributing_authors` |

The relationship methods sit in their own modules because the Python
classes import each other lazily, inside method bodies, and Dafny modules
cannot import each other in a cycle.

`Db.WellFormed` is the store invariant. Every key lies between 1 and the
table's sequence value, and every NOT NULL text column is non-empty. `Empty`
establishes it, and every `Save` keeps it when the saved entity came from a
constructor. Most relationship lemmas assume it.

Three behaviours of the code are easy to miss:

- Reconstruction from a row does not bypass validation. `new_from_db` calls
  the constructor (lib/author.py:48, lib/magazine.py:62, lib/article.py:65),
  so a stored empty text would raise `ValueError`. `FromRow` and `FindById`
  therefore return a `Result`. They never fail on a well-formed store.
- Saving an article whose author or magazine has no key yet is not refused.
  The NULL key is written as it is (lib/article.py:88-89).
- Saving an article whose author or magazine reference is `None` raises
  `AttributeError`, because `save()` reads `.id` of `None`
  (lib/article.py:89, 96). Reconstruction produces such an article when a
  stored key dangles.

## Model

| member | source | states |
|---|---|---|
| Values.CheckText | lib/magazine.py:28-36 | a non-string is rejected with TypeError and "" with ValueError (type checked first); any other string is accepted verbatim |
| Values.AssignOnce | lib/author.py:25-38 | a slot already holding a value rejects every assignment with AttributeError, even a non-string, because the guard runs before validation; an unset slot accepts exactly the non-empty strings, verbatim |
| Lists.Unique | lib/author.py:137-142 | the de-duplicated list has no repeated element, holds exactly the input's elements, and keeps them in order of first occurrence |
| Db.Empty | lib/database_utils.py:12-38 | the freshly created database has three empty tables and satisfies the store invariant |
| Db.Insert | lib/author.py:73-78 | the inserted row gets a key no existing row has; the table grows by exactly one row; every other row is untouched |
| Db.Update | lib/author.py:80-85 | an update keyed by an existing key rewrites only that row; a key with no row changes nothing; the key set never changes |
| Db.ArticlesByAuthor | lib/author.py:97 | the selected keys are exactly the article rows whose author key equals the given key under SQL equality, each once; a `None` key selects nothing |
| Db.ArticlesInMagazine | lib/magazine.py:109 | the selected keys are exactly the article rows whose magazine key equals the given key under SQL equality, each once; a `None` key selects nothing |
| Db.MagazinesOfAuthor | lib/author.py:110-114 | the join yields exactly the existing magazines with at least one article row by the author, each once |
| Db.AuthorsOfMagazine | lib/magazine.py:122-126 | the join yields exactly the existing authors with at least one article row in the magazine, each once |
| Db.ProlificAuthors | lib/magazine.py:150-156 | the grouped join yields exactly the existing authors whose group of articles in the magazine has more than two members, each once |
| Db.GroupMeansJoin | lib/magazine.py:151-155 | an author's group of articles in a magazine is non-empty exactly when some article row joins the author to the magazine |
| Authors.New | lib/author.py:5-38 | construction succeeds exactly for a non-empty string name, kept verbatim with the given key; a non-string raises TypeError, "" raises ValueError |
| Authors.SetName | lib/author.py:25-28 | reassigning the name of a constructed author always raises AttributeError, whatever the value, and the name stays as it was |
| Authors.FromRow | lib/author.py:42-48 | rebuilding from row k gives key k and the stored name; only an empty stored name fails, with ValueError |
| Authors.FindById | lib/author.py:52-64 | a `None` key or a key with no row yields `None` without failing; a found author is the stored row's; on a well-formed store the lookup never fails |
| Authors.LoadAll | lib/magazine.py:127-131 | rebuilding a list of author rows succeeds exactly when every stored name is non-empty, and yields one author per row, in row order |
| Authors.Save | lib/author.py:67-86 | with no key: one new row under a fresh key, which the author adopts; with a key: that row is rewritten in place, the key and the row count stay, and other tables never change |
| Authors.SaveThenFind | tests/test_all.py:40-50 | after saving, finding by the author's key returns an author with that key and the same name |
| Authors.ResaveIsIdempotent | lib/author.py:80-86 | saving an already saved author again leaves the store and the author unchanged |
| Magazines.New | lib/magazine.py:5-14 | construction succeeds exactly when both name and category are non-empty strings; the name's error is reported before the category's |
| Magazines.SetName | lib/magazine.py:27-36 | the name stays reassignable and is set exactly to a non-empty string; otherwise TypeError or ValueError and the old name stays; key and category never change |
| Magazines.SetCategory | lib/magazine.py:44-53 | the category stays reassignable and is set exactly to a non-empty string; otherwise TypeError or ValueError and the old category stays; key and name never change |
| Magazines.FromRow | lib/magazine.py:57-62 | rebuilding from row k gives key k and the stored name and category; only an empty stored text fails, with ValueError |
| Magazines.FindById | lib/magazine.py:66-78 | a `None` key or a key with no row yields `None` without failing; a found magazine is the stored row's; on a well-formed store the lookup never fails |
| Magazines.LoadAll | lib/author.py:116-120 | rebuilding a list of magazine rows succeeds exactly when every stored text is non-empty, and yields one magazine per row, in row order |
| Magazines.Save | lib/magazine.py:81-98 | with no key: one new row under a fresh key, which the magazine adopts; with a key: both columns of that row are rewritten in place, the key and the row count stay |
| Magazines.SaveThenFind | tests/test_all.py:71-81 | after saving, finding by the magazine's key returns that key with the same name and category |
| Magazines.RenameAfterSave | tests/test_all.py:83-90 | a saved magazine renamed, recategorised and saved again keeps its key and the table keeps its size; finding it returns the new name and category |
| Articles.New | lib/article.py:7-12 | construction succeeds exactly for a non-empty string title; the author and magazine are kept exactly as passed, with no check of their state |
| Articles.SetTitle | lib/article.py:24-27 | reassigning the title of a constructed article always raises AttributeError, whatever the value, and the title stays as it was |
| Articles.FromRow | lib/article.py:49-65 | rebuilding keeps the key and title; each reference is the author or magazine stored under the row's foreign key, or `None` when that key is NULL or has no row |
| Articles.FindById | lib/article.py:69-79 | a `None` key or a key with no row yields `None` without failing; a present key yields the rebuilt article or a ValueError, and on a well-formed store always the rebuilt article |
| Articles.LoadAll | lib/author.py:98-103 | on a well-formed store, rebuilding a list of article rows succeeds and yields one rebuilt article per row, in row order |
| Articles.Save | lib/article.py:82-97 | a `None` author or magazine raises AttributeError; otherwise the row written holds the title and the keys held by the article's author and magazine values (NULL for an unsaved one); with no key it is a new row under a fresh key, and with a key that row is rewritten in place |
| Articles.SaveThenFind | tests/test_all.py:111-128 | after saving, finding by the article's key returns the same title, and an author and magazine carrying the keys that were written, whenever those keys have rows |
| Articles.DanglingAuthorBlocksResave | lib/article.py:61-65 | an article whose stored author key is NULL or dangling is rebuilt with a `None` author, and saving it raises AttributeError |
| AuthorQueries.ArticlesOf | lib/author.py:93-103 | on a well-formed store the listing never fails; an author with no key gets the empty list |
| AuthorQueries.ArticlesOfExact | lib/author.py:97-103 | an article is listed exactly when it is the rebuilt form of a row whose author key equals the author's key; no article is listed twice |
| AuthorQueries.NullAuthorNeverListed | lib/article.py:86-89 | an article saved while its author had no key is listed by no author, including one whose own key is `None` |
| AuthorQueries.MagazinesOf | lib/author.py:106-120 | on a well-formed store the listing of the author's magazines never fails |
| AuthorQueries.MagazinesOfExact | lib/author.py:110-114 | a magazine is listed exactly when it is stored and has at least one article by the author; no magazine is listed twice |
| AuthorQueries.TopicAreas | lib/author.py:133-142 | the topic areas have no duplicates, are exactly the categories of the author's magazines, and follow the order in which each category is first seen |
| AuthorQueries.TopicAreasExact | tests/test_all.py:180-182 | a category is a topic area exactly when some stored magazine the author wrote for has it |
| AuthorQueries.AddArticle | lib/author.py:123-130 | succeeds exactly for a valid title and a present magazine; the result is saved (has a key), has this author and that magazine, and its new row holds their keys |
| MagazineQueries.ArticlesOf | lib/magazine.py:105-115 | on a well-formed store the listing never fails; a magazine with no key gets the empty list |
| MagazineQueries.ArticlesOfExact | lib/magazine.py:109-115 | an article is listed exactly when it is the rebuilt form of a row whose magazine key equals the magazine's key; no article is listed twice |
| MagazineQueries.ArticleTitles | lib/magazine.py:134-143 | one title per row of the magazine's article filter, and nothing for a magazine with no key; it never fails |
| MagazineQueries.TitlesMatchArticles | lib/magazine.py:138-143 | whenever the article listing succeeds, the title listing equals the titles of the listed articles, in the same order |
| MagazineQueries.Contributors | lib/magazine.py:118-131 | on a well-formed store the contributor listing never fails |
| MagazineQueries.ContributorsExact | lib/magazine.py:122-126 | an author is listed exactly when it is stored and has at least one article in the magazine; no author is listed twice |
| MagazineQueries.ContributingAuthors | lib/magazine.py:146-161 | on a well-formed store the listing of contributing authors never fails |
| MagazineQueries.ContributingAuthorsExact | lib/magazine.py:150-156 | an author is listed exactly when it is stored and has strictly more than two articles in the magazine, and no author is listed twice |
| MagazineQueries.ContributingAreContributors | lib/magazine.py:150-156 | every contributing author is also a contributor |
| MagazineQueries.InsertGrowsGroup | lib/magazine.py:154-155 | saving a new article by an author in a magazine adds exactly its key to that author's group for the magazine, so the count rises by one |
| MagazineQueries.ThirdArticleQualifies | tests/test_all.py:195-201 | an author with two articles in a magazine is not a contributing author, and saving a third article by them there makes them one |

## Left out

- Connection handling (opening, cursors, commit, close), `create_tables` and
  the table listing in `debug.py`: the store is given, created empty by
  `Db.Empty`.
- Storage failures (SQLite errors, the AUTOINCREMENT limit of 2^63 - 1 keys)
  are not modelled: every modelled statement succeeds.
- The `print` calls in every `save()` and the `__repr__` methods: output only.
- The `id`, `name`, `category`, `title`, `author` and `magazine` getters are
  plain field reads of the datatypes.
- Result order of the unordered SELECTs: every query returns rows in
  ascending key order. That is the order of a full scan of a rowid table.
  The join queries promise no order, and no lemma depends on one except the
  first-seen order of `topic_areas` relative to its input.
- Articles.Save: the keys written are those held in the article's own
  copies of its author and magazine, not the live `.id` of shared Python
  objects (lib/article.py:89, 96). An `Article` holds its author and magazine
  as values, so an author saved after an article referring to it was built
  is not seen by the article, where Python would write the author's new key.
  Saving the author and magazine before building the article, as every test
  does (tests/test_all.py:112-118, 155-170), gives the same rows in both.
- Arguments of other shapes are not modelled. `find_by_id` takes only a
  non-negative integer key or `None`. An article's author and magazine are
  only `Author`/`Magazine` values or `None`.
