/** The relationship methods of `Author`: its articles, the magazines it has
    written for, their categories, and adding an article. They live apart
    from `Authors` because they build `Article` and `Magazine` values. */
module AuthorQueries {
  import opened Values
  import opened Db
  import opened Lists
  import Authors
  import Magazines
  import Articles

  /** `author.articles()`: every article row whose author key equals this
      author's key, each reconstructed. */
  function ArticlesOf(st: Store, a: Authors.Author): (r: Result<seq<Articles.Article>>)
    ensures WellFormed(st) ==> r.Success?
    ensures a.id.None? ==> r == Success([])
    ensures r.Failure? ==> r.error == ValueErr
  {
    Articles.LoadAll(st, ArticlesByAuthor(st, a.id))
  }

  /** On a well-formed store, `articles()` holds exactly the reconstructions
      of the article rows whose author key equals the author's key, each once.
      The proof is carried by the contracts of `Db.ArticlesByAuthor` and
      `Articles.LoadAll`. */
  lemma ArticlesOfExact(st: Store, a: Authors.Author, x: Articles.Article)
    requires WellFormed(st)
    ensures x in ArticlesOf(st, a).value <==>
      && x.id.Some? && x.id.value in st.articles.rows
      && SqlEquals(st.articles.rows[x.id.value].authorId, a.id)
      && x == Articles.Stored(st, x.id.value)
    ensures forall i, j :: 0 <= i < j < |ArticlesOf(st, a).value| ==>
      ArticlesOf(st, a).value[i].id != ArticlesOf(st, a).value[j].id
  {
  }

  /** An article saved while its author had no key stores a NULL author key,
      and so appears in no author's `articles()`, not even one whose key is
      also `None`.
      The proof is carried by the contracts of `Articles.Save` and
      `Db.ArticlesByAuthor`. */
  lemma NullAuthorNeverListed(st: Store, ar: Articles.Article, a: Authors.Author)
    requires ar.author.Some? && ar.author.value.id.None? && ar.magazine.Some?
    requires ar.id.None?
    ensures Articles.Save(st, ar).Success?
    ensures var (st', ar') := Articles.Save(st, ar).value;
            ArticlesOf(st', a).Success? ==> forall x :: x in ArticlesOf(st', a).value ==> x.id != ar'.id
  {
  }

  /** `author.magazines()`: each magazine joined to at least one of this
      author's articles, reconstructed, once. */
  function MagazinesOf(st: Store, a: Authors.Author): (r: Result<seq<Magazines.Magazine>>)
    ensures WellFormed(st) ==> r.Success?
    ensures r.Failure? ==> r.error == ValueErr
  {
    Magazines.LoadAll(st, MagazinesOfAuthor(st, a.id))
  }

  /** On a well-formed store, `magazines()` holds exactly the magazines with
      at least one article by the author, each once.
      The proof is carried by the contracts of `Db.MagazinesOfAuthor` and
      `Magazines.LoadAll`. */
  lemma MagazinesOfExact(st: Store, a: Authors.Author, m: Magazines.Magazine)
    requires WellFormed(st)
    ensures m in MagazinesOf(st, a).value <==>
      && m.id.Some? && m.id.value in st.magazines.rows
      && Wrote(st, a.id, m.id)
      && m == Magazines.Stored(st, m.id.value)
    ensures forall i, j :: 0 <= i < j < |MagazinesOf(st, a).value| ==>
      MagazinesOf(st, a).value[i].id != MagazinesOf(st, a).value[j].id
  {
  }

  /** The categories of a list of magazines, in list order. */
  function Categories(ms: seq<Magazines.Magazine>): (cs: seq<string>)
    ensures |cs| == |ms| && forall i :: 0 <= i < |ms| ==> cs[i] == ms[i].category
  {
    seq(|ms|, i requires 0 <= i < |ms| => ms[i].category)
  }

  /** `author.topic_areas()`: the categories of `magazines()`, without
      duplicates, each where it is first seen. */
  function TopicAreas(st: Store, a: Authors.Author): (r: Result<seq<string>>)
    ensures r.Success? <==> MagazinesOf(st, a).Success?
    ensures r.Success? ==> Distinct(r.value)
    ensures r.Success? ==> forall c :: c in r.value <==> c in Categories(MagazinesOf(st, a).value)
    ensures r.Success? ==> forall i, j :: 0 <= i < j < |r.value| ==>
      var cs := Categories(MagazinesOf(st, a).value);
      FirstIndex(cs, r.value[i]) < FirstIndex(cs, r.value[j])
  {
    match MagazinesOf(st, a)
    case Failure(e) => Failure(e)
    case Success(ms) => Success(Unique(Categories(ms)))
  }

  /** On a well-formed store, a category is a topic area of the author
      exactly when some magazine the author wrote for has that category.
      The proof is carried by the contracts of `TopicAreas` and
      `MagazinesOfExact`. */
  lemma TopicAreasExact(st: Store, a: Authors.Author, c: string)
    requires WellFormed(st)
    ensures c in TopicAreas(st, a).value <==>
      exists k :: k in st.magazines.rows && Wrote(st, a.id, Some(k)) && st.magazines.rows[k].category == c
  {
  }

  /** `author.add_article(title, magazine)`: construct an article by this
      author in `magazine` and save it. An invalid title fails in the
      constructor; a `None` magazine fails when `save()` reads its key. */
  function AddArticle(st: Store, a: Authors.Author, title: Value, magazine: Option<Magazines.Magazine>)
    : (r: Result<(Store, Articles.Article)>)
    ensures r.Success? <==> IsText(title) && magazine.Some?
    ensures title.Other? ==> r == Failure(TypeErr)
    ensures title == Str("") ==> r == Failure(ValueErr)
    ensures IsText(title) && magazine.None? ==> r == Failure(AttrErr)
    ensures r.Success? ==>
      var (st', ar) := r.value;
      && ar.id.Some? && ar.title == title.s && ar.author == Some(a) && ar.magazine == magazine
      && st'.articles.rows == st.articles.rows[ar.id.value := ArticleRow(title.s, a.id, magazine.value.id)]
      && (WellFormed(st) ==> ar.id.value !in st.articles.rows && WellFormed(st'))
  {
    match Articles.New(title, Some(a), magazine, None)
    case Failure(e) => Failure(e)
    case Success(ar) => Articles.Save(st, ar)
  }
}
