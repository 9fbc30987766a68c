/** The relationship methods of `Magazine`: its articles, their titles, its
    contributors, and the authors with more than two articles in it. */
module MagazineQueries {
  import opened Values
  import opened Db
  import Authors
  import Magazines
  import Articles

  /** `magazine.articles()`: every article row whose magazine key equals this
      magazine's key, each reconstructed. */
  function ArticlesOf(st: Store, m: Magazines.Magazine): (r: Result<seq<Articles.Article>>)
    ensures WellFormed(st) ==> r.Success?
    ensures m.id.None? ==> r == Success([])
    ensures r.Failure? ==> r.error == ValueErr
  {
    Articles.LoadAll(st, ArticlesInMagazine(st, m.id))
  }

  /** On a well-formed store, `articles()` holds exactly the reconstructions
      of the article rows whose magazine key equals the magazine's key, each once.
      The proof is carried by the contracts of `Db.ArticlesInMagazine` and
      `Articles.LoadAll`. */
  lemma ArticlesOfExact(st: Store, m: Magazines.Magazine, x: Articles.Article)
    requires WellFormed(st)
    ensures x in ArticlesOf(st, m).value <==>
      && x.id.Some? && x.id.value in st.articles.rows
      && SqlEquals(st.articles.rows[x.id.value].magazineId, m.id)
      && x == Articles.Stored(st, x.id.value)
    ensures forall i, j :: 0 <= i < j < |ArticlesOf(st, m).value| ==>
      ArticlesOf(st, m).value[i].id != ArticlesOf(st, m).value[j].id
  {
  }

  /** The titles of a list of articles, in list order. */
  function Titles(xs: seq<Articles.Article>): (ts: seq<string>)
    ensures |ts| == |xs| && forall i :: 0 <= i < |xs| ==> ts[i] == xs[i].title
  {
    seq(|xs|, i requires 0 <= i < |xs| => xs[i].title)
  }

  /** `magazine.article_titles()`: the `title` column of the rows the
      `articles()` filter selects. It reconstructs nothing, so it cannot fail. */
  function ArticleTitles(st: Store, m: Magazines.Magazine): (r: seq<string>)
    ensures m.id.None? ==> r == []
    ensures |r| == |ArticlesInMagazine(st, m.id)|
  {
    var ks := ArticlesInMagazine(st, m.id);
    seq(|ks|, i requires 0 <= i < |ks| => st.articles.rows[ks[i]].title)
  }

  /** `article_titles()` lists, in the same order, the titles of the articles
      `articles()` returns, whenever `articles()` succeeds: the two share one
      filter.
      The proof is carried by the contracts of `ArticleTitles`, `Titles` and
      `Articles.LoadAll`. */
  lemma TitlesMatchArticles(st: Store, m: Magazines.Magazine)
    requires ArticlesOf(st, m).Success?
    ensures ArticleTitles(st, m) == Titles(ArticlesOf(st, m).value)
  {
  }

  /** `magazine.contributors()`: each author joined to at least one article
      in this magazine, reconstructed, once. */
  function Contributors(st: Store, m: Magazines.Magazine): (r: Result<seq<Authors.Author>>)
    ensures WellFormed(st) ==> r.Success?
    ensures r.Failure? ==> r.error == ValueErr
  {
    Authors.LoadAll(st, AuthorsOfMagazine(st, m.id))
  }

  /** On a well-formed store, `contributors()` holds exactly the authors with
      at least one article in the magazine, each once.
      The proof is carried by the contracts of `Db.AuthorsOfMagazine` and
      `Authors.LoadAll`. */
  lemma ContributorsExact(st: Store, m: Magazines.Magazine, a: Authors.Author)
    requires WellFormed(st)
    ensures a in Contributors(st, m).value <==>
      && a.id.Some? && a.id.value in st.authors.rows
      && Wrote(st, a.id, m.id)
      && a == Authors.Stored(st, a.id.value)
    ensures forall i, j :: 0 <= i < j < |Contributors(st, m).value| ==>
      Contributors(st, m).value[i].id != Contributors(st, m).value[j].id
  {
  }

  /** `magazine.contributing_authors()`: the authors with strictly more than
      two articles in this magazine, reconstructed, once each. */
  function ContributingAuthors(st: Store, m: Magazines.Magazine): (r: Result<seq<Authors.Author>>)
    ensures WellFormed(st) ==> r.Success?
    ensures r.Failure? ==> r.error == ValueErr
  {
    Authors.LoadAll(st, ProlificAuthors(st, m.id))
  }

  /** On a well-formed store, `contributing_authors()` holds exactly the
      authors whose article count in the magazine exceeds two, each once.
      The proof is carried by the contracts of `Db.ProlificAuthors` and
      `Authors.LoadAll`. */
  lemma ContributingAuthorsExact(st: Store, m: Magazines.Magazine, a: Authors.Author)
    requires WellFormed(st)
    ensures a in ContributingAuthors(st, m).value <==>
      && a.id.Some? && a.id.value in st.authors.rows
      && |ArticlesOfIn(st, a.id.value, m.id)| > 2
      && a == Authors.Stored(st, a.id.value)
    ensures forall i, j :: 0 <= i < j < |ContributingAuthors(st, m).value| ==>
      ContributingAuthors(st, m).value[i].id != ContributingAuthors(st, m).value[j].id
  {
  }

  /** Every contributing author is a contributor.
      The proof is carried by the contracts of `Db.ProlificAuthors`,
      `Db.GroupMeansJoin` and `Db.AuthorsOfMagazine`. */
  lemma ContributingAreContributors(st: Store, m: Magazines.Magazine, a: Authors.Author)
    requires WellFormed(st)
    requires a in ContributingAuthors(st, m).value
    ensures a in Contributors(st, m).value
  {
  }

  /** Inserting an article by author `k` in magazine `mid` adds exactly the
      new key to that author's group for the magazine.
      The proof is carried by the contract of `Articles.Save` and the
      definition of `Db.ArticlesOfIn`. */
  lemma InsertGrowsGroup(st: Store, ar: Articles.Article, k: nat, mid: nat)
    requires WellFormed(st) && ar.id.None?
    requires ar.author.Some? && ar.author.value.id == Some(k)
    requires ar.magazine.Some? && ar.magazine.value.id == Some(mid)
    ensures var (st', ar') := Articles.Save(st, ar).value;
            ArticlesOfIn(st', k, Some(mid)) == ArticlesOfIn(st, k, Some(mid)) + {ar'.id.value}
    ensures var (st', ar') := Articles.Save(st, ar).value;
            |ArticlesOfIn(st', k, Some(mid))| == |ArticlesOfIn(st, k, Some(mid))| + 1
  {
  }

  /** An author with two articles in a magazine does not qualify as a
      contributing author; saving a third article by them in it makes them
      qualify. */
  lemma ThirdArticleQualifies(st: Store, ar: Articles.Article, k: nat, m: Magazines.Magazine)
    requires WellFormed(st) && ar.id.None? && ar.title != ""
    requires k in st.authors.rows
    requires ar.author.Some? && ar.author.value.id == Some(k)
    requires ar.magazine == Some(m) && m.id.Some?
    requires |ArticlesOfIn(st, k, m.id)| == 2
    ensures Authors.Stored(st, k) !in ContributingAuthors(st, m).value
    ensures var (st', ar') := Articles.Save(st, ar).value;
            Authors.Stored(st', k) in ContributingAuthors(st', m).value
  {
    ContributingAuthorsExact(st, m, Authors.Stored(st, k));
    var (st', ar') := Articles.Save(st, ar).value;
    InsertGrowsGroup(st, ar, k, m.id.value);
    ContributingAuthorsExact(st', m, Authors.Stored(st', k));
  }
}
