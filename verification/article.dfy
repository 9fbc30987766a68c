/** The `Article` entity: construction with a one-shot title and references
    to an author and a magazine, reconstruction that resolves both references
    by key, lookup by key, and insert-or-update persistence of the title and
    the two foreign keys. */
module Articles {
  import opened Values
  import opened Db
  import Authors
  import Magazines

  /** An `Article` instance: its key (`None` until first saved), its title,
      and the author and magazine it refers to. Either reference is `None`
      when reconstruction found no row for the stored foreign key. */
  datatype Article = Article(
    id: Option<nat>,
    title: string,
    author: Option<Authors.Author>,
    magazine: Option<Magazines.Magazine>)

  /** `Article(title, author, magazine, id)`: the title slot starts unset and
      the one-shot setter validates the title; the author and magazine are
      kept as given, with no check of their state. */
  function New(title: Value, author: Option<Authors.Author>, magazine: Option<Magazines.Magazine>,
               id: Option<nat>): (r: Result<Article>)
    ensures r.Success? <==> IsText(title)
    ensures r.Success? ==> r.value.id == id && r.value.title == title.s
    ensures r.Success? ==> r.value.author == author && r.value.magazine == magazine
    ensures title.Other? ==> r == Failure(TypeErr)
    ensures title == Str("") ==> r == Failure(ValueErr)
  {
    match AssignOnce(None, title)
    case Success(t) => Success(Article(id, t, author, magazine))
    case Failure(e) => Failure(e)
  }

  /** `article.title = v` on a constructed article: the title is already set,
      so the assignment raises `AttributeError` whatever `v` is. There is no
      setter at all for the author or the magazine. */
  function SetTitle(ar: Article, v: Value): (r: Result<Article>)
    ensures r == Failure(AttrErr)
    ensures r.GetOr(ar).title == ar.title
  {
    match AssignOnce(Some(ar.title), v)
    case Success(t) => Success(ar.(title := t))
    case Failure(e) => Failure(e)
  }

  /** The article reconstructed from row `k`: each foreign key resolved the
      way the author and magazine lookups resolve it. */
  function Stored(st: Store, k: nat): Article
    requires k in st.articles.rows
  {
    var row := st.articles.rows[k];
    Article(Some(k), row.title, Authors.Resolve(st, row.authorId), Magazines.Resolve(st, row.magazineId))
  }

  /** `Article.new_from_db` on a present row: look up the author, then the
      magazine, by the stored keys, then run the constructor (which validates
      the stored title again). A NULL or dangling key gives a `None` reference. */
  function FromRow(st: Store, k: nat, row: ArticleRow): (r: Result<Article>)
    ensures r.Success? ==>
      r.value == Article(Some(k), row.title, Authors.Resolve(st, row.authorId), Magazines.Resolve(st, row.magazineId))
    ensures r.Success? ==>
      (r.value.author.Some? <==> row.authorId.Some? && row.authorId.value in st.authors.rows)
    ensures r.Success? ==>
      (r.value.magazine.Some? <==> row.magazineId.Some? && row.magazineId.value in st.magazines.rows)
    ensures WellFormed(st) ==> (r.Success? <==> row.title != "")
    ensures r.Failure? ==> r.error == ValueErr
  {
    match Authors.FindById(st, row.authorId)
    case Failure(e) => Failure(e)
    case Success(author) =>
      match Magazines.FindById(st, row.magazineId)
      case Failure(e) => Failure(e)
      case Success(magazine) => New(Str(row.title), author, magazine, Some(k))
  }

  /** `Article.find_by_id(id)`: a primary-key lookup; a key with no row, or a
      `None` key, yields `None` without failing. */
  function FindById(st: Store, id: Option<nat>): (r: Result<Option<Article>>)
    ensures id.None? || id.value !in st.articles.rows ==> r == Success(None)
    ensures r.Success? && r.value.Some? ==>
      id.Some? && id.value in st.articles.rows && r.value.value == Stored(st, id.value)
    ensures r.Success? && id.Some? && id.value in st.articles.rows ==> r.value.Some?
    ensures WellFormed(st) && id.Some? && id.value in st.articles.rows ==>
      r == Success(Some(Stored(st, id.value)))
    ensures r.Failure? ==> r.error == ValueErr
  {
    if id.Some? && id.value in st.articles.rows then
      match FromRow(st, id.value, st.articles.rows[id.value])
      case Success(ar) => Success(Some(ar))
      case Failure(e) => Failure(e)
    else
      Success(None)
  }

  /** Rebuilding every selected article row, in order, as the relationship
      methods do: the first row that fails reconstruction raises. */
  function LoadAll(st: Store, ks: seq<nat>): (r: Result<seq<Article>>)
    requires forall i :: 0 <= i < |ks| ==> ks[i] in st.articles.rows
    ensures r.Success? ==> |r.value| == |ks| && forall i :: 0 <= i < |ks| ==> r.value[i] == Stored(st, ks[i])
    ensures WellFormed(st) ==> r.Success?
    ensures r.Failure? ==> r.error == ValueErr
  {
    if |ks| == 0 then Success([])
    else
      match FromRow(st, ks[0], st.articles.rows[ks[0]])
      case Failure(e) => Failure(e)
      case Success(ar) =>
        match LoadAll(st, ks[1..])
        case Failure(e) => Failure(e)
        case Success(rest) => Success([ar] + rest)
  }

  /** The row `save()` writes: the title and the keys the referenced author
      and magazine hold at the time of the call. */
  function RowOf(ar: Article): ArticleRow
    requires ar.author.Some? && ar.magazine.Some?
  {
    ArticleRow(ar.title, ar.author.value.id, ar.magazine.value.id)
  }

  /** `article.save()`. Reading the key of a `None` author or magazine raises
      `AttributeError` before any statement runs. Otherwise, with no key,
      INSERT the row and adopt the new key; with a key, UPDATE the title and
      both foreign keys of the row with that key. An author or magazine that
      was never saved contributes a NULL foreign key: nothing checks it. */
  function Save(st: Store, ar: Article): (r: Result<(Store, Article)>)
    ensures r.Success? <==> ar.author.Some? && ar.magazine.Some?
    ensures r.Failure? ==> r.error == AttrErr
    ensures r.Success? ==> r.value.0.authors == st.authors && r.value.0.magazines == st.magazines
    ensures r.Success? ==>
      var (st', ar') := r.value;
      && ar'.id.Some? && ar'.title == ar.title && ar'.author == ar.author && ar'.magazine == ar.magazine
      && (ar.id.None? ==>
            st'.articles.rows == st.articles.rows[ar'.id.value := ArticleRow(ar.title, ar.author.value.id, ar.magazine.value.id)])
      && (ar.id.None? && WellFormed(st) ==>
            ar'.id.value !in st.articles.rows && |st'.articles.rows| == |st.articles.rows| + 1)
      && (ar.id.Some? ==> ar' == ar && st'.articles.rows.Keys == st.articles.rows.Keys)
      && (ar.id.Some? ==> forall j :: j in st.articles.rows && j != ar.id.value ==>
            st'.articles.rows[j] == st.articles.rows[j])
      && (ar.id.Some? && ar.id.value in st.articles.rows ==>
            st'.articles.rows[ar.id.value] == ArticleRow(ar.title, ar.author.value.id, ar.magazine.value.id))
      && (WellFormed(st) && ar.title != "" ==> WellFormed(st'))
  {
    if ar.author.None? || ar.magazine.None? then Failure(AttrErr)
    else if ar.id.None? then
      var (t, k) := Insert(st.articles, RowOf(ar));
      Success((st.(articles := t), ar.(id := Some(k))))
    else
      Success((st.(articles := Update(st.articles, ar.id.value, RowOf(ar))), ar))
  }

  /** After `save()`, `find_by_id` of the article's key gives back its key and
      title, and references carrying the author's and magazine's keys as they
      were at save time, whenever those keys have rows; otherwise `None`.
      The proof is carried by the contracts of `Save` and `FindById`. */
  lemma SaveThenFind(st: Store, ar: Article)
    requires WellFormed(st) && ar.title != ""
    requires ar.author.Some? && ar.magazine.Some?
    requires ar.id.None? || ar.id.value in st.articles.rows
    ensures Save(st, ar).Success?
    ensures var (st', ar') := Save(st, ar).value;
            var found := FindById(st', ar'.id);
            var aid := ar.author.value.id;
            var mid := ar.magazine.value.id;
            && found.Success? && found.value.Some?
            && found.value.value.id == ar'.id && found.value.value.title == ar.title
            && (found.value.value.author.Some? <==> aid.Some? && aid.value in st.authors.rows)
            && (found.value.value.author.Some? ==> found.value.value.author.value.id == aid)
            && (found.value.value.magazine.Some? <==> mid.Some? && mid.value in st.magazines.rows)
            && (found.value.value.magazine.Some? ==> found.value.value.magazine.value.id == mid)
  {
  }

  /** An article whose stored author key has no row comes back with a `None`
      author, and saving that reconstructed article raises `AttributeError`. */
  lemma DanglingAuthorBlocksResave(st: Store, k: nat)
    requires WellFormed(st) && k in st.articles.rows
    requires var aid := st.articles.rows[k].authorId; aid.None? || aid.value !in st.authors.rows
    ensures FindById(st, Some(k)).Success? && FindById(st, Some(k)).value.Some?
    ensures FindById(st, Some(k)).value.value.author.None?
    ensures Save(st, FindById(st, Some(k)).value.value) == Failure(AttrErr)
  {
  }
}
