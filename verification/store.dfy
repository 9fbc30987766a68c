/** The relational store the three entity classes share, in place of the
    SQLite database: three tables, each a map from an AUTOINCREMENT integer
    key to a row, and the parameterised SELECTs the entities issue, as pure
    functions over those tables.

    Foreign keys are not enforced (only the schema-creating connection turns
    them on), so an article row may hold a NULL or dangling author or
    magazine key. */
module Db {
  import opened Values

  /** A row of `authors(id, name)`, without its key. */
  datatype AuthorRow = AuthorRow(name: string)

  /** A row of `magazines(id, name, category)`, without its key. */
  datatype MagazineRow = MagazineRow(name: string, category: string)

  /** A row of `articles(id, title, author_id, magazine_id)`, without its
      key; both foreign keys are nullable. */
  datatype ArticleRow = ArticleRow(title: string, authorId: Option<nat>, magazineId: Option<nat>)

  /** One AUTOINCREMENT table: its rows by key, and the largest key the
      table's sequence has handed out so far. */
  datatype Table<R> = Table(rows: map<nat, R>, last: nat)

  datatype Store = Store(authors: Table<AuthorRow>, magazines: Table<MagazineRow>, articles: Table<ArticleRow>)

  /** Every key was handed out by the table's sequence, which starts at 1. */
  predicate KeysIssued<R>(t: Table<R>) {
    forall k :: k in t.rows ==> 1 <= k <= t.last
  }

  /** The invariant of every store the entities can produce: keys come from
      the sequences, and every NOT NULL text column holds a non-empty string
      (the setters never let an empty one through). */
  predicate WellFormed(st: Store) {
    && KeysIssued(st.authors)
    && KeysIssued(st.magazines)
    && KeysIssued(st.articles)
    && (forall k :: k in st.authors.rows ==> st.authors.rows[k].name != "")
    && (forall k :: k in st.magazines.rows ==>
          st.magazines.rows[k].name != "" && st.magazines.rows[k].category != "")
    && (forall k :: k in st.articles.rows ==> st.articles.rows[k].title != "")
  }

  /** The freshly created database: three empty tables. */
  function Empty(): (st: Store)
    ensures WellFormed(st)
    ensures st.authors.rows == map[] && st.magazines.rows == map[] && st.articles.rows == map[]
  {
    Store(Table(map[], 0), Table(map[], 0), Table(map[], 0))
  }

  /** An INSERT followed by reading the cursor's last row id: the row is
      stored under the next key of the table's sequence. */
  function Insert<R>(t: Table<R>, row: R): (r: (Table<R>, nat))
    ensures r.1 >= 1
    ensures r.0.rows == t.rows[r.1 := row]
    ensures KeysIssued(t) ==> r.1 !in t.rows && |r.0.rows| == |t.rows| + 1
    ensures KeysIssued(t) ==> KeysIssued(r.0)
  {
    var k := t.last + 1;
    (Table(t.rows[k := row], k), k)
  }

  /** An UPDATE keyed by `k`: rewrites row `k` if there is one and changes
      nothing otherwise (an UPDATE that matches no row is not an error). */
  function Update<R>(t: Table<R>, k: nat, row: R): (r: Table<R>)
    ensures r.rows.Keys == t.rows.Keys && r.last == t.last
    ensures k in t.rows ==> r.rows[k] == row
    ensures forall j :: j in t.rows && j != k ==> r.rows[j] == t.rows[j]
    ensures KeysIssued(t) ==> KeysIssued(r)
  {
    if k in t.rows then t.(rows := t.rows[k := row]) else t
  }

  /** Keys strictly increasing, hence pairwise distinct. */
  ghost predicate Ascending(ks: seq<nat>) {
    forall i, j :: 0 <= i < j < |ks| ==> ks[i] < ks[j]
  }

  /** The keys among 1..n that `keep` selects, in increasing order. */
  function Scan(n: nat, keep: nat -> bool): (r: seq<nat>)
    ensures forall k :: k in r <==> 1 <= k <= n && keep(k)
    ensures Ascending(r)
  {
    if n == 0 then []
    else
      var earlier := Scan(n - 1, keep);
      assert forall i :: 0 <= i < |earlier| ==> earlier[i] in earlier;
      earlier + (if keep(n) then [n] else [])
  }

  /** A filtered SELECT on one table: the keys of the rows satisfying `p`, in
      key order, which is the order of a full scan of a rowid table. */
  function Where<R>(t: Table<R>, p: (nat, R) -> bool): (r: seq<nat>)
    ensures forall k :: k in r ==> k in t.rows && p(k, t.rows[k])
    ensures KeysIssued(t) ==> forall k :: k in t.rows && p(k, t.rows[k]) ==> k in r
    ensures Ascending(r)
  {
    Scan(t.last, (k: nat) => k in t.rows && p(k, t.rows[k]))
  }

  /** SQL `a = b` in a WHERE or ON clause: NULL equals nothing, not even NULL. */
  predicate SqlEquals(a: Option<nat>, b: Option<nat>) {
    a.Some? && b.Some? && a.value == b.value
  }

  /** The article row joins author key `aid` to magazine key `mid`. */
  predicate Links(row: ArticleRow, aid: Option<nat>, mid: Option<nat>) {
    SqlEquals(row.authorId, aid) && SqlEquals(row.magazineId, mid)
  }

  /** Some article row joins author key `aid` to magazine key `mid`. */
  predicate Wrote(st: Store, aid: Option<nat>, mid: Option<nat>) {
    exists j :: j in st.articles.rows && Links(st.articles.rows[j], aid, mid)
  }

  /** The keys of the articles by author `k` in magazine `mid`: the group
      that grouping the author-magazine join by author forms for `k`. */
  function ArticlesOfIn(st: Store, k: nat, mid: Option<nat>): set<nat> {
    set j | j in st.articles.rows && Links(st.articles.rows[j], Some(k), mid)
  }

  /** The articles whose author key equals `aid` under SQL equality. */
  function ArticlesByAuthor(st: Store, aid: Option<nat>): (r: seq<nat>)
    ensures forall k :: k in r ==> k in st.articles.rows && SqlEquals(st.articles.rows[k].authorId, aid)
    ensures WellFormed(st) ==>
      forall k :: k in st.articles.rows && SqlEquals(st.articles.rows[k].authorId, aid) ==> k in r
    ensures aid.None? ==> r == []
    ensures Ascending(r)
  {
    var r := Where(st.articles, (k: nat, row: ArticleRow) => SqlEquals(row.authorId, aid));
    assert |r| > 0 ==> r[0] in r;
    r
  }

  /** The articles whose magazine key equals `mid` under SQL equality (the
      filter of both the article listing and the title listing). */
  function ArticlesInMagazine(st: Store, mid: Option<nat>): (r: seq<nat>)
    ensures forall k :: k in r ==> k in st.articles.rows && SqlEquals(st.articles.rows[k].magazineId, mid)
    ensures WellFormed(st) ==>
      forall k :: k in st.articles.rows && SqlEquals(st.articles.rows[k].magazineId, mid) ==> k in r
    ensures mid.None? ==> r == []
    ensures Ascending(r)
  {
    var r := Where(st.articles, (k: nat, row: ArticleRow) => SqlEquals(row.magazineId, mid));
    assert |r| > 0 ==> r[0] in r;
    r
  }

  /** The inner join of magazines with the articles of author `aid`, made
      DISTINCT: each magazine with such an article, once. */
  function MagazinesOfAuthor(st: Store, aid: Option<nat>): (r: seq<nat>)
    ensures forall k :: k in r ==> k in st.magazines.rows && Wrote(st, aid, Some(k))
    ensures WellFormed(st) ==>
      forall k :: k in st.magazines.rows && Wrote(st, aid, Some(k)) ==> k in r
    ensures Ascending(r)
  {
    Where(st.magazines, (k: nat, row: MagazineRow) => Wrote(st, aid, Some(k)))
  }

  /** The inner join of authors with the articles in magazine `mid`, made
      DISTINCT: each author with such an article, once. */
  function AuthorsOfMagazine(st: Store, mid: Option<nat>): (r: seq<nat>)
    ensures forall k :: k in r ==> k in st.authors.rows && Wrote(st, Some(k), mid)
    ensures WellFormed(st) ==>
      forall k :: k in st.authors.rows && Wrote(st, Some(k), mid) ==> k in r
    ensures Ascending(r)
  {
    Where(st.authors, (k: nat, row: AuthorRow) => Wrote(st, Some(k), mid))
  }

  /** The same join grouped by author, keeping the groups of strictly more
      than two articles. */
  function ProlificAuthors(st: Store, mid: Option<nat>): (r: seq<nat>)
    ensures forall k :: k in r ==> k in st.authors.rows && |ArticlesOfIn(st, k, mid)| > 2
    ensures WellFormed(st) ==>
      forall k :: k in st.authors.rows && |ArticlesOfIn(st, k, mid)| > 2 ==> k in r
    ensures Ascending(r)
  {
    Where(st.authors, (k: nat, row: AuthorRow) => |ArticlesOfIn(st, k, mid)| > 2)
  }

  /** An author with a group of articles in a magazine has a join row there. */
  lemma GroupMeansJoin(st: Store, k: nat, mid: Option<nat>)
    ensures |ArticlesOfIn(st, k, mid)| > 0 <==> Wrote(st, Some(k), mid)
  {
    var g := ArticlesOfIn(st, k, mid);
    if |g| > 0 {
      var j :| j in g;
      assert j in st.articles.rows && Links(st.articles.rows[j], Some(k), mid);
    }
    if Wrote(st, Some(k), mid) {
      var j :| j in st.articles.rows && Links(st.articles.rows[j], Some(k), mid);
      assert j in g;
    }
  }
}
