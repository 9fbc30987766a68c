/** The `Author` entity: construction with a one-shot name, reconstruction
    from an `authors` row, lookup by key, and insert-or-update persistence. */
module Authors {
  import opened Values
  import opened Db

  /** An `Author` instance: its key (`None` until first saved) and its name. */
  datatype Author = Author(id: Option<nat>, name: string)

  /** `Author(name, id)`: the name slot starts unset, then the one-shot name
      setter runs, so the only failures are the validation ones. */
  function New(name: Value, id: Option<nat>): (r: Result<Author>)
    ensures r.Success? <==> IsText(name)
    ensures r.Success? ==> r.value == Author(id, name.s)
    ensures name.Other? ==> r == Failure(TypeErr)
    ensures name == Str("") ==> r == Failure(ValueErr)
  {
    match AssignOnce(None, name)
    case Success(n) => Success(Author(id, n))
    case Failure(e) => Failure(e)
  }

  /** `author.name = v` on a constructed author: the name is already set, so
      the assignment raises `AttributeError` whatever `v` is, and the author
      keeps its name. */
  function SetName(a: Author, v: Value): (r: Result<Author>)
    ensures r == Failure(AttrErr)
    ensures r.GetOr(a).name == a.name
  {
    match AssignOnce(Some(a.name), v)
    case Success(n) => Success(a.(name := n))
    case Failure(e) => Failure(e)
  }

  /** The author reconstructed from row `k`. */
  function Stored(st: Store, k: nat): Author
    requires k in st.authors.rows
  {
    Author(Some(k), st.authors.rows[k].name)
  }

  /** The author a lookup of `id` finds, if any: the reference meaning of
      `find_by_id` on a well-formed store. */
  function Resolve(st: Store, id: Option<nat>): Option<Author> {
    if id.Some? && id.value in st.authors.rows then Some(Stored(st, id.value)) else None
  }

  /** `Author.new_from_db` on a present row: it calls the constructor, so the
      stored name goes through the setter's validation again. */
  function FromRow(k: nat, row: AuthorRow): (r: Result<Author>)
    ensures r.Success? <==> row.name != ""
    ensures r.Success? ==> r.value == Author(Some(k), row.name)
    ensures r.Failure? ==> r.error == ValueErr
  {
    New(Str(row.name), Some(k))
  }

  /** `Author.find_by_id(id)`: a primary-key lookup. A key with no row, or a
      `None` key (SQL NULL matches no row), yields `None` without failing. */
  function FindById(st: Store, id: Option<nat>): (r: Result<Option<Author>>)
    ensures id.None? || id.value !in st.authors.rows ==> r == Success(None)
    ensures r.Success? ==> r.value == Resolve(st, id)
    ensures WellFormed(st) ==> r.Success?
    ensures r.Failure? ==> r.error == ValueErr
  {
    if id.Some? && id.value in st.authors.rows then
      match FromRow(id.value, st.authors.rows[id.value])
      case Success(a) => Success(Some(a))
      case Failure(e) => Failure(e)
    else
      Success(None)
  }

  /** Rebuilding every selected author row, in order, as the relationship
      methods do: the first row that fails reconstruction raises. */
  function LoadAll(st: Store, ks: seq<nat>): (r: Result<seq<Author>>)
    requires forall i :: 0 <= i < |ks| ==> ks[i] in st.authors.rows
    ensures r.Success? <==> forall i :: 0 <= i < |ks| ==> st.authors.rows[ks[i]].name != ""
    ensures r.Success? ==> |r.value| == |ks| && forall i :: 0 <= i < |ks| ==> r.value[i] == Stored(st, ks[i])
    ensures r.Failure? ==> r.error == ValueErr
  {
    if |ks| == 0 then Success([])
    else
      match FromRow(ks[0], st.authors.rows[ks[0]])
      case Failure(e) => Failure(e)
      case Success(a) =>
        match LoadAll(st, ks[1..])
        case Failure(e) => Failure(e)
        case Success(rest) => Success([a] + rest)
  }

  /** `author.save()`: with no key, INSERT the name and adopt the new row's
      key; with a key, UPDATE the row with that key (a key with no row makes
      the UPDATE match nothing). */
  function Save(st: Store, a: Author): (r: (Store, Author))
    ensures r.0.magazines == st.magazines && r.0.articles == st.articles
    ensures r.1.name == a.name && r.1.id.Some?
    ensures a.id.None? ==> r.0.authors.rows == st.authors.rows[r.1.id.value := AuthorRow(a.name)]
    ensures a.id.None? && WellFormed(st) ==>
      r.1.id.value !in st.authors.rows && |r.0.authors.rows| == |st.authors.rows| + 1
    ensures a.id.Some? ==> r.1 == a && r.0.authors.rows.Keys == st.authors.rows.Keys
    ensures a.id.Some? ==>
      forall j :: j in st.authors.rows && j != a.id.value ==> r.0.authors.rows[j] == st.authors.rows[j]
    ensures a.id.Some? && a.id.value in st.authors.rows ==> r.0.authors.rows[a.id.value] == AuthorRow(a.name)
    ensures a.id.Some? && a.id.value !in st.authors.rows ==> r.0 == st
    ensures WellFormed(st) && a.name != "" ==> WellFormed(r.0)
  {
    if a.id.None? then
      var (t, k) := Insert(st.authors, AuthorRow(a.name));
      (st.(authors := t), a.(id := Some(k)))
    else
      (st.(authors := Update(st.authors, a.id.value, AuthorRow(a.name))), a)
  }

  /** After `save()`, `find_by_id` of the author's key gives back an author
      with the same key and name. */
  lemma SaveThenFind(st: Store, a: Author)
    requires WellFormed(st) && a.name != ""
    requires a.id.None? || a.id.value in st.authors.rows
    ensures Save(st, a).1.id.Some?
    ensures FindById(Save(st, a).0, Save(st, a).1.id) == Success(Some(Author(Save(st, a).1.id, a.name)))
  {
  }

  /** Saving an author a second time rewrites its own row with the same
      name: the key, the row count and the whole store stay as they were. */
  lemma ResaveIsIdempotent(st: Store, a: Author)
    ensures Save(Save(st, a).0, Save(st, a).1) == Save(st, a)
  {
    var (st1, a1) := Save(st, a);
    var k := a1.id.value;
    if k in st1.authors.rows {
      assert st1.authors.rows[k] == AuthorRow(a.name);
      assert st1.authors.rows[k := AuthorRow(a.name)] == st1.authors.rows;
    }
  }
}
