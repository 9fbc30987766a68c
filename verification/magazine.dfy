/** The `Magazine` entity: construction, the two freely reassignable text
    fields, reconstruction from a `magazines` row, lookup by key, and
    insert-or-update persistence. */
module Magazines {
  import opened Values
  import opened Db

  /** A `Magazine` instance: its key (`None` until first saved), name and category. */
  datatype Magazine = Magazine(id: Option<nat>, name: string, category: string)

  /** `Magazine(name, category, id)`: the name setter runs first, then the
      category setter, so an invalid name is reported even when the category
      is invalid too. */
  function New(name: Value, category: Value, id: Option<nat>): (r: Result<Magazine>)
    ensures r.Success? <==> IsText(name) && IsText(category)
    ensures r.Success? ==> r.value == Magazine(id, name.s, category.s)
    ensures name.Other? ==> r == Failure(TypeErr)
    ensures name == Str("") ==> r == Failure(ValueErr)
    ensures IsText(name) && category.Other? ==> r == Failure(TypeErr)
    ensures IsText(name) && category == Str("") ==> r == Failure(ValueErr)
  {
    match CheckText(name)
    case Failure(e) => Failure(e)
    case Success(n) =>
      match CheckText(category)
      case Failure(e) => Failure(e)
      case Success(c) => Success(Magazine(id, n, c))
  }

  /** `magazine.name = v`: no one-shot guard, only validation. On failure the
      magazine keeps its previous name; the other fields never change. */
  function SetName(m: Magazine, v: Value): (r: Result<Magazine>)
    ensures r.Success? <==> IsText(v)
    ensures v.Other? ==> r == Failure(TypeErr)
    ensures v == Str("") ==> r == Failure(ValueErr)
    ensures r.GetOr(m).name == (if IsText(v) then v.s else m.name)
    ensures r.GetOr(m).id == m.id && r.GetOr(m).category == m.category
  {
    match CheckText(v)
    case Success(n) => Success(m.(name := n))
    case Failure(e) => Failure(e)
  }

  /** `magazine.category = v`: like the name, validated and reassignable. */
  function SetCategory(m: Magazine, v: Value): (r: Result<Magazine>)
    ensures r.Success? <==> IsText(v)
    ensures v.Other? ==> r == Failure(TypeErr)
    ensures v == Str("") ==> r == Failure(ValueErr)
    ensures r.GetOr(m).category == (if IsText(v) then v.s else m.category)
    ensures r.GetOr(m).id == m.id && r.GetOr(m).name == m.name
  {
    match CheckText(v)
    case Success(c) => Success(m.(category := c))
    case Failure(e) => Failure(e)
  }

  /** The magazine reconstructed from row `k`. */
  function Stored(st: Store, k: nat): Magazine
    requires k in st.magazines.rows
  {
    Magazine(Some(k), st.magazines.rows[k].name, st.magazines.rows[k].category)
  }

  /** The magazine a lookup of `id` finds, if any: the reference meaning of
      `find_by_id` on a well-formed store. */
  function Resolve(st: Store, id: Option<nat>): Option<Magazine> {
    if id.Some? && id.value in st.magazines.rows then Some(Stored(st, id.value)) else None
  }

  /** `Magazine.new_from_db` on a present row: it calls the constructor, so
      both stored texts are validated again. */
  function FromRow(k: nat, row: MagazineRow): (r: Result<Magazine>)
    ensures r.Success? <==> row.name != "" && row.category != ""
    ensures r.Success? ==> r.value == Magazine(Some(k), row.name, row.category)
    ensures r.Failure? ==> r.error == ValueErr
  {
    New(Str(row.name), Str(row.category), Some(k))
  }

  /** `Magazine.find_by_id(id)`: a primary-key lookup; a key with no row, or a
      `None` key, yields `None` without failing. */
  function FindById(st: Store, id: Option<nat>): (r: Result<Option<Magazine>>)
    ensures id.None? || id.value !in st.magazines.rows ==> r == Success(None)
    ensures r.Success? ==> r.value == Resolve(st, id)
    ensures WellFormed(st) ==> r.Success?
    ensures r.Failure? ==> r.error == ValueErr
  {
    if id.Some? && id.value in st.magazines.rows then
      match FromRow(id.value, st.magazines.rows[id.value])
      case Success(m) => Success(Some(m))
      case Failure(e) => Failure(e)
    else
      Success(None)
  }

  /** Rebuilding every selected magazine row, in order, as the relationship
      methods do: the first row that fails reconstruction raises. */
  function LoadAll(st: Store, ks: seq<nat>): (r: Result<seq<Magazine>>)
    requires forall i :: 0 <= i < |ks| ==> ks[i] in st.magazines.rows
    ensures r.Success? <==> forall i :: 0 <= i < |ks| ==>
      st.magazines.rows[ks[i]].name != "" && st.magazines.rows[ks[i]].category != ""
    ensures r.Success? ==> |r.value| == |ks| && forall i :: 0 <= i < |ks| ==> r.value[i] == Stored(st, ks[i])
    ensures r.Failure? ==> r.error == ValueErr
  {
    if |ks| == 0 then Success([])
    else
      match FromRow(ks[0], st.magazines.rows[ks[0]])
      case Failure(e) => Failure(e)
      case Success(m) =>
        match LoadAll(st, ks[1..])
        case Failure(e) => Failure(e)
        case Success(rest) => Success([m] + rest)
  }

  /** `magazine.save()`: with no key, INSERT name and category and adopt the
      new row's key; with a key, UPDATE both columns of the row with that key. */
  function Save(st: Store, m: Magazine): (r: (Store, Magazine))
    ensures r.0.authors == st.authors && r.0.articles == st.articles
    ensures r.1.name == m.name && r.1.category == m.category && r.1.id.Some?
    ensures m.id.None? ==>
      r.0.magazines.rows == st.magazines.rows[r.1.id.value := MagazineRow(m.name, m.category)]
    ensures m.id.None? && WellFormed(st) ==>
      r.1.id.value !in st.magazines.rows && |r.0.magazines.rows| == |st.magazines.rows| + 1
    ensures m.id.Some? ==> r.1 == m && r.0.magazines.rows.Keys == st.magazines.rows.Keys
    ensures m.id.Some? ==>
      forall j :: j in st.magazines.rows && j != m.id.value ==> r.0.magazines.rows[j] == st.magazines.rows[j]
    ensures m.id.Some? && m.id.value in st.magazines.rows ==>
      r.0.magazines.rows[m.id.value] == MagazineRow(m.name, m.category)
    ensures m.id.Some? && m.id.value !in st.magazines.rows ==> r.0 == st
    ensures WellFormed(st) && m.name != "" && m.category != "" ==> WellFormed(r.0)
  {
    var row := MagazineRow(m.name, m.category);
    if m.id.None? then
      var (t, k) := Insert(st.magazines, row);
      (st.(magazines := t), m.(id := Some(k)))
    else
      (st.(magazines := Update(st.magazines, m.id.value, row)), m)
  }

  /** After `save()`, `find_by_id` of the magazine's key gives back its key,
      name and category. */
  lemma SaveThenFind(st: Store, m: Magazine)
    requires WellFormed(st) && m.name != "" && m.category != ""
    requires m.id.None? || m.id.value in st.magazines.rows
    ensures Save(st, m).1.id.Some?
    ensures FindById(Save(st, m).0, Save(st, m).1.id)
         == Success(Some(Magazine(Save(st, m).1.id, m.name, m.category)))
  {
  }

  /** A saved magazine renamed and recategorised, then saved again, keeps its
      key and the table keeps its size; `find_by_id` then returns the new
      name and category.
      The proof is carried by the contracts of `SetName`, `SetCategory`, `Save`
      and `FindById`. */
  lemma RenameAfterSave(st: Store, m: Magazine, name: Value, category: Value)
    requires WellFormed(st) && m.name != "" && m.category != "" && m.id.None?
    requires IsText(name) && IsText(category)
    ensures var (st1, m1) := Save(st, m);
            var m2 := SetCategory(SetName(m1, name).value, category).value;
            var (st2, m3) := Save(st1, m2);
            && m3.id == m1.id
            && |st2.magazines.rows| == |st1.magazines.rows|
            && FindById(st2, m3.id) == Success(Some(Magazine(m1.id, name.s, category.s)))
  {
  }
}
