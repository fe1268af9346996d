/**
 * The persistence collaborator the controller is given (LivroRepository):
 * a table of books keyed by id, with store-generated ids, NOT NULL columns
 * and a unique isbn column.
 */
module Repository {
  import opened Wrappers
  import opened Model

  /** Why a save is refused by the database. */
  datatype StoreError =
    | NullColumn     // a NOT NULL column would receive null
    | DuplicateIsbn  // the unique isbn column would hold the same value twice

  /** The table's rows, keyed by id, and the next identity value. */
  datatype Table = Table(rows: map<int, Book>, nextId: int)

  /** The empty table; identity columns start at 1. */
  const EmptyTable: Table := Table(map[], 1)

  /** Some row other than the one keyed by `self` already holds `isbn`. */
  predicate IsbnHeldByOther(rows: map<int, Book>, isbn: Option<string>, self: Option<int>) {
    exists k :: k in rows && Some(k) != self && rows[k].isbn == isbn
  }

  /**
   * What the table guarantees between calls: each row carries its own key as
   * id, every key is below the next identity value, every row satisfies the
   * NOT NULL constraints, and no two rows share an isbn.
   */
  ghost predicate TableInv(t: Table) {
    && (forall k :: k in t.rows ==> t.rows[k].id == Some(k))
    && (forall k :: k in t.rows ==> k < t.nextId)
    && (forall k :: k in t.rows ==> IsComplete(t.rows[k]))
    && (forall j, k :: j in t.rows && k in t.rows && j != k ==> t.rows[j].isbn != t.rows[k].isbn)
  }

  /** Every row passes the entity's validation rule, blankness included. */
  ghost predicate RowsValid(t: Table) {
    forall k :: k in t.rows ==> IsValid(t.rows[k])
  }

  /** A record counts as new (and is inserted) unless its id names a stored row. */
  predicate IsNew(t: Table, b: Book) {
    b.id.None? || b.id.value !in t.rows
  }

  /**
   * save(entity): a new record is inserted under a fresh id; a record whose id
   * names a stored row replaces that row. The database refuses a record with a
   * null business field and a record whose isbn another row already holds; a
   * refused save leaves the table as it was.
   */
  function SaveTo(t: Table, b: Book): (r: (Table, Result<Book, StoreError>))
    ensures r.1.Failure? <==>
              !IsComplete(b) ||
              IsbnHeldByOther(t.rows, b.isbn, if IsNew(t, b) then None else b.id)
    ensures r.1.Failure? ==> r.0 == t
    ensures r.1.Failure? ==> (r.1.error == NullColumn <==> !IsComplete(b))
    ensures r.1.Success? ==> r.1.value.id.Some? && r.0.rows == t.rows[r.1.value.id.value := r.1.value]
    ensures r.1.Success? ==> r.1.value == b.(id := r.1.value.id)
    ensures r.1.Success? && !IsNew(t, b) ==> r.1.value == b && r.0.nextId == t.nextId
    ensures r.1.Success? && IsNew(t, b) ==> r.1.value.id == Some(t.nextId) && r.0.nextId == t.nextId + 1
    ensures TableInv(t) ==> TableInv(r.0)
  {
    if !IsComplete(b) then
      (t, Failure(NullColumn))
    else if IsNew(t, b) then
      if IsbnHeldByOther(t.rows, b.isbn, None) then (t, Failure(DuplicateIsbn))
      else
        var stored := b.(id := Some(t.nextId));
        (Table(t.rows[t.nextId := stored], t.nextId + 1), Success(stored))
    else
      var k := b.id.value;
      if IsbnHeldByOther(t.rows, b.isbn, b.id) then (t, Failure(DuplicateIsbn))
      else (t.(rows := t.rows[k := b]), Success(b))
  }

  /** deleteById(id): the row with that key is gone and nothing else changes. */
  function DeleteFrom(t: Table, id: int): (r: Table)
    ensures id !in r.rows
    ensures r.nextId == t.nextId
    ensures forall k :: k in t.rows && k != id ==> k in r.rows && r.rows[k] == t.rows[k]
    ensures forall k :: k in r.rows ==> k in t.rows
    ensures TableInv(t) ==> TableInv(r)
  {
    t.(rows := t.rows - {id})
  }

  /** `s` lists every stored row exactly once, in some order. */
  ghost predicate Lists(s: seq<Book>, rows: map<int, Book>) {
    && |s| == |rows|
    && (forall i :: 0 <= i < |s| ==> s[i].id.Some? && s[i].id.value in rows && rows[s[i].id.value] == s[i])
    && (forall k :: k in rows ==> rows[k] in s)
    && (forall i, j :: 0 <= i < j < |s| ==> s[i] != s[j])
  }

  /** Saving a new record into a consistent table gives it an id no stored row had. */
  lemma SaveAssignsFreshId(t: Table, b: Book)
    requires TableInv(t)
    requires IsNew(t, b)
    requires SaveTo(t, b).1.Success?
    ensures SaveTo(t, b).1.value.id.Some?
    ensures SaveTo(t, b).1.value.id.value !in t.rows
    ensures |SaveTo(t, b).0.rows| == |t.rows| + 1
  {
  }

  /** An update keeps the set of keys and changes only the updated row. */
  lemma SaveUpdatesInPlace(t: Table, b: Book)
    requires !IsNew(t, b)
    requires SaveTo(t, b).1.Success?
    ensures SaveTo(t, b).0.rows.Keys == t.rows.Keys
    ensures forall k :: k in t.rows && Some(k) != b.id ==> SaveTo(t, b).0.rows[k] == t.rows[k]
  {
  }

  /** A save that would put the same isbn on two rows fails instead of succeeding. */
  lemma SaveRejectsDuplicateIsbn(t: Table, b: Book, k: int)
    requires k in t.rows && t.rows[k].isbn == b.isbn && Some(k) != b.id
    ensures SaveTo(t, b).1.Failure? && SaveTo(t, b).0 == t
  {
  }

  /** The empty table lists as []. */
  lemma ListsEmpty(s: seq<Book>)
    requires Lists(s, map[])
    ensures s == []
  {
  }

  /** Helper for FindAll: a non-empty set has a member to pick. */
  lemma HasMember(s: set<int>)
    requires s != {}
    ensures exists x :: x in s
  {
    if forall x :: x !in s {
      assert false;
    }
  }

  /** The map-backed repository; findAll, findById, save and deleteById. */
  class LivroRepository {
    var rows: map<int, Book>
    var nextId: int

    function State(): Table
      reads this
    {
      Table(rows, nextId)
    }

    ghost predicate Valid()
      reads this
    {
      TableInv(State())
    }

    constructor ()
      ensures Valid() && State() == EmptyTable
    {
      rows, nextId := map[], 1;
    }

    /** findAll: every stored row once, in the store's own order. Changes nothing. */
    method FindAll() returns (r: seq<Book>)
      requires Valid()
      ensures Lists(r, rows)
    {
      r := [];
      var left := rows.Keys;
      while left != {}
        invariant left <= rows.Keys
        invariant |r| + |left| == |rows|
        invariant forall i :: 0 <= i < |r| ==>
                    r[i].id.Some? && r[i].id.value in rows.Keys - left && rows[r[i].id.value] == r[i]
        invariant forall k :: k in rows.Keys - left ==> rows[k] in r
        invariant forall i, j :: 0 <= i < j < |r| ==> r[i].id != r[j].id
        decreases left
      {
        HasMember(left);
        var k :| k in left;
        r := r + [rows[k]];
        left := left - {k};
      }
    }

    /** findById: a fresh entity holding the stored row, or null when the id is absent. */
    method FindById(id: int) returns (r: Option<Livro>)
      ensures r.Some? <==> id in rows
      ensures r.Some? ==> fresh(r.value) && r.value.Snapshot() == rows[id]
    {
      if id in rows {
        var b := rows[id];
        var livro := new Livro.WithFields(b.titulo, b.autor, b.isbn, b.anoPublicacao, b.disponivel);
        livro.SetId(b.id);
        r := Some(livro);
      } else {
        r := None;
      }
    }

    /** save: the table and the returned value are those SaveTo describes. */
    method Save(livro: Livro) returns (r: Result<Book, StoreError>)
      requires Valid()
      modifies this
      ensures Valid()
      ensures (State(), r) == SaveTo(old(State()), livro.Snapshot())
    {
      var b := livro.Snapshot();
      var res := SaveTo(State(), b);
      rows, nextId := res.0.rows, res.0.nextId;
      r := res.1;
    }

    /** deleteById: the row with that key is removed; nothing else changes. */
    method DeleteById(id: int)
      requires Valid()
      modifies this
      ensures Valid()
      ensures State() == DeleteFrom(old(State()), id)
    {
      rows := rows - {id};
    }
  }
}
