/**
 * The book resource handler (LivroController): six request handlers over the
 * repository, each answering with a status and an optional body, or letting
 * the store's exception propagate.
 */
module Controller {
  import opened Wrappers
  import opened Model
  import opened Repository

  datatype Status = Created | Ok | NoContent | NotFound {
    /** The HTTP status code sent for this status. */
    function Code(): int {
      match this
      case Created => 201
      case Ok => 200
      case NoContent => 204
      case NotFound => 404
    }
  }

  datatype Body = NoBody | One(book: Book) | Many(books: seq<Book>)

  /** What a handler produces: a response, or the store exception it does not catch. */
  datatype Response = Response(status: Status, body: Body) | Raised(error: StoreError)

  const NotFoundResponse: Response := Response(NotFound, NoBody)

  /** ResponseEntity.status(s).body(saved) after a save, or the save's exception. */
  function Respond(status: Status, saved: Result<Book, StoreError>): Response {
    match saved
    case Success(b) => Response(status, One(b))
    case Failure(e) => Raised(e)
  }

  // ---------------------------------------------------------------------------
  // The per-record update rules of PUT and PATCH
  // ---------------------------------------------------------------------------

  /** PUT: the five business fields are all taken from the input; the id is kept. */
  function Overwrite(existing: Book, input: Book): (r: Book)
    ensures r.id == existing.id
    ensures r.titulo == input.titulo && r.autor == input.autor && r.isbn == input.isbn
    ensures r.anoPublicacao == input.anoPublicacao && r.disponivel == input.disponivel
  {
    input.(id := existing.id)
  }

  /** A text field is replaced only by a non-null, non-blank value. */
  function PickText(current: Option<string>, incoming: Option<string>): Option<string> {
    if HasText(incoming) then incoming else current
  }

  /** A number or boolean field is replaced by any non-null value. */
  function PickValue<T>(current: Option<T>, incoming: Option<T>): Option<T> {
    if incoming.Some? then incoming else current
  }

  /** PATCH: the field-by-field merge of an incoming record into the stored one. */
  function Merge(existing: Book, incoming: Book): (r: Book)
    ensures r.id == existing.id
    ensures HasText(incoming.titulo) ==> r.titulo == incoming.titulo
    ensures !HasText(incoming.titulo) ==> r.titulo == existing.titulo
    ensures HasText(incoming.autor) ==> r.autor == incoming.autor
    ensures !HasText(incoming.autor) ==> r.autor == existing.autor
    ensures HasText(incoming.isbn) ==> r.isbn == incoming.isbn
    ensures !HasText(incoming.isbn) ==> r.isbn == existing.isbn
    ensures incoming.anoPublicacao.Some? ==> r.anoPublicacao == incoming.anoPublicacao
    ensures incoming.anoPublicacao.None? ==> r.anoPublicacao == existing.anoPublicacao
    ensures incoming.disponivel.Some? ==> r.disponivel == incoming.disponivel
    ensures incoming.disponivel.None? ==> r.disponivel == existing.disponivel
  {
    Book(existing.id,
         PickText(existing.titulo, incoming.titulo),
         PickText(existing.autor, incoming.autor),
         PickText(existing.isbn, incoming.isbn),
         PickValue(existing.anoPublicacao, incoming.anoPublicacao),
         PickValue(existing.disponivel, incoming.disponivel))
  }

  /** An incoming record none of whose fields PATCH would take. */
  predicate ChangesNothing(incoming: Book) {
    && !HasText(incoming.titulo)
    && !HasText(incoming.autor)
    && !HasText(incoming.isbn)
    && incoming.anoPublicacao.None?
    && incoming.disponivel.None?
  }

  // ---------------------------------------------------------------------------
  // The handlers as functions of the table
  // ---------------------------------------------------------------------------

  /** POST, with the id of the request body ignored (see CreateAsWritten). */
  function Create(t: Table, input: Book): (r: (Table, Response))
    ensures TableInv(t) ==> TableInv(r.0)
  {
    var (t', saved) := SaveTo(t, input.(id := None));
    (t', Respond(Created, saved))
  }

  /** POST as criarLivro is written: the request body is saved as it arrived, id included. */
  function CreateAsWritten(t: Table, input: Book): (r: (Table, Response))
    ensures TableInv(t) ==> TableInv(r.0)
  {
    var (t', saved) := SaveTo(t, input);
    (t', Respond(Created, saved))
  }

  /** GET by id. */
  function Get(t: Table, id: int): (r: Response)
    ensures r.Response? && (r.status == Ok <==> id in t.rows)
    ensures id in t.rows ==> r.body == One(t.rows[id])
    ensures id !in t.rows ==> r == NotFoundResponse
  {
    if id in t.rows then Response(Ok, One(t.rows[id])) else NotFoundResponse
  }

  /** PUT. */
  function Put(t: Table, id: int, input: Book): (r: (Table, Response))
    ensures TableInv(t) ==> TableInv(r.0)
  {
    if id !in t.rows then (t, NotFoundResponse)
    else
      var (t', saved) := SaveTo(t, Overwrite(t.rows[id], input));
      (t', Respond(Ok, saved))
  }

  /** PATCH. */
  function Patch(t: Table, id: int, input: Book): (r: (Table, Response))
    ensures TableInv(t) ==> TableInv(r.0)
  {
    if id !in t.rows then (t, NotFoundResponse)
    else
      var (t', saved) := SaveTo(t, Merge(t.rows[id], input));
      (t', Respond(Ok, saved))
  }

  /** DELETE. */
  function Delete(t: Table, id: int): (r: (Table, Response))
    ensures TableInv(t) ==> TableInv(r.0)
  {
    if id !in t.rows then (t, NotFoundResponse)
    else (DeleteFrom(t, id), Response(NoContent, NoBody))
  }

  // ---------------------------------------------------------------------------
  // Properties of the merge rule
  // ---------------------------------------------------------------------------

  /** Merging the same incoming record a second time changes nothing more. */
  lemma MergeIdempotent(existing: Book, incoming: Book)
    ensures Merge(Merge(existing, incoming), incoming) == Merge(existing, incoming)
  {
  }

  /** An incoming record whose fields are all null or blank leaves the record as it was. */
  lemma MergeNothingIsIdentity(existing: Book, incoming: Book)
    requires ChangesNothing(incoming)
    ensures Merge(existing, incoming) == existing
  {
  }

  /** PATCH cannot turn a valid record into an invalid one, nor null a NOT NULL column. */
  lemma MergeKeepsValidity(existing: Book, incoming: Book)
    ensures IsValid(existing) ==> IsValid(Merge(existing, incoming))
    ensures IsComplete(existing) ==> IsComplete(Merge(existing, incoming))
  {
  }

  /** On a valid incoming record, PATCH and PUT compute the same record. */
  lemma MergeOfValidIsOverwrite(existing: Book, incoming: Book)
    requires IsValid(incoming)
    ensures Merge(existing, incoming) == Overwrite(existing, incoming)
  {
  }

  /** PUT with a valid input yields a valid record. */
  lemma OverwriteWithValidIsValid(existing: Book, input: Book)
    requires IsValid(input)
    ensures IsValid(Overwrite(existing, input))
  {
  }

  // ---------------------------------------------------------------------------
  // Properties of the handlers
  // ---------------------------------------------------------------------------

  /**
   * POST of a valid record succeeds unless its isbn is taken; on success the
   * saved record carries a fresh id, the table grows by exactly that row, and
   * the answer is 201 with the saved record. A duplicate isbn raises and
   * changes nothing.
   */
  lemma CreateStoresNewRecord(t: Table, input: Book)
    requires TableInv(t) && IsValid(input)
    ensures var (t', r) := Create(t, input);
      && (r.Response? <==> !IsbnHeldByOther(t.rows, input.isbn, None))
      && (r.Response? ==>
            && r.status == Created && r.status.Code() == 201 && r.body.One?
            && r.body.book.id.Some? && r.body.book.id.value !in t.rows
            && r.body.book == input.(id := r.body.book.id)
            && t'.rows == t.rows[r.body.book.id.value := r.body.book]
            && |t'.rows| == |t.rows| + 1)
      && (r.Raised? ==> r.error == DuplicateIsbn && t' == t)
  {
    ValidIsComplete(input);
  }

  /** The corrected POST does not depend on any id the request body carries. */
  lemma CreateIgnoresInputId(t: Table, input: Book, id: Option<int>)
    ensures Create(t, input.(id := id)) == Create(t, input)
  {
  }

  /** After a successful POST, GET by the returned id answers 200 with the saved record. */
  lemma CreateThenGet(t: Table, input: Book)
    requires Create(t, input).1.Response?
    ensures var (t', r) := Create(t, input);
      r.body.One? && r.body.book.id.Some? && Get(t', r.body.book.id.value) == Response(Ok, One(r.body.book))
  {
  }

  /**
   * GET, PUT, PATCH and DELETE on an absent id answer 404 with no body and
   * change nothing. For PUT this is the handler's answer once the body has
   * passed @Valid; an invalid body is refused by the framework before the
   * handler runs, so AtualizarLivro requires IsValid of its body.
   */
  lemma AbsentIdIsNotFound(t: Table, id: int, input: Book)
    requires id !in t.rows
    ensures Get(t, id) == NotFoundResponse && NotFoundResponse.status.Code() == 404
    ensures Put(t, id, input) == (t, NotFoundResponse)
    ensures Patch(t, id, input) == (t, NotFoundResponse)
    ensures Delete(t, id) == (t, NotFoundResponse)
  {
  }

  /**
   * PUT of a valid record on a present id sets all five fields from the input
   * and keeps the id; no other row changes; the answer is 200 with the updated
   * record. It fails, changing nothing, exactly when another row holds the isbn.
   */
  lemma PutOverwritesRecord(t: Table, id: int, input: Book)
    requires TableInv(t) && id in t.rows && IsValid(input)
    ensures var (t', r) := Put(t, id, input);
      var updated := input.(id := Some(id));
      && (r.Response? <==> !IsbnHeldByOther(t.rows, input.isbn, Some(id)))
      && (r.Response? ==>
            && r == Response(Ok, One(updated))
            && t'.rows == t.rows[id := updated]
            && t'.nextId == t.nextId)
      && (r.Raised? ==> r.error == DuplicateIsbn && t' == t)
  {
    ValidIsComplete(input);
  }

  /**
   * PATCH on a present id stores the merge of the incoming record into the
   * stored one, keeps every other row, and answers 200 with the merged record.
   * It fails, changing nothing, exactly when another row holds the merged isbn;
   * it never trips a NOT NULL column.
   */
  lemma PatchMergesRecord(t: Table, id: int, input: Book)
    requires TableInv(t) && id in t.rows
    ensures var (t', r) := Patch(t, id, input);
      var merged := Merge(t.rows[id], input);
      && (r.Response? <==> !IsbnHeldByOther(t.rows, merged.isbn, Some(id)))
      && (r.Response? ==>
            && r == Response(Ok, One(merged))
            && t'.rows == t.rows[id := merged]
            && t'.nextId == t.nextId)
      && (r.Raised? ==> r.error == DuplicateIsbn && t' == t)
  {
    MergeKeepsValidity(t.rows[id], input);
  }

  /** PATCH with nothing to take leaves the table as it was and answers 200 with the record. */
  lemma PatchNothingIsNoOp(t: Table, id: int, input: Book)
    requires TableInv(t) && id in t.rows && ChangesNothing(input)
    ensures Patch(t, id, input) == (t, Response(Ok, One(t.rows[id])))
  {
    MergeNothingIsIdentity(t.rows[id], input);
    var e := t.rows[id];
    assert !IsbnHeldByOther(t.rows, e.isbn, Some(id));
    assert t.rows[id := e] == t.rows;
  }

  /** Applying the same PATCH twice gives the same table and answer as applying it once. */
  lemma PatchTwiceIsPatchOnce(t: Table, id: int, input: Book)
    requires TableInv(t)
    ensures var (t1, r1) := Patch(t, id, input);
      Patch(t1, id, input) == (t1, r1)
  {
    if id in t.rows {
      var merged := Merge(t.rows[id], input);
      MergeIdempotent(t.rows[id], input);
      var (t1, r1) := Patch(t, id, input);
      if r1.Response? {
        assert t1.rows == t.rows[id := merged];
        assert t1.rows[id := merged] == t1.rows;
        assert IsbnHeldByOther(t1.rows, merged.isbn, Some(id)) == IsbnHeldByOther(t.rows, merged.isbn, Some(id));
      }
    }
  }

  /** On a valid incoming record, PATCH behaves exactly as PUT. */
  lemma PatchWithValidIsPut(t: Table, id: int, input: Book)
    requires IsValid(input)
    ensures Patch(t, id, input) == Put(t, id, input)
  {
    if id in t.rows {
      MergeOfValidIsOverwrite(t.rows[id], input);
    }
  }

  /**
   * DELETE on a present id answers 204, removes exactly that row, and a later
   * GET of the id answers 404; so a second DELETE of the same id answers 404.
   */
  lemma DeleteRemovesRecord(t: Table, id: int)
    requires id in t.rows
    ensures var (t', r) := Delete(t, id);
      && r == Response(NoContent, NoBody) && r.status.Code() == 204
      && t'.rows == t.rows - {id}
      && |t'.rows| == |t.rows| - 1
      && Get(t', id) == NotFoundResponse
      && Delete(t', id) == (t', NotFoundResponse)
  {
  }

  /**
   * criarLivro as written saves a body that carries the id of a stored row as an
   * update of that row, answering 201 while the table does not grow.
   */
  lemma CreateAsWrittenOverwrites()
    ensures var stored := Book(Some(1), Some("A"), Some("B"), Some("1"), Some(1899), Some(true));
      var body := Book(Some(1), Some("C"), Some("D"), Some("2"), Some(1900), Some(false));
      var t := Table(map[1 := stored], 2);
      var (t', r) := CreateAsWritten(t, body);
      && TableInv(t) && IsValid(body)
      && r == Response(Created, One(body))
      && t'.rows == map[1 := body]
      && |t'.rows| == |t.rows|
  {
    var stored := Book(Some(1), Some("A"), Some("B"), Some("1"), Some(1899), Some(true));
    var body := Book(Some(1), Some("C"), Some("D"), Some("2"), Some(1900), Some(false));
    var t := Table(map[1 := stored], 2);
    assert !IsWhitespace("C"[0]) && !IsWhitespace("D"[0]) && !IsWhitespace("2"[0]);
    assert !IsbnHeldByOther(t.rows, body.isbn, body.id);
  }

  /** On a body without a stored id, criarLivro as written and the corrected POST agree. */
  lemma CreateAsWrittenAgreesOnNew(t: Table, input: Book)
    requires IsNew(t, input)
    ensures CreateAsWritten(t, input) == Create(t, input)
  {
  }

  /**
   * On a valid body carrying the id of a stored row, criarLivro as written
   * replaces that row (unless another row holds the isbn) and answers 201,
   * while the table keeps its size.
   */
  lemma CreateAsWrittenUpdatesStoredRow(t: Table, input: Book)
    requires TableInv(t) && IsValid(input) && input.id.Some? && input.id.value in t.rows
    ensures var (t', r) := CreateAsWritten(t, input);
      && (r.Response? <==> !IsbnHeldByOther(t.rows, input.isbn, input.id))
      && (r.Response? ==>
            && r == Response(Created, One(input))
            && t'.rows == t.rows[input.id.value := input]
            && |t'.rows| == |t.rows|)
      && (r.Raised? ==> r.error == DuplicateIsbn && t' == t)
  {
    ValidIsComplete(input);
    var k := input.id.value;
    assert t.rows[k := input].Keys == t.rows.Keys;
  }

  /**
   * Besides the column constraints, the handlers keep every row valid: both
   * POSTs and PUT store only bodies that passed @Valid, and PATCH merges into
   * a valid row.
   */
  lemma HandlersKeepRowsValid(t: Table, id: int, input: Book)
    requires TableInv(t) && RowsValid(t)
    ensures IsValid(input) ==> RowsValid(Create(t, input).0)
    ensures IsValid(input) ==> RowsValid(CreateAsWritten(t, input).0)
    ensures IsValid(input) ==> RowsValid(Put(t, id, input).0)
    ensures RowsValid(Patch(t, id, input).0)
    ensures RowsValid(Delete(t, id).0)
  {
    if id in t.rows {
      MergeKeepsValidity(t.rows[id], input);
      if IsValid(input) {
        OverwriteWithValidIsValid(t.rows[id], input);
      }
    }
  }

  // ---------------------------------------------------------------------------
  // The controller object
  // ---------------------------------------------------------------------------

  class LivroController {
    const livroRepository: LivroRepository

    constructor (livroRepository: LivroRepository)
      ensures this.livroRepository == livroRepository
    {
      this.livroRepository := livroRepository;
    }

    /** POST: saves the record under a fresh id and answers 201 with it. */
    method CriarLivro(livro: Livro) returns (r: Response)
      requires livroRepository.Valid()
      requires IsValid(livro.Snapshot())
      modifies livroRepository, livro
      ensures livroRepository.Valid()
      ensures livro.Snapshot() == old(livro.Snapshot()).(id := None)
      ensures (livroRepository.State(), r) == Create(old(livroRepository.State()), old(livro.Snapshot()))
    {
      livro.SetId(None);
      var novoLivro := livroRepository.Save(livro);
      r := Respond(Created, novoLivro);
    }

    /** POST as criarLivro is written (see CreateAsWrittenOverwrites). */
    method CriarLivroAsWritten(livro: Livro) returns (r: Response)
      requires livroRepository.Valid()
      requires IsValid(livro.Snapshot())
      modifies livroRepository
      ensures livroRepository.Valid()
      ensures (livroRepository.State(), r) == CreateAsWritten(old(livroRepository.State()), livro.Snapshot())
    {
      var novoLivro := livroRepository.Save(livro);
      r := Respond(Created, novoLivro);
    }

    /** GET list: 200 with every stored record once; nothing changes. */
    method ListarLivros() returns (r: Response)
      requires livroRepository.Valid()
      ensures r.Response? && r.status == Ok && r.body.Many?
      ensures Lists(r.body.books, livroRepository.rows)
      ensures livroRepository.rows == map[] ==> r.body.books == []
    {
      var livros := livroRepository.FindAll();
      r := Response(Ok, Many(livros));
    }

    /** GET by id: 200 with the record, or 404 with no body; nothing changes. */
    method BuscarLivroPorId(id: int) returns (r: Response)
      ensures r == Get(livroRepository.State(), id)
    {
      var livro := livroRepository.FindById(id);
      if livro.Some? {
        r := Response(Ok, One(livro.value.Snapshot()));
      } else {
        r := NotFoundResponse;
      }
    }

    /** PUT: copies all five business fields of a valid input onto the stored record. */
    method AtualizarLivro(id: int, livroAtualizado: Livro) returns (r: Response)
      requires livroRepository.Valid()
      requires IsValid(livroAtualizado.Snapshot())
      modifies livroRepository
      ensures livroRepository.Valid()
      ensures (livroRepository.State(), r) == Put(old(livroRepository.State()), id, livroAtualizado.Snapshot())
    {
      var livroExistente := livroRepository.FindById(id);
      if livroExistente.None? {
        return NotFoundResponse;
      }
      var livro := livroExistente.value;
      livro.SetTitulo(livroAtualizado.titulo);
      livro.SetAutor(livroAtualizado.autor);
      livro.SetIsbn(livroAtualizado.isbn);
      livro.SetAnoPublicacao(livroAtualizado.anoPublicacao);
      livro.SetDisponivel(livroAtualizado.disponivel);
      var livroSalvo := livroRepository.Save(livro);
      r := Respond(Ok, livroSalvo);
    }

    /** PATCH: takes each incoming field that is non-null (and, for text, non-blank). */
    method AtualizarParcialLivro(id: int, livroAtualizado: Livro) returns (r: Response)
      requires livroRepository.Valid()
      modifies livroRepository
      ensures livroRepository.Valid()
      ensures (livroRepository.State(), r) == Patch(old(livroRepository.State()), id, livroAtualizado.Snapshot())
    {
      var livroExistente := livroRepository.FindById(id);
      if livroExistente.None? {
        return NotFoundResponse;
      }
      var livro := livroExistente.value;
      MergeInto(livro, livroAtualizado);
      var livroSalvo := livroRepository.Save(livro);
      r := Respond(Ok, livroSalvo);
    }

    /** The body of PATCH between lookup and save: the field-by-field merge, in place. */
    static method MergeInto(livro: Livro, livroAtualizado: Livro)
      requires livro != livroAtualizado
      modifies livro
      ensures livro.Snapshot() == Merge(old(livro.Snapshot()), livroAtualizado.Snapshot())
    {
      ghost var e, p := livro.Snapshot(), livroAtualizado.Snapshot();
      if livroAtualizado.titulo != None && !IsBlank(livroAtualizado.titulo.value) {
        livro.SetTitulo(livroAtualizado.titulo);
      }
      assert livro.Snapshot() == e.(titulo := PickText(e.titulo, p.titulo));
      if livroAtualizado.autor != None && !IsBlank(livroAtualizado.autor.value) {
        livro.SetAutor(livroAtualizado.autor);
      }
      assert livro.Snapshot() == e.(titulo := PickText(e.titulo, p.titulo), autor := PickText(e.autor, p.autor));
      if livroAtualizado.isbn != None && !IsBlank(livroAtualizado.isbn.value) {
        livro.SetIsbn(livroAtualizado.isbn);
      }
      assert livro.Snapshot() == e.(titulo := PickText(e.titulo, p.titulo), autor := PickText(e.autor, p.autor),
                                    isbn := PickText(e.isbn, p.isbn));
      if livroAtualizado.anoPublicacao != None {
        livro.SetAnoPublicacao(livroAtualizado.anoPublicacao);
      }
      if livroAtualizado.disponivel != None {
        livro.SetDisponivel(livroAtualizado.disponivel);
      }
      assert livro.Snapshot() == Merge(e, p);
    }

    /** DELETE: removes the record and answers 204, or 404 when it is absent. */
    method DeletarLivro(id: int) returns (r: Response)
      requires livroRepository.Valid()
      modifies livroRepository
      ensures livroRepository.Valid()
      ensures (livroRepository.State(), r) == Delete(old(livroRepository.State()), id)
    {
      var livro := livroRepository.FindById(id);
      if livro.None? {
        return NotFoundResponse;
      }
      livroRepository.DeleteById(id);
      r := Response(NoContent, NoBody);
    }
  }
}
