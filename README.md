# Library book service: a Dafny model

This project models the core of a small Spring web service that keeps a
catalogue of books (`Livro`). It covers two files:

- **The entity** `Livro`, in module `Model` (`model.dfy`). It is a mutable
  object with a store-assigned `id` and five nullable business fields:
  `titulo`, `autor`, `isbn`, `anoPublicacao` and `disponivel`. It has a
  no-argument constructor, a five-argument constructor and one setter per
  field. Its validity rule (`IsValid`) comes from the `@NotBlank` and
  `@NotNull` annotations. A null Java reference is `None` of an `Option`.
  `String.isBlank()` is `IsBlank`: every character is whitespace, so the
  empty string is blank. The `Book` datatype is the value of a `Livro` at
  one moment (`Livro.Snapshot()`).
- **The resource handler** `LivroController`, in module `Controller`
  (`controller.dfy`). It has six handlers: create (POST), list (GET), fetch by
  id (GET), full update (PUT), partial update (PATCH) and delete (DELETE). They
  run against the repository they are given at construction. Each handler is a
  method of the controller class, and each is proved equal to a function of the
  table. `CriarLivroAsWritten` is `criarLivro` as written and equals
  `CreateAsWritten`; `CriarLivro` is the corrected POST of the Findings and
  equals `Create`. The others pair `BuscarLivroPorId` with `Get`,
  `AtualizarLivro` with `Put`, `AtualizarParcialLivro` with `Patch` and
  `DeletarLivro` with `Delete`. The list handler, whose
  order belongs to the store, is specified by the `Lists` predicate. A response
  has a status (201, 200, 204 or 404) and a body. A store exception that the
  handler does not catch is modelled as `Raised`. PATCH's field-by-field rule
  is the pure function `Merge`, and PUT's copy rule is `Overwrite`.

The repository (module `Repository`, `repository.dfy`) is the collaborator the
controller is given. The class `LivroRepository` holds a `map<int, Book>` and
the next identity value, and offers `FindAll`, `FindById`, `Save` and
`DeleteById`. `Save` is specified by the pure function `SaveTo`, which follows
Spring Data's `save`:

- A record whose id is null, or names no stored row, is inserted under a fresh
  id.
- A record whose id names a stored row replaces that row.
- The database refuses a null in a `nullable = false` column (`NullColumn`).
- The database refuses an isbn that another row already holds, because the
  column is `unique = true` (`DuplicateIsbn`).

`TableInv` is the table invariant that every operation preserves:

- every row carries its own key as its id;
- every key is below the next identity value, so new ids are fresh;
- every row is complete;
- no two rows share an isbn.

The handlers also keep every row valid (`RowsValid`, proved in
`HandlersKeepRowsValid` for the POST as written, the corrected POST, PUT,
PATCH and DELETE). The store itself enforces only the column
constraints.

The handlers are served under `/api/livros`. POST does not clear an id sent in
the request body (see Findings).

## Model

| member | source | states |
|---|---|---|
| `Model.Livro.constructor` | src/main/java/com/biblioteca/api/model/Livro.java:35-36 | the no-argument constructor leaves every field null, so the record is neither valid nor complete |
| `Model.Livro.WithFields` | src/main/java/com/biblioteca/api/model/Livro.java:38-44 | the five-argument constructor sets each business field to its argument and leaves the id null |
| `Model.Livro.SetId` | src/main/java/com/biblioteca/api/model/Livro.java:46-52 | after setId, getId returns the value just set and no other field changes |
| `Model.Livro.SetTitulo` | src/main/java/com/biblioteca/api/model/Livro.java:54-60 | after setTitulo, getTitulo returns the value just set and no other field changes |
| `Model.Livro.SetAutor` | src/main/java/com/biblioteca/api/model/Livro.java:62-68 | after setAutor, getAutor returns the value just set and no other field changes |
| `Model.Livro.SetIsbn` | src/main/java/com/biblioteca/api/model/Livro.java:70-76 | after setIsbn, getIsbn returns the value just set and no other field changes |
| `Model.Livro.SetAnoPublicacao` | src/main/java/com/biblioteca/api/model/Livro.java:78-84 | after setAnoPublicacao, getAnoPublicacao returns the value just set and no other field changes |
| `Model.Livro.SetDisponivel` | src/main/java/com/biblioteca/api/model/Livro.java:86-92 | after setDisponivel, getDisponivel returns the value just set and no other field changes |
| `Model.IsWhitespace` | src/main/java/com/biblioteca/api/controller/LivroController.java:73-79 | the characters `Character.isWhitespace` accepts among the first 128 code points: TAB, LF, VT, FF, CR, U+001C..U+001F and SPACE |
| `Model.IsBlank` | src/main/java/com/biblioteca/api/controller/LivroController.java:73-79 | `String.isBlank()`: every character is whitespace, so the empty string is blank |
| `Model.HasText` | src/main/java/com/biblioteca/api/controller/LivroController.java:73-79 | PATCH's guard on a text field: the value is non-null and not blank |
| `Model.IsComplete` | src/main/java/com/biblioteca/api/model/Livro.java:15-33 | the `nullable = false` column constraints: all five business fields are non-null |
| `Model.IsValid` | src/main/java/com/biblioteca/api/model/Livro.java:15-33 | the validation rule: titulo, autor and isbn are non-null and non-blank, and anoPublicacao and disponivel are non-null |
| `Model.ValidIsComplete` | src/main/java/com/biblioteca/api/model/Livro.java:15-33 | a record that passes validation satisfies every NOT NULL column constraint |
| `Model.BlankTextIsInvalid` | src/main/java/com/biblioteca/api/model/Livro.java:15-25 | a titulo, autor or isbn made only of whitespace (the empty string included) fails validation |
| `Repository.TableInv` | src/main/java/com/biblioteca/api/model/Livro.java:11-33 | the table's constraints: each row carries its key as its generated id, every key is below the next identity value, no business column is null, and no two rows share an isbn |
| `Repository.IsbnHeldByOther` | src/main/java/com/biblioteca/api/model/Livro.java:24 | the `unique = true` check on isbn: some stored row, other than the one being saved, already holds this isbn |
| `Repository.RowsValid` | src/main/java/com/biblioteca/api/model/Livro.java:15-33 | every stored row passes the entity's validation rule |
| `Repository.Lists` | src/main/java/com/biblioteca/api/controller/LivroController.java:31 | a findAll result: every element is a stored row under its own id, every stored row appears, no element is repeated, and the length equals the number of rows, so each row appears exactly once |
| `Repository.SaveTo` | src/main/java/com/biblioteca/api/model/Livro.java:11-33 | save fails exactly when a business field is null or another row holds the isbn, and then changes nothing; otherwise the saved record ends up in the table under its id, and the table invariant is kept |
| `Repository.SaveAssignsFreshId` | src/main/java/com/biblioteca/api/model/Livro.java:11-13 | saving a new record gives it an id that no stored row had, and the table grows by one row |
| `Repository.SaveRejectsDuplicateIsbn` | src/main/java/com/biblioteca/api/model/Livro.java:24 | a save that would leave two rows with the same isbn fails and leaves the table unchanged |
| `Repository.SaveUpdatesInPlace` | src/main/java/com/biblioteca/api/controller/LivroController.java:58 | saving a record whose id names a stored row keeps the set of keys and changes no other row |
| `Repository.DeleteFrom` | src/main/java/com/biblioteca/api/controller/LivroController.java:101 | deleteById removes exactly that key, keeps every other row and keeps the table invariant |
| `Repository.ListsEmpty` | src/main/java/com/biblioteca/api/controller/LivroController.java:31 | a listing of the empty table is the empty sequence |
| `Repository.LivroRepository.FindAll` | src/main/java/com/biblioteca/api/controller/LivroController.java:31 | findAll returns every stored row exactly once, in some order, and changes nothing |
| `Repository.LivroRepository.FindById` | src/main/java/com/biblioteca/api/controller/LivroController.java:37 | findById returns an entity holding the stored row iff the id is present, otherwise null |
| `Repository.LivroRepository.Save` | src/main/java/com/biblioteca/api/controller/LivroController.java:25 | the new table and the returned record are those SaveTo gives, and the table invariant is kept |
| `Repository.LivroRepository.DeleteById` | src/main/java/com/biblioteca/api/controller/LivroController.java:101 | the new table is the old one without that key |
| `Controller.Overwrite` | src/main/java/com/biblioteca/api/controller/LivroController.java:51-56 | PUT's record takes all five business fields from the input and keeps the stored id |
| `Controller.Merge` | src/main/java/com/biblioteca/api/controller/LivroController.java:73-87 | PATCH's record takes titulo, autor and isbn iff the incoming value is non-null and non-blank, anoPublicacao and disponivel iff non-null, and keeps the id |
| `Controller.MergeIdempotent` | src/main/java/com/biblioteca/api/controller/LivroController.java:73-87 | merging the same incoming record twice gives the same record as merging it once |
| `Controller.MergeNothingIsIdentity` | src/main/java/com/biblioteca/api/controller/LivroController.java:73-87 | an incoming record whose fields are all null or blank leaves the stored record unchanged |
| `Controller.MergeKeepsValidity` | src/main/java/com/biblioteca/api/controller/LivroController.java:73-87 | the merge of anything into a valid (or complete) record is valid (or complete) |
| `Controller.MergeOfValidIsOverwrite` | src/main/java/com/biblioteca/api/controller/LivroController.java:73-87 | on a valid incoming record the PATCH merge equals PUT's overwrite |
| `Controller.OverwriteWithValidIsValid` | src/main/java/com/biblioteca/api/controller/LivroController.java:51-56 | PUT with a valid input produces a valid record |
| `Controller.Create` | src/main/java/com/biblioteca/api/controller/LivroController.java:23-27 | POST, with the body's id cleared before the save, keeps the table invariant |
| `Controller.CreateAsWritten` | src/main/java/com/biblioteca/api/controller/LivroController.java:23-27 | POST as written, saving the body with its id, keeps the table invariant |
| `Controller.Put` | src/main/java/com/biblioteca/api/controller/LivroController.java:42-60 | PUT keeps the table invariant |
| `Controller.Patch` | src/main/java/com/biblioteca/api/controller/LivroController.java:62-91 | PATCH keeps the table invariant |
| `Controller.Delete` | src/main/java/com/biblioteca/api/controller/LivroController.java:93-103 | DELETE keeps the table invariant |
| `Controller.Get` | src/main/java/com/biblioteca/api/controller/LivroController.java:35-40 | GET by id answers 200 exactly when the id is stored, with that row as the body, and otherwise 404 with no body |
| `Controller.CreateStoresNewRecord` | src/main/java/com/biblioteca/api/controller/LivroController.java:23-27 | the corrected POST of a valid record succeeds iff no row holds its isbn. On success it answers 201 with the input under a fresh id, and the table grows by exactly that row. On a duplicate isbn it raises and changes nothing |
| `Controller.CreateIgnoresInputId` | src/main/java/com/biblioteca/api/controller/LivroController.java:23-27 | the corrected POST gives the same table and answer whatever id the body carries |
| `Controller.CreateThenGet` | src/main/java/com/biblioteca/api/controller/LivroController.java:23-40 | after a successful POST, GET by the returned id answers 200 with the saved record |
| `Controller.AbsentIdIsNotFound` | src/main/java/com/biblioteca/api/controller/LivroController.java:35-99 | GET, PUT, PATCH and DELETE on an absent id answer 404 with no body and leave the table unchanged; for PUT this is the handler's answer to a body that passed `@Valid` |
| `Controller.PutOverwritesRecord` | src/main/java/com/biblioteca/api/controller/LivroController.java:42-60 | PUT of a valid record on a present id succeeds iff no other row holds its isbn. On success the row gets all five input fields and keeps its id, no other row changes, and the answer is 200 with the updated record. Otherwise it raises and changes nothing |
| `Controller.PatchMergesRecord` | src/main/java/com/biblioteca/api/controller/LivroController.java:62-91 | PATCH on a present id succeeds iff no other row holds the merged isbn. On success it stores the merged record, keeps every other row and answers 200 with the merged record. Otherwise it raises a duplicate-isbn error and changes nothing. It never trips a NOT NULL column |
| `Controller.PatchNothingIsNoOp` | src/main/java/com/biblioteca/api/controller/LivroController.java:73-90 | PATCH with every field null or blank leaves the table unchanged and answers 200 with the stored record |
| `Controller.PatchTwiceIsPatchOnce` | src/main/java/com/biblioteca/api/controller/LivroController.java:62-91 | applying the same PATCH twice gives the same table and answer as applying it once |
| `Controller.PatchWithValidIsPut` | src/main/java/com/biblioteca/api/controller/LivroController.java:42-91 | on a valid incoming record PATCH and PUT give the same table and answer |
| `Controller.DeleteRemovesRecord` | src/main/java/com/biblioteca/api/controller/LivroController.java:93-103 | DELETE on a present id answers 204 and removes exactly that row. A later GET of the id answers 404, and so does a second DELETE |
| `Controller.CreateAsWrittenOverwrites` | src/main/java/com/biblioteca/api/controller/LivroController.java:23-27 | on one concrete table and body carrying the id of a stored row, criarLivro as written answers 201 and replaces that row, and the table does not grow (`CreateAsWrittenUpdatesStoredRow` states this for all inputs) |
| `Controller.CreateAsWrittenAgreesOnNew` | src/main/java/com/biblioteca/api/controller/LivroController.java:23-27 | on a body whose id is null or names no stored row, criarLivro as written and the corrected POST give the same table and answer |
| `Controller.CreateAsWrittenUpdatesStoredRow` | src/main/java/com/biblioteca/api/controller/LivroController.java:23-27 | on a valid body carrying the id of a stored row, criarLivro as written succeeds iff no other row holds the isbn. It then answers 201, replaces that row with the body, and the table keeps its size. Otherwise it raises and changes nothing |
| `Controller.HandlersKeepRowsValid` | src/main/java/com/biblioteca/api/controller/LivroController.java:23-103 | starting from a table whose rows are all valid, the POST as written, the corrected POST and PUT of a valid body, any PATCH and any DELETE leave every row valid |
| `Controller.LivroController.constructor` | src/main/java/com/biblioteca/api/controller/LivroController.java:19-21 | the controller keeps the repository it is given |
| `Controller.LivroController.CriarLivro` | src/main/java/com/biblioteca/api/controller/LivroController.java:23-27 | on a valid body, the entity's id is cleared, the new table and the answer are those of Create, and the table invariant is kept |
| `Controller.LivroController.CriarLivroAsWritten` | src/main/java/com/biblioteca/api/controller/LivroController.java:23-27 | on a valid body, the new table and the answer are those of CreateAsWritten |
| `Controller.LivroController.ListarLivros` | src/main/java/com/biblioteca/api/controller/LivroController.java:29-33 | answers 200 with every stored record exactly once (the empty sequence for an empty table) and changes nothing |
| `Controller.LivroController.BuscarLivroPorId` | src/main/java/com/biblioteca/api/controller/LivroController.java:35-40 | answers 200 with the stored record when the id is present, otherwise 404 with no body; changes nothing |
| `Controller.LivroController.AtualizarLivro` | src/main/java/com/biblioteca/api/controller/LivroController.java:42-60 | on a valid body, the setters followed by save give the table and answer of Put |
| `Controller.LivroController.AtualizarParcialLivro` | src/main/java/com/biblioteca/api/controller/LivroController.java:62-91 | the guarded setters followed by save give the table and answer of Patch |
| `Controller.LivroController.MergeInto` | src/main/java/com/biblioteca/api/controller/LivroController.java:73-87 | the five guarded setter calls leave the entity holding Merge of its old value and the incoming record |
| `Controller.LivroController.DeletarLivro` | src/main/java/com/biblioteca/api/controller/LivroController.java:93-103 | the table and answer are those of Delete |

## Findings

| source | as written | input that shows it | evidently intended | confidence | as-written member | corrected member |
|---|---|---|---|---|---|---|
| src/main/java/com/biblioteca/api/controller/LivroController.java:23-27 | criarLivro saves the request body as it arrived. The public setId lets the body bind an id. Spring Data's save treats an entity with a non-null id as existing and merges it | a POST whose body carries `"id": 1` while row 1 is stored: the answer is 201, row 1 is replaced by the body, and no row is added | a create always inserts a new record under a store-assigned id, and ignores any id in the body | not executed; follows from Spring Data's rule that an entity with a non-null id is not new | `Controller.CreateAsWritten`, `Controller.CreateAsWrittenOverwrites`, `Controller.CreateAsWrittenUpdatesStoredRow`, `Controller.LivroController.CriarLivroAsWritten` | `Controller.Create`, `Controller.CreateStoresNewRecord`, `Controller.LivroController.CriarLivro` (clears the id with setId(null) before the save) |

## Left out

- Spring routing, `ResponseEntity` construction and JSON (de)serialisation are not modelled. A response is a `Response` value. A body is a `Book` value or a sequence of them. The JSON request body is a `Livro` handed to the handler.
- Bean Validation (`@Valid`) is not modelled as machinery. `IsValid` is a precondition of `CriarLivro` and `AtualizarLivro`. The 400 answer with per-field messages that Spring sends for an invalid body is not modelled. Neither is the fact that Spring validates a PUT body before the handler looks the id up.
- Hibernate Validator implements `@NotBlank` with `trim()`, which drops characters up to U+0020. PATCH uses `String.isBlank()`, which uses `Character.isWhitespace`. The model uses a single notion of blank for both: the ASCII part of `Character.isWhitespace`. Unicode whitespace above U+007F is not modelled.
- The getters `getId` … `getDisponivel` (Livro.java:46-88) are direct reads of the fields.
- The JPA persistence context is not modelled. `FindById` returns a fresh entity, a copy of the stored row. `Save` returns the saved value and does not write a generated id back into its argument. The handlers use only the returned value, as the Java handlers do. Aliasing between managed entities is not modelled.
- `Save` of an entity whose id names no stored row is modelled as an insert under a fresh id. Older Hibernate versions merge such a detached entity that way; newer ones may raise an error instead. The handlers reach this case only through the as-written POST.
- The IDENTITY id-generation scheme is a counter that starts at 1. Only freshness is relied on.
- Bean Validation run by JPA when an entity is persisted or updated is not modelled. The store enforces only the NOT NULL and unique column constraints.
- Store failures other than a null column or a duplicate isbn are not modelled. Neither is the exact HTTP status of an uncaught store exception.
- The unguarded find-then-save and find-then-delete sequences under concurrent requests are not modelled. Each handler is one atomic step.
- Java `Long` and `Integer` overflow is not modelled: ids and years are unbounded integers.
- src/main/java/com/biblioteca/api/repository/LivroRepository.java is not part of this model. The repository is modelled from the Spring Data contract of `save`, `findAll`, `findById` and `deleteById`.
