/**
 * The book entity (Livro): its fields, its constructors and setters, and the
 * validity rule that its @NotBlank / @NotNull annotations impose.
 */
module Model {
  import opened Wrappers

  /**
   * The value of a Livro at one moment: the store-assigned id and the five
   * business fields, each of which may be null.
   */
  datatype Book = Book(
    id: Option<int>,
    titulo: Option<string>,
    autor: Option<string>,
    isbn: Option<string>,
    anoPublicacao: Option<int>,
    disponivel: Option<bool>)

  /** The value of a Livro built with the no-argument constructor. */
  const NoFields: Book := Book(None, None, None, None, None, None)

  /**
   * Character.isWhitespace restricted to the first 128 code points:
   * TAB, LF, VT, FF, CR, the four separators U+001C..U+001F and SPACE.
   */
  predicate IsWhitespace(c: char) {
    var n := c as int;
    (9 <= n <= 13) || (28 <= n <= 32)
  }

  /** String.isBlank: every character is whitespace (so "" is blank). */
  predicate IsBlank(s: string) {
    forall i :: 0 <= i < |s| ==> IsWhitespace(s[i])
  }

  /** A text field that is non-null and non-blank. */
  predicate HasText(o: Option<string>) {
    o.Some? && !IsBlank(o.value)
  }

  /**
   * The Bean Validation rule: titulo, autor and isbn are @NotBlank,
   * anoPublicacao and disponivel are @NotNull. The id is not constrained.
   */
  predicate IsValid(b: Book) {
    && HasText(b.titulo)
    && HasText(b.autor)
    && HasText(b.isbn)
    && b.anoPublicacao.Some?
    && b.disponivel.Some?
  }

  /** The NOT NULL column constraints: every business field is non-null. */
  predicate IsComplete(b: Book) {
    && b.titulo.Some?
    && b.autor.Some?
    && b.isbn.Some?
    && b.anoPublicacao.Some?
    && b.disponivel.Some?
  }

  /** A valid record satisfies every NOT NULL column constraint. */
  lemma ValidIsComplete(b: Book)
    requires IsValid(b)
    ensures IsComplete(b)
  {
  }

  /** A text field that is present but made of whitespace fails validation. */
  lemma BlankTextIsInvalid(b: Book, s: string)
    requires b.titulo == Some(s) || b.autor == Some(s) || b.isbn == Some(s)
    requires IsBlank(s)
    ensures !IsValid(b)
  {
  }

  /** The mutable entity: each field is changed in place by its setter. */
  class Livro {
    var id: Option<int>
    var titulo: Option<string>
    var autor: Option<string>
    var isbn: Option<string>
    var anoPublicacao: Option<int>
    var disponivel: Option<bool>

    /** The current value of this entity. */
    function Snapshot(): Book
      reads this
    {
      Book(id, titulo, autor, isbn, anoPublicacao, disponivel)
    }

    /** The no-argument constructor: every field is null, so the record is invalid. */
    constructor ()
      ensures Snapshot() == NoFields
      ensures !IsValid(Snapshot()) && !IsComplete(Snapshot())
    {
      id, titulo, autor, isbn, anoPublicacao, disponivel := None, None, None, None, None, None;
    }

    /** The five-argument constructor: the business fields as given, no id. */
    constructor WithFields(titulo: Option<string>, autor: Option<string>, isbn: Option<string>,
                           anoPublicacao: Option<int>, disponivel: Option<bool>)
      ensures id.None?
      ensures this.titulo == titulo && this.autor == autor && this.isbn == isbn
      ensures this.anoPublicacao == anoPublicacao && this.disponivel == disponivel
    {
      this.id := None;
      this.titulo := titulo;
      this.autor := autor;
      this.isbn := isbn;
      this.anoPublicacao := anoPublicacao;
      this.disponivel := disponivel;
    }

    method SetId(v: Option<int>)
      modifies this
      ensures id == v
      ensures Snapshot() == old(Snapshot()).(id := v)
    {
      id := v;
    }

    method SetTitulo(v: Option<string>)
      modifies this
      ensures titulo == v
      ensures Snapshot() == old(Snapshot()).(titulo := v)
    {
      titulo := v;
    }

    method SetAutor(v: Option<string>)
      modifies this
      ensures autor == v
      ensures Snapshot() == old(Snapshot()).(autor := v)
    {
      autor := v;
    }

    method SetIsbn(v: Option<string>)
      modifies this
      ensures isbn == v
      ensures Snapshot() == old(Snapshot()).(isbn := v)
    {
      isbn := v;
    }

    method SetAnoPublicacao(v: Option<int>)
      modifies this
      ensures anoPublicacao == v
      ensures Snapshot() == old(Snapshot()).(anoPublicacao := v)
    {
      anoPublicacao := v;
    }

    method SetDisponivel(v: Option<bool>)
      modifies this
      ensures disponivel == v
      ensures Snapshot() == old(Snapshot()).(disponivel := v)
    {
      disponivel := v;
    }
  }
}
