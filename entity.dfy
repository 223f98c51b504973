/**
 * The Book and Author entities: fields changed in place by setters, the
 * many-to-many collections, the lifecycle timestamp callbacks and the
 * validation constraints written as explicit predicates.
 * Timestamps are the values a clock parameter supplies.
 */
module Entity {
  import opened Wrappers
  import opened Text
  import opened Collection

  type Timestamp = int

  /** A snapshot of a Book's fields; also the shape of a denormalized request body. */
  datatype BookState = BookState(
    id: Option<nat>,
    title: Option<string>,
    description: Option<string>,
    image: Option<string>,
    authors: seq<Author>,
    publishedAt: Option<Timestamp>,
    createdAt: Option<Timestamp>,
    updatedAt: Option<Timestamp>)

  /** The constraints on Book: NotBlank title, image and published_at, Count(min: 1) authors. */
  datatype BookViolation = TitleBlank | ImageBlank | NoAuthor | PublishedAtBlank

  /** What the validator reports for a book. */
  function BookViolations(s: BookState): (r: set<BookViolation>)
    ensures r == {} <==> !IsBlank(s.title) && !IsBlank(s.image) && |s.authors| >= 1 && s.publishedAt.Some?
    ensures NoAuthor in r <==> s.authors == []
  {
    (if IsBlank(s.title) then {TitleBlank} else {})
    + (if IsBlank(s.image) then {ImageBlank} else {})
    + (if |s.authors| == 0 then {NoAuthor} else {})
    + (if s.publishedAt.None? then {PublishedAtBlank} else {})
  }

  /** The constraints on Author: NotBlank name; NotBlank surname of at least 3 characters. */
  datatype AuthorViolation = NameBlank | SurnameBlank | SurnameTooShort

  /**
   * What the validator reports for an author. Length skips null but counts
   * "" as too short; the patronymic is unconstrained.
   */
  function AuthorViolations(name: Option<string>, surname: Option<string>): (r: set<AuthorViolation>)
    ensures r == {} <==> !IsBlank(name) && surname.Some? && |surname.value| >= 3
  {
    (if IsBlank(name) then {NameBlank} else {})
    + (if IsBlank(surname) then {SurnameBlank} else {})
    + (if surname.Some? && |surname.value| < 3 then {SurnameTooShort} else {})
  }

  class Book {
    var id: Option<nat>
    var title: Option<string>
    var description: Option<string>
    var image: Option<string>
    var authors: seq<Author>
    var publishedAt: Option<Timestamp>
    var createdAt: Option<Timestamp>
    var updatedAt: Option<Timestamp>

    function State(): BookState
      reads this
    {
      BookState(id, title, description, image, authors, publishedAt, createdAt, updatedAt)
    }

    constructor ()
      ensures State() == BookState(None, None, None, None, [], None, None, None)
    {
      id, title, description, image := None, None, None, None;
      authors := [];
      publishedAt, createdAt, updatedAt := None, None, None;
    }

    method SetTitle(t: string)
      modifies this`title
      ensures title == Some(t)
    {
      title := Some(t);
    }

    method SetDescription(d: Option<string>)
      modifies this`description
      ensures description == d
    {
      description := d;
    }

    method SetImage(name: string)
      modifies this`image
      ensures image == Some(name)
    {
      image := Some(name);
    }

    method SetPublishedAt(t: Timestamp)
      modifies this`publishedAt
      ensures publishedAt == Some(t)
    {
      publishedAt := Some(t);
    }

    method SetCreatedAt(t: Timestamp)
      modifies this`createdAt
      ensures createdAt == Some(t)
    {
      createdAt := Some(t);
    }

    method SetUpdatedAt(t: Timestamp)
      modifies this`updatedAt
      ensures updatedAt == Some(t)
    {
      updatedAt := Some(t);
    }

    /** The PrePersist callback; `now` is the clock's reading. */
    method SetCreatedAtValue(now: Timestamp)
      modifies this`createdAt, this`updatedAt
      ensures createdAt == Some(now) && updatedAt == Some(now)
    {
      createdAt := Some(now);
      SetUpdatedAtValue(now);
    }

    /** The PreUpdate callback. */
    method SetUpdatedAtValue(now: Timestamp)
      modifies this`updatedAt
      ensures updatedAt == Some(now)
    {
      updatedAt := Some(now);
    }

    method AddAuthor(a: Author)
      modifies this`authors
      ensures authors == Added(old(authors), a)
      ensures a in authors
      ensures NoDuplicates(old(authors)) ==> NoDuplicates(authors)
    {
      if a !in authors {
        authors := authors + [a];
      }
    }

    method RemoveAuthor(a: Author)
      modifies this`authors
      ensures authors == Removed(old(authors), a)
      ensures NoDuplicates(old(authors)) ==> a !in authors && NoDuplicates(authors)
      ensures Elements(authors) - {a} == Elements(old(authors)) - {a}
    {
      if a in authors {
        var k := FirstIndex(authors, a);
        authors := authors[..k] + authors[k + 1..];
      }
    }

    /** `getAuthors()->clear()`. */
    method ClearAuthors()
      modifies this`authors
      ensures authors == []
    {
      authors := [];
    }
  }

  class Author {
    var id: Option<nat>
    var name: Option<string>
    var surname: Option<string>
    var patronymic: Option<string>
    var books: seq<Book>
    var createdAt: Option<Timestamp>
    var updatedAt: Option<Timestamp>

    constructor ()
      ensures id.None? && name.None? && surname.None? && patronymic.None?
      ensures books == [] && createdAt.None? && updatedAt.None?
    {
      id, name, surname, patronymic := None, None, None, None;
      books := [];
      createdAt, updatedAt := None, None;
    }

    method SetName(n: string)
      modifies this`name
      ensures name == Some(n)
    {
      name := Some(n);
    }

    method SetSurname(s: string)
      modifies this`surname
      ensures surname == Some(s)
    {
      surname := Some(s);
    }

    method SetPatronymic(p: Option<string>)
      modifies this`patronymic
      ensures patronymic == p
    {
      patronymic := p;
    }

    method SetCreatedAt(t: Timestamp)
      modifies this`createdAt
      ensures createdAt == Some(t)
    {
      createdAt := Some(t);
    }

    method SetUpdatedAt(t: Timestamp)
      modifies this`updatedAt
      ensures updatedAt == Some(t)
    {
      updatedAt := Some(t);
    }

    /** The PrePersist callback. */
    method SetCreatedAtValue(now: Timestamp)
      modifies this`createdAt, this`updatedAt
      ensures createdAt == Some(now) && updatedAt == Some(now)
    {
      createdAt := Some(now);
      SetUpdatedAtValue(now);
    }

    /** The PreUpdate callback. */
    method SetUpdatedAtValue(now: Timestamp)
      modifies this`updatedAt
      ensures updatedAt == Some(now)
    {
      updatedAt := Some(now);
    }

    /** Adds the book on this side and, when it was new here, this author on the book's side. */
    method AddBook(b: Book)
      modifies this`books, b`authors
      ensures books == Added(old(books), b)
      ensures b.authors == if b in old(books) then old(b.authors) else Added(old(b.authors), this)
      ensures old(b in books <==> this in b.authors) ==> b in books && this in b.authors
    {
      if b !in books {
        books := books + [b];
        b.AddAuthor(this);
      }
    }

    /** Removes the book here and, only when it was present, this author on the book's side. */
    method RemoveBook(b: Book)
      modifies this`books, b`authors
      ensures books == Removed(old(books), b)
      ensures b.authors == if b in old(books) then Removed(old(b.authors), this) else old(b.authors)
      ensures old(b in books <==> this in b.authors) && NoDuplicates(old(books)) && NoDuplicates(old(b.authors)) ==>
        b !in books && this !in b.authors
    {
      if b in books {
        var k := FirstIndex(books, b);
        books := books[..k] + books[k + 1..];
        b.RemoveAuthor(this);
      }
    }
  }

  // ---------------------------------------------------------------------------
  // The two sides of the many-to-many relation

  /**
   * Among the given authors and books, each side lists the other exactly when
   * it is listed by it, and no collection holds an entry twice.
   */
  ghost predicate Linked(authorSet: set<Author>, bookSet: set<Book>)
    reads authorSet, bookSet
  {
    && (forall a | a in authorSet :: NoDuplicates(a.books))
    && (forall b | b in bookSet :: NoDuplicates(b.authors))
    && (forall a, b | a in authorSet && b in bookSet :: b in a.books <==> a in b.authors)
  }

  /** After `a.AddBook(b)` (its postconditions authorSet requires), the relation stays in sync. */
  twostate lemma AddBookKeepsLinked(a: Author, b: Book, authorSet: set<Author>, bookSet: set<Book>)
    requires old(Linked(authorSet, bookSet)) && a in authorSet && b in bookSet
    requires forall x | x in authorSet && x != a :: x.books == old(x.books)
    requires forall y | y in bookSet && y != b :: y.authors == old(y.authors)
    requires a.books == Added(old(a.books), b)
    requires b.authors == if b in old(a.books) then old(b.authors) else Added(old(b.authors), a)
    ensures Linked(authorSet, bookSet)
  {
    forall x, y | x in authorSet && y in bookSet ensures y in x.books <==> x in y.authors {
      if x == a && y != b {
        InElements(old(a.books), y);
        InElements(a.books, y);
      } else if x != a && y == b {
        InElements(old(b.authors), x);
        InElements(b.authors, x);
      }
    }
  }

  /** After `a.RemoveBook(b)` (its postconditions authorSet requires), the relation stays in sync. */
  twostate lemma RemoveBookKeepsLinked(a: Author, b: Book, authorSet: set<Author>, bookSet: set<Book>)
    requires old(Linked(authorSet, bookSet)) && a in authorSet && b in bookSet
    requires forall x | x in authorSet && x != a :: x.books == old(x.books)
    requires forall y | y in bookSet && y != b :: y.authors == old(y.authors)
    requires a.books == Removed(old(a.books), b)
    requires b.authors == if b in old(a.books) then Removed(old(b.authors), a) else old(b.authors)
    ensures Linked(authorSet, bookSet)
  {
    forall x, y | x in authorSet && y in bookSet ensures y in x.books <==> x in y.authors {
      if x == a && y != b {
        InRemoved(old(a.books), b, y);
      } else if x != a && y == b && b in old(a.books) {
        InRemoved(old(b.authors), a, x);
      }
    }
  }
}
