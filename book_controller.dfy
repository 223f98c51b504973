/**
 * BookController: dispatch by HTTP method, `create`, `update` and
 * `handleImageUpload`, over an abstract store that stands for Doctrine's
 * repositories (maps from id to entity), the rows written by `flush`, and
 * the images directory (a set of file names). The unique token `uniqid()`
 * and the clock are parameters.
 */
module BookController {
  import opened Wrappers
  import opened Text
  import opened Collection
  import opened Entity
  import opened ImageCodec
  import opened AuthorRefs

  datatype HttpMethod = Post | Put | OtherMethod

  datatype Status = Created | Ok | NotFound | UnprocessableEntity | InternalServerError | MethodNotAllowed

  /** The decoded JSON body; a missing key and an explicit null are both None. */
  datatype Payload = Payload(
    title: Option<string>,
    description: Option<string>,
    image: Option<string>,
    authors: Option<seq<AuthorRef>>,
    publishedAt: Option<Timestamp>)

  /** `getRepository(Author::class)->find($key)`: the key is read as an integer id. */
  function FindAuthor(key: string, authors: map<nat, Author>): (r: Option<Author>)
    ensures !(|key| >= 1 && IsDigits(key)) ==> r.None?
    ensures forall n: nat :: key == Decimal(n) ==> r == if n in authors then Some(authors[n]) else None
    ensures r.Some? ==> r.value in authors.Values
  {
    ParseDecimalOfEveryDecimal();
    match ParseDecimal(key)
    case None => None
    case Some(n) => if n in authors then Some(authors[n]) else None
  }

  lemma ParseDecimalOfEveryDecimal()
    ensures forall n: nat :: ParseDecimal(Decimal(n)) == Some(n)
  {
    forall n: nat
      ensures ParseDecimal(Decimal(n)) == Some(n)
    {
      ParseDecimalOfDecimal(n);
    }
  }

  /**
   * The denormalizer's resolution of the `authors` IRIs: each goes through the
   * author route and a lookup; the first one that fails makes it throw.
   */
  function ResolveIris(iris: seq<string>, authors: map<nat, Author>): (r: Option<seq<Author>>)
    ensures r.Some? ==> |r.value| == |iris|
  {
    if |iris| == 0 then Some([])
    else match IriKey(iris[0])
      case None => None
      case Some(key) =>
        match FindAuthor(key, authors)
        case None => None
        case Some(a) =>
          match ResolveIris(iris[1..], authors)
          case None => None
          case Some(rest) => Some([a] + rest)
  }

  /** Resolution succeeds exactly when every IRI names a known author, and yields those authors. */
  lemma {:induction false} ResolveIrisMeaning(iris: seq<string>, authors: map<nat, Author>)
    ensures var r := ResolveIris(iris, authors);
      r.Some? ==> forall i :: 0 <= i < |iris| ==>
        IriKey(iris[i]).Some? && FindAuthor(IriKey(iris[i]).value, authors) == Some(r.value[i])
    ensures ResolveIris(iris, authors).None? ==> exists i :: (0 <= i < |iris| &&
      (IriKey(iris[i]).None? || FindAuthor(IriKey(iris[i]).value, authors).None?))
  {
    if |iris| > 0 && IriKey(iris[0]).Some? && FindAuthor(IriKey(iris[0]).value, authors).Some? {
      ResolveIrisMeaning(iris[1..], authors);
      var r := ResolveIris(iris, authors);
      if r.None? {
        var i :| 0 <= i < |iris[1..]| &&
          (IriKey(iris[1..][i]).None? || FindAuthor(IriKey(iris[1..][i]).value, authors).None?);
        assert iris[1..][i] == iris[i + 1];
      } else {
        forall i | 0 <= i < |iris|
          ensures IriKey(iris[i]).Some? && FindAuthor(IriKey(iris[i]).value, authors) == Some(r.value[i])
        {
          if i > 0 {
            assert iris[1..][i - 1] == iris[i];
          }
        }
      }
    }
  }

  /**
   * The IRIs `handleAuthors` builds resolve exactly when every id is a known
   * author, and then to those authors, in order.
   */
  lemma ResolveHandledAuthors(refs: seq<AuthorRef>, authors: map<nat, Author>)
    ensures var r := ResolveIris(HandleAuthors(refs), authors);
      r.Some? <==> forall i :: 0 <= i < |IdsOf(refs)| ==> IdsOf(refs)[i] in authors
    ensures var r := ResolveIris(HandleAuthors(refs), authors);
      r.Some? ==> (|r.value| == |IdsOf(refs)| &&
        forall i :: 0 <= i < |IdsOf(refs)| ==> r.value[i] == authors[IdsOf(refs)[i]])
  {
    var iris := HandleAuthors(refs);
    var ids := IdsOf(refs);
    HandleAuthorsKeepsIds(refs);
    ResolveIrisMeaning(iris, authors);
    forall i | 0 <= i < |ids|
      ensures IriKey(iris[i]) == Some(Decimal(ids[i]))
      ensures ParseDecimal(Decimal(ids[i])) == Some(ids[i])
    {
      AuthorIriRoundTrip(ids[i]);
    }
  }

  /**
   * The transient Book the serializer builds from the body (group book:write):
   * no id and no timestamps yet, the written fields as sent, and each resolved
   * author once.
   */
  function Draft(p: Payload, resolved: seq<Author>): (r: BookState)
    ensures r.id.None? && r.createdAt.None? && r.updatedAt.None?
    ensures r.title == p.title && r.description == p.description && r.image == p.image && r.publishedAt == p.publishedAt
    ensures NoDuplicates(r.authors) && Elements(r.authors) == Elements(resolved)
  {
    DedupElements(resolved);
    BookState(None, p.title, p.description, p.image, Dedup(resolved), p.publishedAt, None, None)
  }

  /** An empty or missing `authors` field always fails validation with NoAuthor. */
  lemma EmptyAuthorsRejected(p: Payload, authors: map<nat, Author>)
    requires p.authors.None? || p.authors.value == []
    ensures ResolveIris(AuthorsField(p.authors), authors) == Some([])
    ensures NoAuthor in BookViolations(Draft(p, []))
  {
  }

  /** `uniqid()` is assumed to give a token no stored file name starts with. */
  predicate FreshToken(token: string, files: set<string>) {
    forall f | f in files :: !(token + "." <= f)
  }

  lemma FreshFilename(token: string, files: set<string>, plan: UploadPlan)
    requires FreshToken(token, files)
    requires plan.Write? && exists ext :: ext in ALLOWED_TYPES && plan.filename == token + "." + ext
    ensures plan.filename !in files
  {
    var ext :| ext in ALLOWED_TYPES && plan.filename == token + "." + ext;
    assert token + "." <= plan.filename;
  }

  // ---------------------------------------------------------------------------
  // The image swap of `update`, lines 106-110

  datatype ImageSwap = ImageSwap(image: Option<string>, files: set<string>, failed: bool)

  /** `unlink($dir . '/' . $image)` removes that file; with no stored name nothing is removed. */
  function Unlinked(stored: Option<string>): (r: set<string>)
    ensures forall f :: f in r <==> stored == Some(f)
  {
    if stored.Some? then {stored.value} else {}
  }

  /**
   * Upload according to `plan`, then, if it did not throw, unlink the stored
   * file. A rejection changes nothing; otherwise the stored file is gone and
   * the only file that may appear is the one written.
   */
  function SwapWith(plan: UploadPlan, stored: Option<string>, files: set<string>): (r: ImageSwap)
    ensures r.failed <==> plan.Rejected?
    ensures r.failed ==> r.image == stored && r.files == files
    ensures !r.failed && stored.Some? ==> stored.value !in r.files
    ensures forall f :: f in r.files ==> f in files || (plan.Write? && f == plan.filename)
    ensures plan.NoUpload? ==> r.image == stored
    ensures plan.Write? ==> r.image == Some(plan.filename) && (stored != r.image ==> plan.filename in r.files)
    ensures forall f :: f in files && stored != Some(f) ==> f in r.files
  {
    match plan
    case Rejected(_) => ImageSwap(stored, files, true)
    case NoUpload => ImageSwap(stored, files - Unlinked(stored), false)
    case Write(name, _) => ImageSwap(Some(name), files + {name} - Unlinked(stored), false)
  }

  /**
   * The swap as written: the upload guard is PHP truthiness. An unchanged
   * value touches nothing; a changed one fails exactly on a rejected upload,
   * and otherwise the stored file is unlinked.
   */
  function SwapImageAsWritten(stored: Option<string>, supplied: Option<string>, token: string, files: set<string>): (r: ImageSwap)
    ensures supplied == stored ==> r == ImageSwap(stored, files, false)
    ensures r.failed <==> supplied != stored && PlanImageUploadAsWritten(supplied, token).Rejected?
    ensures r.failed ==> r.image == stored && r.files == files
    ensures supplied != stored && !r.failed && stored.Some? ==> stored.value !in r.files
    ensures supplied != stored && !IsTruthy(supplied) ==> r.image == stored
    ensures forall f :: f in files && stored != Some(f) ==> f in r.files
    ensures supplied != Some("0") ==> r == SwapImage(stored, supplied, token, files)
  {
    if supplied == stored then ImageSwap(stored, files, false)
    else SwapWith(PlanImageUploadAsWritten(supplied, token), stored, files)
  }

  /**
   * The swap with the intended guard; this is what `Update` does. An
   * unchanged value touches nothing; a changed one fails exactly on a rejected
   * upload, and otherwise the book names the written file.
   */
  function SwapImage(stored: Option<string>, supplied: Option<string>, token: string, files: set<string>): (r: ImageSwap)
    ensures supplied == stored ==> r == ImageSwap(stored, files, false)
    ensures r.failed <==> supplied != stored && PlanImageUpload(supplied, token).Rejected?
    ensures r.failed ==> r.image == stored && r.files == files
    ensures supplied != stored && !r.failed && stored.Some? && r.image != stored ==> stored.value !in r.files
    ensures supplied != stored && !r.failed && !IsBlank(supplied) ==>
      r.image == Some(PlanImageUpload(supplied, token).filename)
    ensures forall f :: f in files && stored != Some(f) ==> f in r.files
  {
    if supplied == stored then ImageSwap(stored, files, false)
    else SwapWith(PlanImageUpload(supplied, token), stored, files)
  }

  /**
   * For a validated (non-blank) image: an unchanged value touches nothing; a
   * failed upload leaves the stored image and the files as they were; a
   * successful one writes a new file, unlinks only the old one, and the book
   * ends up naming a file that exists.
   */
  lemma SwapImageKeepsImageStored(stored: Option<string>, supplied: Option<string>, token: string, files: set<string>)
    requires stored.Some? && stored.value in files
    requires !IsBlank(supplied) && FreshToken(token, files)
    ensures var r := SwapImage(stored, supplied, token, files);
      && (supplied == stored ==> r == ImageSwap(stored, files, false))
      && (r.failed ==> r.image == stored && r.files == files)
      && (!r.failed ==> r.image.Some? && r.image.value in r.files)
      && (!r.failed && r.image != stored ==>
            r.image.value !in files && r.files == files + {r.image.value} - {stored.value})
  {
    var plan := PlanImageUpload(supplied, token);
    if supplied != stored && plan.Write? {
      FreshFilename(token, files, plan);
    }
  }

  /**
   * The swap as written, on the value "0" that NotBlank accepts: nothing is
   * uploaded, yet the stored file is unlinked while the book keeps its name.
   */
  lemma SwapImageAsWrittenUnlinksLiveImage()
    ensures var r := SwapImageAsWritten(Some("a.png"), Some("0"), "t", {"a.png"});
      !r.failed && r.image == Some("a.png") && "a.png" !in r.files
  {
    ZeroImageSkippedAsWritten("t");
  }

  // ---------------------------------------------------------------------------
  // The answers of `create` and `update`

  /**
   * `create`: 500 when an author IRI does not resolve (the denormalizer
   * throws), 422 on a violation, 500 when the upload is refused, else 201.
   */
  function CreateStatus(p: Payload, authors: map<nat, Author>, token: string): Status {
    var resolved := ResolveIris(AuthorsField(p.authors), authors);
    if resolved.None? then InternalServerError
    else if BookViolations(Draft(p, resolved.value)) != {} then UnprocessableEntity
    else if PlanImageUpload(p.image, token).Write? then Created
    else InternalServerError
  }

  /** `update` of a Book whose stored image is `stored`: as `create`, but a failed swap is the 500 and success 200. */
  function UpdateStatus(p: Payload, authors: map<nat, Author>, stored: Option<string>, token: string, files: set<string>): Status {
    var resolved := ResolveIris(AuthorsField(p.authors), authors);
    if resolved.None? then InternalServerError
    else if BookViolations(Draft(p, resolved.value)) != {} then UnprocessableEntity
    else if SwapImage(stored, p.image, token, files).failed then InternalServerError
    else Ok
  }

  /**
   * The row `create` commits under `id` when it answers 201: the draft with
   * the id, the written file name and both timestamps.
   */
  function CreatedRow(p: Payload, authors: map<nat, Author>, token: string, now: Timestamp, id: nat): BookState {
    var resolved := ResolveIris(AuthorsField(p.authors), authors);
    var plan := PlanImageUpload(p.image, token);
    Draft(p, if resolved.Some? then resolved.value else []).(
      id := Some(id), image := if plan.Write? then Some(plan.filename) else p.image,
      createdAt := Some(now), updatedAt := Some(now))
  }

  /**
   * The row `update` commits when it answers 200 for a Book stored as
   * `stored`: the payload's fields, the rebuilt authors, the swapped image and
   * the new updated_at; id and created_at are kept.
   */
  function UpdatedRow(p: Payload, authors: map<nat, Author>, stored: BookState, token: string, files: set<string>, now: Timestamp): BookState {
    var resolved := ResolveIris(AuthorsField(p.authors), authors);
    stored.(
      title := p.title, description := p.description,
      image := SwapImage(stored.image, p.image, token, files).image,
      authors := if resolved.Some? then Dedup(resolved.value) else stored.authors,
      publishedAt := p.publishedAt, updatedAt := Some(now))
  }

  /** The images directory after `update`: untouched unless validation passed, then as the swap leaves it. */
  function UpdatedFiles(p: Payload, authors: map<nat, Author>, stored: Option<string>, token: string, files: set<string>): set<string> {
    var resolved := ResolveIris(AuthorsField(p.authors), authors);
    if resolved.None? || BookViolations(Draft(p, resolved.value)) != {} then files
    else SwapImage(stored, p.image, token, files).files
  }

  /**
   * A valid body whose image decodes to at most 2 MiB is created; for an
   * update, a valid body that resends the stored image succeeds.
   */
  lemma ValidRequestsSucceed(p: Payload, authors: map<nat, Author>, stored: Option<string>, token: string, files: set<string>)
    requires ResolveIris(AuthorsField(p.authors), authors).Some?
    requires BookViolations(Draft(p, ResolveIris(AuthorsField(p.authors), authors).value)) == {}
    ensures DecodeBase64Image(p.image.value).Some? && |DecodeBase64Image(p.image.value).value.data| <= MAX_IMAGE_BYTES ==>
      CreateStatus(p, authors, token) == Created
    ensures p.image == stored ==> UpdateStatus(p, authors, stored, token, files) == Ok
  {
  }

  // ---------------------------------------------------------------------------
  // The controller over the store

  /** The serializer's `addAuthor` call for each resolved author, in order, on a Book with none yet. */
  method AddAuthors(book: Book, resolved: seq<Author>)
    requires book.authors == []
    modifies book`authors
    ensures book.authors == Dedup(resolved)
  {
    var i := 0;
    while i < |resolved|
      invariant 0 <= i <= |resolved|
      invariant book.authors == Dedup(resolved[..i])
    {
      DedupSnoc(resolved, i);
      book.AddAuthor(resolved[i]);
      i := i + 1;
    }
    assert resolved[..i] == resolved;
  }

  /** Creates a Book the way the serializer does: constructor, then setters and adders. */
  method Denormalize(p: Payload, resolved: seq<Author>) returns (book: Book)
    ensures fresh(book)
    ensures book.State() == Draft(p, resolved)
  {
    book := new Book();
    if p.title.Some? {
      book.SetTitle(p.title.value);
    }
    book.SetDescription(p.description);
    if p.image.Some? {
      book.SetImage(p.image.value);
    }
    AddAuthors(book, resolved);
    if p.publishedAt.Some? {
      book.SetPublishedAt(p.publishedAt.value);
    }
  }

  class Store {
    /** The Book repository's identity map: the managed Book of each id. */
    var books: map<nat, Book>
    /** The Author repository. */
    var authors: map<nat, Author>
    /** The Book rows as of the last flush. */
    ghost var db: map<nat, BookState>
    /** The names of the files in the images directory. */
    ghost var files: set<string>
    /** The id the database assigns to the next persisted Book. */
    var nextId: nat

    /**
     * Every stored row carries its own id, below the next one, and names an
     * image file that exists; no two rows name the same file.
     */
    ghost predicate Valid()
      reads this
    {
      && (forall id | id in db :: id < nextId && db[id].id == Some(id))
      && (forall id | id in db :: db[id].image.Some? && db[id].image.value in files)
      && (forall i, j | i in db && j in db && i != j :: db[i].image != db[j].image)
    }

    /** At the start of a request the managed Books are the stored rows, as loaded. */
    ghost predicate Loaded()
      reads this, books.Values
    {
      && books.Keys == db.Keys
      && forall id | id in books :: books[id].State() == db[id]
    }

    /** An empty database and images directory over the given authors: every request's precondition holds. */
    constructor (authors: map<nat, Author>)
      ensures Valid() && Loaded()
      ensures this.authors == authors && books == map[] && db == map[] && files == {} && nextId == 0
    {
      this.authors := authors;
      books := map[];
      db := map[];
      files := {};
      nextId := 0;
    }

    /** `handleImageUpload`; `ok == false` stands for the BadRequestHttpException. */
    method HandleImageUpload(image: Option<string>, book: Book, token: string) returns (ok: bool)
      requires Valid() && FreshToken(token, files)
      modifies this`files, book`image
      ensures Valid()
      ensures var plan := PlanImageUpload(image, token);
        && ok == !plan.Rejected?
        && (plan.Write? ==> files == old(files) + {plan.filename} && book.image == Some(plan.filename))
        && (!plan.Write? ==> files == old(files) && book.image == old(book.image))
      ensures PlanImageUpload(image, token).Write? ==>
        PlanImageUpload(image, token).filename !in old(files) && forall id | id in db :: db[id].image != book.image
    {
      var plan := PlanImageUpload(image, token);
      match plan {
        case NoUpload =>
          ok := true;
        case Rejected(_) =>
          ok := false;
        case Write(filename, _) =>
          FreshFilename(token, files, plan);
          files := files + {filename};
          book.SetImage(filename);
          ok := true;
      }
    }

    /** `create`: denormalize, validate, upload the image, persist and flush. */
    method Create(p: Payload, token: string, now: Timestamp) returns (status: Status)
      requires Valid() && FreshToken(token, files)
      modifies this
      ensures Valid()
      ensures authors == old(authors)
      ensures status == CreateStatus(p, authors, token)
      ensures status != Created ==> unchanged(this)
      ensures status == Created ==>
        var id := old(nextId);
        var plan := PlanImageUpload(p.image, token);
        && db == old(db)[id := CreatedRow(p, authors, token, now, id)]
        && id in books && fresh(books[id]) && books == old(books)[id := books[id]]
        && files == old(files) + {plan.filename}
        && nextId == id + 1
    {
      var iris := AuthorsField(p.authors);
      var resolved := ResolveIris(iris, authors);
      if resolved.None? {
        return InternalServerError;
      }
      var book := Denormalize(p, resolved.value);
      if BookViolations(book.State()) != {} {
        return UnprocessableEntity;
      }
      status := Save(book, p.image, token, now);
    }

    /** Lines 62-67 of `create` once validation has passed: the upload, then persist and flush. */
    method Save(book: Book, image: Option<string>, token: string, now: Timestamp) returns (status: Status)
      requires Valid() && FreshToken(token, files)
      requires book.image == image && !IsBlank(image)
      modifies this`files, this`books, this`db, this`nextId, book`image, book`id, book`createdAt, book`updatedAt
      ensures Valid()
      ensures authors == old(authors)
      ensures var plan := PlanImageUpload(image, token);
        && status == (if plan.Write? then Created else InternalServerError)
        && (status != Created ==> unchanged(this))
        && (status == Created ==>
              && books == old(books)[old(nextId) := book] && nextId == old(nextId) + 1
              && files == old(files) + {plan.filename}
              && book.id == Some(old(nextId)) && book.image == Some(plan.filename)
              && book.createdAt == Some(now) && book.updatedAt == Some(now)
              && db == old(db)[old(nextId) := book.State()])
    {
      var ok := HandleImageUpload(image, book, token);
      if !ok {
        return InternalServerError;
      }
      Persist(book, now);
      status := Created;
    }

    /** `persist` and `flush` of a new Book: PrePersist stamps it, the database gives it the next id. */
    method Persist(book: Book, now: Timestamp)
      requires Valid()
      requires book.image.Some? && book.image.value in files
      requires forall id | id in db :: db[id].image != book.image
      modifies this`books, this`db, this`nextId, book`id, book`createdAt, book`updatedAt
      ensures Valid()
      ensures books == old(books)[old(nextId) := book] && nextId == old(nextId) + 1
      ensures book.id == Some(old(nextId)) && book.createdAt == Some(now) && book.updatedAt == Some(now)
      ensures db == old(db)[old(nextId) := book.State()]
    {
      book.SetCreatedAtValue(now);
      var id := nextId;
      book.id := Some(id);
      books := books[id := book];
      nextId := nextId + 1;
      db := db[id := book.State()];
    }

    /**
     * `update` of the managed `book`: validate a denormalized copy first, then
     * set the fields, rebuild the authors from the IRIs read back with
     * `basename`, swap the image if the value changed, and flush.
     */
    method Update(p: Payload, book: Book, token: string, now: Timestamp) returns (status: Status)
      requires Valid() && FreshToken(token, files)
      requires book.id.Some? && book.id.value in db && db[book.id.value] == book.State()
      modifies this`files, this`db, book
      ensures Valid()
      ensures status == UpdateStatus(p, authors, old(book.image), token, old(files))
      ensures files == UpdatedFiles(p, authors, old(book.image), token, old(files))
      ensures status == Ok ==> db == old(db)[old(book.id).value := UpdatedRow(p, authors, old(book.State()), token, old(files), now)]
      ensures var resolved := ResolveIris(AuthorsField(p.authors), authors);
        resolved.None? || BookViolations(Draft(p, resolved.value)) != {} ==>
          && status == (if resolved.None? then InternalServerError else UnprocessableEntity)
          && unchanged(this) && unchanged(book)
      ensures var resolved := ResolveIris(AuthorsField(p.authors), authors);
        resolved.Some? && BookViolations(Draft(p, resolved.value)) == {} ==>
          var swap := SwapImage(old(book.image), p.image, token, old(files));
          && status == (if swap.failed then InternalServerError else Ok)
          && book.id == old(book.id) && book.createdAt == old(book.createdAt)
          && book.title == p.title && book.description == p.description && book.publishedAt == p.publishedAt
          && book.authors == Dedup(resolved.value)
          && book.image == swap.image && files == swap.files
          && (status == Ok ==> book.updatedAt == Some(now) && db == old(db)[book.id.value := book.State()])
          && (status == InternalServerError ==> book.updatedAt == old(book.updatedAt) && db == old(db))
    {
      var iris := AuthorsField(p.authors);
      var resolved := ResolveIris(iris, authors);
      if resolved.None? {
        return InternalServerError;
      }
      if BookViolations(Draft(p, resolved.value)) != {} {
        return UnprocessableEntity;
      }
      status := Apply(p, book, iris, resolved.value, token, now);
    }

    /** Lines 96-112 of `update` once validation has passed. */
    method Apply(p: Payload, book: Book, iris: seq<string>, resolved: seq<Author>, token: string, now: Timestamp)
      returns (status: Status)
      requires Valid() && FreshToken(token, files)
      requires book.id.Some? && book.id.value in db && db[book.id.value] == book.State()
      requires ResolveIris(iris, authors) == Some(resolved)
      requires p.title.Some? && p.publishedAt.Some? && !IsBlank(p.image)
      modifies this`files, this`db, book
      ensures Valid()
      ensures var swap := SwapImage(old(book.image), p.image, token, old(files));
        && status == (if swap.failed then InternalServerError else Ok)
        && book.State() == old(book.State()).(
             title := p.title, description := p.description, image := swap.image,
             authors := Dedup(resolved), publishedAt := p.publishedAt,
             updatedAt := if swap.failed then old(book.updatedAt) else Some(now))
        && files == swap.files
        && db == if swap.failed then old(db) else old(db)[book.id.value := book.State()]
    {
      SetFields(p, book, iris, resolved);
      status := ReplaceAndFlush(book, p.image, token, now);
    }

    /** Lines 96-104 of `update`: the setters, then the authors rebuilt from the IRIs. */
    method SetFields(p: Payload, book: Book, iris: seq<string>, resolved: seq<Author>)
      requires ResolveIris(iris, authors) == Some(resolved)
      requires p.title.Some? && p.publishedAt.Some?
      modifies book`title, book`description, book`publishedAt, book`authors
      ensures book.title == p.title && book.description == p.description && book.publishedAt == p.publishedAt
      ensures book.authors == Dedup(resolved)
    {
      book.SetTitle(p.title.value);
      book.SetDescription(p.description);
      book.SetPublishedAt(p.publishedAt.value);
      RebuildAuthors(book, iris, resolved);
    }

    /**
     * Lines 106-112 of `update`: the image swap (a failed upload is the 500
     * branch), then the flush, after which the rows are consistent again.
     */
    method ReplaceAndFlush(book: Book, image: Option<string>, token: string, now: Timestamp) returns (status: Status)
      requires Valid() && FreshToken(token, files)
      requires book.id.Some? && book.id.value in db && db[book.id.value].image == book.image
      requires db[book.id.value].id == book.id && !IsBlank(image)
      modifies this`files, this`db, book`image, book`updatedAt
      ensures Valid()
      ensures var swap := SwapImage(old(book.image), image, token, old(files));
        && status == (if swap.failed then InternalServerError else Ok)
        && book.image == swap.image && files == swap.files
      ensures status == Ok ==> book.updatedAt == Some(now) && db == old(db)[book.id.value := book.State()]
      ensures status == InternalServerError ==> book.updatedAt == old(book.updatedAt) && db == old(db)
    {
      var ok := ReplaceImage(book, image, token);
      if !ok {
        return InternalServerError;
      }
      Flush(book, now);
      status := Ok;
    }

    /**
     * Lines 99-104 of `update`: clear the authors, then add the author each IRI
     * names, looked up by the last path segment.
     */
    method RebuildAuthors(book: Book, iris: seq<string>, resolved: seq<Author>)
      requires ResolveIris(iris, authors) == Some(resolved)
      modifies book`authors
      ensures book.authors == Dedup(resolved)
    {
      ResolveIrisMeaning(iris, authors);
      book.ClearAuthors();
      var i := 0;
      while i < |iris|
        invariant 0 <= i <= |iris|
        invariant book.authors == Dedup(resolved[..i])
      {
        BasenameIsIriKey(iris[i]);
        var author := FindAuthor(Basename(iris[i]), authors);
        DedupSnoc(resolved, i);
        book.AddAuthor(author.value);
        i := i + 1;
      }
      assert resolved[..i] == resolved;
    }

    /**
     * Lines 106-110 of `update`: upload a changed image, then unlink the stored
     * file. Until the flush the row still names the unlinked file.
     */
    method ReplaceImage(book: Book, image: Option<string>, token: string) returns (ok: bool)
      requires Valid() && FreshToken(token, files)
      requires book.id.Some? && book.id.value in db && db[book.id.value].image == book.image
      requires !IsBlank(image)
      modifies this`files, book`image
      ensures var swap := SwapImage(old(book.image), image, token, old(files));
        ok == !swap.failed && book.image == swap.image && files == swap.files
      ensures ok ==> book.image.Some? && book.image.value in files
      ensures ok ==> forall id | id in db && id != book.id.value ::
        db[id].image.Some? && db[id].image.value in files && db[id].image != book.image
    {
      var stored := book.image;
      SwapImageKeepsImageStored(stored, image, token, files);
      ok := true;
      if image != stored {
        ok := HandleImageUpload(image, book, token);
        if ok {
          files := files - Unlinked(stored);
        }
      }
    }

    /** `flush` of a managed Book: PreUpdate stamps it, then its row is written. */
    method Flush(book: Book, now: Timestamp)
      requires book.id.Some?
      modifies this`db, book`updatedAt
      ensures book.updatedAt == Some(now)
      ensures db == old(db)[book.id.value := book.State()]
    {
      book.SetUpdatedAtValue(now);
      db := db[book.id.value := book.State()];
    }

    /**
     * Lines 35-41 of `__invoke`: look the Book up by id, answer 404 when it is
     * unknown, otherwise `update` it.
     */
    method UpdateById(id: nat, p: Payload, token: string, now: Timestamp) returns (status: Status)
      requires Valid() && Loaded() && FreshToken(token, files)
      modifies this`files, this`db, books.Values
      ensures Valid()
      ensures id !in old(books) ==> status == NotFound && unchanged(this)
      ensures id in old(books) ==>
        status == UpdateStatus(p, authors, old(db[id].image), token, old(files))
      ensures id in old(books) ==>
        && files == UpdatedFiles(p, authors, old(db[id].image), token, old(files))
        && db == if status == Ok then old(db)[id := UpdatedRow(p, authors, old(db[id]), token, old(files), now)] else old(db)
    {
      if id !in books {
        return NotFound;
      }
      var book := books[id];
      assert book.State() == db[id] && book.id == Some(id);
      status := Update(p, book, token, now);
    }

    /** `__invoke`: POST creates, PUT updates a known id or answers 404, anything else 405. */
    method Invoke(m: HttpMethod, id: nat, p: Payload, token: string, now: Timestamp) returns (status: Status)
      requires Valid() && Loaded() && FreshToken(token, files)
      modifies this, books.Values
      ensures Valid()
      ensures m == Post ==> status == CreateStatus(p, old(authors), token)
      ensures m == Post && status == Created ==>
        && old(nextId) !in old(db) && old(nextId) in books && fresh(books[old(nextId)])
        && books == old(books)[old(nextId) := books[old(nextId)]]
        && db == old(db)[old(nextId) := CreatedRow(p, old(authors), token, now, old(nextId))]
        && files == old(files) + {PlanImageUpload(p.image, token).filename}
        && nextId == old(nextId) + 1 && authors == old(authors)
      ensures m == Post && status != Created ==> unchanged(this)
      ensures m == Put && id in old(books) ==>
        status == UpdateStatus(p, old(authors), old(db[id].image), token, old(files))
      ensures m == Put && id in old(books) ==>
        && books == old(books) && nextId == old(nextId) && authors == old(authors)
        && files == UpdatedFiles(p, old(authors), old(db[id].image), token, old(files))
        && db == if status == Ok then old(db)[id := UpdatedRow(p, old(authors), old(db[id]), token, old(files), now)] else old(db)
      ensures m == Put && id !in old(books) ==> status == NotFound && unchanged(this)
      ensures m == OtherMethod ==> status == MethodNotAllowed && unchanged(this)
    {
      if m == Post {
        status := Create(p, token, now);
        return;
      }
      if m == Put {
        status := UpdateById(id, p, token, now);
        return;
      }
      status := MethodNotAllowed;
    }
  }
}
