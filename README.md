# Books backend: book controller and entities

This project models the core of a Symfony / API-Platform backend that stores
books and their authors:

- `BookController` receives JSON for creating (POST) and updating (PUT) a
  Book. It turns the `authors` objects into IRIs such as `/api/authors/7`,
  builds and validates a Book, decodes a `data:image/<type>;base64,<payload>`
  image, writes it to the images directory under a unique name, and persists
  the Book. An update rebuilds the author collection from those IRIs. It
  replaces the image file only when the supplied value differs from the
  stored one.
- `Book` and `Author` are Doctrine entities. Their setters and lifecycle
  callbacks update fields in place. Their collections behave like
  duplicate-free ArrayCollections, and `Author.addBook`/`removeBook` keep
  both sides of the many-to-many relation in step.

The Dafny modules follow that structure:

- `Text`: the PHP string functions the controller uses (`strtolower`, `strpos`, `basename`, reading an id), plus PHP truthiness and Symfony's NotBlank.
- `Base64`: a strict decoder for section 4 of RFC 4648, with an encoder and the round trip between them.
- `ImageCodec`: `decodeBase64Image` and the upload decision of `handleImageUpload`. It implements the `data:` URL form of section 3 of RFC 2397.
- `AuthorRefs`: `handleAuthors` and the IRI round trip through `basename`.
- `Collection`: the ArrayCollection operations `contains`/add, `removeElement` and clear-then-add.
- `Entity`: the `Book` and `Author` classes, their validation constraints as explicit violation sets, and the mutual-membership invariant.
- `BookController`: a `Store` class standing for the repositories, the rows written by `flush`, and the images directory. It holds `HandleImageUpload`, `Create`, `Update` and `Invoke`.

`Store.Valid` is the invariant every request keeps. Every stored row carries
its own id, below the next id to be assigned. Every row names an image file
that exists, and no two rows name the same file.

## Model

| member | source | states |
|---|---|---|
| Text.ToLower | src/Controller/BookController.php:161 | same length; no letter A-Z is left; every other character is kept; each upper-case letter becomes its lower-case letter, 32 code points higher |
| Text.ToLowerIdempotent | src/Controller/BookController.php:161 | lower-casing an already lower-cased type changes nothing |
| Text.IndexOf | src/Controller/BookController.php:160 | the position of the first occurrence of the character; None exactly when it does not occur |
| Text.Decimal | src/Controller/BookController.php:149 | the interpolated id is a non-empty string of decimal digits |
| Text.ParseDecimal | src/Controller/BookController.php:102 | an id is read exactly from a non-empty string of decimal digits |
| Text.ParseDecimalOfDecimal | src/Controller/BookController.php:102 | reading back the decimal form of an id gives that id |
| Text.StripTrailingSlashes | src/Controller/BookController.php:102 | the result is a prefix of the path that does not end in a slash, and everything removed is a slash |
| Text.AfterLastSlash | src/Controller/BookController.php:102 | the result is a slash-free suffix of the path that is either the whole path or preceded by a slash |
| Text.Basename | src/Controller/BookController.php:102 | the basename is the last slash-free segment once trailing slashes are removed: a suffix of that path, preceded by a slash unless it is all of it |
| Text.BasenameOfSegment | src/Controller/BookController.php:102 | the basename of a directory ending in '/' followed by a slash-free name is that name |
| Base64.Decode | src/Controller/BookController.php:167-171 | decoding succeeds only on a whole number of 4-character quanta and yields at most 3 bytes per quantum |
| Base64.Encode | src/Controller/BookController.php:167 | the encoding of n bytes has 4 characters per started group of 3 bytes |
| Base64.ValueOf | src/Controller/BookController.php:167 | the value of an alphabet character maps back to that character |
| Base64.QuantumRoundTrip | src/Controller/BookController.php:167 | three bytes encode to four alphabet characters that decode to the same bytes |
| Base64.DecodeEncode | src/Controller/BookController.php:167 | decoding the encoding of any byte string gives it back |
| ImageCodec.WordRun | src/Controller/BookController.php:159 | the longest prefix of word characters: all of it matches `\w` and the next character does not |
| ImageCodec.MatchType | src/Controller/BookController.php:159 | a match captures a non-empty word such that the input starts with `data:image/` + the word + `;base64,`; an input not starting with `data:image/` never matches |
| ImageCodec.MatchTypeOfShape | src/Controller/BookController.php:159 | every input of that shape matches, capturing the word |
| ImageCodec.FirstCommaEndsMarker | src/Controller/BookController.php:160 | in a matched input the first comma is the one ending `;base64,`, so the payload is everything after it |
| ImageCodec.DecodeBase64Image | src/Controller/BookController.php:157-178 | a result exists only for a matching prefix, and its extension is one of jpeg, jpg, png |
| ImageCodec.DecodeBase64ImageOfShape | src/Controller/BookController.php:159-175 | for `data:image/<t>;base64,<p>`: None when lower(t) is not allowed or p does not decode, else the decoded p with extension lower(t) |
| ImageCodec.DecodeOfEncoded | src/Controller/BookController.php:157-178 | an allowed type with base64-encoded data decodes back to exactly that data |
| ImageCodec.PlanDecoded | src/Controller/BookController.php:122-141 | never skips; invalid data exactly when decoding fails; too large exactly above 2 MiB; otherwise it writes exactly the decoded bytes to `<token>.<decoded extension>` |
| ImageCodec.PlanImageUploadAsWritten | src/Controller/BookController.php:119-143 | with the `if ($base64Image)` guard: no upload exactly for a falsy value (null, "" and "0"); invalid data exactly for a truthy value that does not decode; a write only for a truthy value that decodes to at most 2 MiB |
| ImageCodec.UpperCasePngAccepted | src/Controller/BookController.php:161-165 | type `PNG` is accepted with extension `png` |
| ImageCodec.GifRejected | src/Controller/BookController.php:163-165 | type `gif` is rejected whatever the payload |
| ImageCodec.PlanImageUpload | src/Controller/BookController.php:119-143 | no upload exactly for a blank value; invalid data exactly when decoding fails; too large exactly above 2 MiB; otherwise it writes exactly the decoded bytes (at most 2 MiB) to `<token>.<decoded extension>`, an allowed extension |
| ImageCodec.SizeCeilingInclusive | src/Controller/BookController.php:127 | exactly 2 MiB is written, one byte more is rejected |
| ImageCodec.PlansAgreeExceptZero | src/Controller/BookController.php:121 | the truthiness guard and the intended guard differ only on the value "0" |
| ImageCodec.ZeroImageSkippedAsWritten | src/Controller/BookController.php:121 | "0" is not blank, yet the guard as written skips it, while the corrected guard rejects it as invalid data |
| AuthorRefs.DropNulls | src/Controller/BookController.php:147-154 | the result is never longer, and holds a value exactly when the input holds it as non-null |
| AuthorRefs.DropNullsAppend | src/Controller/BookController.php:147-154 | filtering a concatenation is concatenating the filtered parts, so the kept values keep their order |
| AuthorRefs.AuthorIri | src/Controller/BookController.php:149 | the IRI is `/api/authors/` followed by a key that reads back as the id |
| AuthorRefs.IriOrNull | src/Controller/BookController.php:148-149 | an IRI exactly for an object carrying an id, and the author route extracts that id's decimal form from it |
| AuthorRefs.HandleAuthors | src/Controller/BookController.php:145-155 | the IRI list is never longer than the author objects |
| AuthorRefs.HandleAuthorsKeepsIds | src/Controller/BookController.php:145-155 | the output is `/api/authors/{id}` for exactly the objects carrying an id, in input order |
| AuthorRefs.AuthorsField | src/Controller/BookController.php:57 | a missing, null or empty field gives no IRIs; otherwise one `/api/authors/{id}` per object carrying an id, in input order |
| AuthorRefs.IriKey | src/Controller/BookController.php:59 | the author route matches `/api/authors/` + a non-empty slash-free key |
| AuthorRefs.BasenameIsIriKey | src/Controller/BookController.php:102 | `basename` of a routed IRI is the key the route extracted |
| AuthorRefs.AuthorIriRoundTrip | src/Controller/BookController.php:149 | the IRI built from an id routes to, and `basename`s to, that id's decimal form, which reads back as the id |
| AuthorRefs.RecoveredIds | src/Controller/BookController.php:101-102 | the ids `update` recovers are exactly the ids `handleAuthors` kept, in order |
| Collection.Added | src/Entity/Book.php:178-185 | the element is present afterwards; the members grow by that element only; no duplicates are introduced; an element already present leaves the collection as it was, and otherwise it is appended after the unchanged old entries |
| Collection.AddedIdempotent | src/Entity/Book.php:178-185 | adding the same element twice is adding it once |
| Collection.FirstIndex | src/Entity/Book.php:189 | the first position holding the element |
| Collection.Removed | src/Entity/Book.php:187-192 | an absent element changes nothing; otherwise exactly the first occurrence goes: the entries before and after it are kept in order, the multiset loses one copy of the element, every other member stays, and a duplicate-free collection no longer holds it |
| Collection.InRemoved | src/Entity/Book.php:187-192 | removing one element leaves the membership of every other element as it was |
| Collection.RemovedUndoesAdded | src/Entity/Book.php:178-192 | removing an element just added to a collection that lacked it gives the collection back |
| Collection.Dedup | src/Controller/BookController.php:100-104 | clearing then adding each element gives a duplicate-free collection no longer than the input |
| Collection.DedupElements | src/Controller/BookController.php:100-104 | that collection holds exactly the added elements |
| Collection.DedupOfDistinct | src/Controller/BookController.php:100-104 | distinct elements are kept as given, in order |
| Collection.DedupIdempotent | src/Controller/BookController.php:100-104 | rebuilding from an already rebuilt collection gives the same collection |
| Entity.BookViolations | src/Entity/Book.php:93-117 | no violation exactly when title and image are not blank, there is at least one author and published_at is set; NoAuthor exactly for an empty collection |
| Entity.AuthorViolations | src/Entity/Author.php:27-36 | no violation exactly when name is not blank and surname is set with at least 3 characters; patronymic is free |
| Entity.Book.constructor | src/Entity/Book.php:127-130 | a new Book has no id, title, description, image, published_at or timestamps, and no authors |
| Entity.Book.SetTitle | src/Entity/Book.php:142-147 | sets the title and may change nothing else |
| Entity.Book.SetDescription | src/Entity/Book.php:154-159 | sets the description (null allowed) and nothing else |
| Entity.Book.SetImage | src/Entity/Book.php:166-171 | sets the image name and nothing else |
| Entity.Book.SetPublishedAt | src/Entity/Book.php:199-204 | sets published_at and nothing else |
| Entity.Book.SetCreatedAt | src/Entity/Book.php:211-216 | sets created_at and nothing else |
| Entity.Book.SetUpdatedAt | src/Entity/Book.php:230-235 | sets updated_at and nothing else |
| Entity.Book.SetCreatedAtValue | src/Entity/Book.php:218-223 | PrePersist sets both created_at and updated_at to the current time |
| Entity.Book.SetUpdatedAtValue | src/Entity/Book.php:237-241 | PreUpdate sets only updated_at |
| Entity.Book.AddAuthor | src/Entity/Book.php:178-185 | the collection becomes `Added(old, a)`; the author is present and no duplicate appears |
| Entity.Book.RemoveAuthor | src/Entity/Book.php:187-192 | the collection becomes `Removed(old, a)`; every other author remains, and without duplicates `a` is gone |
| Entity.Book.ClearAuthors | src/Controller/BookController.php:100 | the author collection is empty |
| Entity.Author.constructor | src/Entity/Author.php:54-57 | a new Author has no fields set and an empty book collection |
| Entity.Author.SetName | src/Entity/Author.php:69-74 | sets the name and nothing else |
| Entity.Author.SetSurname | src/Entity/Author.php:81-86 | sets the surname and nothing else |
| Entity.Author.SetPatronymic | src/Entity/Author.php:93-98 | sets the patronymic (null allowed) and nothing else |
| Entity.Author.SetCreatedAt | src/Entity/Author.php:129-134 | sets created_at and nothing else |
| Entity.Author.SetUpdatedAt | src/Entity/Author.php:148-153 | sets updated_at and nothing else |
| Entity.Author.SetCreatedAtValue | src/Entity/Author.php:136-141 | PrePersist sets both timestamps |
| Entity.Author.SetUpdatedAtValue | src/Entity/Author.php:155-159 | PreUpdate sets only updated_at |
| Entity.Author.AddBook | src/Entity/Author.php:105-113 | a new book is appended and the author is added on the book's side; a book already present changes neither side; afterwards both memberships hold when they agreed before |
| Entity.Author.RemoveBook | src/Entity/Author.php:115-122 | the book's first occurrence is removed, and the author leaves the book's side only if the book was present; both memberships are gone when they agreed before and neither collection held duplicates |
| Entity.AddBookKeepsLinked | src/Entity/Author.php:105-113 | `addBook` preserves `b in a.books <==> a in b.authors` for every author and book |
| Entity.RemoveBookKeepsLinked | src/Entity/Author.php:115-122 | `removeBook` preserves the same mutual-membership invariant |
| BookController.FindAuthor | src/Controller/BookController.php:102 | a key that is not a string of decimal digits finds nothing; the decimal form of an id finds that id's author when it is stored and nothing otherwise; a found author is a stored one |
| BookController.ResolveIris | src/Controller/BookController.php:59 | resolution yields one author per IRI |
| BookController.ResolveIrisMeaning | src/Controller/BookController.php:59 | resolution succeeds exactly when every IRI routes to a known author, and yields those authors in order |
| BookController.ResolveHandledAuthors | src/Controller/BookController.php:57-59 | the IRIs built from the payload resolve exactly when every id names a stored author, to those authors in order |
| BookController.EmptyAuthorsRejected | src/Controller/BookController.php:57 | a missing, null or empty `authors` field gives no IRIs, and the Book then fails validation with NoAuthor |
| BookController.Draft | src/Controller/BookController.php:59 | the denormalized Book has no id and no timestamps, the payload's title, description, image and published_at, and each resolved author exactly once |
| BookController.FreshFilename | src/Controller/BookController.php:136 | a name built from a fresh unique token is not an existing file |
| BookController.Unlinked | src/Controller/BookController.php:109 | unlinking removes exactly the stored file name, and nothing when there is none |
| BookController.SwapWith | src/Controller/BookController.php:108-109 | a rejected upload changes nothing; otherwise the stored file is gone, every other existing file survives, the only new file is the one written, and a write makes the book name it |
| BookController.SwapImageAsWritten | src/Controller/BookController.php:106-110 | with the truthiness guard: an unchanged value touches nothing; a changed one fails exactly on a rejected upload; otherwise the stored file is unlinked, every other file survives, and a falsy value keeps the old name; on every value but "0" it is exactly the swap with the intended guard |
| BookController.SwapImage | src/Controller/BookController.php:106-110 | with the intended guard: an unchanged value touches nothing; a changed one fails exactly on a rejected upload; a successful one makes the book name the written file, unlinks the stored one and keeps every other file |
| BookController.SwapImageKeepsImageStored | src/Controller/BookController.php:106-110 | same value: nothing happens; failed upload: image and files unchanged; success: a new file is added, only the old file is removed, and the book names a file that exists |
| BookController.SwapImageAsWrittenUnlinksLiveImage | src/Controller/BookController.php:107-109 | with the guard as written, the value "0" unlinks the stored file while the book keeps naming it |
| BookController.AddAuthors | src/Controller/BookController.php:59 | calling `addAuthor` for each resolved author in order, on a Book with none, leaves the resolved authors deduplicated |
| BookController.ValidRequestsSucceed | src/Controller/BookController.php:53-117 | a valid body whose image decodes to at most 2 MiB is created with 201; an update of a valid body resending the stored image answers 200 |
| BookController.Denormalize | src/Controller/BookController.php:59 | the built Book is the payload's fields with the resolved authors deduplicated, no id and no timestamps |
| BookController.Store.HandleImageUpload | src/Controller/BookController.php:119-143 | throws exactly when the plan is rejected; a write adds exactly the new file and sets the book's image to it; otherwise nothing changes; under the store invariant and a fresh token the invariant is kept and the new file was not there before and is named by no stored row |
| BookController.Store.constructor | src/Controller/BookController.php:19-25 | the injected entity manager, modelled as an empty database and images directory over the given authors, satisfy the invariant and the loaded-state precondition of every request |
| BookController.Store.Create | src/Controller/BookController.php:53-76 | the answer is `CreateStatus`: 500 if an author IRI does not resolve, 422 if the Book is invalid, 500 if the upload is rejected, otherwise 201 with the row `CreatedRow` (the draft with the next id, the written file name and both timestamps) added under the next id; any other outcome writes no file and stores nothing; the invariant is kept |
| BookController.Store.Save | src/Controller/BookController.php:68-71 | the upload, then persist and flush: 201 with the row added exactly when the plan writes a file, 500 with nothing changed otherwise |
| BookController.Store.Persist | src/Controller/BookController.php:70-71 | the Book gets the next id and both timestamps, and its row is added; the invariant is kept |
| BookController.Store.Update | src/Controller/BookController.php:81-117 | the answer is `UpdateStatus`, the files become `UpdatedFiles`, and on 200 the row becomes `UpdatedRow`: 500 for an unresolvable author and 422 for an invalid payload leave the book, files and rows untouched; otherwise the fields come from the payload, the authors are the resolved ones deduplicated, the image follows `SwapImage`, and the row is written only on 200 |
| BookController.Store.UpdateById | src/Controller/BookController.php:35-41 | an unknown id answers 404 and changes nothing; a known one answers `UpdateStatus` for its stored row, leaves the files as `UpdatedFiles` and, on 200 only, rewrites that row alone as `UpdatedRow` |
| BookController.Store.Apply | src/Controller/BookController.php:96-112 | after validation the book's new state is its old one with the payload's fields, the rebuilt authors, the swapped image and (on 200) the new updated_at; the row is rewritten only on success |
| BookController.Store.SetFields | src/Controller/BookController.php:96-104 | title, description and published_at come from the payload; the authors are the resolved ones deduplicated, whatever they were before |
| BookController.Store.RebuildAuthors | src/Controller/BookController.php:100-104 | clearing and re-adding the authors found by `basename` gives the resolved authors deduplicated, independently of the previous collection, so repeating an update yields the same author set |
| BookController.Store.ReplaceImage | src/Controller/BookController.php:106-110 | the image and the files become those of `SwapImage`; after a successful swap the book names an existing file that no other row names |
| BookController.Store.ReplaceAndFlush | src/Controller/BookController.php:106-112 | swap then flush: 200 with the row rewritten, or 500 with no row change; the invariant holds again afterwards |
| BookController.Store.Flush | src/Controller/BookController.php:112 | PreUpdate stamps updated_at, then the Book's row is written |
| BookController.Store.Invoke | src/Controller/BookController.php:27-48 | POST answers `CreateStatus`; on 201 exactly one row, `CreatedRow`, is added under the next id for a fresh Book, the written file is added and the next id advances, and otherwise nothing changes; PUT of a known id answers `UpdateStatus`, leaves the repositories and the next id alone, sets the files to `UpdatedFiles` and rewrites only that row, as `UpdatedRow`, on 200; PUT of an unknown id answers 404 and changes nothing; any other method answers 405 and changes nothing; the invariant is kept |

## Left out

- The HTTP layer (Request, JsonResponse, response bodies, normalization for reading) and the API-Platform resource metadata. A request is a method, an id and a decoded `Payload`; a response is a `Status`.
- JSON decoding. A missing key and an explicit `null` are both `None`. `published_at` arrives as an already parsed timestamp, so `new \DateTimeImmutable(...)` throwing on a malformed date is not modelled.
- The Symfony Serializer and Validator frameworks. Denormalization is `ResolveIris` plus `Denormalize`. The constraints are the explicit sets `BookViolations` and `AuthorViolations`.
- Doctrine. Repositories are maps from id to entity, `find` is a map lookup, and `flush` writes the Book's state into the `db` map. The PreUpdate callback is modelled as firing on every update flush, even when nothing changed. The inverse side (`Author.books`) is not refreshed when `update` rebuilds a Book's authors, as in the source.
- BookController.FindAuthor: the repository is taken to look an id up by its decimal form only. How PHP and the database would coerce other strings is not modelled.
- The filesystem. The images directory is a set of file names. `is_dir`/`mkdir` and the bytes written are not modelled, and neither is a failing write or unlink.
- `uniqid()` is the `token` parameter. It is assumed fresh (`FreshToken`): no existing file name starts with it.
- The clock is the `now` parameter. PrePersist reads the time once, so created_at and updated_at are equal, whereas the source reads the clock twice.
- Base64.Decode: PHP 8's non-strict `base64_decode` skips every character outside the alphabet, tolerates missing or misplaced `=` padding, and never returns false for a string. So the `$data === false` branch (BookController.php:169-171) is unreachable, and a payload with junk after a valid prefix is decoded and stored by the source. The model decodes strictly according to section 4 of RFC 4648: such payloads are rejected here as invalid image data (500 rather than a stored file). Unused padding bits are not checked.
- ImageCodec.DecodeBase64Image, ImageCodec.PlanImageUpload: the invalid-data outcome follows the strict decoder above, so it covers more payloads than the source rejects. Strings are sequences of characters, with no byte encoding, and `\w` is taken as ASCII letters, digits and `_`.
- AuthorRefs.HandleAuthors: the array keys that `array_filter` leaves behind are not modelled, only the order of the values. Author ids are non-negative integers.
- Store.Loaded (the identity map equals the rows) is required at the start of a request but not re-established afterwards, because a new request starts from a fresh identity map.
- Catching `Exception` gives 500 for every failure inside `create`/`update`. That includes the BadRequestHttpException from an invalid or too large image, which therefore answers 500, not 400.
- Concurrency between requests is out of scope.

## Findings

| source | as written | input that shows it | evidently intended | confidence | as-written member | corrected member |
|---|---|---|---|---|---|---|
| src/Controller/BookController.php:121 | `if ($base64Image)` skips the upload for every falsy value, and the string "0" is falsy in PHP while NotBlank accepts it | create with `image: "0"` stores a Book whose image is "0" with no file; update of a Book stored with image "a.png" and `image: "0"` unlinks a.png while the Book keeps the name a.png | skip the upload only for a blank value, so "0" is decoded and rejected as invalid image data | high, not executed | ImageCodec.ZeroImageSkippedAsWritten, BookController.SwapImageAsWrittenUnlinksLiveImage | ImageCodec.PlanImageUpload, BookController.SwapImageKeepsImageStored |
