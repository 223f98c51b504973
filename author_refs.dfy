/**
 * `handleAuthors` in BookController: author objects with an `id` become
 * IRIs `/api/authors/{id}`, the others are dropped. `update` later reads the
 * id back with `basename`, and the denormalizer resolves the same IRI through
 * the `/api/authors/{id}` route.
 */
module AuthorRefs {
  import opened Wrappers
  import opened Text

  /** One element of the request's `authors` array. Only `id` is read. */
  datatype AuthorRef = AuthorRef(id: Option<nat>, name: Option<string>, surname: Option<string>, patronymic: Option<string>)

  const IRI_PREFIX: string := "/api/authors/"

  /** The IRI of an author: the route prefix followed by the id's digits, which parse back to the id. */
  function AuthorIri(id: nat): (r: string)
    ensures IRI_PREFIX <= r && |r| > |IRI_PREFIX|
    ensures ParseDecimal(r[|IRI_PREFIX|..]) == Some(id)
  {
    ParseDecimalOfDecimal(id);
    var r := IRI_PREFIX + Decimal(id);
    assert r[|IRI_PREFIX|..] == Decimal(id);
    r
  }

  /** The `array_map` callback: `isset($a['id']) ? "/api/authors/{$a['id']}" : null`. */
  function IriOrNull(ref: AuthorRef): (r: Option<string>)
    ensures r.Some? <==> ref.id.Some?
    ensures r.Some? ==> IriKey(r.value) == Some(Decimal(ref.id.value))
  {
    if ref.id.Some? then
      AuthorIriRoundTrip(ref.id.value);
      Some(AuthorIri(ref.id.value))
    else None
  }

  /** `array_filter` keeping the non-null entries, in order. */
  function DropNulls(xs: seq<Option<string>>): (r: seq<string>)
    ensures |r| <= |xs|
    ensures forall v :: v in r <==> Some(v) in xs
  {
    if |xs| == 0 then []
    else if xs[0].Some? then [xs[0].value] + DropNulls(xs[1..])
    else DropNulls(xs[1..])
  }

  /** Filtering distributes over concatenation: the kept entries keep their order. */
  lemma {:induction false} DropNullsAppend(xs: seq<Option<string>>, ys: seq<Option<string>>)
    ensures DropNulls(xs + ys) == DropNulls(xs) + DropNulls(ys)
  {
    if |xs| > 0 {
      assert (xs + ys)[1..] == xs[1..] + ys;
      DropNullsAppend(xs[1..], ys);
    } else {
      assert xs + ys == ys;
    }
  }

  function HandleAuthors(refs: seq<AuthorRef>): (r: seq<string>)
    ensures |r| <= |refs|
  {
    DropNulls(seq(|refs|, i requires 0 <= i < |refs| => IriOrNull(refs[i])))
  }

  /** The ids carried by the references, in input order. */
  function IdsOf(refs: seq<AuthorRef>): seq<nat> {
    if |refs| == 0 then []
    else if refs[0].id.Some? then [refs[0].id.value] + IdsOf(refs[1..])
    else IdsOf(refs[1..])
  }

  /**
   * The output holds one IRI per reference that carries an id, in input
   * order, and nothing else.
   */
  lemma {:induction false} HandleAuthorsKeepsIds(refs: seq<AuthorRef>)
    ensures |HandleAuthors(refs)| == |IdsOf(refs)|
    ensures forall i :: 0 <= i < |IdsOf(refs)| ==> HandleAuthors(refs)[i] == AuthorIri(IdsOf(refs)[i])
  {
    if |refs| > 0 {
      var mapped := seq(|refs|, i requires 0 <= i < |refs| => IriOrNull(refs[i]));
      var rest := refs[1..];
      assert mapped[1..] == seq(|rest|, i requires 0 <= i < |rest| => IriOrNull(rest[i]));
      HandleAuthorsKeepsIds(rest);
    }
  }

  /**
   * The `authors` field: falsy (null, missing or empty) becomes the empty
   * list; otherwise one IRI per reference carrying an id, in order.
   */
  function AuthorsField(authors: Option<seq<AuthorRef>>): (r: seq<string>)
    ensures authors.None? || authors.value == [] ==> r == []
    ensures authors.Some? ==> |r| == |IdsOf(authors.value)|
    ensures authors.Some? ==> forall i :: 0 <= i < |r| ==> r[i] == AuthorIri(IdsOf(authors.value)[i])
  {
    if authors.Some? && authors.value != [] then
      HandleAuthorsKeepsIds(authors.value);
      HandleAuthors(authors.value)
    else []
  }

  /**
   * The route `/api/authors/{id}` through which the denormalizer resolves an
   * IRI: the prefix followed by one non-empty path segment.
   */
  function IriKey(iri: string): (r: Option<string>)
    ensures r.Some? ==> iri == IRI_PREFIX + r.value && |r.value| > 0 && '/' !in r.value
  {
    if IRI_PREFIX <= iri && |iri| > |IRI_PREFIX| && '/' !in iri[|IRI_PREFIX|..] then
      Some(iri[|IRI_PREFIX|..])
    else None
  }

  /** Whenever the route accepts an IRI, `basename` recovers the same key. */
  lemma BasenameIsIriKey(iri: string)
    requires IriKey(iri).Some?
    ensures Basename(iri) == IriKey(iri).value
  {
    BasenameOfSegment(IRI_PREFIX, IriKey(iri).value);
  }

  /** An author IRI is accepted by the route, and both readings give back the id. */
  lemma AuthorIriRoundTrip(id: nat)
    ensures IriKey(AuthorIri(id)) == Some(Decimal(id))
    ensures Basename(AuthorIri(id)) == Decimal(id)
    ensures ParseDecimal(Basename(AuthorIri(id))) == Some(id)
  {
    var d := Decimal(id);
    assert forall i :: 0 <= i < |d| ==> d[i] != '/';
    assert AuthorIri(id)[|IRI_PREFIX|..] == d;
    BasenameIsIriKey(AuthorIri(id));
    ParseDecimalOfDecimal(id);
  }

  /** The ids `update` reads back with `basename` are exactly the ids `handleAuthors` kept. */
  lemma RecoveredIds(refs: seq<AuthorRef>)
    ensures |HandleAuthors(refs)| == |IdsOf(refs)|
    ensures forall i :: 0 <= i < |IdsOf(refs)| ==>
      ParseDecimal(Basename(HandleAuthors(refs)[i])) == Some(IdsOf(refs)[i])
  {
    HandleAuthorsKeepsIds(refs);
    forall i | 0 <= i < |IdsOf(refs)|
      ensures ParseDecimal(Basename(HandleAuthors(refs)[i])) == Some(IdsOf(refs)[i])
    {
      AuthorIriRoundTrip(IdsOf(refs)[i]);
    }
  }
}
