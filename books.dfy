/** The book records, the request values the handlers inspect, the responses
    they send, and the pure queries over the ordered sequence of books:
    search by name (`filter` + `includes`) and lookup by id (`find`). */
module Books {
  import opened Wrappers
  import opened Text
  import opened JsNumber

  datatype Book = Book(id: int, name: string, yearOfPublication: int, author: string)

  /** The four records the store starts with. */
  function Seed(): (r: seq<Book>)
    ensures |r| == 4
    ensures forall i :: 0 <= i < |r| ==> r[i].id == i + 1 && r[i].name != "" && r[i].author != ""
  {
    [ Book(1, "Cien años de soledad", 1967, "Gabriel García Márquez"),
      Book(2, "1984", 1949, "George Orwell"),
      Book(3, "Un Mundo Feliz", 1932, "Aldous Huxley"),
      Book(4, "El Gran Gatsby", 1925, "F. Scott Fitzgerald") ]
  }

  /** The id the first created book receives. */
  const FirstFreeId: int := 5

  const DefaultAuthor: string := "Desconocido"

  /** A field of a parsed JSON request body, as seen by `typeof` and by
      JavaScript truthiness; `Undefined` is a field that is not there. The
      create guard never tells an array from an object (both have `typeof`
      'object' and are truthy), so they share the case `Composite`. */
  datatype Json = Undefined | Null | Bool(b: bool) | Num(n: int) | Str(s: string) | Composite

  /** JavaScript truthiness: `undefined`, `null`, `false`, `0` and `""` are falsy. */
  predicate Truthy(v: Json)
    ensures Truthy(v) <==> v != Undefined && v != Null && v != Bool(false) && v != Num(0) && v != Str("")
  {
    match v
    case Undefined => false
    case Null => false
    case Bool(b) => b
    case Num(n) => n != 0
    case Str(s) => s != ""
    case Composite => true
  }

  /** The three fields the create handler reads from the request body. */
  datatype Body = Body(name: Json, yearOfPublication: Json, author: Json)

  /** The create handler's guard does not reject the body: `name` is truthy
      and a string, `year_of_publication` is truthy and a number. */
  predicate ValidBody(body: Body)
    ensures ValidBody(body) <==>
      && body.name.Str? && body.name.s != ""
      && body.yearOfPublication.Num? && body.yearOfPublication.n != 0
  {
    Truthy(body.name) && body.name.Str? && Truthy(body.yearOfPublication) && body.yearOfPublication.Num?
  }

  /** `author && typeof author === 'string' ? author : 'Desconocido'`. */
  function AuthorOf(author: Json): (r: string)
    ensures author.Str? && author.s != "" ==> r == author.s
    ensures !(author.Str? && author.s != "") ==> r == DefaultAuthor
    ensures r != ""
  {
    if Truthy(author) && author.Str? then author.s else DefaultAuthor
  }

  /** The record the create handler builds from an accepted body. */
  function NewBook(id: int, body: Body): (b: Book)
    requires ValidBody(body)
    ensures b.id == id
    ensures b.name != "" && b.yearOfPublication != 0 && b.author != ""
  {
    Book(id, body.name.s, body.yearOfPublication.n, AuthorOf(body.author))
  }

  /** What a handler sends: 200 with a value, 201 with the created value, or
      400 / 404 with a `{ mensaje }` body. */
  datatype Response<T> = Ok(value: T) | Created(value: T) | BadRequest(message: string) | NotFound(message: string)
  {
    function Status(): int {
      match this
      case Ok(_) => 200
      case Created(_) => 201
      case BadRequest(_) => 400
      case NotFound(_) => 404
    }
  }

  const SearchMissingMessage: string := "Debe proporcionar un parámetro 'name' para la búsqueda."

  function SearchNotFoundMessage(name: string): string {
    "No se encontraron libros que contengan: '" + name + "'"
  }

  const BadIdMessage: string := "El ID debe ser un número."

  function IdNotFoundMessage(id: int): string {
    "Libro con el ID " + IntToString(id) + " no encontrado."
  }

  const InvalidBodyMessage: string :=
    "Datos invalidos o faltantes. Se requiere 'name' (string) y 'year_of_publication' (number)."

  // ---------------------------------------------------------------- search

  /** `libro.name.toLowerCase().includes(name.toLowerCase())`. */
  predicate NameMatches(b: Book, term: string) {
    Contains(Lower(b.name), Lower(term))
  }

  /** The search filter applied to `books[i..]`, in store order. */
  function FilterFrom(books: seq<Book>, term: string, i: nat): (r: seq<Book>)
    requires i <= |books|
    ensures |r| <= |books| - i
    decreases |books| - i
  {
    if i == |books| then []
    else (if NameMatches(books[i], term) then [books[i]] else []) + FilterFrom(books, term, i + 1)
  }

  /** The positions in `books[i..]` that the filter keeps, in increasing order. */
  function KeptFrom(books: seq<Book>, term: string, i: nat): seq<nat>
    requires i <= |books|
    decreases |books| - i
  {
    if i == |books| then []
    else (if NameMatches(books[i], term) then [i] else []) + KeptFrom(books, term, i + 1)
  }

  /** `libros.filter(...)`. */
  function SearchResults(books: seq<Book>, term: string): (r: seq<Book>)
    ensures |r| <= |books|
  {
    FilterFrom(books, term, 0)
  }

  /** `p` lists, in strictly increasing order, exactly the positions in
      `books[i..]` whose record matches, and `r` holds those records. */
  predicate SelectsMatches(books: seq<Book>, term: string, i: nat, r: seq<Book>, p: seq<nat>) {
    && |r| == |p|
    && (forall k :: 0 <= k < |p| ==> i <= p[k] < |books| && r[k] == books[p[k]])
    && (forall k, l :: 0 <= k < l < |p| ==> p[k] < p[l])
    && (forall j :: i <= j < |books| ==> (j in p <==> NameMatches(books[j], term)))
  }

  lemma {:induction false} KeptFromBounds(books: seq<Book>, term: string, i: nat)
    requires i <= |books|
    ensures forall k :: 0 <= k < |KeptFrom(books, term, i)| ==> i <= KeptFrom(books, term, i)[k] < |books|
    decreases |books| - i
  {
    if i < |books| {
      KeptFromBounds(books, term, i + 1);
    }
  }

  lemma {:induction false} KeptFromIncreasing(books: seq<Book>, term: string, i: nat)
    requires i <= |books|
    ensures forall k, l :: 0 <= k < l < |KeptFrom(books, term, i)| ==> KeptFrom(books, term, i)[k] < KeptFrom(books, term, i)[l]
    decreases |books| - i
  {
    if i < |books| {
      KeptFromIncreasing(books, term, i + 1);
      KeptFromBounds(books, term, i + 1);
    }
  }

  lemma {:induction false} KeptFromExactly(books: seq<Book>, term: string, i: nat)
    requires i <= |books|
    ensures forall j :: i <= j < |books| ==> (j in KeptFrom(books, term, i) <==> NameMatches(books[j], term))
    decreases |books| - i
  {
    if i < |books| {
      KeptFromExactly(books, term, i + 1);
      KeptFromBounds(books, term, i + 1);
      var p := KeptFrom(books, term, i + 1);
      assert i !in p;
    }
  }

  lemma {:induction false} FilterFromAtKept(books: seq<Book>, term: string, i: nat)
    requires i <= |books|
    ensures |FilterFrom(books, term, i)| == |KeptFrom(books, term, i)|
    ensures forall k :: 0 <= k < |KeptFrom(books, term, i)| ==>
      KeptFrom(books, term, i)[k] < |books| && FilterFrom(books, term, i)[k] == books[KeptFrom(books, term, i)[k]]
    decreases |books| - i
  {
    if i < |books| {
      FilterFromAtKept(books, term, i + 1);
      KeptFromBounds(books, term, i + 1);
      var r', p' := FilterFrom(books, term, i + 1), KeptFrom(books, term, i + 1);
      var r, p := FilterFrom(books, term, i), KeptFrom(books, term, i);
      if NameMatches(books[i], term) {
        forall k | 0 <= k < |p|
          ensures p[k] < |books| && r[k] == books[p[k]]
        {
          if k > 0 { assert p[k] == p'[k - 1] && r[k] == r'[k - 1]; }
        }
      }
    }
  }

  lemma FilterFromSelects(books: seq<Book>, term: string, i: nat)
    requires i <= |books|
    ensures SelectsMatches(books, term, i, FilterFrom(books, term, i), KeptFrom(books, term, i))
  {
    KeptFromBounds(books, term, i);
    KeptFromIncreasing(books, term, i);
    KeptFromExactly(books, term, i);
    FilterFromAtKept(books, term, i);
  }

  /** The search results are exactly the matching records of the store, in
      store order: a strictly increasing choice of positions selects them,
      and a record is among the results iff it is in the store and matches. */
  lemma SearchResultsSpec(books: seq<Book>, term: string)
    ensures SelectsMatches(books, term, 0, SearchResults(books, term), KeptFrom(books, term, 0))
    ensures forall b :: b in SearchResults(books, term) <==> b in books && NameMatches(b, term)
    ensures SearchResults(books, term) == [] <==> forall j :: 0 <= j < |books| ==> !NameMatches(books[j], term)
  {
    FilterFromSelects(books, term, 0);
    var r, p := SearchResults(books, term), KeptFrom(books, term, 0);
    forall b | b in books && NameMatches(b, term)
      ensures b in r
    {
      var j :| 0 <= j < |books| && books[j] == b;
      assert j in p;
      var k :| 0 <= k < |p| && p[k] == j;
      assert r[k] == b;
    }
    if r == [] {
      forall j | 0 <= j < |books|
        ensures !NameMatches(books[j], term)
      {
        assert books[j] in books;
      }
    }
    if r != [] {
      assert r[0] == books[p[0]];
    }
  }

  /** The search handler: 400 when `name` is missing or empty, 404 when no
      record matches, otherwise 200 with the matching records. */
  function SearchResponse(books: seq<Book>, query: Option<string>): (r: Response<seq<Book>>)
    ensures r.BadRequest? <==> query.None? || query.value == ""
    ensures r.BadRequest? ==> r.message == SearchMissingMessage
    ensures query.Some? && query.value != "" ==>
      && (r.Ok? || r.NotFound?)
      && (r.NotFound? <==> forall j :: 0 <= j < |books| ==> !NameMatches(books[j], query.value))
    ensures r.NotFound? ==> r.message == SearchNotFoundMessage(query.value)
    ensures r.Ok? ==> r.value == SearchResults(books, query.value) && r.value != []
  {
    if query.None? || query.value == "" then BadRequest(SearchMissingMessage)
    else
      var results := SearchResults(books, query.value);
      SearchResultsSpec(books, query.value);
      if |results| > 0 then Ok(results) else NotFound(SearchNotFoundMessage(query.value))
  }

  /** The filter only looks at the lower-cased term. */
  lemma {:induction false} FilterFromLowerTerm(books: seq<Book>, t1: string, t2: string, i: nat)
    requires i <= |books|
    requires Lower(t1) == Lower(t2)
    ensures FilterFrom(books, t1, i) == FilterFrom(books, t2, i)
    decreases |books| - i
  {
    if i < |books| {
      FilterFromLowerTerm(books, t1, t2, i + 1);
    }
  }

  /** Search is case-insensitive: terms that lower-case alike give the same
      results and the same status. */
  lemma SearchCaseInsensitive(books: seq<Book>, t1: string, t2: string)
    requires Lower(t1) == Lower(t2)
    ensures SearchResults(books, t1) == SearchResults(books, t2)
    ensures SearchResponse(books, Some(t1)).Status() == SearchResponse(books, Some(t2)).Status()
  {
    FilterFromLowerTerm(books, t1, t2, 0);
  }

  /** In particular a term and its lower-cased form search alike. */
  lemma SearchIgnoresTermCase(books: seq<Book>, term: string)
    ensures SearchResults(books, Lower(term)) == SearchResults(books, term)
  {
    LowerIdempotent(term);
    SearchCaseInsensitive(books, Lower(term), term);
  }

  /** A non-empty term that lower-cases like a piece of a record's name finds
      that record. */
  lemma SearchFindsSubstring(books: seq<Book>, term: string, piece: string, j: int)
    requires term != "" && 0 <= j < |books|
    requires Contains(books[j].name, piece) && Lower(piece) == Lower(term)
    ensures SearchResponse(books, Some(term)).Ok?
    ensures books[j] in SearchResponse(books, Some(term)).value
  {
    ContainsLower(books[j].name, piece);
    assert NameMatches(books[j], term);
    SearchResultsSpec(books, term);
  }

  // ---------------------------------------------------------- get by id

  /** `books[i..].find(b => b.id === id)`, as a position. */
  function FindFrom(books: seq<Book>, id: int, i: nat): (r: Option<nat>)
    requires i <= |books|
    ensures r.Some? ==> i <= r.value < |books| && books[r.value].id == id
    ensures r.Some? ==> forall j :: i <= j < r.value ==> books[j].id != id
    ensures r.None? <==> forall j :: i <= j < |books| ==> books[j].id != id
    decreases |books| - i
  {
    if i == |books| then None
    else if books[i].id == id then Some(i)
    else FindFrom(books, id, i + 1)
  }

  /** The get-by-id handler: 400 when the segment does not parse, 404 when no
      record has the id, otherwise 200 with the first record that has it. */
  function GetResponse(books: seq<Book>, segment: string): (r: Response<Book>)
    ensures r.BadRequest? <==> ParseInt(segment).None?
    ensures r.BadRequest? ==> r.message == BadIdMessage
    ensures r.Ok? || r.NotFound? || r.BadRequest?
    ensures ParseInt(segment).Some? ==> var id := ParseInt(segment).value;
      && (r.NotFound? <==> forall j :: 0 <= j < |books| ==> books[j].id != id)
      && (r.NotFound? ==> r.message == IdNotFoundMessage(id))
      && (r.Ok? ==> exists k :: 0 <= k < |books| && books[k] == r.value && r.value.id == id
                               && forall j :: 0 <= j < k ==> books[j].id != id)
  {
    match ParseInt(segment)
    case None => BadRequest(BadIdMessage)
    case Some(id) =>
      match FindFrom(books, id, 0)
      case None => NotFound(IdNotFoundMessage(id))
      case Some(k) => Ok(books[k])
  }

  // ------------------------------------------------------------ invariant

  predicate IdsDistinct(books: seq<Book>) {
    forall i, j :: 0 <= i < j < |books| ==> books[i].id != books[j].id
  }

  /** Every id is distinct, positive and below the next id to be minted. */
  predicate StoreInvariant(books: seq<Book>, nextId: int) {
    && 0 < nextId
    && IdsDistinct(books)
    && forall i :: 0 <= i < |books| ==> 0 < books[i].id < nextId
  }

  /** The record at position `i` has id `i + 1`: what seeding ids 1-4 and
      appending `nextId++` keep true, since nothing is ever removed. */
  predicate IdsArePositions(books: seq<Book>) {
    forall i :: 0 <= i < |books| ==> books[i].id == i + 1
  }

  lemma PositionsGiveInvariant(books: seq<Book>)
    requires IdsArePositions(books)
    ensures StoreInvariant(books, |books| + 1)
  {
  }

  /** The seeded store: four records with ids 1-4, and 5 as the next id. */
  lemma SeedState()
    ensures |Seed()| == 4 && FirstFreeId == |Seed()| + 1
    ensures IdsArePositions(Seed())
    ensures StoreInvariant(Seed(), FirstFreeId)
  {
  }

  /** Appending a record minted with `nextId` and advancing the counter keeps
      the invariant, whatever the accepted body. */
  lemma AppendPreservesInvariant(books: seq<Book>, nextId: int, body: Body)
    requires StoreInvariant(books, nextId) && ValidBody(body)
    ensures StoreInvariant(books + [NewBook(nextId, body)], nextId + 1)
  {
  }

  lemma AppendKeepsPositions(books: seq<Book>, body: Body)
    requires IdsArePositions(books) && ValidBody(body)
    ensures IdsArePositions(books + [NewBook(|books| + 1, body)])
  {
  }

  /** With distinct ids, the record found for an id is the only one with it. */
  lemma FindUnique(books: seq<Book>, k: int)
    requires IdsDistinct(books) && 0 <= k < |books|
    ensures FindFrom(books, books[k].id, 0) == Some(k)
  {
  }

  /** When ids are positions, getting the decimal text of `k` answers 200
      with the record at position `k - 1`; in particular the record a create
      appended is found by its id. */
  lemma GetByPosition(books: seq<Book>, k: int)
    requires IdsArePositions(books) && 1 <= k <= |books|
    ensures GetResponse(books, IntToString(k)) == Ok(books[k - 1])
  {
    ParseIntOfIntToString(k, "");
    assert IntToString(k) + "" == IntToString(k);
    PositionsGiveInvariant(books);
    FindUnique(books, k - 1);
  }

  /** For an id no record has, get-by-id answers 404 with the id in the message. */
  lemma GetUnknownId(books: seq<Book>, id: int)
    requires forall j :: 0 <= j < |books| ==> books[j].id != id
    ensures GetResponse(books, IntToString(id)) == NotFound(IdNotFoundMessage(id))
  {
    ParseIntOfIntToString(id, "");
    assert IntToString(id) + "" == IntToString(id);
  }

  /** Seeded id 2 is the 1984 record by George Orwell. */
  lemma GetSeededTwo()
    ensures GetResponse(Seed(), "2") == Ok(Book(2, "1984", 1949, "George Orwell"))
  {
    SeedState();
    assert IntToString(2) == "2";
    GetByPosition(Seed(), 2);
  }

  lemma LowerMundo()
    ensures Lower("Mundo") == Lower("mundo")
  {
    assert LowerChar('M') == 'm';
    assert Lower("Mundo") == "mundo";
    assert Lower("mundo") == "mundo";
  }

  /** `name=mundo` finds "Un Mundo Feliz". */
  lemma SearchMundo()
    ensures SearchResponse(Seed(), Some("mundo")).Ok?
    ensures Seed()[2] in SearchResponse(Seed(), Some("mundo")).value
  {
    var books := Seed();
    var name := books[2].name;
    assert name[3..8] == "Mundo";
    assert OccursAt(name, "Mundo", 3);
    ContainsIff(name, "Mundo");
    LowerMundo();
    SearchFindsSubstring(books, "mundo", "Mundo", 2);
  }
}
