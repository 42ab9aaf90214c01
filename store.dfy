/** The process-wide store behind the four handlers: the ordered `libros`
    sequence and the `nextId` counter, updated in place by create. */
module Store {
  import opened Wrappers
  import opened JsNumber
  import opened Books

  class BookStore {
    var books: seq<Book>
    var nextId: int
    /** How many creates have succeeded since the store was seeded. */
    ghost var creates: nat

    /** Ids are distinct, positive and below the counter; more precisely
        they are positions plus one and the counter is one past the last id.
        The seeded records stay at the front, and every record beyond them
        came from a create. */
    ghost predicate Valid()
      reads this
    {
      && StoreInvariant(books, nextId)
      && IdsArePositions(books)
      && nextId == |books| + 1
      && |books| == |Seed()| + creates
      && books[..|Seed()|] == Seed()
    }

    /** The seeded store: the four literal records and `nextId = 5`. */
    constructor ()
      ensures Valid()
      ensures books == Seed() && nextId == FirstFreeId && creates == 0
    {
      books := Seed();
      nextId := FirstFreeId;
      creates := 0;
      new;
      SeedState();
    }

    /** `GET /libros`: the whole sequence, four seeded records plus one per
        successful create. */
    method List() returns (r: Response<seq<Book>>)
      requires Valid()
      ensures r == Ok(books)
      ensures |r.value| == 4 + creates
    {
      r := Ok(books);
    }

    /** `GET /libros/buscar?name=...`; `None` is a request without the
        parameter. */
    method Search(query: Option<string>) returns (r: Response<seq<Book>>)
      ensures r == SearchResponse(books, query)
    {
      r := SearchResponse(books, query);
    }

    /** `GET /libros/:id` with the raw path segment. */
    method GetById(segment: string) returns (r: Response<Book>)
      ensures r == GetResponse(books, segment)
    {
      r := GetResponse(books, segment);
    }

    /** `POST /libros`: reject a body that fails the guard, leaving the store
        alone; otherwise mint `nextId++`, append the record and return it. */
    method Create(body: Body) returns (r: Response<Book>)
      requires Valid()
      modifies this
      ensures Valid()
      ensures !ValidBody(body) ==>
        && r == BadRequest(InvalidBodyMessage)
        && books == old(books) && nextId == old(nextId) && creates == old(creates)
      ensures ValidBody(body) ==>
        && r == Created(Book(old(nextId), body.name.s, body.yearOfPublication.n, AuthorOf(body.author)))
        && books == old(books) + [r.value]
        && nextId == old(nextId) + 1
        && creates == old(creates) + 1
    {
      if !ValidBody(body) {
        r := BadRequest(InvalidBodyMessage);
        return;
      }
      var id := nextId;
      nextId := nextId + 1;
      var book := NewBook(id, body);
      AppendKeepsPositions(books, body);
      AppendPreservesInvariant(books, id, body);
      books := books + [book];
      creates := creates + 1;
      r := Created(book);
    }
  }

  /** A client session: what a caller can conclude from the contracts alone. */
  method Session()
  {
    var store := new BookStore();
    var two := store.GetById("2");
    GetSeededTwo();
    assert two == Ok(Book(2, "1984", 1949, "George Orwell"));

    var missing := store.Create(Body(Str("X"), Undefined, Undefined));
    assert missing.Status() == 400;

    var made := store.Create(Body(Str("X"), Num(2000), Undefined));
    assert made == Created(Book(5, "X", 2000, "Desconocido"));

    var all := store.List();
    assert all.Status() == 200 && |all.value| == 5 && all.value[4] == made.value;

    var five := store.GetById("5");
    assert IntToString(5) == "5";
    GetByPosition(store.books, 5);
    assert five == Ok(made.value);
  }
}
