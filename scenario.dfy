/**
 * A short session with the store: two books under one category, then a third book that
 * reuses a title under another category, then a lookup and a popularity query.
 */
module Scenario {
  import opened Books
  import opened History
  import opened Store

  /** With three distinct prices, the only price-sorted arrangement of the three books is the cheapest first. */
  lemma ThreeByPrice(x: Book, y: Book, z: Book, taken: seq<Book>)
    requires x.price < y.price < z.price
    requires multiset(taken) == multiset{x, y, z}
    requires SortedByPrice(taken)
    ensures taken == [x, y, z]
  {
    assert |taken| == 3;
    assert x in multiset(taken) && y in multiset(taken) && z in multiset(taken);
    var i :| 0 <= i < 3 && taken[i] == x;
    var j :| 0 <= j < 3 && taken[j] == y;
    var k :| 0 <= k < 3 && taken[k] == z;
    assert i < j < k;
  }

  /** In this session the last book titled Dune is the third one. */
  lemma ThirdIsLastDune(h: seq<Added>)
    requires |h| == 3
    requires h[0].book.title == "Dune" && h[1].book.title == "Hobbit" && h[2].book.title == "Dune"
    ensures forall i :: IsLastWithTitle(h, "Dune", i) ==> i == 2
    ensures !NeverAdded(h, "Dune")
  {
    assert "Hobbit"[0] != "Dune"[0];
  }

  /** In this session Fiction was named by the first two calls and SciFi by the third. */
  lemma SessionShelves(h: seq<Added>)
    requires h == [Added("Fiction", Book("Dune", "Herbert", 15.0)),
                   Added("Fiction", Book("Hobbit", "Tolkien", 10.0)),
                   Added("SciFi", Book("Dune", "Other", 9.99))]
    ensures "Fiction" in Shelves(h) && "SciFi" in Shelves(h)
    ensures FiledUnder(h, "Fiction") == [Book("Dune", "Herbert", 15.0), Book("Hobbit", "Tolkien", 10.0)]
    ensures FiledUnder(h, "SciFi") == [Book("Dune", "Other", 9.99)]
  {
    assert "Fiction"[0] != "SciFi"[0];
    ShelvesAreFiledBooks(h, "Fiction");
    ShelvesAreFiledBooks(h, "SciFi");
    assert h[0].category == "Fiction" && h[2].category == "SciFi";
    var last := h[1..][1..];
    assert last == [h[2]] && last[1..] == [];
    assert FiledUnder(last, "Fiction") == [] && FiledUnder(last, "SciFi") == [h[2].book];
    assert FiledUnder(h[1..], "Fiction") == [h[1].book];
    assert FiledUnder(h[1..], "SciFi") == [h[2].book];
  }

  /** A new store after the first addBook call of the session. */
  method OneBook() returns (store: BookStore)
    ensures store.Valid() && fresh(store) && fresh(store.Repr)
    ensures store.history == [Added("Fiction", Book("Dune", "Herbert", 15.0))]
    ensures store.popularBooksHeap == multiset{Book("Dune", "Herbert", 15.0)}
  {
    store := new BookStore();
    store.AddBook("Fiction", "Dune", "Herbert", 15.0);
  }

  /** The same store after the second call, also under Fiction. */
  method TwoBooks() returns (store: BookStore)
    ensures store.Valid() && fresh(store) && fresh(store.Repr)
    ensures store.history == [Added("Fiction", Book("Dune", "Herbert", 15.0)),
                              Added("Fiction", Book("Hobbit", "Tolkien", 10.0))]
    ensures store.popularBooksHeap == multiset{Book("Hobbit", "Tolkien", 10.0), Book("Dune", "Herbert", 15.0)}
  {
    store := OneBook();
    store.AddBook("Fiction", "Hobbit", "Tolkien", 10.0);
  }

  /** The same store after the third call, which reuses the title Dune under SciFi. */
  method ThreeBooks() returns (store: BookStore)
    ensures store.Valid() && fresh(store) && fresh(store.Repr)
    ensures store.history == [Added("Fiction", Book("Dune", "Herbert", 15.0)),
                              Added("Fiction", Book("Hobbit", "Tolkien", 10.0)),
                              Added("SciFi", Book("Dune", "Other", 9.99))]
    ensures store.popularBooksHeap ==
              multiset{Book("Dune", "Other", 9.99), Book("Hobbit", "Tolkien", 10.0), Book("Dune", "Herbert", 15.0)}
  {
    store := TwoBooks();
    store.AddBook("SciFi", "Dune", "Other", 9.99);
  }

  /** Dune is replaced in the title index by the later book, and all three books come out cheapest first. */
  method DuplicateTitleSession() returns (found: Option<Book>, popular: seq<Book>, fiction: seq<Book>, scifi: seq<Book>)
    ensures found == Some(Book("Dune", "Other", 9.99))
    ensures fiction == [Book("Dune", "Herbert", 15.0), Book("Hobbit", "Tolkien", 10.0)]
    ensures scifi == [Book("Dune", "Other", 9.99)]
    ensures popular == [Book("Dune", "Other", 9.99), Book("Hobbit", "Tolkien", 10.0), Book("Dune", "Herbert", 15.0)]
  {
    var store := ThreeBooks();
    ThirdIsLastDune(store.history);
    found := store.FindBook("Dune");
    SessionShelves(store.history);
    store.CategoryListed("Fiction");
    store.CategoryListed("SciFi");
    fiction := store.categories["Fiction"].GetBooks();
    scifi := store.categories["SciFi"].GetBooks();
    ghost var queued := store.popularBooksHeap;
    popular := store.GetPopularBooks(3);
    TookEverything(queued, popular, store.popularBooksHeap);
    ThreeByPrice(Book("Dune", "Other", 9.99), Book("Hobbit", "Tolkien", 10.0), Book("Dune", "Herbert", 15.0), popular);
  }
}
