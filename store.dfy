/**
 * The book store: three indices over the same books, updated together by AddBook,
 * with a read-only title lookup and a destructive "cheapest N" query.
 */
module Store {
  import opened Books
  import opened Categories
  import opened History

  /** Adding a book to the queue and to the pool of added books keeps the two in step. */
  lemma PoolStep(queued: multiset<Book>, out: multiset<Book>, h: seq<Added>, a: Added)
    requires queued + out == AddedPool(h)
    ensures (queued + multiset{a.book}) + out == AddedPool(h + [a])
  {
    AddedUnfolds(h, a);
  }

  /** Books moved from the queue to the served list are still accounted for exactly once. */
  lemma ServedAccounted(pool: multiset<Book>, before: multiset<Book>, after: multiset<Book>,
                        out: seq<Book>, taken: seq<Book>)
    requires before + multiset(out) == pool
    requires before == multiset(taken) + after
    ensures after + multiset(out + taken) == pool
  {
    assert multiset(out + taken) == multiset(out) + multiset(taken);
  }

  function Max(x: int, y: int): int { if x < y then y else x }
  function Min(x: int, y: int): int { if x < y then x else y }

  class BookStore {
    /** Category name to category object. */
    var categories: map<string, BookCategory>
    /** Title to book; a later book with a title replaces the earlier one. */
    var bookLookup: map<string, Book>
    /** The priority queue over every book added and not yet handed out, ordered by price. */
    var popularBooksHeap: multiset<Book>

    /** The addBook calls made so far, in order. */
    ghost var history: seq<Added>
    /** The category index as values: each category name with the books filed under it. */
    ghost var shelved: map<string, seq<Book>>
    /** Every book GetPopularBooks has handed out so far, in order. */
    ghost var served: seq<Book>
    /** The category objects this store owns. */
    ghost var Repr: set<object>

    /** Each category object belongs to this store and is filed under its own name. */
    ghost predicate WellFormed()
      reads this`categories, this`Repr
    {
      && this !in Repr
      && forall c :: c in categories ==> categories[c] in Repr && categories[c].categoryName == c
    }

    /** The books filed under category c, or none when there is no such category. */
    ghost function ShelfOf(c: string): seq<Book>
      reads this`categories, this`Repr, Repr
      requires WellFormed()
    {
      if c in categories then categories[c].books else []
    }

    /** The category objects hold exactly the shelves of m: one object per name in m, with m's books. */
    ghost predicate Holds(m: map<string, seq<Book>>)
      reads this`categories, this`Repr, Repr
      requires WellFormed()
    {
      && categories.Keys == m.Keys
      && forall c :: c in categories ==> categories[c].books == m[c]
    }

    /**
     * The store invariant: the three indices hold what the calls of `history` put
     * there, less what GetPopularBooks has already served from the queue.
     */
    ghost predicate Valid()
      reads this, Repr
    {
      && WellFormed()
      && Holds(shelved)
      && shelved == Shelves(history)
      && bookLookup == TitleIndex(history)
      && popularBooksHeap + multiset(served) == AddedPool(history)
    }

    /** An empty store. */
    constructor ()
      ensures Valid() && fresh(Repr)
      ensures categories == map[] && bookLookup == map[] && popularBooksHeap == multiset{}
      ensures history == [] && served == []
    {
      categories := map[];
      bookLookup := map[];
      popularBooksHeap := multiset{};
      history := [];
      shelved := map[];
      served := [];
      Repr := {};
    }

    /**
     * Files a book under a category, creating the category first when it is absent;
     * the books already filed there and every other category stay as they were.
     */
    method File(category: string, book: Book, ghost shelves: map<string, seq<Book>>)
      requires WellFormed() && Holds(shelves)
      modifies this`categories, this`Repr, Repr
      ensures WellFormed() && fresh(Repr - old(Repr))
      ensures Holds(shelves[category := (if category in shelves then shelves[category] else []) + [book]])
      ensures forall c :: c in old(categories) ==> c in categories && categories[c] == old(categories[c])
      ensures bookLookup == old(bookLookup) && popularBooksHeap == old(popularBooksHeap)
      ensures history == old(history) && served == old(served)
    {
      if category !in categories {
        var created := new BookCategory(category);
        categories := categories[category := created];
        Repr := Repr + {created};
      }
      var shelf := categories[category];
      shelf.AddBook(book);
      forall c | c in categories && c != category
        ensures categories[c].books == shelves[c]
      {
        assert categories[c] != shelf;
      }
    }

    /**
     * Builds a book and files it in all three indices: the title index (replacing any
     * book with the same title), the named category (created first if absent, the book
     * appended at its end) and the price queue (one more entry, duplicates kept).
     */
    method AddBook(category: string, title: string, author: string, price: Price)
      requires Valid()
      modifies this, Repr
      ensures Valid() && fresh(Repr - old(Repr))
      ensures history == old(history) + [Added(category, Book(title, author, price))]
      ensures served == old(served)
      ensures bookLookup == old(bookLookup)[title := Book(title, author, price)]
      ensures forall c :: c in old(categories) ==> c in categories && categories[c] == old(categories[c])
      ensures shelved == old(shelved)[category := old(ShelfOf(category)) + [Book(title, author, price)]]
      ensures popularBooksHeap == old(popularBooksHeap) + multiset{Book(title, author, price)}
    {
      var book := Book(title, author, price);
      var call := Added(category, book);
      AddedUnfolds(history, call);
      PoolStep(popularBooksHeap, multiset(served), history, call);
      ghost var shelves := shelved;
      Record(call);
      File(category, book, shelves);
    }

    /**
     * The title-index and queue half of AddBook: the book replaces any entry for its
     * title and joins the queue. Filing it under its category is left to File, which
     * touches no field this one does, so the order of the two does not matter.
     */
    method Record(call: Added)
      modifies this`bookLookup, this`popularBooksHeap, this`history, this`shelved
      ensures bookLookup == old(bookLookup)[call.book.title := call.book]
      ensures popularBooksHeap == old(popularBooksHeap) + multiset{call.book}
      ensures history == old(history) + [call]
      ensures shelved == old(shelved)[call.category :=
                (if call.category in old(shelved) then old(shelved)[call.category] else []) + [call.book]]
    {
      bookLookup := bookLookup[call.book.title := call.book];
      popularBooksHeap := popularBooksHeap + multiset{call.book};
      history := history + [call];
      shelved := shelved[call.category :=
                   (if call.category in shelved then shelved[call.category] else []) + [call.book]];
    }

    /**
     * Category object cat is the one this store files under its name, that name was
     * named by some addBook call, and cat holds the books added under it, in call order.
     */
    ghost predicate Listed(cat: BookCategory)
      reads this`categories, this`history, cat
    {
      && cat.categoryName in categories
      && categories[cat.categoryName] == cat
      && CategoryUsed(history, cat.categoryName)
      && cat.GetBooks() == FiledUnder(history, cat.categoryName)
    }

    /** Every category object of a valid store is listed under its name. */
    lemma CategoryListed(c: string)
      requires Valid() && c in categories
      ensures Listed(categories[c])
    {
      ShelvesAreFiledBooks(history, c);
    }

    /**
     * Nothing is lost or invented: the queue and the served list together hold one book
     * per addBook call, duplicates included.
     */
    lemma EveryAddedBookAccounted()
      requires Valid()
      ensures popularBooksHeap + multiset(served) == multiset(BooksOf(history))
      ensures |popularBooksHeap| + |served| == |history|
      ensures forall i :: 0 <= i < |history| ==>
                history[i].book in popularBooksHeap || history[i].book in served
    {
      AddedPoolCount(history);
    }

    /** Every category, one entry per category name, in no particular order. */
    method GetAllCategories() returns (all: seq<BookCategory>)
      requires Valid()
      ensures |all| == |categories|
      ensures forall c :: c in categories ==> categories[c] in all
      ensures forall k :: 0 <= k < |all| ==> Listed(all[k])
    {
      var pending := categories.Keys;
      all := [];
      while pending != {}
        invariant pending <= categories.Keys
        invariant |all| + |pending| == |categories|
        invariant forall c :: c in categories && c !in pending ==> categories[c] in all
        invariant forall k :: 0 <= k < |all| ==> Listed(all[k]) && all[k].categoryName !in pending
        decreases pending
      {
        var c :| c in pending;
        CategoryListed(c);
        all := all + [categories[c]];
        pending := pending - {c};
      }
    }

    /**
     * The book last added with this title, or None when no book with this title was
     * ever added. Changes nothing.
     */
    function FindBook(title: string): (found: Option<Book>)
      reads this, Repr
      requires Valid()
      ensures found.None? <==> NeverAdded(history, title)
      ensures found.Some? ==> exists i :: IsLastWithTitle(history, title, i) && found.value == history[i].book
    {
      TitleIndexLastWriteWins(history, title);
      if title in bookLookup then Some(bookLookup[title]) else None
    }

    /** Removes and returns a cheapest book of the queue, or None when the queue is empty. */
    method Poll() returns (head: Option<Book>)
      modifies this`popularBooksHeap
      ensures head.None? <==> old(popularBooksHeap) == multiset{}
      ensures head.None? ==> popularBooksHeap == old(popularBooksHeap)
      ensures head.Some? ==> IsCheapestIn(head.value, old(popularBooksHeap))
                             && popularBooksHeap == old(popularBooksHeap) - multiset{head.value}
    {
      if popularBooksHeap == multiset{} {
        return None;
      }
      CheapestExists(popularBooksHeap);
      var b :| IsCheapestIn(b, popularBooksHeap);
      popularBooksHeap := popularBooksHeap - multiset{b};
      return Some(b);
    }

    /**
     * Polls the queue up to `count` times, stopping early when it runs dry, and returns
     * the books polled: cheapest first, each costing no more than any book left behind.
     * The books stay in their categories and in the title index, and are recorded as served.
     */
    method GetPopularBooks(count: int) returns (popular: seq<Book>)
      requires Valid()
      modifies this`popularBooksHeap, this`served
      ensures Valid()
      ensures |popular| == Min(Max(count, 0), |old(popularBooksHeap)|)
      ensures CheapestFirst(old(popularBooksHeap), popular, popularBooksHeap)
      ensures count <= 0 ==> popular == [] && popularBooksHeap == old(popularBooksHeap)
      ensures served == old(served) + popular
    {
      popular := PollCheapest(count);
      served := served + popular;
      OnlyQueueChanged(popular);
    }

    /**
     * The category index, the title index and the history are left alone, and the
     * queue and the served list still account for every book added: the invariant holds.
     */
    twostate lemma OnlyQueueChanged(popular: seq<Book>)
      requires old(Valid())
      requires unchanged(this`categories, this`Repr, this`history, this`bookLookup, this`shelved)
      requires unchanged(Repr)
      requires old(popularBooksHeap) == multiset(popular) + popularBooksHeap
      requires served == old(served) + popular
      ensures Valid()
    {
      ServedAccounted(AddedPool(history), old(popularBooksHeap), popularBooksHeap, old(served), popular);
    }

    /** The loop of GetPopularBooks: poll while `count` is positive and the queue is not empty. */
    method PollCheapest(count: int) returns (popular: seq<Book>)
      modifies this`popularBooksHeap
      ensures |popular| == Min(Max(count, 0), |old(popularBooksHeap)|)
      ensures CheapestFirst(old(popularBooksHeap), popular, popularBooksHeap)
      ensures count <= 0 ==> popular == [] && popularBooksHeap == old(popularBooksHeap)
    {
      popular := [];
      var remaining := count;
      while remaining > 0 && popularBooksHeap != multiset{}
        invariant remaining == count - |popular|
        invariant |popular| <= Max(count, 0)
        invariant CheapestFirst(old(popularBooksHeap), popular, popularBooksHeap)
        decreases remaining
      {
        remaining := remaining - 1;
        ghost var queued := popularBooksHeap;
        var head := Poll();
        CheapestFirstStep(old(popularBooksHeap), popular, queued, head.value);
        popular := popular + [head.value];
      }
    }
  }
}
