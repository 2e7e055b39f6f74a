# Online book store catalog

A model of the catalog core of `App.java`. The core has three classes:

- `Book`: an immutable record of a title, an author and a price.
- `BookCategory`: a named list of books that only grows at its end.
- `BookStore`: keeps three indices over the same books.
  - A title index, where a later book with the same title replaces the earlier one.
  - A category index, where each category is created on first use and appended to after that.
  - A price-ordered priority queue that `getPopularBooks` drains destructively.

The Dafny project has five modules.

- `Books` (`books.dfy`)
  - The `Book` datatype and `Option`, which stands for a Java reference that may be `null`.
  - The order the queue hands books out in. `IsCheapestIn` picks one book. `CheapestFirst` describes a whole run of polls: exactly the books that left, in non-decreasing price order, none dearer than a book still queued.
  - Lemmas about that order.
- `Categories` (`category.dfy`): the `BookCategory` class. Its book list is a `seq` field that `AddBook` reassigns.
- `History` (`history.dfy`): a reference definition of what the indices should hold.
  - The addBook calls made so far are a sequence of `Added` values.
  - `TitleIndex`, `Shelves` and `AddedPool` say what the title index, the category index and the queue hold after those calls.
  - `FiledUnder`, `NeverAdded`, `IsLastWithTitle` and `CategoryUsed` state what the indices mean as properties of the calls themselves.
  - Lemmas prove the two descriptions agree.
- `Store` (`store.dfy`): the `BookStore` class.
  - Its fields are `categories` (a map to `BookCategory` objects), `bookLookup` (a map) and `popularBooksHeap` (a multiset standing for the priority queue).
  - Ghost fields record the calls so far (`history`), every book already served by `GetPopularBooks` (`served`), and the category index as values (`shelved`).
  - The class invariant `Valid()` ties every field to the reference functions of `History`. It also says each category object is filed under its own name and is owned by the store.
- `Scenario` (`scenario.dfy`): a three-call session. The second "Dune" replaces the first in the title index, each category holds its own books, and all three books come out of the queue cheapest first.

## Model

| member | source | states |
|---|---|---|
| Books.Book | App.java:8-24 | title, author and price fixed at construction and read back through the destructors |
| Categories.BookCategory.constructor | App.java:36-39 | a new category has the given name and no books |
| Categories.BookCategory.AddBook | App.java:45-47 | the book is appended at the end; the books already there keep their places |
| Categories.BookCategory.GetBooks | App.java:49-51 | the books of the category in the order they were added (what they are is stated by Store.BookStore.CategoryListed) |
| Store.BookStore.constructor | App.java:59-63 | all three indices start empty, no call has been made and the invariant holds |
| Store.BookStore.AddBook | App.java:65-75 | one more call is recorded and the invariant is kept. The title now maps to the new book, and the category is created if absent with the new book appended. Existing category objects are kept. The queue gains exactly one copy of the book, so duplicate titles stay queued |
| Store.BookStore.Record | App.java:66-74 | the title-index and queue half of addBook: the title entry is overwritten and the queue gains one copy of the book |
| Store.BookStore.File | App.java:69-73 | the category-index half of addBook. The category object is created only if the name is absent, and the book is appended to it. Every other category keeps its object and its books |
| History.TitleIndexLastWriteWins | App.java:67 | the title index has no entry exactly for the titles never added. Otherwise it holds the book of the last call with that title |
| History.ShelvesAreFiledBooks | App.java:69-73 | a category exists exactly when some call named it, and it lists the books added under that name in call order |
| History.AddedPoolCount | App.java:74 | the queue receives one book per call: the pool is exactly the multiset of the calls' books (duplicates counted once per call), so it has as many books as calls and each call's book is among them |
| Store.BookStore.EveryAddedBookAccounted | App.java:74 | in a valid store the queue plus the books already served are exactly the multiset of the added books, one per call; so their sizes add up to the number of calls and each added book is in one of them |
| Store.BookStore.CategoryListed | App.java:69-73 | each category object of a valid store is filed under its own name, that name was used by some call, and its books are the books added under that name in call order |
| Store.BookStore.GetAllCategories | App.java:77-79 | one entry per category and every category object included. Each entry is the object filed under its name and holds the books added under that name, in call order |
| Store.BookStore.FindBook | App.java:81-83 | None exactly when no call added that title; otherwise the book of the last call with that title. It reads the store and changes nothing |
| Books.CheapestExists | App.java:62 | a non-empty queue always has a book no dearer than any other, so a poll of a non-empty queue returns a book |
| Store.BookStore.Poll | App.java:88 | on a non-empty queue, removes exactly one copy of a cheapest book and returns it. The model returns None only for an empty queue, which the loop never polls |
| Books.CheapestFirstStep | App.java:87-89 | polling the cheapest remaining book extends a cheapest-first run by one book |
| Store.BookStore.PollCheapest | App.java:86-90 | returns min(max(count, 0), queue size) books. They are exactly the books removed from the queue, in non-decreasing price order, none dearer than a book left. For count <= 0 the result is empty and the queue is unchanged |
| Store.BookStore.GetPopularBooks | App.java:85-91 | the same result and queue change as PollCheapest. The invariant is kept and the returned books are recorded as served. Categories, the title index and the history are outside its modifies frame, so they stay as they were |
| Store.BookStore.OnlyQueueChanged | App.java:85-91 | changing only the queue and the served list, while keeping the pool accounted for, preserves the store invariant |
| Books.CheapestFirstComposes | App.java:85-91 | two getPopularBooks calls with no addBook in between hand out what one call with the summed count would: one cheapest-first run |
| Books.TookEverything | App.java:87-89 | a run as long as the queue empties it and returns every queued book |
| Scenario.DuplicateTitleSession | App.java:65-91 | after adding Dune (15.0), Hobbit (10.0) and a second Dune (9.99), findBook("Dune") returns the second Dune, category Fiction holds the first Dune and Hobbit in that order, SciFi holds the second Dune, and getPopularBooks(3) returns the three books ordered 9.99, 10.0, 15.0 |
| Scenario.ThreeByPrice | App.java:62 | with three distinct prices, the only price-sorted arrangement of three books is the cheapest-first one |

## Left out

- `App.main` is not modelled: the console menu, `Scanner` input and printing are I/O.
- `Book.toString` is not modelled. The getters of `Book` and `BookCategory.getCategoryName` are the datatype destructors and the `categoryName` field.
- Prices: Java `double` is modelled as `real`, because the catalog only compares prices. NaN, signed zero and rounding are not modelled.
- `count` is a Java `int`, modelled as `int`. `count--` is only compared before it is decremented, so wrap-around never changes the result.
- The internal layout of `java.util.PriorityQueue` is not modelled. The queue is a multiset, and a poll removes some cheapest book.
  - Which of several equally priced books comes out first is left open. The binary-heap `PriorityQueue` does not break ties by insertion order, so the model does not promise any tie order.
- The iteration order of `HashMap.values()` in `getAllCategories` is left open. The loop picks each remaining category name arbitrarily.
- Aliasing is not modelled. The Java `getBooks` hands out the live `ArrayList` and `getAllCategories` the live category objects, so a caller could change them. The model's `GetBooks` returns a value.
- Store.BookStore.AddBook files the book under its category after updating the title index and the queue, whereas the source does it between those two updates. The three updates touch disjoint state, so the final state is the same.
- Store.BookStore.GetPopularBooks does not repeat in its `ensures` that the categories, the title index and the history are unchanged. Its `modifies` clause names only the queue and the served list, which already guarantees this.
- `Book` objects are values in the model. The source's books are shared references between the three indices, but nothing in the core mutates a book, so sharing is not observable.
