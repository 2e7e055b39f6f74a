/** A named category: a list of books that only ever grows at its end. */
module Categories {
  import opened Books

  class BookCategory {
    /** The category's name, fixed when the category is created. */
    const categoryName: string
    /** The books filed under this category, in the order they were added. */
    var books: seq<Book>

    /** A new category starts out empty. */
    constructor (categoryName: string)
      ensures this.categoryName == categoryName && books == []
    {
      this.categoryName := categoryName;
      books := [];
    }

    /** Appends one book; the books already filed keep their places. */
    method AddBook(book: Book)
      modifies this
      ensures books == old(books) + [book]
    {
      books := books + [book];
    }

    /** A read-only view of the books filed here, oldest first. */
    function GetBooks(): seq<Book>
      reads this
    {
      books
    }
  }
}
