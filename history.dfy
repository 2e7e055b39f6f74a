/**
 * What the catalog's indices hold after a given sequence of addBook calls, written as
 * functions of that sequence, and what those indices mean.
 */
module History {
  import opened Books

  /** One call of addBook: the category named and the book built from the other arguments. */
  datatype Added = Added(category: string, book: Book)

  /** The title index after the calls of h, each one overwriting the entry for its title. */
  function TitleIndex(h: seq<Added>): map<string, Book>
  {
    if |h| == 0 then map[]
    else TitleIndex(h[..|h| - 1])[h[|h| - 1].book.title := h[|h| - 1].book]
  }

  /** The category index after the calls of h: each call appends its book to its category, creating the category first if needed. */
  function Shelves(h: seq<Added>): map<string, seq<Book>>
  {
    if |h| == 0 then map[]
    else
      var s := Shelves(h[..|h| - 1]);
      var a := h[|h| - 1];
      s[a.category := (if a.category in s then s[a.category] else []) + [a.book]]
  }

  /** One more call updates each index the way addBook does: overwrite the title, append to the category, add one book. */
  lemma AddedUnfolds(h: seq<Added>, a: Added)
    ensures TitleIndex(h + [a]) == TitleIndex(h)[a.book.title := a.book]
    ensures Shelves(h + [a]) == Shelves(h)[a.category :=
              (if a.category in Shelves(h) then Shelves(h)[a.category] else []) + [a.book]]
    ensures AddedPool(h + [a]) == AddedPool(h) + multiset{a.book}
  {
    assert (h + [a])[..|h|] == h;
  }

  /** Every book the calls of h built, one per call, as a multiset: duplicates by title are kept. */
  function AddedPool(h: seq<Added>): multiset<Book>
  {
    if |h| == 0 then multiset{} else AddedPool(h[..|h| - 1]) + multiset{h[|h| - 1].book}
  }

  /** The books added under category c, in call order. */
  function FiledUnder(h: seq<Added>, c: string): seq<Book>
  {
    if |h| == 0 then []
    else (if h[0].category == c then [h[0].book] else []) + FiledUnder(h[1..], c)
  }

  /** No call of h added a book titled t. */
  ghost predicate NeverAdded(h: seq<Added>, t: string)
  {
    forall i :: 0 <= i < |h| ==> h[i].book.title != t
  }

  /** Call i of h is the last one that added a book titled t. */
  ghost predicate IsLastWithTitle(h: seq<Added>, t: string, i: int)
  {
    0 <= i < |h| && h[i].book.title == t && forall j :: i < j < |h| ==> h[j].book.title != t
  }

  /** Some call of h named category c. */
  ghost predicate CategoryUsed(h: seq<Added>, c: string)
  {
    exists i :: 0 <= i < |h| && h[i].category == c
  }

  /** Appending a call keeps a title unused only when the call does not use it either. */
  lemma NeverAddedSnoc(h: seq<Added>, a: Added, t: string)
    ensures NeverAdded(h + [a], t) <==> NeverAdded(h, t) && a.book.title != t
  {
    var g := h + [a];
    if NeverAdded(g, t) {
      assert g[|h|] == a;
      forall i | 0 <= i < |h| ensures h[i].book.title != t {
        assert g[i] == h[i];
      }
    }
  }

  /** A call with another title leaves the last call with title t the last one. */
  lemma LastWithTitleSnoc(h: seq<Added>, a: Added, t: string, i: int)
    requires IsLastWithTitle(h, t, i) && a.book.title != t
    ensures IsLastWithTitle(h + [a], t, i) && (h + [a])[i] == h[i]
  {
  }

  /**
   * Last write wins: the title index has no entry for a title never added, and for any
   * other title it holds the book of the last call that added that title.
   */
  lemma {:induction false} TitleIndexLastWriteWins(h: seq<Added>, t: string)
    ensures t !in TitleIndex(h) <==> NeverAdded(h, t)
    ensures t in TitleIndex(h) ==> exists i :: IsLastWithTitle(h, t, i) && TitleIndex(h)[t] == h[i].book
  {
    if |h| != 0 {
      var p := h[..|h| - 1];
      var a := h[|h| - 1];
      assert h == p + [a];
      NeverAddedSnoc(p, a, t);
      if a.book.title == t {
        assert IsLastWithTitle(h, t, |h| - 1);
      } else {
        TitleIndexLastWriteWins(p, t);
        if t in TitleIndex(p) {
          var i :| IsLastWithTitle(p, t, i) && TitleIndex(p)[t] == p[i].book;
          LastWithTitleSnoc(p, a, t, i);
        }
      }
    }
  }

  /** Appending a call adds its book to the filed books of its category and of no other. */
  lemma {:induction false} FiledUnderSnoc(h: seq<Added>, a: Added, c: string)
    ensures FiledUnder(h + [a], c) == FiledUnder(h, c) + (if a.category == c then [a.book] else [])
  {
    if h == [] {
      assert [a][1..] == [];
    } else {
      assert (h + [a])[1..] == h[1..] + [a];
      FiledUnderSnoc(h[1..], a, c);
    }
  }

  /** Appending a call names its category and leaves every other category as used or unused as before. */
  lemma CategoryUsedSnoc(h: seq<Added>, a: Added, c: string)
    ensures CategoryUsed(h + [a], c) <==> CategoryUsed(h, c) || a.category == c
  {
    var g := h + [a];
    if CategoryUsed(g, c) && a.category != c {
      var i :| 0 <= i < |g| && g[i].category == c;
      assert h[i] == g[i];
    }
    if CategoryUsed(h, c) {
      var i :| 0 <= i < |h| && h[i].category == c;
      assert g[i] == h[i];
    }
    if a.category == c {
      assert g[|h|].category == c;
    }
  }

  /**
   * The category index has an entry exactly for the categories some call named, and
   * each entry lists the books added under that name, in call order.
   */
  lemma {:induction false} ShelvesAreFiledBooks(h: seq<Added>, c: string)
    ensures c in Shelves(h) <==> CategoryUsed(h, c)
    ensures (if c in Shelves(h) then Shelves(h)[c] else []) == FiledUnder(h, c)
  {
    if h != [] {
      var p := h[..|h| - 1];
      var a := h[|h| - 1];
      assert h == p + [a];
      ShelvesAreFiledBooks(p, c);
      FiledUnderSnoc(p, a, c);
      CategoryUsedSnoc(p, a, c);
    }
  }

  /** The book of each call of h, in call order. */
  function BooksOf(h: seq<Added>): seq<Book>
  {
    seq(|h|, i requires 0 <= i < |h| => h[i].book)
  }

  /**
   * One book is built per call: the pool holds each call's book once per call that built
   * it, so it has as many books as there were calls and each call's book is in it.
   */
  lemma {:induction false} AddedPoolCount(h: seq<Added>)
    ensures AddedPool(h) == multiset(BooksOf(h))
    ensures |AddedPool(h)| == |h|
    ensures forall i :: 0 <= i < |h| ==> h[i].book in AddedPool(h)
  {
    if |h| != 0 {
      var p := h[..|h| - 1];
      AddedPoolCount(p);
      assert BooksOf(h) == BooksOf(p) + [h[|h| - 1].book];
    }
    forall i | 0 <= i < |h| ensures h[i].book in AddedPool(h) {
      assert BooksOf(h)[i] == h[i].book;
    }
  }
}
