/** The book record of the catalog and the order the popularity queue uses on it. */
module Books {

  /** A price. The catalog only ever compares prices, so the IEEE-754 value is modelled as a real. */
  type Price = real

  /** An immutable book: title, author and price, read back through the datatype's destructors. */
  datatype Book = Book(title: string, author: string, price: Price)

  /** The conventional absent-or-present value, standing for a Java reference that may be null. */
  datatype Option<T> = None | Some(value: T)

  /** b costs no more than any book in m: b may be the next one a price-ordered queue hands out. */
  predicate IsCheapestIn(b: Book, m: multiset<Book>)
  {
    b in m && forall x :: x in m ==> b.price <= x.price
  }

  /** Prices never decrease along s. */
  ghost predicate SortedByPrice(s: seq<Book>)
  {
    forall i, j :: 0 <= i < j < |s| ==> s[i].price <= s[j].price
  }

  /** Every book of s costs no more than every book of m. */
  ghost predicate NoDearerThan(s: seq<Book>, m: multiset<Book>)
  {
    forall i, x :: 0 <= i < |s| && x in m ==> s[i].price <= x.price
  }

  /**
   * `taken` is what repeatedly polling the cheapest book out of `before` hands out,
   * and `after` is what is left: exactly those books leave, cheapest first, and none
   * of them costs more than a book still queued.
   */
  ghost predicate CheapestFirst(before: multiset<Book>, taken: seq<Book>, after: multiset<Book>)
  {
    && before == multiset(taken) + after
    && SortedByPrice(taken)
    && NoDearerThan(taken, after)
  }

  /** A non-empty queue always has a cheapest book, so polling it never comes back empty-handed. */
  lemma {:induction false} CheapestExists(m: multiset<Book>)
    requires m != multiset{}
    ensures exists b :: IsCheapestIn(b, m)
    decreases m
  {
    var y :| y in m;
    var rest := m - multiset{y};
    if rest == multiset{} {
      assert m == multiset{y};
      assert IsCheapestIn(y, m);
    } else {
      CheapestExists(rest);
      var b :| IsCheapestIn(b, rest);
      if b.price <= y.price {
        assert IsCheapestIn(b, m);
      } else {
        assert IsCheapestIn(y, m);
      }
    }
  }

  /** Polling the cheapest book of what is left extends a cheapest-first run by one book. */
  lemma CheapestFirstStep(before: multiset<Book>, taken: seq<Book>, after: multiset<Book>, b: Book)
    requires CheapestFirst(before, taken, after)
    requires IsCheapestIn(b, after)
    ensures CheapestFirst(before, taken + [b], after - multiset{b})
  {
    var s := taken + [b];
    assert multiset(s) == multiset(taken) + multiset{b};
    forall i, j | 0 <= i < j < |s| ensures s[i].price <= s[j].price {
      if j == |taken| {
        assert s[i] == taken[i];
      }
    }
  }

  /**
   * Two polling runs one after the other, with nothing added in between, amount to one
   * run: the two results are disjoint, cover exactly the books that left, and their
   * concatenation is still cheapest first.
   */
  lemma CheapestFirstComposes(m0: multiset<Book>, first: seq<Book>, m1: multiset<Book>,
                              second: seq<Book>, m2: multiset<Book>)
    requires CheapestFirst(m0, first, m1)
    requires CheapestFirst(m1, second, m2)
    ensures CheapestFirst(m0, first + second, m2)
  {
    var s := first + second;
    assert multiset(s) == multiset(first) + multiset(second);
    forall i, j | 0 <= i < j < |s| ensures s[i].price <= s[j].price {
      if i < |first| <= j {
        assert s[j] == second[j - |first|];
        assert s[j] in m1;
      }
    }
    forall i, x | 0 <= i < |s| && x in m2 ensures s[i].price <= x.price {
      if i < |first| {
        assert x in m1;
      }
    }
  }

  /** A cheapest-first run as long as the queue it started from has emptied that queue. */
  lemma TookEverything(before: multiset<Book>, taken: seq<Book>, after: multiset<Book>)
    requires CheapestFirst(before, taken, after)
    requires |taken| == |before|
    ensures multiset(taken) == before && after == multiset{}
  {
    assert |multiset(taken)| == |taken|;
  }
}
