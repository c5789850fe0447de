/** The book record, the lines the catalogue reports, and the title filter
    that `remove_book` applies to the catalogue's list. */
module Books {
  import opened Text

  /** A book: title, author and year; the title is the only key. */
  datatype Book = Book(title: string, author: string, year: int) {
    /** `Book.__str__`: `Title: <title>, Author: <author>, Year: <year>`. */
    function ToString(): string {
      "Title: " + title + ", Author: " + author + ", Year: " + YearText(year)
    }
  }

  /** A book's line starts with its title after `Title: ` and ends with its
      year as `str` writes it, which reads back as the same year. */
  lemma {:induction false} RenderingShowsFields(b: Book)
    ensures var r := b.ToString();
      7 + |b.title| <= |r| && r[..7 + |b.title|] == "Title: " + b.title
      && |YearText(b.year)| <= |r| && r[|r| - |YearText(b.year)|..] == YearText(b.year)
      && ParseYear(r[|r| - |YearText(b.year)|..]) == b.year
  {
    var r := b.ToString();
    var y := YearText(b.year);
    var head := "Title: " + b.title + ", Author: " + b.author + ", Year: ";
    assert r == head + y;
    assert r[|r| - |y|..] == y;
    assert head[..7 + |b.title|] == "Title: " + b.title;
    assert r[..7 + |b.title|] == head[..7 + |b.title|];
    YearRoundTrip(b.year);
  }

  /** One reported line. Solid.py prints its text; solid_books.py logs it
      with `logging.info` or `logging.warning` according to its severity. */
  datatype Message = Info(text: string) | Warning(text: string)

  const EmptyNotice: string := "Library is empty."

  /** One info line per book, in list order. */
  function Lines(books: seq<Book>): (r: seq<Message>)
    ensures |r| == |books|
    ensures forall i :: 0 <= i < |books| ==> r[i] == Info(books[i].ToString())
  {
    if books == [] then []
    else Lines(books[..|books| - 1]) + [Info(books[|books| - 1].ToString())]
  }

  /** What `show_books` reports for a catalogue: the empty notice alone, or
      one rendered line per book in insertion order. */
  function Listing(books: seq<Book>): (r: seq<Message>)
    ensures books == [] <==> r == [Info(EmptyNotice)]
    ensures books != [] ==> |r| == |books|
    ensures books != [] ==> forall i :: 0 <= i < |books| ==> r[i] == Info(books[i].ToString())
  {
    if books == [] then [Info(EmptyNotice)] else Lines(books)
  }

  /** Number of books titled exactly `title`. */
  function Count(books: seq<Book>, title: string): (n: nat)
    ensures n <= |books|
  {
    if books == [] then 0
    else (if books[0].title == title then 1 else 0) + Count(books[1..], title)
  }

  /** The list comprehension of `remove_book`: the books whose title differs
      from `title`, in their original order. */
  function Without(books: seq<Book>, title: string): (r: seq<Book>)
    ensures forall i :: 0 <= i < |r| ==> r[i].title != title
    ensures |r| == |books| - Count(books, title)
  {
    if books == [] then []
    else (if books[0].title != title then [books[0]] else []) + Without(books[1..], title)
  }

  /** `a` occurs in `b` in the same order, possibly with gaps. */
  predicate IsSubsequence(a: seq<Book>, b: seq<Book>)
    decreases |b|
  {
    if a == [] then true
    else if b == [] then false
    else if a[0] == b[0] then IsSubsequence(a[1..], b[1..])
    else IsSubsequence(a, b[1..])
  }

  /** Removal keeps the survivors in their original relative order. */
  lemma {:induction false} WithoutKeepsOrder(books: seq<Book>, title: string)
    ensures IsSubsequence(Without(books, title), books)
  {
    if books != [] {
      WithoutKeepsOrder(books[1..], title);
      var rest := Without(books[1..], title);
      if books[0].title != title {
        assert Without(books, title) == [books[0]] + rest;
        assert ([books[0]] + rest)[1..] == rest;
      } else {
        assert Without(books, title) == rest;
        SubsequenceSkip(rest, books);
      }
    }
  }

  lemma {:induction false} SubsequenceSkip(a: seq<Book>, b: seq<Book>)
    requires b != []
    requires IsSubsequence(a, b[1..])
    ensures IsSubsequence(a, b)
    decreases |b|
  {
    if a != [] && a[0] == b[0] {
      SubsequenceTail(a, b[1..]);
      SubsequenceSkip(a[1..], b[1..]);
    }
  }

  lemma {:induction false} SubsequenceTail(a: seq<Book>, b: seq<Book>)
    requires a != []
    requires IsSubsequence(a, b)
    ensures IsSubsequence(a[1..], b[1..])
    decreases |b|
  {
    if a[0] != b[0] {
      SubsequenceTail(a, b[1..]);
      SubsequenceSkip(a[1..], b[1..]);
    }
  }

  /** Removal keeps every copy of every book with another title and drops
      every copy of the books with this title. */
  lemma {:induction false} WithoutMultiplicity(books: seq<Book>, title: string, b: Book)
    ensures multiset(Without(books, title))[b] == if b.title == title then 0 else multiset(books)[b]
  {
    if books != [] {
      WithoutMultiplicity(books[1..], title, b);
      assert books == [books[0]] + books[1..];
    }
  }

  /** Removing a title that no book has leaves the list as it was. */
  lemma {:induction false} WithoutAbsent(books: seq<Book>, title: string)
    requires forall i :: 0 <= i < |books| ==> books[i].title != title
    ensures Without(books, title) == books
  {
    if books != [] {
      WithoutAbsent(books[1..], title);
      assert [books[0]] + books[1..] == books;
    }
  }

  /** Removing the same title twice is removing it once. */
  lemma WithoutIdempotent(books: seq<Book>, title: string)
    ensures Without(Without(books, title), title) == Without(books, title)
  {
    WithoutAbsent(Without(books, title), title);
  }

  /** Removal works piecewise over a concatenation. */
  lemma {:induction false} WithoutAppend(a: seq<Book>, b: seq<Book>, title: string)
    ensures Without(a + b, title) == Without(a, title) + Without(b, title)
  {
    if a != [] {
      assert (a + b)[1..] == a[1..] + b;
      WithoutAppend(a[1..], b, title);
    } else {
      assert a + b == b;
    }
  }

  /** Adding a book whose title is new and then removing that title gives
      back the list from before the addition. */
  lemma AddThenRemove(books: seq<Book>, book: Book)
    requires forall i :: 0 <= i < |books| ==> books[i].title != book.title
    ensures Without(books + [book], book.title) == books
  {
    WithoutAppend(books, [book], book.title);
    WithoutAbsent(books, book.title);
    assert Without([book], book.title) == [];
  }

  /** Titles are compared exactly: upper and lower case are different. */
  lemma RemovalIsCaseSensitive()
    ensures Without([Book("Dune", "Frank Herbert", 1965)], "dune") == [Book("Dune", "Frank Herbert", 1965)]
  {
    var dune := Book("Dune", "Frank Herbert", 1965);
    assert dune.title != "dune" by { assert dune.title[0] != "dune"[0]; }
    WithoutAbsent([dune], "dune");
  }
}
