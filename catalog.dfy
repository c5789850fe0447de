/** The catalogue store (`Library`) and the layer that builds books from
    primitive fields and hands every call on to it (`LibraryManager`). */
module Catalog {
  import opened Books

  /** The store: an ordered list of books, duplicates allowed, which the
      methods update in place. */
  class Library {
    var books: seq<Book>

    /** A new library holds no books. */
    constructor ()
      ensures books == []
    {
      books := [];
    }

    /** `add_book`: append at the end; the earlier books keep their places. */
    method AddBook(book: Book)
      modifies this
      ensures books == old(books) + [book]
      ensures |books| == |old(books)| + 1 && books[..|old(books)|] == old(books)
    {
      books := books + [book];
    }

    /** `remove_book`: rebind the list to the books whose title differs from
        `title`, keeping their order; an absent title changes nothing. */
    method RemoveBook(title: string)
      modifies this
      ensures books == Without(old(books), title)
      ensures forall i :: 0 <= i < |books| ==> books[i].title != title
      ensures |books| == |old(books)| - Count(old(books), title)
    {
      books := Without(books, title);
    }

    /** `show_books`: the empty notice for an empty list, otherwise one
        rendered line per book, in list order. Returns the reported lines. */
    method ShowBooks() returns (lines: seq<Message>)
      ensures lines == Listing(books)
    {
      if |books| == 0 {
        lines := [Info(EmptyNotice)];
      } else {
        lines := [];
        var i := 0;
        while i < |books|
          invariant 0 <= i <= |books|
          invariant lines == Lines(books[..i])
        {
          assert books[..i + 1][..i] == books[..i];
          lines := lines + [Info(books[i].ToString())];
          i := i + 1;
        }
        assert books[..i] == books;
      }
    }
  }

  /** The orchestration layer: it owns one library for its lifetime. */
  class LibraryManager {
    const library: Library

    constructor (library: Library)
      ensures this.library == library
    {
      this.library := library;
    }

    /** Builds `Book(title, author, year)` and adds it to the library. */
    method AddBook(title: string, author: string, year: int)
      modifies library
      ensures library.books == old(library.books) + [Book(title, author, year)]
    {
      var book := Book(title, author, year);
      library.AddBook(book);
    }

    /** Passes the title to the library unchanged. */
    method RemoveBook(title: string)
      modifies library
      ensures library.books == Without(old(library.books), title)
    {
      library.RemoveBook(title);
    }

    /** Reports exactly what the library reports. */
    method ShowBooks() returns (lines: seq<Message>)
      ensures lines == Listing(library.books)
    {
      lines := library.ShowBooks();
    }
  }
}
