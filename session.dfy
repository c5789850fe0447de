/** The command loop of `main`: a two-state machine (running, terminated)
    over the answers a user gives to its prompts. */
module Session {
  import opened Text
  import opened Books
  import opened Catalog

  /** The answers read in one pass of the loop: the command line, then the
      title and author lines (read only by the branches that prompt for them,
      still unstripped) and the year (already parsed to an integer). */
  datatype Entry = Entry(command: string, title: string, author: string, year: int)

  /** The branch one pass of the loop takes. */
  datatype Command =
    | Add(title: string, author: string, year: int)
    | Remove(title: string)
    | Show
    | Exit
    | Invalid

  datatype LoopState = Running | Terminated

  const InvalidNotice: string := "Invalid command. Please try again."

  /** The command token as `match` sees it: stripped, then lower-cased. */
  function Normalize(line: string): (r: string)
    ensures |r| <= |line|
    ensures Trimmed(r)
    ensures Lower(r) == r
  {
    var s := Strip(line);
    LowerKeepsTrimmed(s);
    LowerTwice(s);
    Lower(s)
  }

  /** The dispatch of `main`: the normalised token picks the branch; the
      title and author are stripped but keep their case. */
  function Parse(e: Entry): (c: Command)
    ensures c.Add? <==> Normalize(e.command) == "add"
    ensures c.Remove? <==> Normalize(e.command) == "remove"
    ensures c.Show? <==> Normalize(e.command) == "show"
    ensures c.Exit? <==> Normalize(e.command) == "exit"
    ensures c.Add? ==> c == Add(Strip(e.title), Strip(e.author), e.year)
    ensures c.Remove? ==> c == Remove(Strip(e.title))
  {
    var token := Normalize(e.command);
    if token == "add" then Add(Strip(e.title), Strip(e.author), e.year)
    else if token == "remove" then Remove(Strip(e.title))
    else if token == "show" then Show
    else if token == "exit" then Exit
    else Invalid
  }

  /** The catalogue, the lines reported, the loop state and the number of
      entries read. */
  datatype Outcome = Outcome(books: seq<Book>, output: seq<Message>, state: LoopState, read: nat)

  /** One pass of the loop on a parsed command. */
  function Step(books: seq<Book>, c: Command): (r: Outcome)
    ensures r.read == 1
    ensures r.state == Terminated <==> c.Exit?
    ensures !(c.Add? || c.Remove?) ==> r.books == books
    ensures !(c.Show? || c.Invalid?) ==> r.output == []
  {
    match c
    case Add(title, author, year) => Outcome(books + [Book(title, author, year)], [], Running, 1)
    case Remove(title) => Outcome(Without(books, title), [], Running, 1)
    case Show => Outcome(books, Listing(books), Running, 1)
    case Exit => Outcome(books, [], Terminated, 1)
    case Invalid => Outcome(books, [Warning(InvalidNotice)], Running, 1)
  }

  /** `prefix` reported and `n` entries read before the rest of a run. */
  function After(prefix: seq<Message>, n: nat, rest: Outcome): Outcome {
    Outcome(rest.books, prefix + rest.output, rest.state, n + rest.read)
  }

  /** The commands the loop would dispatch on, one per entry. */
  function Commands(entries: seq<Entry>): seq<Command> {
    seq(|entries|, i requires 0 <= i < |entries| => Parse(entries[i]))
  }

  lemma CommandAt(entries: seq<Entry>, i: nat)
    requires i < |entries|
    ensures |Commands(entries)| == |entries| && Commands(entries)[i] == Parse(entries[i])
  {
  }

  /** The loop run from catalogue `books` over a sequence of dispatched
      commands. It stops at the first `exit`, or when the input runs out
      (where Python's `input` would raise `EOFError`) while still running. */
  function Run(books: seq<Book>, commands: seq<Command>): (r: Outcome)
    ensures r.read <= |commands|
    ensures r.state == Running ==>
      r.read == |commands| && forall i :: 0 <= i < |commands| ==> !commands[i].Exit?
    ensures r.state == Terminated ==>
      0 < r.read && commands[r.read - 1].Exit?
      && forall i :: 0 <= i < r.read - 1 ==> !commands[i].Exit?
    decreases |commands|
  {
    if commands == [] then Outcome(books, [], Running, 0)
    else if commands[0].Exit? then Step(books, Exit)
    else
      var s := Step(books, commands[0]);
      After(s.output, 1, Run(s.books, commands[1..]))
  }

  /** One pass of the loop, read off a run that has consumed the first
      `i` commands, reported `out` and now holds `books`. */
  lemma RunStep(commands: seq<Command>, out: seq<Message>, i: nat, books: seq<Book>)
    requires i < |commands|
    requires Run([], commands) == After(out, i, Run(books, commands[i..]))
    ensures var s := Step(books, commands[i]);
      Run([], commands) ==
        if commands[i].Exit? then Outcome(s.books, out + s.output, Terminated, i + 1)
        else After(out + s.output, i + 1, Run(s.books, commands[i + 1..]))
  {
    var rest := commands[i..];
    assert rest[0] == commands[i];
    var s := Step(books, commands[i]);
    if !commands[i].Exit? {
      assert rest[1..] == commands[i + 1..];
      var tail := Run(s.books, commands[i + 1..]);
      assert Run(books, rest) == After(s.output, 1, tail);
      AfterAfter(out, i, s.output, 1, tail);
    }
  }

  /** The body of the `match` in `main`: hands one command to the manager
      and reports what it printed or logged and whether the loop goes on. */
  method Dispatch(manager: LibraryManager, command: Command) returns (lines: seq<Message>, state: LoopState)
    modifies manager.library
    ensures var s := Step(old(manager.library.books), command);
      manager.library.books == s.books && lines == s.output && state == s.state
  {
    lines, state := [], Running;
    match command {
      case Add(title, author, year) =>
        manager.AddBook(title, author, year);
      case Remove(title) =>
        manager.RemoveBook(title);
      case Show =>
        lines := manager.ShowBooks();
      case Exit =>
        state := Terminated;
      case Invalid =>
        lines := [Warning(InvalidNotice)];
    }
  }

  /** `main`: a fresh library and manager, then the dispatch loop over the
      given entries. Returns the final catalogue, everything reported, the
      loop state and how many entries were read. */
  method RunSession(entries: seq<Entry>)
    returns (books: seq<Book>, output: seq<Message>, state: LoopState, read: nat)
    ensures Outcome(books, output, state, read) == Run([], Commands(entries))
  {
    var library := new Library();
    var manager := new LibraryManager(library);
    ghost var commands := Commands(entries);
    output, state, read := [], Running, 0;
    assert commands[0..] == commands;
    while state == Running && read < |entries|
      invariant read <= |entries| == |commands|
      invariant manager.library == library
      invariant state == Running ==>
        Run([], commands) == After(output, read, Run(library.books, commands[read..]))
      invariant state == Terminated ==>
        Run([], commands) == Outcome(library.books, output, Terminated, read)
      decreases |entries| - read, state
    {
      var command := Parse(entries[read]);
      CommandAt(entries, read);
      RunStep(commands, output, read, library.books);
      var lines;
      lines, state := Dispatch(manager, command);
      output := output + lines;
      read := read + 1;
    }
    books := library.books;
  }

  /** A token is recognised whatever whitespace surrounds it. */
  lemma KeywordIgnoresPadding(p: string, x: string, q: string)
    requires AllSpace(p) && AllSpace(q) && Trimmed(x)
    ensures Normalize(p + x + q) == Lower(x)
  {
    StripPadded(p, x, q);
  }

  /** Any casing of `exit`, with any whitespace around it, is the exit
      command. */
  lemma ExitInAnyCase(p: string, x: string, q: string, e: Entry)
    requires AllSpace(p) && AllSpace(q) && Lower(x) == "exit"
    requires e.command == p + x + q
    ensures Parse(e) == Exit
  {
    LowerKeepsSpace(x[0]);
    LowerKeepsSpace(x[|x| - 1]);
    KeywordIgnoresPadding(p, x, q);
  }

  /** `exit` ends the loop at once: the catalogue is as it was, nothing is
      reported and nothing after it is read. */
  lemma ExitEndsLoop(books: seq<Book>, rest: seq<Command>)
    ensures Run(books, [Exit] + rest) == Outcome(books, [], Terminated, 1)
  {
  }

  /** An unrecognised token reports the invalid-command warning, leaves the
      catalogue alone, and the loop goes on with the next entry. */
  lemma InvalidContinues(books: seq<Book>, rest: seq<Command>)
    ensures Run(books, [Invalid] + rest) == After([Warning(InvalidNotice)], 1, Run(books, rest))
  {
    assert ([Invalid] + rest)[1..] == rest;
  }

  /** Once a run has stopped at `exit`, later input is never read. */
  lemma {:induction false} RunStopsAtExit(books: seq<Book>, commands: seq<Command>, more: seq<Command>)
    requires Run(books, commands).state == Terminated
    ensures Run(books, commands + more) == Run(books, commands)
    decreases |commands|
  {
    if commands[0].Exit? {
      assert (commands + more)[0] == commands[0];
    } else {
      var s := Step(books, commands[0]);
      assert Run(books, commands) == After(s.output, 1, Run(s.books, commands[1..]));
      RunStopsAtExit(s.books, commands[1..], more);
      RunOverAppend(books, commands, more);
    }
  }

  /** A pass that does not exit is followed by the run over the rest. */
  lemma RunCons(books: seq<Book>, c: Command, rest: seq<Command>)
    requires !c.Exit?
    ensures var s := Step(books, c);
      Run(books, [c] + rest) == After(s.output, 1, Run(s.books, rest))
  {
    assert ([c] + rest)[1..] == rest;
  }

  lemma AfterAfter(out: seq<Message>, n: nat, more: seq<Message>, m: nat, rest: Outcome)
    ensures After(out, n, After(more, m, rest)) == After(out + more, n + m, rest)
  {
    assert out + (more + rest.output) == (out + more) + rest.output;
  }

  /** Input that leaves the loop running can be split off: the run over
      `first + second` is the run over `first`, then the run over `second`
      from the catalogue `first` left behind. */
  lemma {:induction false} RunConcat(books: seq<Book>, first: seq<Command>, second: seq<Command>)
    requires Run(books, first).state == Running
    ensures var r := Run(books, first);
      Run(books, first + second) == After(r.output, |first|, Run(r.books, second))
    decreases |first|
  {
    if first == [] {
      assert first + second == second;
    } else {
      var s := Step(books, first[0]);
      assert Run(books, first) == After(s.output, 1, Run(s.books, first[1..]));
      RunConcat(s.books, first[1..], second);
      ConcatStep(books, first, second);
    }
  }

  /** The inductive step of `RunConcat`: if the split holds after the first
      pass, it holds before it. */
  lemma ConcatStep(books: seq<Book>, first: seq<Command>, second: seq<Command>)
    requires first != [] && !first[0].Exit?
    requires var s := Step(books, first[0]); var r1 := Run(s.books, first[1..]);
      Run(s.books, first[1..] + second) == After(r1.output, |first| - 1, Run(r1.books, second))
    ensures var r := Run(books, first);
      Run(books, first + second) == After(r.output, |first|, Run(r.books, second))
  {
    var s := Step(books, first[0]);
    var r1 := Run(s.books, first[1..]);
    var rest := Run(r1.books, second);
    RunOverAppend(books, first, second);
    AfterAfter(s.output, 1, r1.output, |first| - 1, rest);
  }

  /** A first pass that does not exit, in front of appended input. */
  lemma RunOverAppend(books: seq<Book>, first: seq<Command>, second: seq<Command>)
    requires first != [] && !first[0].Exit?
    ensures var s := Step(books, first[0]);
      Run(books, first + second) == After(s.output, 1, Run(s.books, first[1..] + second))
  {
    var both := first + second;
    assert both[0] == first[0] && both[1..] == first[1..] + second;
  }

  /** The books that a sequence of `add` commands builds, in order. */
  function Added(commands: seq<Command>): (r: seq<Book>)
    requires forall i :: 0 <= i < |commands| ==> commands[i].Add?
    ensures |r| == |commands|
    ensures forall i :: 0 <= i < |commands| ==>
      r[i] == Book(commands[i].title, commands[i].author, commands[i].year)
  {
    if commands == [] then []
    else
      var c := commands[0];
      [Book(c.title, c.author, c.year)] + Added(commands[1..])
  }

  /** Insertion order: after any run of `add` commands, `show` lists the
      books that were there before, then the added ones, in the order they
      were added. */
  lemma {:induction false} AddsThenShowInOrder(books: seq<Book>, commands: seq<Command>)
    requires forall i :: 0 <= i < |commands| ==> commands[i].Add?
    ensures Run(books, commands + [Show]) ==
      Outcome(books + Added(commands), Listing(books + Added(commands)), Running, |commands| + 1)
    decreases |commands|
  {
    if commands == [] {
      assert commands + [Show] == [Show];
      assert [Show][1..] == [];
    } else {
      var c := commands[0];
      var b := Book(c.title, c.author, c.year);
      assert (commands + [Show])[1..] == commands[1..] + [Show];
      AddsThenShowInOrder(books + [b], commands[1..]);
      assert books + [b] + Added(commands[1..]) == books + Added(commands);
    }
  }

  lemma PlainToken(s: string)
    requires Trimmed(s)
    ensures Strip(s) == s
  {
    StripPadded([], s, []);
    assert [] + s + [] == s;
  }

  lemma LowerOfLowerCase(s: string)
    requires forall i :: 0 <= i < |s| ==> !('A' <= s[i] <= 'Z')
    ensures Lower(s) == s
  {
  }

  /** A line reading exactly `add`, with unpadded title and author, adds
      that book as typed. */
  lemma ParseAddLine(title: string, author: string, year: int)
    requires Trimmed(title) && Trimmed(author)
    ensures Parse(Entry("add", title, author, year)) == Add(title, author, year)
  {
    PlainToken("add");
    LowerOfLowerCase("add");
    PlainToken(title);
    PlainToken(author);
  }

  /** A line reading exactly `remove`, with an unpadded title, removes that
      title as typed. */
  lemma ParseRemoveLine(title: string, author: string, year: int)
    requires Trimmed(title)
    ensures Parse(Entry("remove", title, author, year)) == Remove(title)
  {
    PlainToken("remove");
    LowerOfLowerCase("remove");
    PlainToken(title);
  }

  /** A line reading exactly `show` shows the catalogue. */
  lemma ParseShowLine(title: string, author: string, year: int)
    ensures Parse(Entry("show", title, author, year)) == Show
  {
    PlainToken("show");
    LowerOfLowerCase("show");
  }

  /** The commands of the walk-through, for two books `first` and `second`:
      add both, show, remove the first title, show, remove it again, show.
      With `first` = ("Dune", "Frank Herbert", 1965) and `second` = ("1984",
      "Orwell", 1949) these are the lines that `ParseAddLine`,
      `ParseShowLine` and `ParseRemoveLine` read. */
  function WalkthroughCommands(first: Book, second: Book): seq<Command> {
    [ Add(first.title, first.author, first.year), Add(second.title, second.author, second.year),
      Show, Remove(first.title), Show, Remove(first.title), Show ]
  }

  /** Removing a title twice, with a show after each removal, when only the
      first of two books has that title: both shows list the second book. */
  lemma RemovalsOver(first: Book, second: Book, t: string)
    requires first.title == t && second.title != t
    ensures Run([first, second], [Remove(t), Show, Remove(t), Show]).output ==
      Listing([second]) + Listing([second])
  {
    var shown := Listing([second]);
    assert Without([first, second], t) == [second];
    WithoutAbsent([second], t);
    RunCons([second], Show, []);
    var last := Run([second], [Show]);
    assert last.books == [second] && last.output == shown;
    RunCons([second], Remove(t), [Show]);
    assert Run([second], [Remove(t), Show]) == After([], 1, last);
    RunCons([second], Show, [Remove(t), Show]);
    var tail := Run([second], [Show, Remove(t), Show]);
    assert tail.output == shown + shown;
    RunCons([first, second], Remove(t), [Show, Remove(t), Show]);
  }

  /** The second half of the walk-through: with both books listed, remove
      the first title, show, remove it again, show. */
  lemma WalkthroughRemovals(first: Book, second: Book)
    requires first.title != second.title
    ensures Run([first, second], WalkthroughCommands(first, second)[3..]).output ==
      [Info(second.ToString()), Info(second.ToString())]
  {
    var t := first.title;
    assert WalkthroughCommands(first, second)[3..] == [Remove(t), Show, Remove(t), Show];
    RemovalsOver(first, second, t);
    assert Listing([second]) == [Info(second.ToString())];
  }

  /** The first half of the walk-through: add both books, then show. */
  lemma WalkthroughAdditions(first: Book, second: Book)
    ensures Run([], WalkthroughCommands(first, second)[..3]) ==
      Outcome([first, second], [Info(first.ToString()), Info(second.ToString())], Running, 3)
  {
    var adds := [Add(first.title, first.author, first.year), Add(second.title, second.author, second.year)];
    assert WalkthroughCommands(first, second)[..3] == adds + [Show];
    AddsThenShowInOrder([], adds);
    assert [] + Added(adds) == [first, second];
    assert Listing([first, second]) == [Info(first.ToString()), Info(second.ToString())];
  }

  /** The walk-through: add two books with different titles, show both in
      the order added, remove the first, show only the second, remove the
      first title again without error and show the same single line. */
  lemma Walkthrough(first: Book, second: Book)
    requires first.title != second.title
    ensures Run([], WalkthroughCommands(first, second)).output == [
        Info(first.ToString()), Info(second.ToString()),
        Info(second.ToString()),
        Info(second.ToString())
      ]
  {
    var commands := WalkthroughCommands(first, second);
    assert commands == commands[..3] + commands[3..];
    WalkthroughAdditions(first, second);
    RunConcat([], commands[..3], commands[3..]);
    WalkthroughRemovals(first, second);
  }

  /** A fresh catalogue shows only the empty notice. */
  lemma FreshCatalogueIsEmpty()
    ensures Run([], [Show]).output == [Info(EmptyNotice)]
  {
  }
}
