/**
 The catalog as the program keeps it: the fixed array `books[MAX_BOOKS]`
 of Book slots, the count `counter` of slots in use, and the contents of
 books.txt and books_backup.txt. Each command is a function from the state
 before to the state after, with the console prompts turned into
 parameters. Slots at or beyond `counter` are kept as they are: the program
 never clears a slot, so later commands can see stale values there.
 */
module Catalog {
  import opened Options
  import opened Strings
  import opened TextFile
  import opened Records

  /** MAX_BOOKS. */
  const MaxBooks: int := 100

  datatype Library = Library(
    books: seq<Book>,    // the array, all MaxBooks slots
    counter: int,        // number of slots in use
    primary: string,     // text of books.txt
    backup: string)      // text of books_backup.txt

  predicate Valid(lib: Library) {
    |lib.books| == MaxBooks && 0 <= lib.counter <= MaxBooks
  }

  /** What a command reports besides its new state. */
  datatype Status =
    | Done             // the command changed the catalog (or saved it)
    | Full             // MAXIMUM NUMBER OF BOOKS REACHED
    | Empty            // NO BOOK TO DELETE / NO BOOK TO EDIT
    | NotFound         // BOOK NOT FOUND
    | Kept             // deletion not confirmed
    | AlreadyBorrowed  // This book is already borrowed
    | NotBorrowed      // This book is not currently borrowed

  datatype Step = Step(lib: Library, status: Status)

  /**
   The state at program start: no books in use, and slot `k` default-constructed
   at `clock[k]`, the time the constructor read for that slot.
   */
  function Startup(clock: seq<int>, primary: string, backup: string): (lib: Library)
    requires |clock| == MaxBooks
    ensures Valid(lib) && lib.counter == 0
    ensures forall k :: 0 <= k < MaxBooks ==> lib.books[k] == NewBook(clock[k])
    ensures lib.primary == primary && lib.backup == backup
  {
    Library(seq(MaxBooks, k requires 0 <= k < MaxBooks => NewBook(clock[k])), 0, primary, backup)
  }

  // ---------------------------------------------------------------------
  // First-match lookup
  // ---------------------------------------------------------------------

  /** The first slot in `from..n` whose ISBN is `isbn`. */
  function FirstFrom(books: seq<Book>, n: int, isbn: string, from: nat): (r: Option<nat>)
    requires n <= |books|
    ensures r.Some? ==> from <= r.value < n && books[r.value].isbn == isbn
    ensures r.Some? ==> forall j :: from <= j < r.value ==> books[j].isbn != isbn
    ensures r.None? ==> forall j :: from <= j < n ==> books[j].isbn != isbn
    decreases n - from
  {
    if from >= n then None
    else if books[from].isbn == isbn then Some(from)
    else FirstFrom(books, n, isbn, from + 1)
  }

  /** The slot every lookup by ISBN acts on: the first match among the books in use. */
  function FirstIndex(books: seq<Book>, n: int, isbn: string): Option<nat>
    requires n <= |books|
  {
    FirstFrom(books, n, isbn, 0)
  }

  /** A first match is determined by where it is: a match with no earlier match. */
  lemma FirstFromUnique(books: seq<Book>, n: int, isbn: string, from: nat, i: nat)
    requires n <= |books| && from <= i < n
    requires books[i].isbn == isbn
    requires forall j :: from <= j < i ==> books[j].isbn != isbn
    ensures FirstFrom(books, n, isbn, from) == Some(i)
  {
  }

  /** `lib` and `r` agree on every slot but `i`, on the counter and on the backup file. */
  predicate OnlySlot(lib: Library, r: Library, i: int) {
    && |r.books| == |lib.books|
    && r.counter == lib.counter
    && r.backup == lib.backup
    && forall j :: 0 <= j < |lib.books| && j != i ==> r.books[j] == lib.books[j]
  }

  // ---------------------------------------------------------------------
  // Persistence
  // ---------------------------------------------------------------------

  /** The lines of the books `bs`, in order. */
  function EncodeAll(fmt: Formats, bs: seq<Book>): (ls: seq<string>)
    ensures |ls| == |bs|
    ensures forall k :: 0 <= k < |bs| ==> ls[k] == Encode(fmt, bs[k])
  {
    seq(|bs|, k requires 0 <= k < |bs| => Encode(fmt, bs[k]))
  }

  /** The books in use have plain text fields. */
  predicate AllPlain(bs: seq<Book>) {
    forall k :: 0 <= k < |bs| ==> PlainBook(bs[k])
  }

  /** The text saveBooks and backupBooks write: one line per book in use. */
  function SaveText(fmt: Formats, lib: Library): (text: string)
    requires Valid(lib)
    ensures Clean(fmt) && AllPlain(lib.books[..lib.counter]) ==>
              Lines(text) == EncodeAll(fmt, lib.books[..lib.counter])
  {
    var ls := EncodeAll(fmt, lib.books[..lib.counter]);
    assert Clean(fmt) && AllPlain(lib.books[..lib.counter]) ==> Lines(Unlines(ls)) == ls by {
      if Clean(fmt) && AllPlain(lib.books[..lib.counter]) {
        LinesUnlines(ls);
      }
    }
    Unlines(ls)
  }

  /** books.txt holds exactly the books in use. */
  predicate Persisted(fmt: Formats, lib: Library)
    requires Valid(lib)
  {
    lib.primary == SaveText(fmt, lib)
  }

  /** saveBooks: overwrite books.txt with the books in use. */
  function SaveBooks(fmt: Formats, lib: Library): (r: Library)
    requires Valid(lib)
    ensures Valid(r) && Persisted(fmt, r)
    ensures r.books == lib.books && r.counter == lib.counter && r.backup == lib.backup
  {
    lib.(primary := SaveText(fmt, lib))
  }

  /** backupBooks: overwrite books_backup.txt with the books in use; nothing else changes. */
  function BackupBooks(fmt: Formats, lib: Library): (r: Library)
    requires Valid(lib)
    ensures Valid(r)
    ensures r.books == lib.books && r.counter == lib.counter && r.primary == lib.primary
    ensures r.backup == SaveText(fmt, lib)
    ensures Clean(fmt) && AllPlain(lib.books[..lib.counter]) ==>
              Lines(r.backup) == EncodeAll(fmt, lib.books[..lib.counter])
  {
    lib.(backup := SaveText(fmt, lib))
  }

  /** The lines that would be decoded while filling `room` free slots are all well formed. */
  predicate Readable(lines: seq<string>, room: int) {
    forall k :: 0 <= k < |lines| && k < room ==> WellFormed(lines[k])
  }

  function Min(a: int, b: int): int {
    if a <= b then a else b
  }

  /** Dropping the line just read keeps the rest readable with one slot less. */
  lemma ReadableTail(lines: seq<string>, room: int)
    requires lines != [] && Readable(lines, room)
    ensures Readable(lines[1..], room - 1)
  {
  }

  /** `books[counter++] = Book::fromFileString(line)`. */
  function Place(fmt: Formats, lib: Library, line: string): (r: Library)
    requires Valid(lib) && lib.counter < MaxBooks && WellFormed(line)
    ensures Valid(r) && r.counter == lib.counter + 1
    ensures r.books[lib.counter] == Decode(fmt, line)
    ensures forall k :: 0 <= k < MaxBooks && k != lib.counter ==> r.books[k] == lib.books[k]
    ensures r.primary == lib.primary && r.backup == lib.backup
  {
    lib.(books := lib.books[lib.counter := Decode(fmt, line)], counter := lib.counter + 1)
  }

  /**
   The read loop of loadBooks and restoreBooks: decode each line into slot
   `counter` and advance, until the lines run out or the array is full.
   */
  function Fill(fmt: Formats, lib: Library, lines: seq<string>): (r: Library)
    requires Valid(lib)
    requires Readable(lines, MaxBooks - lib.counter)
    ensures Valid(r)
    ensures r.counter == lib.counter + Min(|lines|, MaxBooks - lib.counter)
    ensures r.primary == lib.primary && r.backup == lib.backup
    decreases |lines|
  {
    if lines == [] || lib.counter >= MaxBooks then lib
    else
      ReadableTail(lines, MaxBooks - lib.counter);
      Fill(fmt, Place(fmt, lib, lines[0]), lines[1..])
  }

  /**
   What the read loop leaves in the slots: the decoded lines in file order
   from the old `counter` on, every other slot as it was.
   */
  lemma {:induction false} FillSlots(fmt: Formats, lib: Library, lines: seq<string>)
    requires Valid(lib)
    requires Readable(lines, MaxBooks - lib.counter)
    ensures forall k :: lib.counter <= k < Fill(fmt, lib, lines).counter ==>
              Fill(fmt, lib, lines).books[k] == Decode(fmt, lines[k - lib.counter])
    ensures forall k :: 0 <= k < MaxBooks && !(lib.counter <= k < Fill(fmt, lib, lines).counter) ==>
              Fill(fmt, lib, lines).books[k] == lib.books[k]
    decreases |lines|
  {
    if lines != [] && lib.counter < MaxBooks {
      ReadableTail(lines, MaxBooks - lib.counter);
      var next := Place(fmt, lib, lines[0]);
      FillSlots(fmt, next, lines[1..]);
      var r := Fill(fmt, lib, lines);
      assert r == Fill(fmt, next, lines[1..]);
      forall k | next.counter <= k < r.counter
        ensures r.books[k] == Decode(fmt, lines[k - lib.counter])
      {
        assert lines[1..][k - next.counter] == lines[k - lib.counter];
      }
    }
  }

  /** loadBooks: append the books of books.txt after the books in use. */
  function LoadBooks(fmt: Formats, lib: Library): (r: Library)
    requires Valid(lib)
    requires Readable(Lines(lib.primary), MaxBooks - lib.counter)
    ensures Valid(r) && r.primary == lib.primary && r.backup == lib.backup
    ensures r.counter == lib.counter + Min(|Lines(lib.primary)|, MaxBooks - lib.counter)
    ensures forall k :: lib.counter <= k < r.counter ==>
              r.books[k] == Decode(fmt, Lines(lib.primary)[k - lib.counter])
    ensures forall k :: 0 <= k < MaxBooks && !(lib.counter <= k < r.counter) ==> r.books[k] == lib.books[k]
  {
    var lines := Lines(lib.primary);
    FillSlots(fmt, lib, lines);
    Fill(fmt, lib, lines)
  }

  /**
   restoreBooks: forget the books in use, fill the slots from the lines of
   books_backup.txt, then save the restored books to books.txt.
   */
  function RestoreBooks(fmt: Formats, lib: Library): (r: Library)
    requires Valid(lib)
    requires Readable(Lines(lib.backup), MaxBooks)
    ensures Valid(r) && Persisted(fmt, r) && r.backup == lib.backup
    ensures r.counter == Min(|Lines(lib.backup)|, MaxBooks)
    ensures forall k :: 0 <= k < r.counter ==> r.books[k] == Decode(fmt, Lines(lib.backup)[k])
    ensures forall k :: r.counter <= k < MaxBooks ==> r.books[k] == lib.books[k]
  {
    var lines := Lines(lib.backup);
    FillSlots(fmt, lib.(counter := 0), lines);
    SaveBooks(fmt, Fill(fmt, lib.(counter := 0), lines))
  }

  // ---------------------------------------------------------------------
  // Commands
  // ---------------------------------------------------------------------

  /**
   addBook: when there is room, the next free slot gets the six catalog
   fields and the counter grows; the slot is not reset, so whatever it held
   in its other fields stays there.
   */
  function AddBook(fmt: Formats, lib: Library, e: Entry): (r: Step)
    requires Valid(lib)
    ensures Valid(r.lib)
    ensures lib.counter >= MaxBooks <==> r.status == Full
    ensures r.status == Full ==> r.lib == lib
    ensures r.status != Full ==>
              && r.status == Done
              && r.lib.counter == lib.counter + 1
              && EntryOf(r.lib.books[lib.counter]) == e
              && SameCirculation(r.lib.books[lib.counter], lib.books[lib.counter])
              && (forall j :: 0 <= j < MaxBooks && j != lib.counter ==> r.lib.books[j] == lib.books[j])
              && Persisted(fmt, r.lib)
              && r.lib.backup == lib.backup
  {
    if lib.counter >= MaxBooks then Step(lib, Full)
    else
      var c := lib.counter;
      WithEntryEffect(lib.books[c], e);
      var added := lib.(books := lib.books[c := WithEntry(lib.books[c], e)], counter := c + 1);
      Step(SaveBooks(fmt, added), Done)
  }

  /** The array after shifting slots `i+1..n` one place left; slot `n-1` keeps its old value. */
  function RemoveSlot(books: seq<Book>, i: int, n: int): (r: seq<Book>)
    requires 0 <= i < n <= |books|
    ensures |r| == |books|
    ensures forall k :: 0 <= k < i ==> r[k] == books[k]
    ensures forall k :: i <= k < n - 1 ==> r[k] == books[k + 1]
    ensures forall k :: n - 1 <= k < |books| ==> r[k] == books[k]
  {
    books[..i] + books[i + 1..n] + books[n - 1..]
  }

  /**
   `after` holds the `n - 1` books in use that remain when slot `i` of the
   `n` books in use of `before` is removed, and every later slot of
   `before` unchanged.
   */
  predicate RemovedAt(before: seq<Book>, n: int, i: int, after: seq<Book>, n': int) {
    && 0 <= i < n <= |before| == |after|
    && n' == n - 1
    && after[..n'] == before[..i] + before[i + 1..n]
    && after[n'..] == before[n'..]
  }

  /**
   deleteBook: with books in use and a confirmed first match at `i`, the
   books in use become those before `i` followed by those after it, and
   the vacated last slot keeps a stale copy of the old last book.
   */
  function DeleteBook(fmt: Formats, lib: Library, isbn: string, confirm: int): (r: Step)
    requires Valid(lib)
    ensures Valid(r.lib)
    ensures lib.counter == 0 ==> r == Step(lib, Empty)
    ensures lib.counter > 0 && FirstIndex(lib.books, lib.counter, isbn).None? ==> r == Step(lib, NotFound)
    ensures lib.counter > 0 && FirstIndex(lib.books, lib.counter, isbn).Some? && confirm != 1 ==>
              r == Step(lib, Kept)
    ensures var m := FirstIndex(lib.books, lib.counter, isbn);
            lib.counter > 0 && m.Some? && confirm == 1 ==>
              && r.status == Done
              && RemovedAt(lib.books, lib.counter, m.value, r.lib.books, r.lib.counter)
              && Valid(r.lib) && Persisted(fmt, r.lib)
              && r.lib.backup == lib.backup
  {
    if lib.counter == 0 then Step(lib, Empty)
    else match FirstIndex(lib.books, lib.counter, isbn)
      case None => Step(lib, NotFound)
      case Some(i) =>
        if confirm != 1 then Step(lib, Kept)
        else
          var shifted := RemoveSlot(lib.books, i, lib.counter);
          assert shifted[..lib.counter - 1] == lib.books[..i] + lib.books[i + 1..lib.counter];
          assert shifted[lib.counter - 1..] == lib.books[lib.counter - 1..];
          Step(SaveBooks(fmt, lib.(books := shifted, counter := lib.counter - 1)), Done)
  }

  /**
   editBook: the first match gets the six new catalog fields (its ISBN
   included); its borrow state, rating, review, dates and borrower stay.
   */
  function EditBook(fmt: Formats, lib: Library, isbn: string, e: Entry): (r: Step)
    requires Valid(lib)
    ensures Valid(r.lib)
    ensures lib.counter == 0 ==> r == Step(lib, Empty)
    ensures lib.counter > 0 && FirstIndex(lib.books, lib.counter, isbn).None? ==> r == Step(lib, NotFound)
    ensures var m := FirstIndex(lib.books, lib.counter, isbn);
            lib.counter > 0 && m.Some? ==>
              && r.status == Done
              && OnlySlot(lib, r.lib, m.value)
              && EntryOf(r.lib.books[m.value]) == e
              && SameCirculation(r.lib.books[m.value], lib.books[m.value])
              && Persisted(fmt, r.lib)
  {
    if lib.counter == 0 then Step(lib, Empty)
    else match FirstIndex(lib.books, lib.counter, isbn)
      case None => Step(lib, NotFound)
      case Some(i) =>
        WithEntryEffect(lib.books[i], e);
        Step(SaveBooks(fmt, lib.(books := lib.books[i := WithEntry(lib.books[i], e)])), Done)
  }

  /**
   borrowBook: a first match that is not borrowed becomes borrowed by
   `name` at time `now`; one that is already borrowed is left alone.
   */
  function BorrowBook(fmt: Formats, lib: Library, isbn: string, name: string, now: int): (r: Step)
    requires Valid(lib)
    ensures Valid(r.lib)
    ensures FirstIndex(lib.books, lib.counter, isbn).None? ==> r == Step(lib, NotFound)
    ensures var m := FirstIndex(lib.books, lib.counter, isbn);
            m.Some? && lib.books[m.value].isBorrowed ==> r == Step(lib, AlreadyBorrowed)
    ensures var m := FirstIndex(lib.books, lib.counter, isbn);
            m.Some? && !lib.books[m.value].isBorrowed ==>
              && r.status == Done
              && OnlySlot(lib, r.lib, m.value)
              && var b, b' := lib.books[m.value], r.lib.books[m.value];
              && b'.isBorrowed && b'.lastBorrowedDate == now && b'.borrowerName == name
              && EntryOf(b') == EntryOf(b)
              && b'.rating == b.rating && b'.review == b.review && b'.addedDate == b.addedDate
              && Persisted(fmt, r.lib)
  {
    match FirstIndex(lib.books, lib.counter, isbn)
    case None => Step(lib, NotFound)
    case Some(i) =>
      if lib.books[i].isBorrowed then Step(lib, AlreadyBorrowed)
      else
        var b := lib.books[i].(isBorrowed := true, lastBorrowedDate := now, borrowerName := name);
        Step(SaveBooks(fmt, lib.(books := lib.books[i := b])), Done)
  }

  /**
   returnBook: a first match that is borrowed becomes available again; its
   borrower name is not cleared. One that is not borrowed is left alone.
   */
  function ReturnBook(fmt: Formats, lib: Library, isbn: string): (r: Step)
    requires Valid(lib)
    ensures Valid(r.lib)
    ensures FirstIndex(lib.books, lib.counter, isbn).None? ==> r == Step(lib, NotFound)
    ensures var m := FirstIndex(lib.books, lib.counter, isbn);
            m.Some? && !lib.books[m.value].isBorrowed ==> r == Step(lib, NotBorrowed)
    ensures var m := FirstIndex(lib.books, lib.counter, isbn);
            m.Some? && lib.books[m.value].isBorrowed ==>
              && r.status == Done
              && OnlySlot(lib, r.lib, m.value)
              && !r.lib.books[m.value].isBorrowed
              && r.lib.books[m.value].(isBorrowed := true) == lib.books[m.value]
              && Persisted(fmt, r.lib)
  {
    match FirstIndex(lib.books, lib.counter, isbn)
    case None => Step(lib, NotFound)
    case Some(i) =>
      if !lib.books[i].isBorrowed then Step(lib, NotBorrowed)
      else
        Step(SaveBooks(fmt, lib.(books := lib.books[i := lib.books[i].(isBorrowed := false)])), Done)
  }

  /**
   addReview: the first match gets the review text and the rating, which
   the prompt loop only accepts within 0.0..5.0.
   */
  function AddReview(fmt: Formats, lib: Library, isbn: string, review: string, rating: real): (r: Step)
    requires Valid(lib)
    requires 0.0 <= rating <= 5.0
    ensures Valid(r.lib)
    ensures FirstIndex(lib.books, lib.counter, isbn).None? ==> r == Step(lib, NotFound)
    ensures var m := FirstIndex(lib.books, lib.counter, isbn);
            m.Some? ==>
              && r.status == Done
              && OnlySlot(lib, r.lib, m.value)
              && var b, b' := lib.books[m.value], r.lib.books[m.value];
              && b'.review == review && 0.0 <= b'.rating <= 5.0 && b'.rating == rating
              && EntryOf(b') == EntryOf(b)
              && b'.isBorrowed == b.isBorrowed && b'.borrowerName == b.borrowerName
              && b'.addedDate == b.addedDate && b'.lastBorrowedDate == b.lastBorrowedDate
              && Persisted(fmt, r.lib)
  {
    match FirstIndex(lib.books, lib.counter, isbn)
    case None => Step(lib, NotFound)
    case Some(i) =>
      var b := lib.books[i].(review := review, rating := rating);
      Step(SaveBooks(fmt, lib.(books := lib.books[i := b])), Done)
  }
}
