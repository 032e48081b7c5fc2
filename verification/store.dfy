/**
 The loops of main.cpp, written the way the program runs them over the
 array, and proved to compute what the Catalog functions describe.
 */
module Store {
  import opened Options
  import opened Strings
  import opened TextFile
  import opened Records
  import opened Catalog

  /** The scan every lookup starts with: the first slot below `n` whose ISBN is `isbn`. */
  method FindFirst(books: seq<Book>, n: int, isbn: string) returns (r: Option<nat>)
    requires 0 <= n <= |books|
    ensures r == FirstIndex(books, n, isbn)
  {
    var i := 0;
    while i < n
      invariant 0 <= i <= n
      invariant FirstFrom(books, n, isbn, i) == FirstIndex(books, n, isbn)
    {
      if books[i].isbn == isbn {
        return Some(i);
      }
      i := i + 1;
    }
    return None;
  }

  /** The shift loop of deleteBook: `books[j] = books[j + 1]` for `j` from `i` to `n - 2`. */
  method ShiftLeft(books: seq<Book>, i: int, n: int) returns (r: seq<Book>)
    requires 0 <= i < n <= |books|
    ensures r == RemoveSlot(books, i, n)
  {
    r := books;
    var j := i;
    while j < n - 1
      invariant i <= j <= n - 1
      invariant |r| == |books|
      invariant forall k :: 0 <= k < i ==> r[k] == books[k]
      invariant forall k :: i <= k < j ==> r[k] == books[k + 1]
      invariant forall k :: j <= k < |books| ==> r[k] == books[k]
    {
      r := r[j := r[j + 1]];
      j := j + 1;
    }
    var spec := RemoveSlot(books, i, n);
    assert forall k :: 0 <= k < |r| ==> r[k] == spec[k];
  }

  /** Writing one more book appends its line to the text written so far. */
  lemma WrittenSoFar(fmt: Formats, books: seq<Book>, i: nat)
    requires i < |books|
    ensures Unlines(EncodeAll(fmt, books[..i + 1]))
         == Unlines(EncodeAll(fmt, books[..i])) + ToFileString(fmt, books[i])
  {
    assert EncodeAll(fmt, books[..i + 1]) == EncodeAll(fmt, books[..i]) + [Encode(fmt, books[i])];
    UnlinesSnoc(EncodeAll(fmt, books[..i]), Encode(fmt, books[i]));
  }

  /** The loop of saveBooks and backupBooks: one toFileString per book in use. */
  method WriteBooks(fmt: Formats, lib: Library) returns (text: string)
    requires Valid(lib)
    ensures text == SaveText(fmt, lib)
  {
    text := "";
    var i := 0;
    while i < lib.counter
      invariant 0 <= i <= lib.counter
      invariant text == Unlines(EncodeAll(fmt, lib.books[..i]))
    {
      WrittenSoFar(fmt, lib.books, i);
      text := text + ToFileString(fmt, lib.books[i]);
      i := i + 1;
    }
  }

  /** The read loop of loadBooks and restoreBooks: `books[counter++] = fromFileString(line)`. */
  method ReadBooks(fmt: Formats, lib: Library, lines: seq<string>) returns (r: Library)
    requires Valid(lib)
    requires Readable(lines, MaxBooks - lib.counter)
    ensures r == Fill(fmt, lib, lines)
  {
    r := lib;
    var k := 0;
    while k < |lines| && r.counter < MaxBooks
      invariant 0 <= k <= |lines|
      invariant Valid(r) && r.counter == lib.counter + k
      invariant Readable(lines[k..], MaxBooks - r.counter)
      invariant Fill(fmt, r, lines[k..]) == Fill(fmt, lib, lines)
    {
      assert lines[k..][0] == lines[k];
      assert lines[k..][1..] == lines[k + 1..];
      ReadableTail(lines[k..], MaxBooks - r.counter);
      r := Place(fmt, r, lines[k]);
      k := k + 1;
    }
  }

  /** A book matches a search when its ISBN is the keyword or its title contains it. */
  predicate Hit(b: Book, keyword: string): (h: bool)
    ensures keyword == "" ==> h
    ensures |keyword| > |b.title| && b.isbn != keyword ==> !h
  {
    EmptyIsContained(b.title);
    b.isbn == keyword || Contains(b.title, keyword)
  }

  /**
   searchBook: the slots of every matching book in use, in ascending
   order; the catalog is only read.
   */
  method SearchBooks(lib: Library, keyword: string) returns (hits: seq<nat>)
    requires Valid(lib)
    ensures forall p :: 0 <= p < |hits| ==> hits[p] < lib.counter && Hit(lib.books[hits[p]], keyword)
    ensures forall p, q :: 0 <= p < q < |hits| ==> hits[p] < hits[q]
    ensures forall i :: 0 <= i < lib.counter && Hit(lib.books[i], keyword) ==> i in hits
    ensures keyword == "" ==> hits == seq(lib.counter, k => k)
  {
    hits := [];
    var i := 0;
    while i < lib.counter
      invariant 0 <= i <= lib.counter
      invariant forall p :: 0 <= p < |hits| ==> hits[p] < i && Hit(lib.books[hits[p]], keyword)
      invariant forall p, q :: 0 <= p < q < |hits| ==> hits[p] < hits[q]
      invariant forall j :: 0 <= j < i && Hit(lib.books[j], keyword) ==> j in hits
      invariant keyword == "" ==> hits == seq(i, k => k)
    {
      if keyword == "" {
        EmptyIsContained(lib.books[i].title);
      }
      if lib.books[i].isbn == keyword || Contains(lib.books[i].title, keyword) {
        hits := hits + [i];
      }
      i := i + 1;
    }
  }

  /** Titles of `bs` never decrease. */
  predicate TitlesSorted(bs: seq<Book>) {
    forall p, q :: 0 <= p < q < |bs| ==> LessEq(bs[p].title, bs[q].title)
  }

  /** Each of the first `i` titles is at most every title after it. */
  predicate SettledBelow(a: seq<Book>, i: int) {
    forall p, q :: 0 <= p < i && p < q < |a| ==> LessEq(a[p].title, a[q].title)
  }

  /** `swap(books[i], books[j])`. */
  function Swap(a: seq<Book>, i: int, j: int): (r: seq<Book>)
    requires 0 <= i < |a| && 0 <= j < |a|
    ensures |r| == |a| && r[i] == a[j] && r[j] == a[i]
    ensures forall k :: 0 <= k < |a| && k != i && k != j ==> r[k] == a[k]
    ensures multiset(r) == multiset(a)
  {
    a[i := a[j]][j := a[i]]
  }

  /** Swapping two slots at or after `i` keeps the first `i` titles settled. */
  lemma SwapKeepsSettled(a: seq<Book>, i: int, j: int, k: int)
    requires 0 <= i <= j < |a| && 0 <= i <= k < |a|
    requires SettledBelow(a, i)
    ensures SettledBelow(Swap(a, j, k), i)
  {
  }

  /**
   One pass of the inner loop of sortBooks: compare slot `i` with every
   later slot and swap when the later title is smaller. Afterwards slot `i`
   holds a smallest title of `a[i..]`.
   */
  method SettleSlot(a: seq<Book>, i: int) returns (r: seq<Book>)
    requires 0 <= i < |a|
    requires SettledBelow(a, i)
    ensures |r| == |a| && multiset(r) == multiset(a)
    ensures SettledBelow(r, i + 1)
  {
    r := a;
    var j := i + 1;
    while j < |r|
      invariant i + 1 <= j <= |r| == |a|
      invariant multiset(r) == multiset(a)
      invariant SettledBelow(r, i)
      invariant forall q :: i < q < j ==> LessEq(r[i].title, r[q].title)
    {
      if Less(r[j].title, r[i].title) {
        var x, y := r[i], r[j];
        LessAsymmetric(y.title, x.title);
        forall q | i < q < j
          ensures LessEq(y.title, r[q].title)
        {
          LessEqTransitive(y.title, x.title, r[q].title);
        }
        SwapKeepsSettled(r, i, i, j);
        r := Swap(r, i, j);
      }
      j := j + 1;
    }
  }

  /**
   sortBooks: the exchange sort by title over the books in use. It swaps
   slot `i` with every later slot whose title is smaller, so equal titles
   may change order. It does not save.
   */
  method SortBooks(lib: Library) returns (r: Library)
    requires Valid(lib)
    ensures Valid(r) && r.counter == lib.counter
    ensures TitlesSorted(r.books[..r.counter])
    ensures multiset(r.books[..r.counter]) == multiset(lib.books[..lib.counter])
    ensures r.books[r.counter..] == lib.books[lib.counter..]
    ensures r.primary == lib.primary && r.backup == lib.backup
  {
    var n := lib.counter;
    var a := lib.books[..n];
    var i := 0;
    while i < n - 1
      invariant 0 <= i && (n == 0 || i <= n - 1)
      invariant |a| == n
      invariant multiset(a) == multiset(lib.books[..n])
      invariant SettledBelow(a, i)
    {
      a := SettleSlot(a, i);
      i := i + 1;
    }
    r := lib.(books := a + lib.books[n..]);
    assert r.books[..n] == a;
  }

  // -----------------------------------------------------------------------
  // The commands, run with the loops above
  // -----------------------------------------------------------------------

  /** addBook followed by saveBooks. */
  method AddBook(fmt: Formats, lib: Library, e: Entry) returns (r: Step)
    requires Valid(lib)
    ensures r == Catalog.AddBook(fmt, lib, e)
  {
    if lib.counter >= MaxBooks {
      return Step(lib, Full);
    }
    var c := lib.counter;
    var added := lib.(books := lib.books[c := WithEntry(lib.books[c], e)], counter := c + 1);
    var text := WriteBooks(fmt, added);
    return Step(added.(primary := text), Done);
  }

  /** deleteBook: the scan, the confirmation, the shift loop, then saveBooks. */
  method DeleteBook(fmt: Formats, lib: Library, isbn: string, confirm: int) returns (r: Step)
    requires Valid(lib)
    ensures r == Catalog.DeleteBook(fmt, lib, isbn, confirm)
  {
    if lib.counter == 0 {
      return Step(lib, Empty);
    }
    var m := FindFirst(lib.books, lib.counter, isbn);
    if m.None? {
      return Step(lib, NotFound);
    }
    if confirm != 1 {
      return Step(lib, Kept);
    }
    var shifted := ShiftLeft(lib.books, m.value, lib.counter);
    var next := lib.(books := shifted, counter := lib.counter - 1);
    var text := WriteBooks(fmt, next);
    return Step(next.(primary := text), Done);
  }

  /** editBook: the scan, the six setters on the match, then saveBooks. */
  method EditBook(fmt: Formats, lib: Library, isbn: string, e: Entry) returns (r: Step)
    requires Valid(lib)
    ensures r == Catalog.EditBook(fmt, lib, isbn, e)
  {
    if lib.counter == 0 {
      return Step(lib, Empty);
    }
    var m := FindFirst(lib.books, lib.counter, isbn);
    if m.None? {
      return Step(lib, NotFound);
    }
    var i := m.value;
    var next := lib.(books := lib.books[i := WithEntry(lib.books[i], e)]);
    var text := WriteBooks(fmt, next);
    return Step(next.(primary := text), Done);
  }

  /** borrowBook: the scan, the borrowed check, the three setters, then saveBooks. */
  method BorrowBook(fmt: Formats, lib: Library, isbn: string, name: string, now: int) returns (r: Step)
    requires Valid(lib)
    ensures r == Catalog.BorrowBook(fmt, lib, isbn, name, now)
  {
    var m := FindFirst(lib.books, lib.counter, isbn);
    if m.None? {
      return Step(lib, NotFound);
    }
    var i := m.value;
    if lib.books[i].isBorrowed {
      return Step(lib, AlreadyBorrowed);
    }
    var b := lib.books[i].(isBorrowed := true, lastBorrowedDate := now, borrowerName := name);
    var next := lib.(books := lib.books[i := b]);
    var text := WriteBooks(fmt, next);
    return Step(next.(primary := text), Done);
  }

  /** returnBook: the scan, the borrowed check, clearing the flag, then saveBooks. */
  method ReturnBook(fmt: Formats, lib: Library, isbn: string) returns (r: Step)
    requires Valid(lib)
    ensures r == Catalog.ReturnBook(fmt, lib, isbn)
  {
    var m := FindFirst(lib.books, lib.counter, isbn);
    if m.None? {
      return Step(lib, NotFound);
    }
    var i := m.value;
    if !lib.books[i].isBorrowed {
      return Step(lib, NotBorrowed);
    }
    var next := lib.(books := lib.books[i := lib.books[i].(isBorrowed := false)]);
    var text := WriteBooks(fmt, next);
    return Step(next.(primary := text), Done);
  }

  /** addReview: the scan, the review and the accepted rating on the match, then saveBooks. */
  method AddReview(fmt: Formats, lib: Library, isbn: string, review: string, rating: real) returns (r: Step)
    requires Valid(lib)
    requires 0.0 <= rating <= 5.0
    ensures r == Catalog.AddReview(fmt, lib, isbn, review, rating)
  {
    var m := FindFirst(lib.books, lib.counter, isbn);
    if m.None? {
      return Step(lib, NotFound);
    }
    var i := m.value;
    var next := lib.(books := lib.books[i := lib.books[i].(review := review, rating := rating)]);
    var text := WriteBooks(fmt, next);
    return Step(next.(primary := text), Done);
  }

  /** backupBooks: the save loop aimed at books_backup.txt. */
  method BackupBooks(fmt: Formats, lib: Library) returns (r: Library)
    requires Valid(lib)
    ensures r == Catalog.BackupBooks(fmt, lib)
  {
    var text := WriteBooks(fmt, lib);
    r := lib.(backup := text);
  }

  /** loadBooks: the read loop over the lines of books.txt. */
  method LoadBooks(fmt: Formats, lib: Library) returns (r: Library)
    requires Valid(lib)
    requires Readable(Lines(lib.primary), MaxBooks - lib.counter)
    ensures r == Catalog.LoadBooks(fmt, lib)
  {
    r := ReadBooks(fmt, lib, Lines(lib.primary));
  }

  /** restoreBooks: `counter = 0`, the read loop over books_backup.txt, then saveBooks. */
  method RestoreBooks(fmt: Formats, lib: Library) returns (r: Library)
    requires Valid(lib)
    requires Readable(Lines(lib.backup), MaxBooks)
    ensures r == Catalog.RestoreBooks(fmt, lib)
  {
    var filled := ReadBooks(fmt, lib.(counter := 0), Lines(lib.backup));
    var text := WriteBooks(fmt, filled);
    r := filled.(primary := text);
  }
}
