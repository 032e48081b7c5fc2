/**
 Facts that relate several commands: what survives a save and a reload,
 how a deletion and an addition undo or reuse each other, and how the
 borrow state moves.
 */
module Properties {
  import opened Options
  import opened TextFile
  import opened Records
  import opened Catalog

  // ---------------------------------------------------------------------
  // Persistence round trips
  // ---------------------------------------------------------------------

  /** Reading encoded books into free slots puts them back, in order, from the next free slot. */
  lemma FillEncoded(fmt: Formats, lib: Library, bs: seq<Book>)
    requires Valid(lib) && Clean(fmt) && AllPlain(bs)
    requires |bs| <= MaxBooks - lib.counter
    ensures && Readable(EncodeAll(fmt, bs), MaxBooks - lib.counter)
            && var r := Fill(fmt, lib, EncodeAll(fmt, bs));
            && r.counter == lib.counter + |bs|
            && (forall k :: 0 <= k < |bs| ==> r.books[lib.counter + k] == Reread(fmt, bs[k]))
            && (forall k :: 0 <= k < lib.counter ==> r.books[k] == lib.books[k])
  {
    var ls := EncodeAll(fmt, bs);
    forall k | 0 <= k < |bs|
      ensures WellFormed(ls[k]) && Decode(fmt, ls[k]) == Reread(fmt, bs[k])
    {
      DecodeEncode(fmt, bs[k]);
    }
    var r := Fill(fmt, lib, ls);
    FillSlots(fmt, lib, ls);
    forall k | 0 <= k < |bs|
      ensures r.books[lib.counter + k] == Reread(fmt, bs[k])
    {
      assert r.books[lib.counter + k] == Decode(fmt, ls[lib.counter + k - lib.counter]);
    }
  }

  /**
   Backup then restore gives back the books in use: same count, each book
   with its text fields and flag unchanged, the free slots untouched, and
   books.txt rewritten to match.
   */
  lemma RestoreAfterBackup(fmt: Formats, lib: Library)
    requires Valid(lib) && Clean(fmt) && AllPlain(lib.books[..lib.counter])
    ensures && Readable(Lines(BackupBooks(fmt, lib).backup), MaxBooks)
            && var r := RestoreBooks(fmt, BackupBooks(fmt, lib));
            && r.counter == lib.counter
            && (forall k :: 0 <= k < lib.counter ==> r.books[k] == Reread(fmt, lib.books[k]))
            && (forall k :: lib.counter <= k < MaxBooks ==> r.books[k] == lib.books[k])
            && Persisted(fmt, r)
  {
    var saved := BackupBooks(fmt, lib);
    var prefix := lib.books[..lib.counter];
    assert Lines(saved.backup) == EncodeAll(fmt, prefix);
    FillEncoded(fmt, saved.(counter := 0), prefix);
    var r := RestoreBooks(fmt, saved);
    assert r.counter == lib.counter;
    forall k | 0 <= k < lib.counter
      ensures r.books[k] == Reread(fmt, lib.books[k])
    {
      assert r.books[k] == Decode(fmt, EncodeAll(fmt, prefix)[k]);
      assert prefix[k] == lib.books[k];
    }
  }

  /**
   What one run saves, the next run loads: starting from fresh slots and
   the saved books.txt, the books in use come back in order.
   */
  lemma LoadAfterSave(fmt: Formats, lib: Library, clock: seq<int>)
    requires Valid(lib) && Clean(fmt) && AllPlain(lib.books[..lib.counter]) && |clock| == MaxBooks
    ensures && Readable(Lines(SaveText(fmt, lib)), MaxBooks)
            && var r := LoadBooks(fmt, Startup(clock, SaveText(fmt, lib), lib.backup));
            && r.counter == lib.counter
            && (forall k :: 0 <= k < lib.counter ==> r.books[k] == Reread(fmt, lib.books[k]))
            && (forall k :: lib.counter <= k < MaxBooks ==> r.books[k] == NewBook(clock[k]))
  {
    var prefix := lib.books[..lib.counter];
    var start := Startup(clock, SaveText(fmt, lib), lib.backup);
    assert Lines(start.primary) == EncodeAll(fmt, prefix);
    FillEncoded(fmt, start, prefix);
    var r := LoadBooks(fmt, start);
    assert r.counter == lib.counter;
    forall k | 0 <= k < lib.counter
      ensures r.books[k] == Reread(fmt, lib.books[k])
    {
      assert r.books[k] == Decode(fmt, EncodeAll(fmt, prefix)[k]);
      assert prefix[k] == lib.books[k];
    }
  }

  // ---------------------------------------------------------------------
  // Add and delete
  // ---------------------------------------------------------------------

  /** Two arrays whose first `n` ISBNs agree have the same first match. */
  lemma SameIsbnsSameFirst(a: seq<Book>, b: seq<Book>, n: int, isbn: string, from: nat)
    requires n <= |a| && n <= |b|
    requires forall k :: 0 <= k < n ==> a[k].isbn == b[k].isbn
    ensures FirstFrom(a, n, isbn, from) == FirstFrom(b, n, isbn, from)
  {
  }

  /** Removing the first match from a prefix makes the next match the first one, one slot lower. */
  lemma RemovalExposesNext(a: seq<Book>, c: int, b: seq<Book>, n: int, isbn: string, i: nat, j: nat)
    requires RemovedAt(a, c, i, b, n)
    requires FirstFrom(a, c, isbn, 0) == Some(i)
    requires FirstFrom(a, c, isbn, i + 1) == Some(j)
    ensures b[j - 1] == a[j]
    ensures FirstFrom(b, n, isbn, 0) == Some(j - 1)
  {
    forall k | 0 <= k < j - 1
      ensures b[k].isbn != isbn
    {
      assert b[k] == b[..n][k];
      if k < i {
        assert b[k] == a[k];
      } else {
        assert b[k] == a[k + 1];
      }
    }
    assert b[j - 1] == b[..n][j - 1] == a[j];
    FirstFromUnique(b, n, isbn, 0, j - 1);
  }

  /**
   Deleting by ISBN removes only the first match: the next book with the
   same ISBN moves down one slot and becomes the first match.
   */
  lemma DeleteExposesNextDuplicate(fmt: Formats, lib: Library, isbn: string, i: nat, j: nat)
    requires Valid(lib)
    requires FirstIndex(lib.books, lib.counter, isbn) == Some(i)
    requires FirstFrom(lib.books, lib.counter, isbn, i + 1) == Some(j)
    ensures var r := DeleteBook(fmt, lib, isbn, 1).lib;
            && r.counter == lib.counter - 1
            && r.books[j - 1] == lib.books[j]
            && FirstIndex(r.books, r.counter, isbn) == Some(j - 1)
  {
    var r := DeleteBook(fmt, lib, isbn, 1).lib;
    RemovalExposesNext(lib.books, lib.counter, r.books, r.counter, isbn, i, j);
  }

  /**
   Deleting right after adding a book whose ISBN was not yet in use undoes
   the addition: same books in use, same books.txt.
   */
  lemma AddThenDelete(fmt: Formats, lib: Library, e: Entry)
    requires Valid(lib) && lib.counter < MaxBooks
    requires FirstIndex(lib.books, lib.counter, e.isbn).None?
    ensures var d := DeleteBook(fmt, AddBook(fmt, lib, e).lib, e.isbn, 1);
            && d.status == Done
            && d.lib.counter == lib.counter
            && d.lib.books[..lib.counter] == lib.books[..lib.counter]
            && d.lib.primary == SaveText(fmt, lib)
  {
  }

  /**
   A book added after a deletion lands in the slot the shift left behind
   and inherits that slot's stale borrow state, rating, review, dates and
   borrower name: those of the book that was last before the deletion.
   */
  lemma DeleteThenAddReusesStaleSlot(fmt: Formats, lib: Library, isbn: string, e: Entry)
    requires Valid(lib)
    requires FirstIndex(lib.books, lib.counter, isbn).Some?
    ensures var d := DeleteBook(fmt, lib, isbn, 1).lib;
            var a := AddBook(fmt, d, e);
            && a.status == Done
            && a.lib.counter == lib.counter
            && EntryOf(a.lib.books[lib.counter - 1]) == e
            && SameCirculation(a.lib.books[lib.counter - 1], lib.books[lib.counter - 1])
  {
  }

  // ---------------------------------------------------------------------
  // Borrow and return
  // ---------------------------------------------------------------------

  /**
   Borrowing and then returning a book leaves it available again, but with
   the borrower's name and the borrow time still recorded.
   */
  lemma BorrowThenReturn(fmt: Formats, lib: Library, isbn: string, name: string, now: int)
    requires Valid(lib)
    requires var m := FirstIndex(lib.books, lib.counter, isbn); m.Some? && !lib.books[m.value].isBorrowed
    ensures var i := FirstIndex(lib.books, lib.counter, isbn).value;
            var r := ReturnBook(fmt, BorrowBook(fmt, lib, isbn, name, now).lib, isbn);
            && r.status == Done
            && r.lib.books[i] == lib.books[i].(lastBorrowedDate := now, borrowerName := name)
            && OnlySlot(lib, r.lib, i)
  {
  }

  /** A second borrow of the same book is refused and changes nothing. */
  lemma BorrowTwiceRefused(fmt: Formats, lib: Library, isbn: string, name: string, name': string, now: int, now': int)
    requires Valid(lib)
    requires FirstIndex(lib.books, lib.counter, isbn).Some?
    ensures var b := BorrowBook(fmt, lib, isbn, name, now).lib;
            BorrowBook(fmt, b, isbn, name', now') == Step(b, AlreadyBorrowed)
  {
  }
}
