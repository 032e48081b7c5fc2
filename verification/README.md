# Library management system — Dafny model

This project models the core of a single-file C++ console program that
keeps a library catalog: a fixed array of 100 `Book` slots with a count
of slots in use, saved as one `;`-separated line per book in `books.txt`
and copied on demand to `books_backup.txt`. The commands it models are
add, delete, edit, search, sort by title, borrow, return, add review,
backup and restore, plus the load at program start and the save after
each change.

Modules:

- `Records` (records.dfy): the `Book` record, the six-field `Entry` that
  add and edit write, and the line codec `Encode`/`Decode` over `Split`
  and `Join` on `;`.
- `TextFile` (textfile.dfy): a file as the lines `getline` returns
  (`Lines`) and as the text one write per line produces (`Unlines`).
- `Catalog` (catalog.dfy): the state `Library` and every command as a
  function from the state before to a `Step` (the state after and a
  status standing for the console message).
- `Store` (store.dfy): the loops of the program, written over the array
  the way the C++ runs them: the first-match scan, the shift-left of
  delete, the search scan, the exchange sort, and the save and read
  loops. The add, delete, edit, borrow, return, review, backup, load and
  restore methods are each proved to compute exactly the corresponding
  `Catalog` step. Search and sort have no `Catalog` counterpart; their
  methods carry their own contracts (the matching slots in order; a
  sorted permutation of the books in use).
- `Properties` (properties.dfy): facts that link commands. They cover
  backup then restore, save then reload, add then delete, delete then
  add, and borrow then return.
- `Strings` (strings.dfy): the order `std::string::operator>` uses and
  `find` as a substring test. `Options` (options.dfy): `Option`.

How the program's state is represented:

- The array is a `seq<Book>` of exactly `MaxBooks` (100) slots. `counter`
  counts the slots in use.
- Slots at and past `counter` keep whatever they held. The program never
  clears a slot, so `AddBook` writes only the six catalog fields and the
  new book keeps the slot's old borrow flag, rating, review, dates and
  borrower. A delete leaves a copy of the old last book in the vacated
  slot, so a book added right after a delete inherits that book's state.
  `Properties.DeleteThenAddReusesStaleSlot` proves this.
- The two files are the strings `primary` and `backup` inside `Library`.
  An absent file is the empty string.
- The console inputs are parameters: the ISBN, the new fields, the
  delete confirmation, the borrower name, the review text and the rating.
  So are the clock value `now` of a command and the start time of each
  slot, which the default constructor reads once per slot.
- The rating is a `real` and the two dates are `int` (time_t). Their text
  forms come from a `Formats` value of four functions. These stand for
  `to_string`/`stof` and `strftime`/`sscanf`+`mktime`.
  `Clean(fmt)` says their output holds no `;` and no newline, which is
  true of `"%f"` and `"%Y-%m-%d %H:%M:%S"` output. A round trip keeps the
  string fields and the flag exactly. The rating and dates come back as
  `readRating(showRating(r))` and `readDate(showDate(t))` (`Reread`).

Three behaviours of the program worth stating plainly:

- `sortBooks` is an unstable exchange sort and does not call
  `saveBooks` (main.cpp:376-386).
- `addBook` never sets `addedDate` (main.cpp:240-246). A new book shows
  whatever date its slot held: the time its slot was constructed at
  program start, or a stale date.
- `stof` throws on a non-numeric rating field (main.cpp:112); see Left
  out.

## Model

| member | source | states |
|---|---|---|
| Records.NewBook | main.cpp:25-28 | a default-constructed book is not borrowed, unrated, added at the given time and never borrowed, with empty strings |
| Records.WithEntryEffect | main.cpp:33-38 | the six catalog setters set exactly those fields and keep borrow state, rating, review, dates and borrower |
| Records.Split | main.cpp:102-116 | the pieces successive `getline(ss, data, ';')` calls return: at least one, none containing `;` |
| Records.JoinSplit | main.cpp:100-119 | joining the pieces of any line with `;` gives the line back, so splitting loses nothing |
| Records.SplitJoin | main.cpp:75-79 | splitting fields joined with `;` gives back the same fields, as long as none contains `;` |
| Records.Encode | main.cpp:75-79 | the encoded line of a book with plain fields contains no newline, so it is one line of the file |
| Records.ToFileString | main.cpp:75-79 | the written record, newline included, reads back as exactly one line: the encoded book |
| Records.Decode | main.cpp:100-119 | decoding takes the first twelve pieces in file order: pieces 1-6 are the catalog fields, the book is borrowed exactly when piece 7 is "1", the rating and dates are read from pieces 8, 10 and 11, the review and borrower are pieces 9 and 12; and a line whose twelve pieces are canonical (flag "0"/"1", rating and date texts that re-read to themselves) encodes back to the same line |
| Records.DecodeEncode | main.cpp:100-119 | an encoded line has exactly 12 fields; decoding it returns the same isbn, title, author, edition, publication, category, borrowed flag, review and borrower, with rating and dates passed through their text forms |
| Strings.LessIrreflexive | main.cpp:379 | no title sorts strictly before itself |
| Strings.LessTransitive | main.cpp:379 | the title order used by the sort is transitive |
| Strings.LessTrichotomy | main.cpp:379 | any two titles are equal or one sorts strictly before the other |
| Strings.LessEqTransitive | main.cpp:379 | "not after" is transitive, which is what the exchange sort needs |
| Strings.EmptyIsContained | main.cpp:344 | `find` of the empty keyword succeeds in every title |
| TextFile.Lines | main.cpp:207 | the lines read with getline contain no newline and are never more than the characters of the file |
| TextFile.UnlinesSnoc | main.cpp:217-219 | writing one more line appends its text and a newline to the file |
| TextFile.LinesUnlines | main.cpp:215-221 | reading back lines written one per line gives the same lines, as long as none contains a newline |
| TextFile.UnlinesLines | main.cpp:204-211 | rewriting the lines read from a file that ends in a newline (or is empty) gives the same text |
| Catalog.Startup | main.cpp:122-123 | at start none of the 100 slots is in use, and slot `k` holds a default book added at the time its own constructor call (main.cpp:25-28) read |
| Catalog.FirstFrom | main.cpp:265-266 | the lookup result is a slot in range whose ISBN matches, with no match before it; no result means no slot in range matches |
| Catalog.SaveText | main.cpp:215-221 | the saved text reads back as the encoded books in use, in slot order |
| Catalog.SaveBooks | main.cpp:215-221 | saving rewrites books.txt to the books in use and changes nothing else |
| Catalog.BackupBooks | main.cpp:480-488 | backup rewrites books_backup.txt to the encoded books in use and changes neither the slots, the counter nor books.txt |
| Catalog.Place | main.cpp:208 | one read step decodes the line into slot `counter`, advances the counter, and changes no other slot and neither file |
| Catalog.Fill | main.cpp:207-209 | reading stops when lines run out or 100 slots are used: the counter grows by the smaller of the two, and the files stay as they were |
| Catalog.FillSlots | main.cpp:207-209 | the slots the read fills hold the decoded lines in file order from `counter` on, and every other slot is as it was |
| Catalog.LoadBooks | main.cpp:204-211 | loading appends the decoded lines of books.txt after the books in use, up to 100, without touching the books already there or either file |
| Catalog.RestoreBooks | main.cpp:491-504 | restore uses min(lines, 100) slots holding the decoded backup lines in order, keeps the later slots as they were, and rewrites books.txt to the restored books |
| Catalog.AddBook | main.cpp:224-251 | full catalog: status Full and nothing changes; otherwise the counter grows by one, the old next-free slot gets exactly the six fields while keeping its borrow state, rating, review, dates and borrower, no other slot changes, and books.txt is rewritten |
| Catalog.RemoveSlot | main.cpp:272-273 | removing slot `i` of `n` in use keeps the slots before `i`, moves each slot after it down by one, and keeps slot `n - 1` and every later slot as they were |
| Catalog.DeleteBook | main.cpp:254-285 | nothing changes when no book is in use, no ISBN matches or the deletion is not confirmed; otherwise the books in use become those before the first match followed by those after it, the counter drops by one, the vacated slot keeps its old value and books.txt is rewritten |
| Catalog.EditBook | main.cpp:288-333 | only the first match changes, its six catalog fields (ISBN included) become the new ones, its borrow state, rating, review, dates and borrower stay, and books.txt is rewritten; empty or unmatched leaves everything as it was |
| Catalog.BorrowBook | main.cpp:389-418 | an unmatched or already borrowed first match leaves everything as it was; otherwise only that slot changes, becoming borrowed by the given name at `now` with its other fields kept, and books.txt is rewritten |
| Catalog.ReturnBook | main.cpp:421-442 | an unmatched or not borrowed first match leaves everything as it was; otherwise only the borrowed flag of that slot is cleared (the borrower name stays) and books.txt is rewritten |
| Catalog.AddReview | main.cpp:446-477 | only the first match changes: its review and a rating within 0.0..5.0 are set, every other field is kept, and books.txt is rewritten |
| Store.FindFirst | main.cpp:265-266 | the loop that stops at the first matching ISBN returns the first match, or none |
| Store.ShiftLeft | main.cpp:272 | the shift loop leaves the slots before `i`, then the slots after `i` moved down by one, then the old last slot and the untouched rest |
| Store.WriteBooks | main.cpp:217-219 | the write loop produces the text of the encoded books in use, each followed by a newline |
| Store.ReadBooks | main.cpp:207-209 | the read loop computes the same fill as `Catalog.Fill` |
| Store.Hit | main.cpp:344 | every book matches the empty keyword, and a keyword longer than the title that is not the ISBN matches nothing |
| Store.SearchBooks | main.cpp:337-356 | the result is exactly the slots in use whose ISBN equals the keyword or whose title contains it, in ascending order; an empty keyword yields every slot in use |
| Store.Swap | main.cpp:380 | swapping two slots exchanges them, keeps every other slot and keeps the multiset of books |
| Store.SwapKeepsSettled | main.cpp:377-381 | a swap among slots at or after `i` keeps each of the first `i` titles at most every later title |
| Store.SettleSlot | main.cpp:378-382 | one inner pass leaves slot `i` with a smallest title of the rest while keeping the books as a permutation |
| Store.SortBooks | main.cpp:376-386 | the books in use become a permutation of themselves with non-decreasing titles; the counter, the slots past it and both files are unchanged |
| Store.AddBook | main.cpp:224-251 | running addBook with the save loop yields exactly the step `Catalog.AddBook` describes |
| Store.DeleteBook | main.cpp:254-285 | the scan, the confirmation, the shift loop and the save loop together yield exactly the step `Catalog.DeleteBook` describes |
| Store.EditBook | main.cpp:288-333 | the scan, the setters and the save loop yield exactly the step `Catalog.EditBook` describes |
| Store.BorrowBook | main.cpp:389-418 | the scan, the borrowed check, the setters and the save loop yield exactly the step `Catalog.BorrowBook` describes |
| Store.ReturnBook | main.cpp:421-442 | the scan, the borrowed check and the save loop yield exactly the step `Catalog.ReturnBook` describes |
| Store.AddReview | main.cpp:446-477 | the scan, the setters and the save loop yield exactly the step `Catalog.AddReview` describes |
| Store.BackupBooks | main.cpp:480-488 | the write loop aimed at the backup file yields exactly `Catalog.BackupBooks` |
| Store.LoadBooks | main.cpp:204-211 | the read loop over books.txt yields exactly `Catalog.LoadBooks` |
| Store.RestoreBooks | main.cpp:491-504 | resetting the counter, the read loop over the backup and the save loop yield exactly `Catalog.RestoreBooks` |
| Properties.FillEncoded | main.cpp:207-209 | reading back encoded books into free slots puts each one, with its fields and flag unchanged, into the next free slot, in order |
| Properties.RestoreAfterBackup | main.cpp:480-504 | backup then restore keeps the counter, gives back each book in use with its fields and flag unchanged, leaves later slots alone and rewrites books.txt to match |
| Properties.LoadAfterSave | main.cpp:204-221 | loading the saved books.txt into freshly started slots brings back the books in use, in order, and leaves the other slots at their defaults |
| Properties.SameIsbnsSameFirst | main.cpp:394-395 | changing fields other than the ISBN never changes which slot a lookup finds |
| Properties.RemovalExposesNext | main.cpp:265-273 | removing the first match from the books in use makes the next book with that ISBN the first match, one slot lower |
| Properties.DeleteExposesNextDuplicate | main.cpp:254-285 | deleting by an ISBN held by two books removes only the first; the later one survives and is what the next lookup finds |
| Properties.AddThenDelete | main.cpp:224-284 | deleting a just-added book whose ISBN was not yet in use restores the books in use and books.txt |
| Properties.DeleteThenAddReusesStaleSlot | main.cpp:240-273 | a book added right after a delete lands in the vacated slot and inherits the borrow state, rating, review, dates and borrower of the book that was last before the delete |
| Properties.BorrowThenReturn | main.cpp:389-442 | borrowing then returning a book leaves it available with the borrower name and borrow time still recorded, and no other slot changed |
| Properties.BorrowTwiceRefused | main.cpp:394-398 | a second borrow of a borrowed book reports it as already borrowed and changes nothing |

## Left out

- Console I/O is out: `clearScreen`, the menu loop in `main`, every
  prompt and message, and `quit`. Inputs become parameters and messages
  become the `Status` of a step.
- `viewAllBooks` and `viewRatings` are left out because they only
  display the catalog.
- Catalog.AddReview: the loop that re-prompts for the rating until it
  lies in 0.0..5.0 is modelled as `requires 0.0 <= rating <= 5.0`. That
  is the only kind of value the loop lets through. Input streams that
  never give such a value are not modelled.
- Float and time rendering and parsing are out: `to_string`, `stof`,
  `strftime`, `localtime_s`, `sscanf_s`, `mktime` and `time(0)`. They
  depend on the C library and the time zone. They are the function
  parameters in `Formats`, the `now` parameters and the per-slot start
  times `clock` that `Catalog.Startup` takes. `float` precision is not
  modelled.
- Records.Decode: lines with fewer than 12 `;` pieces are excluded by
  `WellFormed`. For those, `getline` keeps the previous piece when it
  fails, so later fields repeat it, and `stof` throws when the text it
  receives is not numeric. Restore and load require well-formed lines for
  every line they decode. A non-numeric rating field is also out,
  because `stof` throws there.
- File system failures are out: open and write errors and truncated
  writes. A missing file is modelled as empty text.
- Carriage returns, and text-mode newline translation on Windows, are
  not modelled.
- Strings.Less compares Dafny characters by code. The C++ compares the
  bytes of the string as unsigned values. The two agree on ASCII titles.
