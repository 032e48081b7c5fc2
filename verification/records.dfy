/**
 The Book record and its one-line text form: twelve fields joined with
 ';' in a fixed order, the flag written as "1"/"0", rating and dates in a
 text form supplied by `Formats`.
 */
module Records {
  import opened Strings
  import opened TextFile

  /** One catalog slot (main.cpp:13-20). `rating` is the C++ float, the dates are time_t. */
  datatype Book = Book(
    isbn: string,
    title: string,
    author: string,
    edition: string,
    publication: string,
    category: string,
    isBorrowed: bool,
    rating: real,
    review: string,
    addedDate: int,
    lastBorrowedDate: int,
    borrowerName: string)

  /** A default-constructed Book: not borrowed, unrated, added `now`, never borrowed. */
  function NewBook(now: int): (b: Book)
    ensures !b.isBorrowed && b.rating == 0.0
    ensures b.addedDate == now && b.lastBorrowedDate == 0
    ensures b.isbn == b.title == b.author == b.edition == b.publication == b.category == ""
    ensures b.review == b.borrowerName == ""
  {
    Book("", "", "", "", "", "", false, 0.0, "", now, 0, "")
  }

  /** The six catalog fields that adding and editing a book write. */
  datatype Entry = Entry(
    isbn: string,
    title: string,
    author: string,
    edition: string,
    publication: string,
    category: string)

  function EntryOf(b: Book): Entry {
    Entry(b.isbn, b.title, b.author, b.edition, b.publication, b.category)
  }

  /** `b` with its six catalog fields overwritten by `e`, as the six setters do. */
  function WithEntry(b: Book, e: Entry): Book {
    b.(isbn := e.isbn, title := e.title, author := e.author, edition := e.edition,
       publication := e.publication, category := e.category)
  }

  /** `a` and `b` agree on everything except the six catalog fields. */
  predicate SameCirculation(a: Book, b: Book) {
    && a.isBorrowed == b.isBorrowed
    && a.rating == b.rating
    && a.review == b.review
    && a.addedDate == b.addedDate
    && a.lastBorrowedDate == b.lastBorrowedDate
    && a.borrowerName == b.borrowerName
  }

  /** Overwriting the catalog fields sets exactly them and keeps the rest of the record. */
  lemma WithEntryEffect(b: Book, e: Entry)
    ensures EntryOf(WithEntry(b, e)) == e
    ensures SameCirculation(WithEntry(b, e), b)
    ensures WithEntry(b, EntryOf(b)) == b
  {
  }

  /**
   The text forms of the values the C++ library renders: to_string/stof for
   the rating and strftime/sscanf+mktime for the dates.
   */
  datatype Formats = Formats(
    showRating: real -> string,
    readRating: string -> real,
    showDate: int -> string,
    readDate: string -> int)

  /** A field that neither breaks the line nor splits into two fields. */
  predicate Plain(s: string) {
    ';' !in s && '\n' !in s
  }

  /** Rendered ratings and dates are plain, as "%f" and "%Y-%m-%d %H:%M:%S" output is. */
  ghost predicate Clean(fmt: Formats) {
    && (forall x :: Plain(fmt.showRating(x)))
    && (forall t :: Plain(fmt.showDate(t)))
  }

  /** Every free-text field of `b` is plain. */
  predicate PlainBook(b: Book) {
    && Plain(b.isbn) && Plain(b.title) && Plain(b.author) && Plain(b.edition)
    && Plain(b.publication) && Plain(b.category) && Plain(b.review) && Plain(b.borrowerName)
  }

  /** The fields joined with ';' between them. */
  function Join(fs: seq<string>): string {
    if |fs| == 0 then ""
    else if |fs| == 1 then fs[0]
    else fs[0] + ";" + Join(fs[1..])
  }

  /**
   The pieces successive getline(ss, data, ';') calls return: the text
   between separators, the last piece running to the end of the line.
   */
  function Split(s: string): (fs: seq<string>)
    ensures |fs| >= 1
    ensures forall i :: 0 <= i < |fs| ==> ';' !in fs[i]
    decreases |s|
  {
    if ';' !in s then [s]
    else
      var k := IndexOf(s, ';');
      var rest := Split(s[k + 1..]);
      [s[..k]] + rest
  }

  /** Joining the pieces of a line with ';' gives the line back. */
  lemma {:induction false} JoinSplit(s: string)
    ensures Join(Split(s)) == s
    decreases |s|
  {
    if ';' in s {
      var k := IndexOf(s, ';');
      JoinSplit(s[k + 1..]);
      SplitAround(s, k);
    }
  }

  /** Splitting joined fields gives them back, as long as none holds ';'. */
  lemma {:induction false} SplitJoin(fs: seq<string>)
    requires |fs| >= 1
    requires forall i :: 0 <= i < |fs| ==> ';' !in fs[i]
    ensures Split(Join(fs)) == fs
  {
    if |fs| > 1 {
      var s := Join(fs);
      var k := |fs[0]|;
      assert s[..k] == fs[0];
      assert s[k + 1..] == Join(fs[1..]);
      IndexOfUnique(s, ';', k);
      SplitJoin(fs[1..]);
    }
  }

  /** The twelve fields in file order. */
  function Fields(fmt: Formats, b: Book): seq<string> {
    [b.isbn, b.title, b.author, b.edition, b.publication, b.category,
     if b.isBorrowed then "1" else "0",
     fmt.showRating(b.rating), b.review,
     fmt.showDate(b.addedDate), fmt.showDate(b.lastBorrowedDate),
     b.borrowerName]
  }

  /** `toFileString` without its trailing newline. */
  function Encode(fmt: Formats, b: Book): (line: string)
    ensures Clean(fmt) && PlainBook(b) ==> '\n' !in line
  {
    var line := Join(Fields(fmt, b));
    assert Clean(fmt) && PlainBook(b) ==> '\n' !in line by {
      if Clean(fmt) && PlainBook(b) {
        JoinKeepsOut(Fields(fmt, b), '\n');
      }
    }
    line
  }

  lemma {:induction false} JoinKeepsOut(fs: seq<string>, c: char)
    requires c != ';'
    requires forall i :: 0 <= i < |fs| ==> c !in fs[i]
    ensures c !in Join(fs)
  {
    if |fs| > 1 {
      JoinKeepsOut(fs[1..], c);
    }
  }

  /** The full line `toFileString` writes: read back, it is the one line `Encode` gives. */
  function ToFileString(fmt: Formats, b: Book): (s: string)
    ensures Clean(fmt) && PlainBook(b) ==> Lines(s) == [Encode(fmt, b)]
  {
    var s := Encode(fmt, b) + "\n";
    assert Clean(fmt) && PlainBook(b) ==> Lines(s) == [Encode(fmt, b)] by {
      if Clean(fmt) && PlainBook(b) {
        assert Unlines([Encode(fmt, b)]) == s;
        LinesUnlines([Encode(fmt, b)]);
      }
    }
    s
  }

  /** A line with at least the twelve fields a record needs. */
  predicate WellFormed(line: string) {
    |Split(line)| >= 12
  }

  /**
   Fields exactly as `Encode` writes them: twelve of them, the flag "0" or
   "1", and rating and date texts that `Formats` reproduces when re-read.
   */
  predicate Canonical(fmt: Formats, f: seq<string>) {
    && |f| == 12 && (f[6] == "0" || f[6] == "1")
    && fmt.showRating(fmt.readRating(f[7])) == f[7]
    && fmt.showDate(fmt.readDate(f[9])) == f[9]
    && fmt.showDate(fmt.readDate(f[10])) == f[10]
  }

  /**
   `fromFileString`: the first twelve ';'-pieces, in file order. A line
   whose pieces are canonical is encoded back unchanged.
   */
  function Decode(fmt: Formats, line: string): (b: Book)
    requires WellFormed(line)
    ensures EntryOf(b) == Entry(Split(line)[0], Split(line)[1], Split(line)[2],
                                Split(line)[3], Split(line)[4], Split(line)[5])
    ensures b.isBorrowed <==> Split(line)[6] == "1"
    ensures b.rating == fmt.readRating(Split(line)[7]) && b.review == Split(line)[8]
    ensures b.addedDate == fmt.readDate(Split(line)[9])
    ensures b.lastBorrowedDate == fmt.readDate(Split(line)[10])
    ensures b.borrowerName == Split(line)[11]
    ensures Canonical(fmt, Split(line)) ==> Encode(fmt, b) == line
  {
    var f := Split(line);
    var b := Book(f[0], f[1], f[2], f[3], f[4], f[5], f[6] == "1",
                  fmt.readRating(f[7]), f[8], fmt.readDate(f[9]), fmt.readDate(f[10]), f[11]);
    assert Canonical(fmt, f) ==> Encode(fmt, b) == line by {
      if Canonical(fmt, f) {
        assert Fields(fmt, b) == f;
        JoinSplit(line);
      }
    }
    b
  }

  /** What survives a trip through the file: rating and dates pass through their text forms. */
  function Reread(fmt: Formats, b: Book): Book {
    b.(rating := fmt.readRating(fmt.showRating(b.rating)),
       addedDate := fmt.readDate(fmt.showDate(b.addedDate)),
       lastBorrowedDate := fmt.readDate(fmt.showDate(b.lastBorrowedDate)))
  }

  /**
   The codec round trip: an encoded line has exactly twelve fields, and
   decoding it gives back every string field and the borrowed flag
   unchanged.
   */
  lemma DecodeEncode(fmt: Formats, b: Book)
    requires Clean(fmt) && PlainBook(b)
    ensures |Split(Encode(fmt, b))| == 12
    ensures WellFormed(Encode(fmt, b))
    ensures Decode(fmt, Encode(fmt, b)) == Reread(fmt, b)
  {
    var fs := Fields(fmt, b);
    assert forall i :: 0 <= i < |fs| ==> ';' !in fs[i];
    SplitJoin(fs);
  }
}
