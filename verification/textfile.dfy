/**
 A text file as the catalog sees it: a sequence of lines read with
 getline (the '\n' is consumed and not kept; a final line without '\n' is
 still a line; an empty file has no lines), written back one record per
 line, each followed by '\n'.
 */
module TextFile {
  import opened Strings

  /** The lines successive getline calls return from `text`. */
  function Lines(text: string): (ls: seq<string>)
    ensures forall i :: 0 <= i < |ls| ==> '\n' !in ls[i]
    ensures |ls| <= |text|
    decreases |text|
  {
    if text == [] then []
    else if '\n' !in text then [text]
    else
      var k := IndexOf(text, '\n');
      [text[..k]] + Lines(text[k + 1..])
  }

  /** The text written by emitting each line followed by '\n'. */
  function Unlines(ls: seq<string>): string {
    if ls == [] then [] else ls[0] + "\n" + Unlines(ls[1..])
  }

  /** Appending one line to the file appends its text and a newline. */
  lemma {:induction false} UnlinesSnoc(ls: seq<string>, l: string)
    ensures Unlines(ls + [l]) == Unlines(ls) + l + "\n"
  {
    if ls != [] {
      assert (ls + [l])[1..] == ls[1..] + [l];
      UnlinesSnoc(ls[1..], l);
    }
  }

  /** Reading back what was written gives the same lines, as long as no line holds '\n'. */
  lemma {:induction false} LinesUnlines(ls: seq<string>)
    requires forall i :: 0 <= i < |ls| ==> '\n' !in ls[i]
    ensures Lines(Unlines(ls)) == ls
  {
    if ls != [] {
      var text := Unlines(ls);
      var k := |ls[0]|;
      assert text[..k] == ls[0];
      assert text[k + 1..] == Unlines(ls[1..]);
      IndexOfUnique(text, '\n', k);
      LinesUnlines(ls[1..]);
    }
  }

  /** A text holding a newline reads as the line before it followed by the lines after it. */
  lemma LinesSplitAt(text: string, k: nat)
    requires '\n' in text && k == IndexOf(text, '\n')
    ensures Lines(text) == [text[..k]] + Lines(text[k + 1..])
  {
  }

  /** Writing back the lines of a text that ends in '\n' (or is empty) restores it. */
  lemma {:induction false} UnlinesLines(text: string)
    requires text == [] || text[|text| - 1] == '\n'
    ensures Unlines(Lines(text)) == text
    decreases |text|
  {
    if text != [] {
      assert '\n' in text by {
        assert text[|text| - 1] == '\n';
      }
      var k := IndexOf(text, '\n');
      var line, rest := text[..k], text[k + 1..];
      LinesSplitAt(text, k);
      assert rest == [] || rest[|rest| - 1] == '\n';
      UnlinesLines(rest);
      var ls := [line] + Lines(rest);
      assert ls[0] == line && ls[1..] == Lines(rest);
      assert Unlines(ls) == line + "\n" + Unlines(Lines(rest));
      SplitAround(text, k);
    }
  }
}
