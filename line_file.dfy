/**
 * Text files as the creature-type generator reads and writes them.
 *
 * A file is either missing or present with some text. Reading a file line by
 * line (`for line in f`) yields its lines with their terminating '\n' kept,
 * the last line without one if the text does not end in '\n'. Writing a list
 * of entries puts each entry followed by '\n'.
 */
module LineFile {
  import opened Text

  /** The state of one file on disk. */
  datatype File = Missing | Present(text: string)

  /** The text of a file, a missing file reading as empty (what opening it in
      append mode starts from). */
  function TextOf(f: File): string
  {
    match f
    case Missing => ""
    case Present(t) => t
  }

  /** No '\n' except possibly as the last character. */
  predicate SingleLine(line: string)
  {
    forall j :: 0 <= j < |line| - 1 ==> line[j] != '\n'
  }

  /** The length of the first line of `text`, its '\n' included. */
  function LineLength(text: string): (n: nat)
    requires text != []
    ensures 0 < n <= |text|
    ensures SingleLine(text[..n])
    ensures n < |text| ==> text[n - 1] == '\n'
  {
    if text[0] == '\n' || |text| == 1 then 1
    else
      var k := LineLength(text[1..]);
      assert text[..k + 1] == [text[0]] + text[1..][..k];
      k + 1
  }

  /** The strings of `ls` joined with nothing between them. */
  function Concat(ls: seq<string>): string
  {
    if ls == [] then [] else ls[0] + Concat(ls[1..])
  }

  /** The lines that iterating over a file with text `text` yields
      (LinesSpec states what they are). */
  function Lines(text: string): seq<string>
    decreases |text|
  {
    if text == [] then []
    else
      var n := LineLength(text);
      [text[..n]] + Lines(text[n..])
  }

  /** The split into lines: every line is non-empty and holds '\n' only at
      its end, every line but the last ends in '\n', and the lines put back
      together give the text. These determine the split uniquely. */
  lemma LinesSpec(text: string)
    ensures Concat(Lines(text)) == text
    ensures forall i :: 0 <= i < |Lines(text)| ==> Lines(text)[i] != [] && SingleLine(Lines(text)[i])
    ensures forall i :: 0 <= i < |Lines(text)| - 1 ==> Lines(text)[i][|Lines(text)[i]| - 1] == '\n'
  {
    LinesConcat(text);
    LinesShape(text);
  }

  lemma {:induction false} LinesConcat(text: string)
    ensures Concat(Lines(text)) == text
    decreases |text|
  {
    if text != [] {
      var n := LineLength(text);
      var ls := Lines(text);
      LinesConcat(text[n..]);
      assert ls[1..] == Lines(text[n..]);
      assert text == text[..n] + text[n..];
    }
  }

  lemma {:induction false} LinesShape(text: string)
    ensures forall i :: 0 <= i < |Lines(text)| ==> Lines(text)[i] != [] && SingleLine(Lines(text)[i])
    ensures forall i :: 0 <= i < |Lines(text)| - 1 ==> Lines(text)[i][|Lines(text)[i]| - 1] == '\n'
    decreases |text|
  {
    if text != [] {
      var n := LineLength(text);
      var rest := text[n..];
      var ls := Lines(text);
      LinesShape(rest);
      assert ls[0] == text[..n];
      forall i | 1 <= i < |ls| ensures ls[i] == Lines(rest)[i - 1] {
      }
      assert |ls| > 1 ==> rest != [];
    }
  }

  /** A text that is empty or ends in '\n': a whole number of lines. */
  predicate Terminated(text: string)
  {
    text == [] || text[|text| - 1] == '\n'
  }

  /** A first line that ends in '\n' at position `n` has length `n`. */
  lemma {:induction false} LineLengthAt(text: string, n: nat)
    requires 0 < n <= |text| && text[n - 1] == '\n'
    requires forall j :: 0 <= j < n - 1 ==> text[j] != '\n'
    ensures LineLength(text) == n
    decreases n
  {
    if n > 1 {
      LineLengthAt(text[1..], n - 1);
    }
  }

  /** Text appended after a whole number of lines leaves the first line as
      it was. */
  lemma FirstLineOfAppend(a: string, b: string)
    requires a != [] && Terminated(a)
    ensures LineLength(a + b) == LineLength(a)
  {
    var n := LineLength(a);
    assert forall j :: 0 <= j < n - 1 ==> a[..n][j] == a[j];
    LineLengthAt(a + b, n);
  }

  /** Appending to a text made of whole lines appends its lines. */
  lemma {:induction false} LinesAppend(a: string, b: string)
    requires Terminated(a)
    ensures Lines(a + b) == Lines(a) + Lines(b)
    decreases |a|
  {
    if a == [] {
      assert a + b == b;
    } else {
      var n := LineLength(a);
      FirstLineOfAppend(a, b);
      assert (a + b)[..n] == a[..n];
      assert (a + b)[n..] == a[n..] + b;
      LinesAppend(a[n..], b);
    }
  }

  /** The text written by `for e in entries: f.write(e + '\n')`. */
  function Serialized(entries: seq<string>): string
  {
    if entries == [] then [] else entries[0] + "\n" + Serialized(entries[1..])
  }

  /** Writing one more entry appends that entry and a '\n' to the text. */
  lemma {:induction false} SerializedSnoc(entries: seq<string>, e: string)
    ensures Serialized(entries + [e]) == Serialized(entries) + e + "\n"
  {
    if entries != [] {
      assert (entries + [e])[1..] == entries[1..] + [e];
      SerializedSnoc(entries[1..], e);
    } else {
      assert [e][1..] == [];
    }
  }

  /** Python's `[line.strip() for line in lines]`. */
  function StripAll(lines: seq<string>): (r: seq<string>)
    ensures |r| == |lines|
    ensures forall i :: 0 <= i < |lines| ==> r[i] == Strip(lines[i])
  {
    if lines == [] then [] else [Strip(lines[0])] + StripAll(lines[1..])
  }

  /** `entries` with every empty string dropped, order kept. */
  function DropEmpty(entries: seq<string>): (r: seq<string>)
    ensures |r| <= |entries|
    ensures forall e :: e in r ==> e != [] && e in entries
    ensures forall e :: e in entries && e != [] ==> e in r
  {
    if entries == [] then []
    else if entries[0] == [] then DropEmpty(entries[1..])
    else [entries[0]] + DropEmpty(entries[1..])
  }

  /** Python's `[line.strip() for line in lines if line.strip()]`. */
  function StrippedNonBlank(lines: seq<string>): (r: seq<string>)
  {
    if lines == [] then []
    else if Strip(lines[0]) == [] then StrippedNonBlank(lines[1..])
    else [Strip(lines[0])] + StrippedNonBlank(lines[1..])
  }

  /** The filtering comprehension is the plain stripping comprehension with
      the blank lines' empty results dropped: the two loaders differ in
      exactly that. */
  lemma {:induction false} StrippedNonBlankIsFiltered(lines: seq<string>)
    ensures StrippedNonBlank(lines) == DropEmpty(StripAll(lines))
  {
    if lines != [] {
      StrippedNonBlankIsFiltered(lines[1..]);
      assert StripAll(lines)[1..] == StripAll(lines[1..]);
    }
  }

  /** What the filtering comprehension keeps: exactly the stripped forms of
      the lines that are not all whitespace, none of them empty and none
      with whitespace at either end. */
  lemma StrippedNonBlankMembers(lines: seq<string>)
    ensures forall e :: e in StrippedNonBlank(lines) ==> e != [] && NoEdgeSpace(e)
    ensures forall i :: 0 <= i < |lines| && !AllSpace(lines[i]) ==> Strip(lines[i]) in StrippedNonBlank(lines)
    ensures forall e :: e in StrippedNonBlank(lines) ==> exists i :: 0 <= i < |lines| && Strip(lines[i]) == e
  {
    StrippedNonBlankIsFiltered(lines);
    var stripped := StripAll(lines);
    forall e | e in StrippedNonBlank(lines)
      ensures exists i :: 0 <= i < |lines| && Strip(lines[i]) == e
    {
      var i :| 0 <= i < |stripped| && stripped[i] == e;
    }
    forall i | 0 <= i < |lines| && !AllSpace(lines[i])
      ensures Strip(lines[i]) in StrippedNonBlank(lines)
    {
      StripSpec(lines[i]);
      assert stripped[i] in stripped;
    }
  }

  /** An entry that survives a save and a reload unchanged: not empty, no
      whitespace at either end, no '\n' inside. */
  predicate Storable(e: string)
  {
    e != [] && NoEdgeSpace(e) && '\n' !in e
  }

  /** Stripping a line that holds '\n' only at its end leaves no '\n'. */
  lemma StripLineHasNoNewline(line: string)
    requires SingleLine(line)
    ensures '\n' !in Strip(line)
  {
    var r := Strip(line);
    var k := LeadingSpaces(line);
    StripSpec(line);
    forall j | 0 <= j < |r| ensures r[j] != '\n' {
      assert r[j] == line[k + j];
      if k + j == |line| - 1 {
        assert j == |r| - 1;
      }
    }
  }

  /** Every entry the filtering comprehension reads from a file is storable. */
  lemma ParsedEntriesStorable(text: string)
    ensures forall e :: e in StrippedNonBlank(Lines(text)) ==> Storable(e)
  {
    var lines := Lines(text);
    LinesSpec(text);
    StrippedNonBlankMembers(lines);
    forall e | e in StrippedNonBlank(lines) ensures '\n' !in e {
      var i :| 0 <= i < |lines| && Strip(lines[i]) == e;
      StripLineHasNoNewline(lines[i]);
    }
  }

  /** A '\n'-free string followed by '\n' and more text is one whole line. */
  lemma {:induction false} FirstLineLength(e: string, rest: string)
    requires '\n' !in e
    ensures LineLength(e + "\n" + rest) == |e| + 1
    decreases |e|
  {
    if e != [] {
      assert (e + "\n" + rest)[1..] == e[1..] + "\n" + rest;
      FirstLineLength(e[1..], rest);
    }
  }

  /** Reading back saved text yields one line per entry, each the entry
      followed by '\n'. */
  lemma {:induction false} LinesOfSerialized(entries: seq<string>)
    requires forall e :: e in entries ==> '\n' !in e
    ensures |Lines(Serialized(entries))| == |entries|
    ensures forall i :: 0 <= i < |entries| ==> Lines(Serialized(entries))[i] == entries[i] + "\n"
  {
    if entries != [] {
      var e, rest := entries[0], Serialized(entries[1..]);
      var text := e + "\n" + rest;
      FirstLineLength(e, rest);
      assert text[..|e| + 1] == e + "\n";
      assert text[|e| + 1..] == rest;
      LinesOfSerialized(entries[1..]);
    }
  }

  /** Stripping an entry with no whitespace at its ends, followed by '\n',
      gives the entry back. */
  lemma StripTerminated(e: string)
    requires e != [] && NoEdgeSpace(e)
    ensures Strip(e + "\n") == e
  {
    var line := e + "\n";
    assert LeadingSpaces(line) == 0;
    assert line[0..] == line;
    assert line[..|line| - 1] == e;
  }

  /** Round trip: the filtering loader reads back exactly the entries that
      were saved, when every entry is storable. */
  lemma {:induction false} SaveLoadRoundTrip(entries: seq<string>)
    requires forall e :: e in entries ==> Storable(e)
    ensures StrippedNonBlank(Lines(Serialized(entries))) == entries
  {
    LinesOfSerialized(entries);
    var lines := Lines(Serialized(entries));
    assert lines == seq(|entries|, i requires 0 <= i < |entries| => entries[i] + "\n");
    RoundTripLines(entries, lines);
  }

  lemma {:induction false} RoundTripLines(entries: seq<string>, lines: seq<string>)
    requires forall e :: e in entries ==> Storable(e)
    requires |lines| == |entries|
    requires forall i :: 0 <= i < |entries| ==> lines[i] == entries[i] + "\n"
    ensures StrippedNonBlank(lines) == entries
  {
    if entries != [] {
      assert entries[0] in entries;
      StripTerminated(entries[0]);
      RoundTripLines(entries[1..], lines[1..]);
    }
  }
}
