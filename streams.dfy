/**
 * The two stream objects the scanners share state through: a StreamReader
 * over an already split list of lines, read through one cursor, and a
 * StreamWriter that accumulates the text written to it.
 */
module Streams {
  import opened Wrappers

  /** The line terminator WriteLine appends (Environment.NewLine on a Unix host). */
  const NewLine: string := "\n"

  /** A StreamReader: the file's lines and the index of the next one ReadLine returns. */
  class LineReader {
    const lines: seq<string>
    var pos: nat

    ghost predicate Valid()
      reads this
    {
      pos <= |lines|
    }

    /** File.OpenText: a reader positioned before the first line. */
    constructor (lines: seq<string>)
      ensures Valid() && this.lines == lines && pos == 0
    {
      this.lines := lines;
      pos := 0;
    }

    /** ReadLine: the next line and one step forward, or null once the input is used up. */
    method ReadLine() returns (line: Option<string>)
      requires Valid()
      modifies this
      ensures Valid()
      ensures old(pos) < |lines| ==> line == Some(lines[old(pos)]) && pos == old(pos) + 1
      ensures old(pos) == |lines| ==> line == None && pos == old(pos)
    {
      if pos < |lines| {
        line := Some(lines[pos]);
        pos := pos + 1;
      } else {
        line := None;
      }
    }
  }

  /** A StreamWriter: everything written so far. */
  class TextWriter {
    var text: string

    /** File.CreateText: a new, empty file. */
    constructor ()
      ensures text == ""
    {
      text := "";
    }

    method Write(s: string)
      modifies this
      ensures text == old(text) + s
    {
      text := text + s;
    }

    method WriteLine(s: string)
      modifies this
      ensures text == old(text) + s + NewLine
    {
      text := text + s + NewLine;
    }
  }

  /** The text a list of lines makes once each is written with WriteLine. */
  function Render(lines: seq<string>): string {
    if lines == [] then "" else lines[0] + NewLine + Render(lines[1..])
  }

  lemma RenderOne(line: string)
    ensures Render([line]) == line + NewLine
  {
    assert [line][1..] == [];
  }

  lemma {:induction false} RenderAppend(a: seq<string>, b: seq<string>)
    ensures Render(a + b) == Render(a) + Render(b)
  {
    if a != [] {
      assert (a + b)[1..] == a[1..] + b;
      RenderAppend(a[1..], b);
    } else {
      assert a + b == b;
    }
  }
}
