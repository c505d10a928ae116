/**
 * `wrap_script_with_main` (gradepy/utils.py): a student script becomes the
 * body of a `main()` function. Every line is indented by four spaces, a
 * leading comment line is dropped so that the remaining lines keep their
 * line numbers under the added `def main():` line, and a `__main__`
 * trailer calls the function.
 *
 * Reading and rewriting the file and the printed warning are outside the
 * model: the file contents are a string, and the warning is a flag.
 */
module WrapScript {
  import opened Basics

  /** Where the line starting at `i` ends: the first newline at or after
      `i`, or the end of the text. */
  function LineEnd(s: string, i: nat): (r: nat)
    requires i <= |s|
    ensures i <= r <= |s|
    ensures forall k :: i <= k < r ==> s[k] != '\n'
    ensures r < |s| ==> s[r] == '\n'
    decreases |s| - i
  {
    if i == |s| || s[i] == '\n' then i else LineEnd(s, i + 1)
  }

  /** A line as iterating over a file yields it: nonempty, and a newline can
      only be its last character. */
  predicate IsLine(l: string) {
    |l| >= 1 && forall k :: 0 <= k < |l| - 1 ==> l[k] != '\n'
  }

  predicate EndsLine(l: string) {
    |l| >= 1 && l[|l| - 1] == '\n'
  }

  /** Lines of one file: every line but the last ends with its newline. */
  predicate WellFormed(lines: seq<string>) {
    && (forall k :: 0 <= k < |lines| ==> IsLine(lines[k]))
    && (forall k :: 0 <= k < |lines| - 1 ==> EndsLine(lines[k]))
  }

  /** `list(f)` for a file holding `text`: the lines, each with its newline,
      the last one without when the file does not end with a newline. */
  function FileLines(text: string): (r: seq<string>)
    ensures WellFormed(r)
    ensures Concat(r) == text
    decreases |text|
  {
    if |text| == 0 then []
    else
      var n := LineEnd(text, 0);
      if n == |text| then
        assert IsLine(text);
        [text]
      else
        var first := text[..n + 1];
        var rest := FileLines(text[n + 1..]);
        assert IsLine(first) && EndsLine(first);
        assert ([first] + rest)[1..] == rest;
        assert text == first + text[n + 1..];
        [first] + rest
  }

  /** A line ending with a newline is read first, whatever follows it. */
  lemma FileLinesCons(l: string, rest: string)
    requires IsLine(l) && EndsLine(l)
    ensures FileLines(l + rest) == [l] + FileLines(rest)
  {
    var text := l + rest;
    assert forall k :: 0 <= k < |l| - 1 ==> text[k] == l[k];
    assert text[|l| - 1] == '\n';
    assert text[..|l|] == l;
    assert text[|l|..] == rest;
  }

  /** A last line without a newline is read whole. */
  lemma FileLinesLast(l: string)
    requires IsLine(l) && !EndsLine(l)
    ensures FileLines(l) == [l]
  {
  }

  /** Reading back the lines of a file written line by line gives the same
      lines. */
  lemma {:induction false} FileLinesOfConcat(lines: seq<string>)
    requires WellFormed(lines)
    ensures FileLines(Concat(lines)) == lines
  {
    if |lines| > 0 {
      var l := lines[0];
      var tail := lines[1..];
      assert WellFormed(tail) by {
        assert forall k :: 0 <= k < |tail| ==> tail[k] == lines[k + 1];
      }
      FileLinesOfConcat(tail);
      assert Concat(lines) == l + Concat(tail);
      if EndsLine(l) {
        FileLinesCons(l, Concat(tail));
      } else {
        assert |tail| == 0;
        assert l + Concat(tail) == l;
        FileLinesLast(l);
      }
      assert lines == [l] + tail;
    }
  }

  /** Two runs of lines make one when the first ends its last line. */
  lemma WellFormedAppend(a: seq<string>, b: seq<string>)
    requires WellFormed(a) && WellFormed(b)
    requires |a| == 0 || EndsLine(a[|a| - 1])
    ensures WellFormed(a + b)
  {
    var ab := a + b;
    assert forall k :: |a| <= k < |ab| ==> ab[k] == b[k - |a|];
  }

  const Indentation: string := "    "

  function Indent(lines: seq<string>): (r: seq<string>)
    ensures |r| == |lines|
    ensures forall k :: 0 <= k < |r| ==> r[k] == Indentation + lines[k]
  {
    if |lines| == 0 then [] else [Indentation + lines[0]] + Indent(lines[1..])
  }

  lemma IndentWellFormed(lines: seq<string>)
    requires WellFormed(lines)
    ensures WellFormed(Indent(lines))
  {
    var r := Indent(lines);
    forall k | 0 <= k < |r| ensures IsLine(r[k]) {
      assert forall q :: 4 <= q < |r[k]| ==> r[k][q] == lines[k][q - 4];
    }
  }

  /** `indented[0].startswith('    #')`. */
  predicate IsCommentLine(l: string) {
    |l| >= 5 && l[..5] == Indentation + "#"
  }

  lemma CommentLineIff(l: string)
    requires |l| >= 1
    ensures IsCommentLine(Indentation + l) <==> l[0] == '#'
  {
    var s := Indentation + l;
    assert s[4] == l[0];
    if l[0] == '#' {
      assert s[..5] == Indentation + "#";
    }
  }

  const MainHeader: string := "def main():\n"
  const Trailer: string := "if __name__ == '__main__':\n    main()"
  const TrailerLines: seq<string> := ["if __name__ == '__main__':\n", "    main()"]

  /** Indexing the first line of an empty file raises IndexError. */
  datatype WrapFail = EmptyFile

  /** The rewritten file, and whether the warning about shifted line
      numbers was printed. */
  datatype Wrapped = Wrapped(text: string, warned: bool)

  /** The indented lines that are written out. */
  function Kept(lines: seq<string>): (r: seq<string>)
    requires |lines| >= 1
  {
    var indented := Indent(lines);
    if IsCommentLine(indented[0]) then indented[1..] else indented
  }

  /** `wrap_script_with_main` as written: header, kept lines, trailer, with
      nothing between the last line and the trailer. */
  function Wrap(text: string): (r: Result<Wrapped, WrapFail>)
    ensures r.Err? <==> text == ""
    ensures r.Ok? ==> (r.value.warned <==> text[0] != '#')
  {
    var lines := FileLines(text);
    if |lines| == 0 then Err(EmptyFile)
    else
      assert lines[0][0] == text[0] by {
        assert text == lines[0] + Concat(lines[1..]);
      }
      CommentLineIff(lines[0]);
      Ok(Wrapped(MainHeader + Concat(Kept(lines)) + Trailer, !IsCommentLine(Indent(lines)[0])))
  }

  /** The output always starts with `def main():` and ends with the
      trailer. */
  lemma WrapFrame(text: string)
    requires text != ""
    ensures var out := Wrap(text).value.text;
            && |out| >= |MainHeader| + |Trailer|
            && out[..|MainHeader|] == MainHeader
            && out[|out| - |Trailer|..] == Trailer
  {
    var lines := FileLines(text);
    FramedParts(MainHeader, Concat(Kept(lines)), Trailer);
  }

  /** The three parts of `a + b + c` can be sliced back out. */
  lemma FramedParts(a: string, b: string, c: string)
    ensures var s := a + b + c;
            && s[..|a|] == a && s[|a|..|s| - |c|] == b && s[|s| - |c|..] == c
  {
  }

  /** How many leading lines are dropped: one exactly when the script
      starts with a comment. */
  function Dropped(text: string): (r: nat) {
    if |text| > 0 && text[0] == '#' then 1 else 0
  }

  lemma KeptIsIndentedTail(text: string)
    requires text != ""
    ensures var lines := FileLines(text);
            Dropped(text) <= |lines| && Kept(lines) == Indent(lines[Dropped(text)..])
  {
    var lines := FileLines(text);
    assert text == lines[0] + Concat(lines[1..]);
    CommentLineIff(lines[0]);
    assert Indent(lines)[1..] == Indent(lines[1..]);
  }

  /** Between the header and the trailer, the output's lines are the
      script's lines, each with four spaces in front, the leading comment
      line left out. */
  lemma WrapIndentsEveryLine(text: string)
    requires text != ""
    ensures var out := Wrap(text).value.text;
            var body := out[|MainHeader|..|out| - |Trailer|];
            FileLines(body) == Indent(FileLines(text)[Dropped(text)..])
  {
    var lines := FileLines(text);
    var out := Wrap(text).value.text;
    KeptIsIndentedTail(text);
    var kept := Indent(lines[Dropped(text)..]);
    assert out == MainHeader + Concat(kept) + Trailer;
    FramedParts(MainHeader, Concat(kept), Trailer);
    assert WellFormed(lines[Dropped(text)..]) by {
      var t := lines[Dropped(text)..];
      assert forall k :: 0 <= k < |t| ==> t[k] == lines[k + Dropped(text)];
    }
    IndentWellFormed(lines[Dropped(text)..]);
    FileLinesOfConcat(kept);
  }

  /** When the lines written out end with a newline (or there are none),
      the output's lines are the header line, those lines, and the two
      trailer lines. */
  lemma TrailerIsTwoLines()
    ensures Concat(TrailerLines) == Trailer && WellFormed(TrailerLines)
  {
    assert TrailerLines[1..][1..] == [];
  }

  /** Writing a header line, lines and a trailer's lines one after the
      other reads back as those lines. */
  lemma ThreePartsRead(header: string, kept: seq<string>, tail: seq<string>)
    requires IsLine(header) && EndsLine(header)
    requires WellFormed(kept) && (|kept| == 0 || EndsLine(kept[|kept| - 1]))
    requires WellFormed(tail)
    ensures FileLines(header + Concat(kept) + Concat(tail)) == [header] + kept + tail
  {
    var hk := [header] + kept;
    assert Concat(hk) == header + Concat(kept) by {
      ConcatAppend([header], kept);
      assert Concat([header]) == header;
    }
    assert Concat(hk + tail) == header + Concat(kept) + Concat(tail) by {
      ConcatAppend(hk, tail);
    }
    assert WellFormed(hk + tail) by {
      WellFormedAppend([header], kept);
      assert EndsLine(hk[|hk| - 1]);
      WellFormedAppend(hk, tail);
    }
    FileLinesOfConcat(hk + tail);
  }

  lemma WrapLines(header: string, kept: seq<string>)
    requires IsLine(header) && EndsLine(header)
    requires WellFormed(kept) && (|kept| == 0 || EndsLine(kept[|kept| - 1]))
    ensures FileLines(header + Concat(kept) + Trailer) == [header] + kept + TrailerLines
  {
    TrailerIsTwoLines();
    ThreePartsRead(header, kept, TrailerLines);
  }

  lemma WellFormedSuffix(lines: seq<string>, d: nat)
    requires WellFormed(lines) && d <= |lines|
    ensures WellFormed(lines[d..])
  {
    assert forall k :: 0 <= k < |lines| - d ==> lines[d..][k] == lines[k + d];
  }

  /** Indented lines of a file ending with a newline, between the header
      and the trailer, read back as themselves. */
  lemma IndentedLinesRead(lines: seq<string>, d: nat)
    requires WellFormed(lines) && d <= |lines| && |lines| >= 1 && EndsLine(lines[|lines| - 1])
    ensures FileLines(MainHeader + Concat(Indent(lines[d..])) + Trailer)
              == [MainHeader] + Indent(lines[d..]) + TrailerLines
  {
    var kept := Indent(lines[d..]);
    WellFormedSuffix(lines, d);
    IndentWellFormed(lines[d..]);
    if |kept| > 0 {
      var last := lines[|lines| - 1];
      assert lines[d..][|kept| - 1] == last;
      assert kept[|kept| - 1] == Indentation + last;
      assert (Indentation + last)[|Indentation + last| - 1] == last[|last| - 1];
    }
    assert IsLine(MainHeader) && EndsLine(MainHeader);
    WrapLines(MainHeader, kept);
  }

  /** For a script ending with a newline, the output reads as the header
      line, the script's kept lines indented, and the two trailer lines. */
  lemma WrapOutputLines(text: string)
    requires text != "" && text[|text| - 1] == '\n'
    ensures FileLines(Wrap(text).value.text)
              == [MainHeader] + Indent(FileLines(text)[Dropped(text)..]) + TrailerLines
  {
    WrapTextIsIndentedTail(text);
    OutputLinesOf(text, Wrap(text).value.text);
  }

  lemma OutputLinesOf(text: string, out: string)
    requires text != "" && text[|text| - 1] == '\n'
    requires Dropped(text) <= |FileLines(text)|
    requires out == MainHeader + Concat(Indent(FileLines(text)[Dropped(text)..])) + Trailer
    ensures FileLines(out) == [MainHeader] + Indent(FileLines(text)[Dropped(text)..]) + TrailerLines
  {
    LastLineEnds(text);
    IndentedLinesRead(FileLines(text), Dropped(text));
  }

  /** The output text: the header, the kept lines indented, the trailer. */
  lemma WrapTextIsIndentedTail(text: string)
    requires text != ""
    ensures Dropped(text) <= |FileLines(text)|
    ensures Wrap(text).value.text
              == MainHeader + Concat(Indent(FileLines(text)[Dropped(text)..])) + Trailer
  {
    KeptIsIndentedTail(text);
  }

  /** When the script starts with a comment and ends with a newline, every
      kept line stays at its line number: line `k` of the output is line `k`
      of the script, indented. */
  lemma WrapKeepsLineNumbers(text: string)
    requires text != "" && text[0] == '#' && text[|text| - 1] == '\n'
    ensures var lines := FileLines(text);
            var outLines := FileLines(Wrap(text).value.text);
            |outLines| == |lines| + 2 && outLines[0] == MainHeader
            && (forall k :: 1 <= k < |lines| ==> outLines[k] == Indentation + lines[k])
            && outLines[|lines|..] == TrailerLines
  {
    WrapOutputLines(text);
    assert Dropped(text) == 1;
    ShiftedByHeader(FileLines(text), FileLines(Wrap(text).value.text));
  }

  /** With the first line dropped and the header added, line `k` stays at
      `k`. */
  lemma ShiftedByHeader(lines: seq<string>, outLines: seq<string>)
    requires |lines| >= 1 && outLines == [MainHeader] + Indent(lines[1..]) + TrailerLines
    ensures |outLines| == |lines| + 2 && outLines[0] == MainHeader
            && (forall k :: 1 <= k < |lines| ==> outLines[k] == Indentation + lines[k])
            && outLines[|lines|..] == TrailerLines
  {
    var kept := Indent(lines[1..]);
    assert forall k :: 1 <= k < |lines| ==> outLines[k] == kept[k - 1];
    assert outLines[|lines|..] == TrailerLines;
  }

  /** A file ending with a newline has a last line ending with one. */
  lemma {:induction false} LastLineEnds(text: string)
    requires text != "" && text[|text| - 1] == '\n'
    ensures var lines := FileLines(text);
            |lines| >= 1 && EndsLine(lines[|lines| - 1])
    decreases |text|
  {
    var n := LineEnd(text, 0);
    if n < |text| {
      var rest := text[n + 1..];
      if rest != "" {
        LastLineEnds(rest);
      }
    }
  }

  const UnterminatedScript: string := "# hw\nx = 1"
  const LastScriptLine: string := "    x = 1"

  /** The sample script's lines: a comment, and `x = 1` without a
      newline. */
  lemma UnterminatedScriptLines()
    ensures FileLines(UnterminatedScript) == ["# hw\n", "x = 1"]
  {
    assert UnterminatedScript == "# hw\n" + "x = 1";
    SampleLinesShape();
    FileLinesCons("# hw\n", "x = 1");
    FileLinesLast("x = 1");
  }

  /** The sample script's two lines: a comment line ending in a newline,
      and a last line without one. */
  lemma SampleLinesShape()
    ensures IsLine("# hw\n") && EndsLine("# hw\n")
    ensures IsLine("x = 1") && !EndsLine("x = 1")
  {
  }

  /** Of those, the comment is dropped. */
  lemma UnterminatedScriptKept()
    ensures Kept(FileLines(UnterminatedScript)) == [LastScriptLine]
  {
    UnterminatedScriptLines();
    var ind := Indent(["# hw\n", "x = 1"]);
    assert ind[0] == "    # hw\n" && ind[1] == LastScriptLine;
    assert IsCommentLine(ind[0]);
    assert ind[1..] == [LastScriptLine];
  }

  /** As written, a script whose last line has no newline runs straight
      into the trailer. */
  lemma WrapMergesUnterminatedLine()
    ensures Wrap(UnterminatedScript).value.text == MainHeader + LastScriptLine + Trailer
  {
    UnterminatedScriptKept();
    assert Concat([LastScriptLine]) == LastScriptLine + Concat([]);
  }

  /** Read back, that output has the script's last line and the trailer's
      first line on one line, `    x = 1if __name__ == '__main__':`, which
      Python rejects. */
  lemma MergedOutputLines()
    ensures FileLines(MainHeader + LastScriptLine + Trailer)
         == [MainHeader, LastScriptLine + TrailerLines[0], TrailerLines[1]]
  {
    var expected := [MainHeader, LastScriptLine + TrailerLines[0], TrailerLines[1]];
    TrailerIsTwoLines();
    assert Trailer == TrailerLines[0] + TrailerLines[1] by {
      assert TrailerLines[1..][1..] == [];
    }
    assert WellFormed(expected);
    assert Concat(expected) == MainHeader + LastScriptLine + Trailer by {
      assert expected[1..][1..] == [TrailerLines[1]];
      assert Concat([TrailerLines[1]]) == TrailerLines[1] + Concat([]);
    }
    FileLinesOfConcat(expected);
  }

  /** The script with a newline added when its last line lacks one. */
  function Terminated(text: string): (r: string)
    ensures |r| >= 1 && r[|r| - 1] == '\n'
    ensures text != "" ==> r[0] == text[0]
  {
    if |text| > 0 && text[|text| - 1] == '\n' then text else text + "\n"
  }

  /** `wrap_script_with_main` with the last line terminated before the
      trailer is written. */
  function WrapFixed(text: string): (r: Result<Wrapped, WrapFail>)
    ensures r.Err? <==> text == ""
  {
    if text == "" then Err(EmptyFile) else Wrap(Terminated(text))
  }

  /** Corrected: for every script the trailer is on lines of its own at the
      end, and when the script starts with a comment, every other line
      keeps its line number. */
  lemma WrapFixedKeepsLineNumbers(text: string)
    requires text != ""
    ensures var outLines := FileLines(WrapFixed(text).value.text);
            |outLines| >= 3 && outLines[0] == MainHeader && outLines[|outLines| - 2..] == TrailerLines
    ensures text[0] == '#' ==>
              var lines := FileLines(Terminated(text));
              var outLines := FileLines(WrapFixed(text).value.text);
              |outLines| == |lines| + 2
              && forall k :: 1 <= k < |lines| ==> outLines[k] == Indentation + lines[k]
  {
    var t := Terminated(text);
    WrapOutputLines(t);
    var kept := Indent(FileLines(t)[Dropped(t)..]);
    var outLines := [MainHeader] + kept + TrailerLines;
    assert outLines[|outLines| - 2..] == TrailerLines;
    if text[0] == '#' {
      WrapKeepsLineNumbers(t);
    }
  }
}
