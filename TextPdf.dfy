/**
 * The debug text-to-PDF endpoint: the text is split at spaces and wrapped
 * greedily into lines of at most 60 characters before the word's trailing
 * space, and line i is drawn at x = 50, y = 750 - 20 i on one A4 page.
 */
module TextPdf {
  import opened JsText

  const DefaultText: string := "Test PDF document"
  const LineLimit: nat := 60
  const LeftMargin: int := 50
  const FirstLineY: int := 750
  const LineStep: int := 20

  /** `req.body.text || 'Test PDF document'`. */
  function TextContent(text: Option<string>): string
  {
    if Truthy(text) then text.value else DefaultText
  }

  /**
   * The lines the wrap loop makes from the words still to come, given the
   * line under construction: a word that would take the line past 60
   * characters closes the line and starts the next one; the last line is
   * kept when it is not empty.
   */
  function WrapFrom(words: seq<string>, current: string): seq<string>
    decreases |words|
  {
    if words == [] then (if current != "" then [current] else [])
    else if |current + words[0]| > LineLimit then [current] + WrapFrom(words[1..], words[0] + " ")
    else WrapFrom(words[1..], current + words[0] + " ")
  }

  function Wrap(text: string): seq<string>
  {
    WrapFrom(Split(text, ' '), "")
  }

  /** The wrap loop of the endpoint. */
  method WrapLines(text: string) returns (lines: seq<string>)
    ensures lines == Wrap(text)
  {
    var words := Split(text, ' ');
    lines := [];
    var current := "";
    var i := 0;
    while i < |words|
      invariant 0 <= i <= |words|
      invariant lines + WrapFrom(words[i..], current) == WrapFrom(words, "")
    {
      var word := words[i];
      assert words[i..][1..] == words[i + 1..];
      if |current + word| > LineLimit {
        lines := lines + [current];
        current := word + " ";
      } else {
        current := current + word + " ";
      }
      i := i + 1;
    }
    if current != "" {
      lines := lines + [current];
    }
  }

  // ---------------------------------------------------------------------
  // What the wrap keeps

  /** All the lines one after another. */
  function Concat(lines: seq<string>): string
  {
    if lines == [] then [] else lines[0] + Concat(lines[1..])
  }

  /** Every word followed by one space. */
  function Spaced(words: seq<string>): string
  {
    if words == [] then [] else words[0] + " " + Spaced(words[1..])
  }

  lemma {:induction false} ConcatWrap(words: seq<string>, current: string)
    ensures Concat(WrapFrom(words, current)) == current + Spaced(words)
    decreases |words|
  {
    if words == [] {
      assert Concat([current]) == current + Concat([]);
    } else {
      var w := words[0];
      var rest := Spaced(words[1..]);
      assert Spaced(words) == w + " " + rest;
      if |current + w| > LineLimit {
        ConcatWrap(words[1..], w + " ");
        ConcatCons(current, WrapFrom(words[1..], w + " "));
        assert current + (w + " " + rest) == current + Spaced(words);
      } else {
        ConcatWrap(words[1..], current + w + " ");
        assert current + w + " " + rest == current + (w + " " + rest);
      }
    }
  }

  lemma ConcatCons(line: string, lines: seq<string>)
    ensures Concat([line] + lines) == line + Concat(lines)
  {
    assert ([line] + lines)[1..] == lines;
  }

  lemma {:induction false} SpacedJoin(words: seq<string>)
    requires words != []
    ensures Spaced(words) == Join(words, ' ') + " "
    decreases |words|
  {
    if |words| > 1 {
      SpacedJoin(words[1..]);
    }
  }

  /**
   * Wrapping loses and adds nothing but a trailing space: the lines read one
   * after another give back the text with one space appended.
   */
  lemma WrapRoundTrip(text: string)
    ensures Concat(Wrap(text)) == text + " "
  {
    var words := Split(text, ' ');
    ConcatWrap(words, "");
    SpacedJoin(words);
    JoinSplit(text, ' ');
  }

  /** The line is one word and its trailing space. */
  predicate OneWord(line: string)
  {
    line != [] && line[|line| - 1] == ' ' && ' ' !in line[..|line| - 1]
  }

  /** A line fits in 61 characters (60 and the trailing space) or is a single overlong word. */
  predicate Fits(line: string)
  {
    |line| <= LineLimit + 1 || OneWord(line)
  }

  lemma {:induction false} WrapFromFits(words: seq<string>, current: string)
    requires forall i :: 0 <= i < |words| ==> ' ' !in words[i]
    requires Fits(current)
    ensures forall i :: 0 <= i < |WrapFrom(words, current)| ==> Fits(WrapFrom(words, current)[i])
    decreases |words|
  {
    if words != [] {
      var w := words[0];
      var next := if |current + w| > LineLimit then w + " " else current + w + " ";
      assert Fits(next) by {
        if |current + w| > LineLimit {
          assert next[..|next| - 1] == w;
        }
      }
      WrapFromFits(words[1..], next);
    }
  }

  lemma {:induction false} NoEmptyLine(words: seq<string>, current: string)
    requires current != ""
    ensures forall i :: 0 <= i < |WrapFrom(words, current)| ==> WrapFrom(words, current)[i] != ""
    decreases |words|
  {
    if words != [] {
      var w := words[0];
      NoEmptyLine(words[1..], if |current + w| > LineLimit then w + " " else current + w + " ");
    }
  }

  /**
   * Every line is at most 61 characters long unless it is one word longer
   * than that; an empty line can only come first, pushed when the first word
   * alone is longer than 60 characters.
   */
  lemma WrapShape(text: string)
    ensures var lines := Wrap(text);
            && (forall i :: 0 <= i < |lines| ==> Fits(lines[i]))
            && (forall i :: 0 <= i < |lines| && lines[i] == "" ==> i == 0 && |Split(text, ' ')[0]| > LineLimit)
  {
    var words := Split(text, ' ');
    WrapFromFits(words, "");
    var w := words[0];
    var lines := Wrap(text);
    assert "" + w == w && "" + w + " " == w + " ";
    var rest := WrapFrom(words[1..], w + " ");
    NoEmptyLine(words[1..], w + " ");
    if |w| > LineLimit {
      assert lines == [""] + rest;
      forall i | 0 < i < |lines| ensures lines[i] != "" {
        assert lines[i] == rest[i - 1];
      }
    } else {
      assert lines == rest;
    }
  }

  // ---------------------------------------------------------------------
  // Greediness

  /** The text of a line before its first space: the word that opened it. */
  function FirstWord(line: string): (w: string)
    ensures |w| <= |line| && w == line[..|w|] && ' ' !in w
    ensures |w| < |line| ==> line[|w|] == ' '
  {
    if line == [] || line[0] == ' ' then [] else [line[0]] + FirstWord(line[1..])
  }

  lemma {:induction false} FirstWordOf(w: string, x: string)
    requires ' ' !in w
    ensures FirstWord(w + " " + x) == w
    decreases |w|
  {
    if w == [] {
      assert (w + " " + x)[0] == ' ';
    } else {
      assert (w + " " + x)[1..] == w[1..] + " " + x;
      FirstWordOf(w[1..], x);
    }
  }

  /** The first line made from a non-empty line under construction starts with it. */
  lemma {:induction false} WrapFromStarts(words: seq<string>, current: string)
    requires current != ""
    ensures WrapFrom(words, current) != []
    ensures |current| <= |WrapFrom(words, current)[0]| && WrapFrom(words, current)[0][..|current|] == current
    decreases |words|
  {
    if words != [] && |current + words[0]| <= LineLimit {
      var next := current + words[0] + " ";
      WrapFromStarts(words[1..], next);
      var first := WrapFrom(words[1..], next)[0];
      assert first[..|current|] == first[..|next|][..|current|];
    }
  }

  lemma {:induction false} WrapFromGreedy(words: seq<string>, current: string)
    requires forall i :: 0 <= i < |words| ==> ' ' !in words[i]
    ensures forall i :: 0 <= i < |WrapFrom(words, current)| - 1 ==>
              |WrapFrom(words, current)[i] + FirstWord(WrapFrom(words, current)[i + 1])| > LineLimit
    decreases |words|
  {
    if words != [] {
      var w := words[0];
      if |current + w| > LineLimit {
        var rest := WrapFrom(words[1..], w + " ");
        WrapFromGreedy(words[1..], w + " ");
        WrapFromStarts(words[1..], w + " ");
        var first := rest[0];
        assert first == w + " " + first[|w| + 1..];
        FirstWordOf(w, first[|w| + 1..]);
        var lines := WrapFrom(words, current);
        assert lines == [current] + rest;
        forall i | 0 <= i < |lines| - 1
          ensures |lines[i] + FirstWord(lines[i + 1])| > LineLimit
        {
          if i > 0 {
            assert lines[i] == rest[i - 1] && lines[i + 1] == rest[i];
          }
        }
      } else {
        WrapFromGreedy(words[1..], current + w + " ");
      }
    }
  }

  /**
   * The wrap is greedy: a line is closed only when the word that opens the
   * next line would have taken it past 60 characters.
   */
  lemma WrapGreedy(text: string)
    ensures forall i :: 0 <= i < |Wrap(text)| - 1 ==> |Wrap(text)[i] + FirstWord(Wrap(text)[i + 1])| > LineLimit
  {
    WrapFromGreedy(Split(text, ' '), "");
  }

  // ---------------------------------------------------------------------
  // Drawing

  /** One drawText call: the line and its anchor. */
  datatype LineDraw = LineDraw(line: string, x: int, y: int)

  function LineY(index: nat): int
  {
    FirstLineY - index * LineStep
  }

  /** The drawing loop: line i at x = 50 and its own height. */
  method DrawLines(lines: seq<string>) returns (draws: seq<LineDraw>)
    ensures |draws| == |lines|
    ensures forall i :: 0 <= i < |lines| ==> draws[i] == LineDraw(lines[i], LeftMargin, LineY(i))
  {
    draws := [];
    var index := 0;
    while index < |lines|
      invariant 0 <= index <= |lines|
      invariant |draws| == index
      invariant forall i :: 0 <= i < index ==> draws[i] == LineDraw(lines[i], LeftMargin, LineY(i))
    {
      draws := draws + [LineDraw(lines[index], LeftMargin, LineY(index))];
      index := index + 1;
    }
  }

  /**
   * Lines go down the page 20 points apart; the first 38 lines (indices 0 to
   * 37) start on the page, every later one below its bottom edge.
   */
  lemma LinesLeaveThePage(i: nat, j: nat)
    requires i < j
    ensures LineY(j) < LineY(i)
    ensures LineY(i) >= 0 <==> i <= 37
  {
  }

  /** The name of the file written. */
  function TextPdfName(stamp: nat): (name: string)
    ensures StartsWith(name, "text_") && name[|name| - 4..] == ".pdf"
  {
    "text_" + NatToString(stamp) + ".pdf"
  }
}
