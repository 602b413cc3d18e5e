/**
 `_insert_blank_lines` of `models/cascade.py`: the pass over a dumped
 profile that puts a blank line before the `documentTypes:` and
 `elements:` sections and before every element entry inside `elements:`.

 The output is kept as a sequence of `Line`s, each either a line of the
 input or an inserted blank line, so that "only blank lines are inserted"
 is a fact about the shape of the result rather than about strings.
 */
module BlankLines {
  import opened Strings

  /** One line of the output: a line of the input, or an inserted `"\n"`. */
  datatype Line = Kept(text: string) | Added

  function TextOf(l: Line): (t: string)
    ensures l.Added? ==> t == "\n"
  {
    match l
    case Kept(t) => t
    case Added => "\n"
  }

  /** `"".join(out)`. */
  function Render(out: seq<Line>): string
  {
    if |out| == 0 then "" else Render(out[..|out| - 1]) + TextOf(out[|out| - 1])
  }

  /** The input lines among the output lines, in order. */
  function Originals(out: seq<Line>): seq<string>
  {
    if |out| == 0 then []
    else Originals(out[..|out| - 1]) + (if out[|out| - 1].Kept? then [out[|out| - 1].text] else [])
  }

  // ---------------------------------------------------------------------
  // The tests applied to one line.
  // ---------------------------------------------------------------------

  /** `line.rstrip("\n")`. */
  function Chomp(line: string): string
  {
    RStripChar(line, '\n')
  }

  const SectionKeys: set<string> := {"documentTypes:", "elements:"}

  /** The `in_elements` flag after reading a line whose chomped text is `stripped`. */
  function NextInElements(inElements: bool, stripped: string): bool
  {
    if stripped == "  elements:" then true
    else if (stripped != "" && !StartsWith(stripped, " "))
      || (inElements && stripped != "" && !StartsWith(stripped, "  ")) then false
    else inElements
  }

  /** `stripped.strip().split(":")[0] + ":"`. */
  function SectionKey(stripped: string): string
  {
    Split(Strip(stripped), ":")[0] + ":"
  }

  /** A two-space key naming one of the two major sections. */
  predicate SectionLine(stripped: string)
  {
    StartsWith(stripped, "  ") && !StartsWith(stripped, "   ") && SectionKey(stripped) in SectionKeys
  }

  /** A four-space key, that is, an element entry when inside `elements:`. */
  predicate EntryLine(stripped: string)
  {
    |stripped| > 4 && StartsWith(stripped, "    ") && !StartsWith(stripped, "     ")
    && (EndsWith(LStrip(stripped), ":") || Contains(LStrip(stripped), ": "))
  }

  /** `out[-1].rstrip("\n") if out else ""`. */
  function Prev(out: seq<Line>): string
  {
    if |out| == 0 then "" else Chomp(TextOf(out[|out| - 1]))
  }

  // ---------------------------------------------------------------------
  // The pass, as the loop of the source computes it.
  // ---------------------------------------------------------------------

  /**
   Whether the loop puts a blank line before line `i`, read after a line
   whose chomped text is `prev`.
   */
  predicate BlankAt(i: nat, line: string, inEl: bool, prev: string)
  {
    i > 0 && prev != ""
    && (SectionLine(Chomp(line)) || (inEl && EntryLine(Chomp(line)) && prev != "  elements:"))
  }

  /**
   One turn of the loop: the output after line `i` is read, given the flag
   `inEl` already updated for it. At most one blank line goes before it,
   since the section test leaves an empty previous line for the entry test.
   */
  function Step(i: nat, line: string, inEl: bool, out: seq<Line>): (r: seq<Line>)
    ensures r == out + [Kept(line)] || r == out + [Added, Kept(line)]
    ensures r == out + [Added, Kept(line)] <==> BlankAt(i, line, inEl, Prev(out))
  {
    var stripped := Chomp(line);
    var out1 := if i > 0 && SectionLine(stripped) && Prev(out) != "" then out + [Added] else out;
    assert out1 != out ==> Prev(out1) == Chomp("\n") == "";
    var out2 :=
      if inEl && i > 0 && EntryLine(stripped) && Prev(out1) != "" && Prev(out1) != "  elements:"
      then out1 + [Added] else out1;
    assert (out + [Added]) + [Kept(line)] == out + [Added, Kept(line)];
    out2 + [Kept(line)]
  }

  /** The loop from line `i` on, with flag `inElements` and output so far `out`. */
  function Pass(lines: seq<string>, i: nat, inElements: bool, out: seq<Line>): seq<Line>
    requires i <= |lines|
    decreases |lines| - i
  {
    if i == |lines| then out
    else
      var inEl := NextInElements(inElements, Chomp(lines[i]));
      Pass(lines, i + 1, inEl, Step(i, lines[i], inEl, out))
  }

  /** The output lines for the text of a dumped profile. */
  function Layout(text: string): (out: seq<Line>)
    ensures Originals(out) == SplitLinesKeepEnds(text)
    ensures Spaced(out)
  {
    var lines := SplitLinesKeepEnds(text);
    PassOriginals(lines, 0, false, []);
    PassSpaced(lines, 0, false, []);
    Pass(lines, 0, false, [])
  }

  /**
   `_insert_blank_lines(text)`: the text with blank lines inserted, and
   nothing else changed — deleting the inserted lines gives `text` back.
   */
  function InsertBlankLines(text: string): (r: string)
    ensures exists out :: r == Render(out) && Join(Originals(out), "") == text && Spaced(out)
  {
    var out := Layout(text);
    assert Join(Originals(out), "") == text;
    Render(out)
  }

  // ---------------------------------------------------------------------
  // Only blank lines are inserted.
  // ---------------------------------------------------------------------

  lemma {:induction false} PassOriginals(lines: seq<string>, i: nat, inElements: bool, out: seq<Line>)
    requires i <= |lines|
    ensures Originals(Pass(lines, i, inElements, out)) == Originals(out) + lines[i..]
    decreases |lines| - i
  {
    if i < |lines| {
      var inEl := NextInElements(inElements, Chomp(lines[i]));
      var r := Step(i, lines[i], inEl, out);
      OriginalsStep(out, lines[i], r);
      PassOriginals(lines, i + 1, inEl, r);
      TailCons(lines, i);
    }
  }

  lemma Assoc(a: seq<Line>, b: seq<Line>, c: seq<Line>)
    ensures (a + b) + c == a + (b + c)
  {
  }

  lemma LastOfAppend(a: seq<Line>, b: seq<Line>)
    requires |b| > 0
    ensures |a + b| > 0 && (a + b)[|a + b| - 1] == b[|b| - 1]
  {
  }

  lemma TailCons(lines: seq<string>, i: nat)
    requires i < |lines|
    ensures lines[i..] == [lines[i]] + lines[i + 1..]
  {
  }

  lemma OriginalsStep(out: seq<Line>, line: string, r: seq<Line>)
    requires r == out + [Kept(line)] || r == out + [Added, Kept(line)]
    ensures Originals(r) == Originals(out) + [line]
  {
    if r == out + [Kept(line)] {
      assert r[..|r| - 1] == out;
    } else {
      assert r[..|r| - 1] == out + [Added];
      assert (out + [Added])[..|out|] == out;
    }
  }

  /**
   Every inserted blank line follows an input line that is not itself
   blank: the pass never starts the text with a blank line and never
   doubles one.
   */
  predicate Spaced(out: seq<Line>)
  {
    forall k :: 0 <= k < |out| && out[k].Added? ==> k > 0 && out[k - 1].Kept? && Chomp(out[k - 1].text) != ""
  }

  lemma {:induction false} PassSpaced(lines: seq<string>, i: nat, inElements: bool, out: seq<Line>)
    requires i <= |lines|
    requires Spaced(out)
    ensures Spaced(Pass(lines, i, inElements, out))
    decreases |lines| - i
  {
    if i < |lines| {
      var inEl := NextInElements(inElements, Chomp(lines[i]));
      var r := Step(i, lines[i], inEl, out);
      if r == out + [Kept(lines[i])] {
        SpacedKept(out, lines[i]);
      } else {
        SpacedAdded(out, lines[i]);
      }
      PassSpaced(lines, i + 1, inEl, r);
    }
  }

  lemma SpacedKept(out: seq<Line>, line: string)
    requires Spaced(out)
    ensures Spaced(out + [Kept(line)])
  {
    var r := out + [Kept(line)];
    forall k | 0 <= k < |r| && r[k].Added?
      ensures k > 0 && r[k - 1].Kept? && Chomp(r[k - 1].text) != ""
    {
      assert k < |out| && r[k] == out[k];
    }
  }

  lemma SpacedAdded(out: seq<Line>, line: string)
    requires Spaced(out) && Prev(out) != ""
    ensures Spaced(out + [Added, Kept(line)])
  {
    assert Chomp("\n") == "";
    var r := out + [Added, Kept(line)];
    forall k | 0 <= k < |r| && r[k].Added?
      ensures k > 0 && r[k - 1].Kept? && Chomp(r[k - 1].text) != ""
    {
      if k < |out| {
        assert r[k] == out[k] && r[k - 1] == out[k - 1];
      } else {
        assert k == |out| && r[k - 1] == out[|out| - 1];
      }
    }
  }

  // ---------------------------------------------------------------------
  // Where the blank lines go, stated line by line.
  // ---------------------------------------------------------------------

  /** The `in_elements` flag once the first `n` lines are read. */
  function InElementsAfter(lines: seq<string>, n: nat): bool
    requires n <= |lines|
  {
    if n == 0 then false else NextInElements(InElementsAfter(lines, n - 1), Chomp(lines[n - 1]))
  }

  /**
   A blank line goes before line `i` exactly when the previous line is not
   blank and line `i` opens a major section, or opens an element entry
   inside `elements:` without directly following the `elements:` line.
   */
  predicate BlankBefore(lines: seq<string>, i: nat)
    requires i < |lines|
  {
    i > 0 && Chomp(lines[i - 1]) != ""
    && (SectionLine(Chomp(lines[i]))
        || (InElementsAfter(lines, i + 1) && EntryLine(Chomp(lines[i])) && Chomp(lines[i - 1]) != "  elements:"))
  }

  /** The output for lines `i..`, each input line preceded by its blank line if it gets one. */
  function Expected(lines: seq<string>, i: nat): seq<Line>
    requires i <= |lines|
    decreases |lines| - i
  {
    if i == |lines| then []
    else Piece(lines, i) + Expected(lines, i + 1)
  }

  /** Line `i` and, when it gets one, the blank line before it. */
  function Piece(lines: seq<string>, i: nat): (p: seq<Line>)
    requires i < |lines|
    ensures |p| > 0 && p[|p| - 1] == Kept(lines[i])
  {
    if BlankBefore(lines, i) then [Added, Kept(lines[i])] else [Kept(lines[i])]
  }

  lemma StepPiece(lines: seq<string>, i: nat, out: seq<Line>)
    requires i < |lines|
    requires i == 0 ==> out == []
    requires i > 0 ==> |out| > 0 && out[|out| - 1] == Kept(lines[i - 1])
    ensures Step(i, lines[i], InElementsAfter(lines, i + 1), out) == out + Piece(lines, i)
  {
    assert Prev(out) == if i > 0 then Chomp(lines[i - 1]) else "";
  }

  lemma {:induction false} PassExpected(lines: seq<string>, i: nat, out: seq<Line>)
    requires i <= |lines|
    requires i == 0 ==> out == []
    requires i > 0 ==> |out| > 0 && out[|out| - 1] == Kept(lines[i - 1])
    ensures Pass(lines, i, InElementsAfter(lines, i), out) == out + Expected(lines, i)
    decreases |lines| - i
  {
    if i < |lines| {
      var piece := Piece(lines, i);
      var inEl := NextInElements(InElementsAfter(lines, i), Chomp(lines[i]));
      StepPiece(lines, i, out);
      LastOfAppend(out, piece);
      calc {
        Pass(lines, i, InElementsAfter(lines, i), out);
        Pass(lines, i + 1, inEl, Step(i, lines[i], inEl, out));
        Pass(lines, i + 1, InElementsAfter(lines, i + 1), out + piece);
        { PassExpected(lines, i + 1, out + piece); }
        (out + piece) + Expected(lines, i + 1);
        { Assoc(out, piece, Expected(lines, i + 1)); }
        out + Expected(lines, i);
      }
    }
  }

  /** The pass puts a blank line exactly where `BlankBefore` says, and nowhere else. */
  lemma LayoutIsExpected(text: string)
    ensures Layout(text) == Expected(SplitLinesKeepEnds(text), 0)
  {
    PassExpected(SplitLinesKeepEnds(text), 0, []);
  }
}
