/**
 * The legend of `src/HorizonUtils/DisplayLegend.ts`: one line per test
 * status, each a fixed-width mark followed by the status name, turned into
 * Horizon line breaks by `WrapTextWithWidth` with no width. That file's copy of
 * `WrapTextWithWidth` is the one modelled in the `WrapText` module.
 */
module DisplayLegend {
  import opened Strings
  import opened WrapText

  const OpenTag: string := "<mspace=2em>"
  const CloseTag: string := " - </mspace>"

  /** `wrapTags`: the mark in a fixed-width span, followed by a dash. */
  function WrapTags(s: string): (r: string)
    ensures StartsWith(r, OpenTag) && EndsWith(r, CloseTag)
    ensures |r| == |OpenTag| + |s| + |CloseTag| && r[|OpenTag|..|r| - |CloseTag|] == s
  {
    var r := OpenTag + s + CloseTag;
    assert r[..|OpenTag|] == OpenTag;
    assert r[|r| - |CloseTag|..] == CloseTag;
    assert r[|OpenTag|..|r| - |CloseTag|] == s;
    r
  }

  /** The status names, in the legend's order. */
  const Names: seq<string> := ["Unstarted", "Running", "Pass", "Fail", "Warn", "Invalid"]

  /** A legend line: the status's mark, then its name. */
  function Entry(mark: string, name: string): string {
    WrapTags(mark) + name
  }

  /** The legend's lines, for the marks of RUNNING, PASS, FAIL, WARN and INVALID; unstarted tests show `-`. */
  function Entries(marks: seq<string>): (es: seq<string>)
    requires |marks| == 5
    ensures |es| == 6
  {
    var all := ["-"] + marks;
    seq(6, i requires 0 <= i < 6 => Entry(all[i], Names[i]))
  }

  /** `legendText`: left-aligned, one entry per source line. */
  function LegendText(marks: seq<string>): string
    requires |marks| == 5
  {
    "<align=left>" + Join(Entries(marks), "\n")
  }

  /** `legendStrWithBreaks`. */
  function LegendWithBreaks(marks: seq<string>): string
    requires |marks| == 5
  {
    WrapTextWithWidth(-1, LegendText(marks))
  }

  /** Expanding the newlines of a newline-joined text of newline-free pieces joins them with `<br>`. */
  lemma {:induction false} JoinNewlinesExpand(parts: seq<string>)
    requires forall i :: 0 <= i < |parts| ==> '\n' !in parts[i]
    ensures ExpandChar(Join(parts, "\n"), '\n', "<br>") == Join(parts, "<br>")
    decreases |parts|
  {
    if |parts| == 1 {
      ExpandCharRemoves(parts[0], '\n', "<br>");
    } else if |parts| > 1 {
      JoinNewlinesExpand(parts[1..]);
      ExpandCharAppend(parts[0] + "\n", Join(parts[1..], "\n"), '\n', "<br>");
      ExpandCharAppend(parts[0], "\n", '\n', "<br>");
      ExpandCharRemoves(parts[0], '\n', "<br>");
      assert ExpandChar("\n", '\n', "<br>") == "<br>";
    }
  }

  lemma EntriesSingleLine(marks: seq<string>)
    requires |marks| == 5
    requires forall i :: 0 <= i < 5 ==> '\n' !in marks[i]
    ensures forall i :: 0 <= i < 6 ==> '\n' !in Entries(marks)[i]
  {
    forall i | 0 <= i < 6
      ensures '\n' !in Entries(marks)[i]
    {
      var all := ["-"] + marks;
      assert '\n' !in all[i];
      assert '\n' !in Names[i];
    }
  }

  /**
   * With marks free of newlines, the legend with breaks shows each status on
   * its own Horizon line: the entries joined by `<br>`, in the legend's order.
   */
  lemma LegendOneStatusPerLine(marks: seq<string>)
    requires |marks| == 5
    requires forall i :: 0 <= i < 5 ==> '\n' !in marks[i]
    ensures LegendWithBreaks(marks) == "<align=left>" + Join(Entries(marks), "<br>")
  {
    var es := Entries(marks);
    var text := LegendText(marks);
    EntriesSingleLine(marks);
    calc {
      LegendWithBreaks(marks);
      { NoWidthOnlyBreaksLines(-1, text); }
      ExpandChar(text, '\n', "<br>");
      { ExpandCharAppend("<align=left>", Join(es, "\n"), '\n', "<br>"); }
      ExpandChar("<align=left>", '\n', "<br>") + ExpandChar(Join(es, "\n"), '\n', "<br>");
      { ExpandCharRemoves("<align=left>", '\n', "<br>"); JoinNewlinesExpand(es); }
      "<align=left>" + Join(es, "<br>");
    }
  }
}
