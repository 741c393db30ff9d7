/**
 * `WrapTextWithWidth` of `src/HorizonUtils/WrapText.ts` (copied unchanged as
 * `src/HorizonUtils/DisplayLegend.ts:22-57`): greedy word wrapping into
 * Horizon `<br>` line breaks. A width below one only turns newlines into
 * `<br>`. Otherwise the existing `<br>` markers cut the text into segments,
 * newlines and tabs become spaces, and each segment's words are laid out
 * greedily, counting word characters only.
 */
module WrapText {
  import opened Strings

  /** The marker `<br>` is swapped for before newlines and tabs are blanked. */
  const BreakMarker: string := "#BREAK#"

  /** The output so far and the word characters counted on the current output line, in UTF-16 code units as JavaScript's `length` counts them. */
  datatype WrapState = WrapState(out: string, count: nat)

  /** The separator placed before a non-empty word: a line break when it is long or does not fit, a space between words on a line. */
  function Separator(width: nat, count: nat, word: string): string {
    if JsLength(word) >= width || count + JsLength(word) > width then "<br>"
    else if count > 0 then " "
    else ""
  }

  /** What follows a word: a line break after a word that is too long for any line. */
  function Trailer(width: nat, word: string): string {
    if JsLength(word) >= width then "<br>" else ""
  }

  /** One pass of the inner loop: an empty word is skipped, any other is placed after its separator. */
  function WordStep(width: nat, st: WrapState, word: string): (r: WrapState)
    requires width >= 1 && st.count <= width
    ensures r.count <= width
    ensures |word| == 0 ==> r == st
    ensures |word| > 0 ==> r.out == st.out + Separator(width, st.count, word) + word + Trailer(width, word)
    ensures |word| > 0 && JsLength(word) >= width ==> r.count == 0
    ensures |word| > 0 && JsLength(word) < width && Separator(width, st.count, word) == "<br>" ==> r.count == JsLength(word)
    ensures |word| > 0 && Separator(width, st.count, word) != "<br>" ==> r.count == st.count + JsLength(word)
  {
    var len := JsLength(word);
    if len == 0 then st
    else if len >= width then WrapState(st.out + "<br>" + word + "<br>", 0)
    else if st.count + len > width then WrapState(st.out + "<br>" + word, len)
    else WrapState(st.out + (if st.count > 0 then " " else "") + word, st.count + len)
  }

  /** The inner loop over a segment's words, from a fresh line. */
  function WrapWords(width: nat, words: seq<string>): (r: WrapState)
    requires width >= 1
    ensures r.count <= width
    decreases |words|
  {
    if |words| == 0 then WrapState("", 0)
    else WordStep(width, WrapWords(width, words[..|words| - 1]), words[|words| - 1])
  }

  /** One segment: its words wrapped, then a closing line break. */
  function WrapSegment(width: nat, segment: string): string
    requires width >= 1
  {
    WrapWords(width, Split(segment, " ")).out + "<br>"
  }

  /** The outer loop over the segments. */
  function WrapSegments(width: nat, segments: seq<string>): string
    requires width >= 1
    decreases |segments|
  {
    if |segments| == 0 then ""
    else WrapSegments(width, segments[..|segments| - 1]) + WrapSegment(width, segments[|segments| - 1])
  }

  /** `WrapSegments` over one more segment. */
  lemma WrapSegmentsStep(width: nat, segments: seq<string>, i: nat)
    requires width >= 1 && i < |segments|
    ensures WrapSegments(width, segments[..i + 1]) == WrapSegments(width, segments[..i]) + WrapWords(width, Split(segments[i], " ")).out + "<br>"
  {
    assert segments[..i + 1][..i] == segments[..i];
  }

  /** `<br>` becomes the marker, then newlines and tabs become spaces. */
  function Normalize(s: string): string {
    ReplaceAll(ReplaceAll(ReplaceAll(s, "<br>", BreakMarker), "\n", " "), "\t", " ")
  }

  function Segments(s: string): seq<string> {
    Split(Normalize(s), BreakMarker)
  }

  /** `WrapTextWithWidth`. */
  function WrapTextWithWidth(width: int, s: string): string {
    if width < 1 then ReplaceAll(s, "\n", "<br>")
    else WrapSegments(width, Segments(s))
  }

  /** Without a usable width, newlines become `<br>` and nothing else changes. */
  lemma NoWidthOnlyBreaksLines(width: int, s: string)
    requires width < 1
    ensures WrapTextWithWidth(width, s) == ExpandChar(s, '\n', "<br>")
    ensures '\n' !in WrapTextWithWidth(width, s)
    ensures '\n' !in s ==> WrapTextWithWidth(width, s) == s
  {
    ReplaceCharIsExpand(s, '\n', "<br>");
    ExpandCharRemoves(s, '\n', "<br>");
  }

  /** After normalizing, the segments hold neither newlines nor tabs. */
  lemma NormalizedHasNoNewlinesOrTabs(s: string)
    ensures '\n' !in Normalize(s) && '\t' !in Normalize(s)
  {
    var a := ReplaceAll(s, "<br>", BreakMarker);
    var b := ReplaceAll(a, "\n", " ");
    ReplaceCharIsExpand(a, '\n', " ");
    ExpandCharRemoves(a, '\n', " ");
    ReplaceCharIsExpand(b, '\t', " ");
    ExpandCharRemoves(b, '\t', " ");
    ExpandCharKeepsOut(b, '\t', " ", '\n');
  }

  /** With a usable width, every segment's output, and so the whole output, ends with a line break. */
  lemma OutputEndsWithBreak(width: int, s: string)
    requires width >= 1
    ensures EndsWith(WrapTextWithWidth(width, s), "<br>")
  {
    SegmentsEndWithBreak(width, Segments(s));
  }

  lemma SegmentsEndWithBreak(width: nat, segs: seq<string>)
    requires width >= 1 && |segs| > 0
    ensures EndsWith(WrapSegments(width, segs), "<br>")
  {
    var init := WrapSegments(width, segs[..|segs| - 1]);
    var last := WrapWords(width, Split(segs[|segs| - 1], " ")).out;
    assert WrapSegments(width, segs) == (init + last) + "<br>";
    EndsWithAppend(init + last, "<br>");
  }

  /** The non-empty words, in order. */
  function NonEmpty(words: seq<string>): (ws: seq<string>)
    ensures forall i :: 0 <= i < |ws| ==> |ws[i]| > 0
    decreases |words|
  {
    if |words| == 0 then []
    else NonEmpty(words[..|words| - 1]) + (if |words[|words| - 1]| > 0 then [words[|words| - 1]] else [])
  }

  /** The words written in order, each after its separator and before its trailer. */
  function Weave(width: nat, ws: seq<string>, seps: seq<string>): string
    requires |seps| == |ws|
    decreases |ws|
  {
    if |ws| == 0 then ""
    else
      var n := |ws| - 1;
      Weave(width, ws[..n], seps[..n]) + seps[n] + ws[n] + Trailer(width, ws[n])
  }

  /**
   * The wrapped words are exactly the non-empty words, each once and in
   * order, each preceded by nothing, a space or a line break (always a line
   * break before a word too long for a line), and each too-long word followed
   * by a line break.
   */
  lemma {:induction false} WordsKeptInOrder(width: nat, words: seq<string>) returns (seps: seq<string>)
    requires width >= 1
    ensures |seps| == |NonEmpty(words)|
    ensures WrapWords(width, words).out == Weave(width, NonEmpty(words), seps)
    ensures forall i :: 0 <= i < |seps| ==> seps[i] == "" || seps[i] == " " || seps[i] == "<br>"
    ensures forall i :: 0 <= i < |seps| && JsLength(NonEmpty(words)[i]) >= width ==> seps[i] == "<br>"
    decreases |words|
  {
    if |words| == 0 {
      seps := [];
    } else {
      var init := words[..|words| - 1];
      var w := words[|words| - 1];
      var prev := WordsKeptInOrder(width, init);
      var st := WrapWords(width, init);
      WrapWordsStep(width, words);
      NonEmptyStep(words);
      if |w| == 0 {
        seps := prev;
        assert NonEmpty(words) == NonEmpty(init) + [] == NonEmpty(init);
      } else {
        var sep := Separator(width, st.count, w);
        seps := prev + [sep];
        assert NonEmpty(words) == NonEmpty(init) + [w];
        assert WrapWords(width, words).out == st.out + sep + w + Trailer(width, w);
        WeaveSnoc(width, NonEmpty(init), prev, w, sep);
      }
    }
  }

  /** `WrapWords` unfolded once: the last word's step after the others. */
  lemma WrapWordsStep(width: nat, words: seq<string>)
    requires width >= 1 && |words| > 0
    ensures WrapWords(width, words) == WordStep(width, WrapWords(width, words[..|words| - 1]), words[|words| - 1])
  {
  }

  /** `NonEmpty` unfolded once: the last word is kept when it is not empty. */
  lemma NonEmptyStep(words: seq<string>)
    requires |words| > 0
    ensures var w := words[|words| - 1];
      NonEmpty(words) == NonEmpty(words[..|words| - 1]) + (if |w| > 0 then [w] else [])
  {
  }

  /** `Weave` grows at the back by a separator, a word and its trailer. */
  lemma WeaveSnoc(width: nat, ws: seq<string>, seps: seq<string>, w: string, sep: string)
    requires |seps| == |ws|
    ensures Weave(width, ws + [w], seps + [sep]) == Weave(width, ws, seps) + sep + w + Trailer(width, w)
  {
    assert (ws + [w])[..|ws|] == ws;
    assert (seps + [sep])[..|seps|] == seps;
  }

  /** The total JavaScript length of the words. */
  function Letters(words: seq<string>): nat
    decreases |words|
  {
    if |words| == 0 then 0 else Letters(words[..|words| - 1]) + JsLength(words[|words| - 1])
  }

  /**
   * A segment whose words all fit on one line, counted the source's way, is
   * wrapped into just its non-empty words joined by single spaces.
   */
  lemma {:induction false} FitsOnOneLine(width: nat, words: seq<string>)
    requires width >= 1
    requires forall i :: 0 <= i < |words| ==> JsLength(words[i]) < width
    requires Letters(words) <= width
    ensures WrapWords(width, words) == WrapState(Join(NonEmpty(words), " "), Letters(words))
    decreases |words|
  {
    if |words| > 0 {
      var init := words[..|words| - 1];
      var w := words[|words| - 1];
      FitsOnOneLine(width, init);
      NonEmptyNoLetters(init);
      assert WrapWords(width, words) == WordStep(width, WrapWords(width, init), w);
      if |w| > 0 {
        JoinSnoc(NonEmpty(init), w, " ");
      } else {
        assert NonEmpty(words) == NonEmpty(init) + [];
        assert NonEmpty(words) == NonEmpty(init);
        assert Letters(words) == Letters(init);
      }
    }
  }

  /** Words without letters are all empty. */
  lemma {:induction false} NonEmptyNoLetters(words: seq<string>)
    ensures |NonEmpty(words)| == 0 <==> Letters(words) == 0
    decreases |words|
  {
    if |words| > 0 {
      NonEmptyNoLetters(words[..|words| - 1]);
    }
  }

  /**
   * Only word characters are counted, so a wrapped line can be wider than
   * the width by its spaces: at width 4, `aa aa bb` keeps the five
   * characters `aa aa` on one line.
   */
  lemma SpacesNotCounted()
    ensures WrapWords(4, ["aa", "aa", "bb"]) == WrapState("aa aa<br>bb", 2)
  {
    assert WrapWords(4, ["aa"]) == WrapState("aa", 2) by {
      assert ["aa"][..0] == [];
    }
    assert WrapWords(4, ["aa", "aa"]) == WrapState("aa aa", 4) by {
      assert ["aa", "aa"][..1] == ["aa"];
      assert WordStep(4, WrapState("aa", 2), "aa") == WrapState("aa aa", 4);
    }
    assert ["aa", "aa", "bb"][..2] == ["aa", "aa"];
    assert WordStep(4, WrapState("aa aa", 4), "bb") == WrapState("aa aa<br>bb", 2);
  }

  /**
   * A word is measured in UTF-16 code units: at width 2 a lone emoji, of
   * `length` two, is too long for a line and is set on a line of its own,
   * while a letter is not.
   */
  lemma AstralCountsTwice()
    ensures WrapWords(2, ["\U{1F600}"]) == WrapState("<br>\U{1F600}<br>", 0)
    ensures WrapWords(2, ["x"]) == WrapState("x", 1)
  {
    JsLengthExamples();
    assert ["\U{1F600}"][..0] == [];
    assert ["x"][..0] == [];
  }

  /** The source's inner loop over one segment's words. */
  method WrapWordsLoop(width: nat, words: seq<string>) returns (out: string, charCountOnLine: nat)
    requires width >= 1
    ensures WrapState(out, charCountOnLine) == WrapWords(width, words)
  {
    out := "";
    charCountOnLine := 0;
    var j := 0;
    while j < |words|
      invariant 0 <= j <= |words|
      invariant WrapState(out, charCountOnLine) == WrapWords(width, words[..j])
    {
      var word := words[j];
      var len := JsLength(word);
      assert words[..j + 1][..j] == words[..j];
      assert WrapWords(width, words[..j + 1]) == WordStep(width, WrapState(out, charCountOnLine), word);
      if len > 0 {
        if len >= width {
          out := out + "<br>" + word + "<br>";
          charCountOnLine := 0;
        } else if charCountOnLine + len > width {
          out := out + "<br>" + word;
          charCountOnLine := len;
        } else {
          out := out + (if charCountOnLine > 0 then " " else "") + word;
          charCountOnLine := charCountOnLine + len;
        }
      }
      j := j + 1;
    }
    assert words[..|words|] == words;
  }

  /** `WrapTextWithWidth` as the source computes it: a loop over the segments around a loop over their words. */
  method WrapTextLoop(width: int, str: string) returns (result: string)
    ensures result == WrapTextWithWidth(width, str)
  {
    if width < 1 {
      return ReplaceAll(str, "\n", "<br>");
    }
    var lines := Segments(str);
    result := "";
    var i := 0;
    while i < |lines|
      invariant 0 <= i <= |lines|
      invariant result == WrapSegments(width, lines[..i])
    {
      var out, _ := WrapWordsLoop(width, Split(lines[i], " "));
      WrapSegmentsStep(width, lines, i);
      result := result + out + "<br>";
      i := i + 1;
    }
    assert lines[..|lines|] == lines;
  }
}
