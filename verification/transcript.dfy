/**
 * The coloured transcript shared by both engine generations: a line is a text
 * with a colour, and the transcript string puts `<br>` between lines and wraps
 * every maximal run of same-coloured lines in a single `<color=...>` tag.
 */
module Transcript {
  import opened Strings

  datatype Color = Default | Red | Green | Yellow | Grey

  datatype Line = Line(text: string, color: Color)

  /** The colour codes one engine generation uses for its four tagged colours. */
  datatype Palette = Palette(red: string, green: string, yellow: string, grey: string)

  /** Colours of `src/Zest/ZTest.ts`. */
  const CurrentPalette: Palette := Palette("#f66", "#6f6", "#ff0", "#ccc")

  /** Colours of `src/Zest/ZTestImpl.ts`. */
  const LegacyPalette: Palette := Palette("#f88", "#8f8", "#ff0", "#ccc")

  function ColorCode(p: Palette, c: Color): string
    requires c != Default
  {
    match c
    case Red => p.red
    case Green => p.green
    case Yellow => p.yellow
    case Grey => p.grey
  }

  /**
   * `WrapTextWithHorizonColorTags`: an empty text stays empty, the default
   * colour adds no tag, any other colour encloses the text in one tag pair.
   */
  function WrapColorTags(p: Palette, text: string, c: Color): (r: string)
    ensures text == "" ==> r == ""
    ensures text != "" && c == Default ==> r == text
    ensures text != "" && c != Default ==> StartsWith(r, "<color=") && EndsWith(r, text + "</color>")
  {
    if text == "" then ""
    else if c == Default then text
    else
      var r := "<color=" + ColorCode(p, c) + ">" + text + "</color>";
      assert r == "<color=" + (ColorCode(p, c) + ">") + (text + "</color>");
      r
  }

  /** Concatenation of a sequence of line groups, from the left. */
  function Flatten(gs: seq<seq<Line>>): seq<Line>
    decreases |gs|
  {
    if |gs| == 0 then [] else Flatten(gs[..|gs| - 1]) + gs[|gs| - 1]
  }

  /** Every group is non-empty and all its lines share the colour of its first line. */
  ghost predicate UniformGroups(gs: seq<seq<Line>>) {
    forall i :: 0 <= i < |gs| ==> |gs[i]| > 0 && forall j :: 0 <= j < |gs[i]| ==> gs[i][j].color == gs[i][0].color
  }

  /** Neighbouring groups have different colours, so no group could be merged with the next. */
  ghost predicate MaximalGroups(gs: seq<seq<Line>>)
    requires UniformGroups(gs)
  {
    forall i :: 0 < i < |gs| ==> gs[i - 1][0].color != gs[i][0].color
  }

  /**
   * The lines cut into maximal runs of one colour: the runs cover the lines in
   * order, each run has one colour, and neighbouring runs differ in colour.
   */
  function Groups(lines: seq<Line>): (gs: seq<seq<Line>>)
    ensures Flatten(gs) == lines
    ensures UniformGroups(gs)
    ensures MaximalGroups(gs)
    ensures |lines| > 0 <==> |gs| > 0
    decreases |lines|
  {
    if |lines| == 0 then []
    else
      var gs := Groups(lines[..|lines| - 1]);
      var l := lines[|lines| - 1];
      assert lines == lines[..|lines| - 1] + [l];
      if |gs| > 0 && gs[|gs| - 1][0].color == l.color then
        ExtendLastGroup(gs, l);
        AddLine(gs, l)
      else
        StartNewGroup(gs, l);
        AddLine(gs, l)
  }

  /** One grouping step: the line joins the last group when the colours agree, and opens a group otherwise. */
  function AddLine(gs: seq<seq<Line>>, l: Line): seq<seq<Line>>
    requires forall i :: 0 <= i < |gs| ==> |gs[i]| > 0
  {
    if |gs| > 0 && gs[|gs| - 1][0].color == l.color then gs[..|gs| - 1] + [gs[|gs| - 1] + [l]]
    else gs + [[l]]
  }

  /** A line of the last group's colour joins that group, and the grouping stays valid. */
  lemma ExtendLastGroup(gs: seq<seq<Line>>, l: Line)
    requires UniformGroups(gs) && MaximalGroups(gs)
    requires |gs| > 0 && gs[|gs| - 1][0].color == l.color
    ensures var gs' := gs[..|gs| - 1] + [gs[|gs| - 1] + [l]];
      Flatten(gs') == Flatten(gs) + [l] && UniformGroups(gs') && MaximalGroups(gs')
  {
    var init := gs[..|gs| - 1];
    var last := gs[|gs| - 1];
    assert gs == init + [last];
    UniformPrefix(gs);
    MaximalPrefix(gs);
    FlattenSnoc(init, last);
    FlattenSnoc(init, last + [l]);
    UniformSnoc(init, last + [l]);
    MaximalSnoc(init, last + [l]);
  }

  /** A line of another colour opens a new group, and the grouping stays valid. */
  lemma StartNewGroup(gs: seq<seq<Line>>, l: Line)
    requires UniformGroups(gs) && MaximalGroups(gs)
    requires |gs| == 0 || gs[|gs| - 1][0].color != l.color
    ensures var gs' := gs + [[l]];
      Flatten(gs') == Flatten(gs) + [l] && UniformGroups(gs') && MaximalGroups(gs')
  {
    FlattenSnoc(gs, [l]);
    UniformSnoc(gs, [l]);
    MaximalSnoc(gs, [l]);
  }

  lemma FlattenSnoc(gs: seq<seq<Line>>, g: seq<Line>)
    ensures Flatten(gs + [g]) == Flatten(gs) + g
  {
    assert (gs + [g])[..|gs|] == gs;
  }

  /** Dropping the last group keeps the groups uniform. */
  lemma UniformPrefix(gs: seq<seq<Line>>)
    requires UniformGroups(gs) && |gs| > 0
    ensures UniformGroups(gs[..|gs| - 1])
  {
    var init: seq<seq<Line>> := gs[..|gs| - 1];
    forall i | 0 <= i < |init|
      ensures |init[i]| > 0 && forall j :: 0 <= j < |init[i]| ==> init[i][j].color == init[i][0].color
    {
      assert init[i] == gs[i];
    }
  }

  /** Dropping the last group keeps the groups maximal. */
  lemma MaximalPrefix(gs: seq<seq<Line>>)
    requires UniformGroups(gs) && MaximalGroups(gs) && |gs| > 0
    ensures UniformGroups(gs[..|gs| - 1]) && MaximalGroups(gs[..|gs| - 1])
  {
    UniformPrefix(gs);
    var init: seq<seq<Line>> := gs[..|gs| - 1];
    forall i | 0 < i < |init|
      ensures init[i - 1][0].color != init[i][0].color
    {
      assert init[i - 1] == gs[i - 1] && init[i] == gs[i];
    }
  }

  /** A non-empty group of one colour can be added at the back. */
  lemma UniformSnoc(gs: seq<seq<Line>>, g: seq<Line>)
    requires UniformGroups(gs)
    requires |g| > 0 && forall j :: 0 <= j < |g| ==> g[j].color == g[0].color
    ensures UniformGroups(gs + [g])
  {
    var gs': seq<seq<Line>> := gs + [g];
    forall i | 0 <= i < |gs'|
      ensures |gs'[i]| > 0 && forall j :: 0 <= j < |gs'[i]| ==> gs'[i][j].color == gs'[i][0].color
    {
      if i < |gs| {
        assert gs'[i] == gs[i];
      }
    }
  }

  /** A group whose colour differs from the last group's keeps the groups maximal. */
  lemma MaximalSnoc(gs: seq<seq<Line>>, g: seq<Line>)
    requires UniformGroups(gs) && MaximalGroups(gs)
    requires |g| > 0 && forall j :: 0 <= j < |g| ==> g[j].color == g[0].color
    requires |gs| == 0 || gs[|gs| - 1][0].color != g[0].color
    ensures UniformGroups(gs + [g]) && MaximalGroups(gs + [g])
  {
    UniformSnoc(gs, g);
    var gs': seq<seq<Line>> := gs + [g];
    forall i | 0 < i < |gs'|
      ensures gs'[i - 1][0].color != gs'[i][0].color
    {
      assert gs'[i - 1] == gs[i - 1];
      if i < |gs| {
        assert gs'[i] == gs[i];
      }
    }
  }

  /** The texts of a group, concatenated. */
  function GroupText(g: seq<Line>): string
    decreases |g|
  {
    if |g| == 0 then "" else GroupText(g[..|g| - 1]) + g[|g| - 1].text
  }

  /** Every group as one colour-tagged string, concatenated. */
  function RenderGroups(p: Palette, gs: seq<seq<Line>>): string
    requires forall i :: 0 <= i < |gs| ==> |gs[i]| > 0
    decreases |gs|
  {
    if |gs| == 0 then ""
    else RenderGroups(p, gs[..|gs| - 1]) + WrapColorTags(p, GroupText(gs[|gs| - 1]), gs[|gs| - 1][0].color)
  }

  /** The lines with `<br>` in front of every text but the first. */
  function Prefixed(lines: seq<Line>): (r: seq<Line>)
    ensures |r| == |lines|
    ensures forall i :: 0 <= i < |lines| ==> r[i].color == lines[i].color
  {
    seq(|lines|, i requires 0 <= i < |lines| => Line((if i == 0 then "" else "<br>") + lines[i].text, lines[i].color))
  }

  /** The transcript string: maximal same-colour runs of the `<br>`-separated lines, each tagged once. */
  function Render(p: Palette, lines: seq<Line>): string {
    RenderGroups(p, Groups(Prefixed(lines)))
  }

  /**
   * A transcript whose first line is coloured and not empty opens with that
   * line's colour tag followed by its text.
   */
  lemma RenderOpensWith(p: Palette, lines: seq<Line>)
    requires |lines| > 0 && lines[0].color != Default && lines[0].text != ""
    ensures StartsWith(Render(p, lines), "<color=" + ColorCode(p, lines[0].color) + ">" + lines[0].text)
  {
    var pl := Prefixed(lines);
    assert pl[0].text == lines[0].text;
    var gs := Groups(pl);
    FlattenFirst(gs);
    var g := gs[0];
    GroupTextFirst(g);
    RenderGroupsFirst(p, gs);
    var open := "<color=" + ColorCode(p, lines[0].color) + ">";
    var w := WrapColorTags(p, GroupText(g), g[0].color);
    assert w == open + GroupText(g) + "</color>";
    assert StartsWith(open + GroupText(g), open + lines[0].text) by {
      assert (open + GroupText(g))[..|open + lines[0].text|] == open + GroupText(g)[..|lines[0].text|];
    }
    StartsWithTrans(open + GroupText(g), open + lines[0].text, open + lines[0].text, "</color>");
    StartsWithTrans(Render(p, lines), w, open + lines[0].text, "");
  }

  /** The first line of the concatenated groups is the first group's first line. */
  lemma {:induction false} FlattenFirst(gs: seq<seq<Line>>)
    requires |gs| > 0 && |gs[0]| > 0
    ensures |Flatten(gs)| > 0 && Flatten(gs)[0] == gs[0][0]
    decreases |gs|
  {
    if |gs| > 1 {
      FlattenFirst(gs[..|gs| - 1]);
    }
  }

  /** A group's text opens with its first line's text. */
  lemma {:induction false} GroupTextFirst(g: seq<Line>)
    requires |g| > 0
    ensures StartsWith(GroupText(g), g[0].text)
    decreases |g|
  {
    if |g| > 1 {
      GroupTextFirst(g[..|g| - 1]);
      StartsWithTrans(GroupText(g[..|g| - 1]), g[0].text, g[0].text, g[|g| - 1].text);
    } else {
      assert GroupText(g) == "" + g[0].text;
    }
  }

  /** The rendering opens with the first group, tagged. */
  lemma {:induction false} RenderGroupsFirst(p: Palette, gs: seq<seq<Line>>)
    requires |gs| > 0 && forall i :: 0 <= i < |gs| ==> |gs[i]| > 0
    ensures StartsWith(RenderGroups(p, gs), WrapColorTags(p, GroupText(gs[0]), gs[0][0].color))
    decreases |gs|
  {
    var w := WrapColorTags(p, GroupText(gs[0]), gs[0][0].color);
    var init := gs[..|gs| - 1];
    var last := WrapColorTags(p, GroupText(gs[|gs| - 1]), gs[|gs| - 1][0].color);
    if |gs| > 1 {
      RenderGroupsFirst(p, init);
      StartsWithTrans(RenderGroups(p, init), w, w, last);
    } else {
      assert RenderGroups(p, gs) == "" + w;
    }
  }

  /**
   * Where `getHorizonString`'s loop stands after the lines grouped as `gs`:
   * every group but the last is flushed into `str`, the last one is pending
   * in `buf` with its colour in `color`.
   */
  ghost predicate MergeState(p: Palette, gs: seq<seq<Line>>, str: string, color: Color, buf: string)
    requires forall i :: 0 <= i < |gs| ==> |gs[i]| > 0
  {
    if |gs| == 0 then str == "" && color == Default && buf == ""
    else
      && str == RenderGroups(p, gs[..|gs| - 1])
      && color == gs[|gs| - 1][0].color
      && buf == GroupText(gs[|gs| - 1])
  }

  lemma MergeSameColor(p: Palette, gs: seq<seq<Line>>, str: string, color: Color, buf: string, l: Line)
    requires UniformGroups(gs) && MergeState(p, gs, str, color, buf)
    requires color == l.color
    ensures MergeState(p, AddLine(gs, l), str, color, buf + l.text)
  {
    var gs' := AddLine(gs, l);
    if |gs| > 0 {
      assert gs'[..|gs'| - 1] == gs[..|gs| - 1];
      var last := gs[|gs| - 1] + [l];
      assert last[..|last| - 1] == gs[|gs| - 1];
    } else {
      assert gs' == [[l]];
      assert [l][..0] == [];
    }
  }

  lemma MergeNewColor(p: Palette, gs: seq<seq<Line>>, str: string, color: Color, buf: string, l: Line)
    requires UniformGroups(gs) && MergeState(p, gs, str, color, buf)
    requires color != l.color
    ensures MergeState(p, AddLine(gs, l), str + WrapColorTags(p, buf, color), l.color, l.text)
  {
    var gs' := AddLine(gs, l);
    assert gs' == gs + [[l]];
    assert gs'[..|gs'| - 1] == gs;
    assert [l][..0] == [];
    if |gs| > 0 {
      assert gs == gs[..|gs| - 1] + [gs[|gs| - 1]];
    }
  }

  lemma MergeFinish(p: Palette, gs: seq<seq<Line>>, str: string, color: Color, buf: string)
    requires UniformGroups(gs) && MergeState(p, gs, str, color, buf)
    ensures str + WrapColorTags(p, buf, color) == RenderGroups(p, gs)
  {
    if |gs| > 0 {
      assert gs[..|gs| - 1] + [gs[|gs| - 1]] == gs;
    }
  }

  lemma GroupsStep(xs: seq<Line>, i: nat)
    requires i < |xs|
    ensures Groups(xs[..i + 1]) == AddLine(Groups(xs[..i]), xs[i])
  {
    assert xs[..i + 1][..i] == xs[..i];
  }

  /**
   * `getHorizonString`'s loop: walk the lines, extend the pending text while the
   * colour stays the same, and flush it in its colour's tags when it changes.
   */
  method MergeByColor(p: Palette, lines: seq<Line>) returns (str: string)
    ensures str == Render(p, lines)
  {
    str := "";
    var isFirstStr := true;
    var currentColor := Default;
    var strForCurrentColor := "";
    ghost var pre := Prefixed(lines);
    var i := 0;
    while i < |lines|
      invariant 0 <= i <= |lines|
      invariant isFirstStr <==> i == 0
      invariant MergeState(p, Groups(pre[..i]), str, currentColor, strForCurrentColor)
    {
      var line := lines[i];
      var text := (if isFirstStr then "" else "<br>") + line.text;
      isFirstStr := false;
      assert pre[i] == Line(text, line.color);
      ghost var gs := Groups(pre[..i]);
      GroupsStep(pre, i);
      if currentColor == line.color {
        MergeSameColor(p, gs, str, currentColor, strForCurrentColor, pre[i]);
        strForCurrentColor := strForCurrentColor + text;
      } else {
        MergeNewColor(p, gs, str, currentColor, strForCurrentColor, pre[i]);
        str := str + WrapColorTags(p, strForCurrentColor, currentColor);
        strForCurrentColor := text;
        currentColor := line.color;
      }
      i := i + 1;
    }
    assert pre[..|lines|] == pre;
    MergeFinish(p, Groups(pre), str, currentColor, strForCurrentColor);
    str := str + WrapColorTags(p, strForCurrentColor, currentColor);
  }
}
