/**
  `visualize_infestation` of src/ratpack/infest.py: a count, then one line
  per walk step that names a directory called `burrow` and one line per file
  that passes `check_path`.
 */
module Report {
  import opened Wrappers
  import opened Strings
  import opened FileTree
  import opened Census

  const CLEAN_REPORT: string := "No rats found \n Directory is clean \n"
  const TEXT_HEADING: string := "Rat Infestation Report\n"
  const ALERT_HEADING: string := "RAT INFESTATION ALERT \n"

  /** The picture that stands for every rat file outside the "text" format. */
  const GLYPH: string := "ᘛ⁐̤ᕐᐷ"

  /** The heading line: "text" selects the report, any other format the alert. */
  function Heading(format: string): string
  {
    if format == "text" then TEXT_HEADING else ALERT_HEADING
  }

  /** What a file line shows: the file's name in the "text" format, the glyph otherwise. */
  function Label(format: string, file: string): string
  {
    if format == "text" then file else GLYPH
  }

  /**
    One output line before rendering: a directory heading or a file line, at
    `depth` dashes of three.  The two formats lay out the same lines and
    differ only in how a file line is shown.
   */
  datatype Line = Line(depth: nat, text: string, isFile: bool)

  /** `depth * '---' + <text or label> + '\n'`. */
  function Piece(format: string, l: Line): string
  {
    Dashes(l.depth) + (if l.isFile then Label(format, l.text) else l.text) + "\n"
  }

  /** The lines, rendered one after the other. */
  function Render(format: string, lines: seq<Line>): string
  {
    RenderFirst(format, lines, |lines|)
  }

  /** The first `n` lines, rendered one after the other. */
  function RenderFirst(format: string, lines: seq<Line>, n: nat): string
    requires n <= |lines|
  {
    if n == 0 then [] else RenderFirst(format, lines, n - 1) + Piece(format, lines[n - 1])
  }

  /** Lines appended after the first `n` do not change how those `n` render. */
  lemma {:induction false} RenderFirstPrefix(format: string, a: seq<Line>, b: seq<Line>, n: nat)
    requires n <= |a|
    ensures RenderFirst(format, a + b, n) == RenderFirst(format, a, n)
  {
    if n > 0 {
      RenderFirstPrefix(format, a, b, n - 1);
      assert (a + b)[n - 1] == a[n - 1];
    }
  }

  /** Rendering `a + b` renders all of `a`, then the first `k` lines of `b`. */
  lemma {:induction false} RenderFirstAppend(format: string, a: seq<Line>, b: seq<Line>, k: nat)
    requires k <= |b|
    ensures RenderFirst(format, a + b, |a| + k) == Render(format, a) + RenderFirst(format, b, k)
  {
    if k == 0 {
      RenderFirstPrefix(format, a, b, |a|);
    } else {
      RenderFirstAppend(format, a, b, k - 1);
      var y := Piece(format, b[k - 1]);
      assert (a + b)[|a| + k - 1] == b[k - 1];
      assert RenderFirst(format, a + b, |a| + k) == RenderFirst(format, a + b, |a| + k - 1) + y;
      Extend(RenderFirst(format, a + b, |a| + k - 1), Render(format, a), RenderFirst(format, b, k - 1), y, RenderFirst(format, b, k));
    }
  }

  lemma RenderAppend(format: string, a: seq<Line>, b: seq<Line>)
    ensures Render(format, a + b) == Render(format, a) + Render(format, b)
  {
    RenderFirstAppend(format, a, b, |b|);
  }

  lemma RenderSnoc(format: string, lines: seq<Line>, l: Line)
    ensures Render(format, lines + [l]) == Render(format, lines) + Piece(format, l)
  {
    RenderFirstAppend(format, lines, [l], 1);
  }

  lemma RenderOne(format: string, ls: seq<Line>, present: bool, l: Line)
    requires ls == if present then [l] else []
    ensures Render(format, ls) == if present then Piece(format, l) else ""
  {
    if present {
      RenderSnoc(format, [], l);
      assert [] + [l] == [l];
    }
  }

  lemma Extend<T>(x: seq<T>, head: seq<T>, r: seq<T>, step: seq<T>, r': seq<T>)
    requires x == head + r && r' == r + step
    ensures x + step == head + r'
  {
  }

  /**
    The test a file line must pass: `check_path` on `<directory>/<file>`, the
    file's name joined onto the directory asked for (not onto the walk step's
    root), which counts as a directory exactly when `directory` holds a
    sub-directory of that name.
   */
  function Keep(directory: string, top: seq<Entry>): string -> bool
  {
    f => CheckPath(Join(directory, f), IsDirNamed(top, f))
  }

  /** The file lines among the first `m` files of a walk step at depth `depth`: those that `keep` admits. */
  function FileLines(keep: string -> bool, depth: nat, files: seq<string>, m: nat): (ls: seq<Line>)
    requires m <= |files|
    ensures |ls| <= m
    ensures |ls| == m <==> forall q | 0 <= q < m :: keep(files[q])
  {
    if m == 0 then []
    else FileLines(keep, depth, files, m - 1) + (if keep(files[m - 1]) then [Line(depth, files[m - 1], true)] else [])
  }

  /** A line a report may hold: a heading for a directory named `burrow`, or a file line that `keep` admits. */
  predicate Shown(keep: string -> bool, l: Line)
  {
    if l.isFile then keep(l.text) else l.text == "burrow"
  }

  /** Every line of `ls` is one a report may hold. */
  predicate AllShown(keep: string -> bool, ls: seq<Line>)
  {
    forall i | 0 <= i < |ls| :: Shown(keep, ls[i])
  }

  lemma AllShownAppend(keep: string -> bool, a: seq<Line>, b: seq<Line>)
    requires AllShown(keep, a) && AllShown(keep, b)
    ensures AllShown(keep, a + b)
  {
    forall i | 0 <= i < |a + b|
      ensures Shown(keep, (a + b)[i])
    {
      if i < |a| {
        assert (a + b)[i] == a[i];
      } else {
        assert (a + b)[i] == b[i - |a|];
      }
    }
  }

  /** The file lines are file lines at the step's depth, each for a file that `keep` admits. */
  lemma {:induction false} FileLinesShape(keep: string -> bool, depth: nat, files: seq<string>, m: nat)
    requires m <= |files|
    ensures forall i | 0 <= i < |FileLines(keep, depth, files, m)| ::
      FileLines(keep, depth, files, m)[i].isFile && FileLines(keep, depth, files, m)[i].depth == depth
    ensures AllShown(keep, FileLines(keep, depth, files, m))
  {
    if m > 0 {
      FileLinesShape(keep, depth, files, m - 1);
      var prev := FileLines(keep, depth, files, m - 1);
      var extra := if keep(files[m - 1]) then [Line(depth, files[m - 1], true)] else [];
      var ls := FileLines(keep, depth, files, m);
      assert ls == prev + extra;
      forall i | 0 <= i < |ls|
        ensures ls[i].isFile && ls[i].depth == depth && Shown(keep, ls[i])
      {
        if i < |prev| {
          assert ls[i] == prev[i];
        } else {
          assert ls[i] == Line(depth, files[m - 1], true);
        }
      }
    }
  }

  /**
    The lines of one walk step.  `check_path(root)` is asked first, but a
    walk step is always a directory, for which it answers None, so only a
    step named exactly `burrow` gets a heading line; with `include_burrows`
    off such a step shows nothing else.
   */
  function StepLines(keep: string -> bool, includeBurrows: bool, v: Visit): seq<Line>
  {
    HeadingLines(v) + BodyLines(keep, includeBurrows, v)
  }

  function HeadingLines(v: Visit): seq<Line>
  {
    var fn := Basename(v.root);
    if CheckPath(v.root, true) || fn == "burrow" then [Line(Components(v.root) - 1, fn, false)] else []
  }

  function BodyLines(keep: string -> bool, includeBurrows: bool, v: Visit): seq<Line>
  {
    if Basename(v.root) == "burrow" && !includeBurrows then [] else FileLines(keep, Components(v.root), v.files, |v.files|)
  }

  /** `StepLines` as a function of the walk step alone. */
  function Steps(keep: string -> bool, includeBurrows: bool): Visit -> seq<Line>
  {
    v => StepLines(keep, includeBurrows, v)
  }

  /** The lines of the first `n` walk steps, `step` giving the lines of each. */
  function Layout(step: Visit -> seq<Line>, w: seq<Visit>, n: nat): seq<Line>
    requires n <= |w|
  {
    if n == 0 then [] else Layout(step, w, n - 1) + step(w[n - 1])
  }

  lemma FileStep(keep: string -> bool, depth: nat, files: seq<string>, j: nat)
    requires j < |files|
    ensures FileLines(keep, depth, files, j + 1)
      == FileLines(keep, depth, files, j) + if keep(files[j]) then [Line(depth, files[j], true)] else []
  {
  }

  /** The report text grows by the line of the next file exactly when `keep` admits that file. */
  lemma FileText(keep: string -> bool, format: string, depth: nat, files: seq<string>, j: nat, text: string, text': string)
    requires j < |files|
    requires text == Render(format, FileLines(keep, depth, files, j))
    requires text' == if keep(files[j]) then text + Piece(format, Line(depth, files[j], true)) else text
    ensures text' == Render(format, FileLines(keep, depth, files, j + 1))
  {
    var sofar := FileLines(keep, depth, files, j);
    FileStep(keep, depth, files, j);
    if keep(files[j]) {
      RenderSnoc(format, sofar, Line(depth, files[j], true));
    } else {
      assert sofar + [] == sofar;
    }
  }

  /** The text one walk step adds to the report. */
  lemma StepText(keep: string -> bool, format: string, includeBurrows: bool, v: Visit, headingText: string, body: string)
    requires headingText == if CheckPath(v.root, true) || Basename(v.root) == "burrow" then Piece(format, Line(Components(v.root) - 1, Basename(v.root), false)) else ""
    requires body == if Basename(v.root) == "burrow" && !includeBurrows then "" else Render(format, FileLines(keep, Components(v.root), v.files, |v.files|))
    ensures Render(format, StepLines(keep, includeBurrows, v)) == headingText + body
  {
    RenderAppend(format, HeadingLines(v), BodyLines(keep, includeBurrows, v));
    RenderOne(format, HeadingLines(v), CheckPath(v.root, true) || Basename(v.root) == "burrow", Line(Components(v.root) - 1, Basename(v.root), false));
  }

  lemma LayoutRender(keep: string -> bool, format: string, includeBurrows: bool, w: seq<Visit>, i: nat)
    requires i < |w|
    ensures Render(format, Layout(Steps(keep, includeBurrows), w, i + 1))
      == Render(format, Layout(Steps(keep, includeBurrows), w, i)) + Render(format, StepLines(keep, includeBurrows, w[i]))
  {
    RenderAppend(format, Layout(Steps(keep, includeBurrows), w, i), StepLines(keep, includeBurrows, w[i]));
  }

  lemma ReportGrows(keep: string -> bool, format: string, includeBurrows: bool, w: seq<Visit>, i: nat,
                    head: string, visualized: string, step: string)
    requires i < |w|
    requires visualized == head + Render(format, Layout(Steps(keep, includeBurrows), w, i))
    requires step == Render(format, StepLines(keep, includeBurrows, w[i]))
    ensures visualized + step == head + Render(format, Layout(Steps(keep, includeBurrows), w, i + 1))
  {
    LayoutRender(keep, format, includeBurrows, w, i);
    Extend(visualized, head, Render(format, Layout(Steps(keep, includeBurrows), w, i)),
           step, Render(format, Layout(Steps(keep, includeBurrows), w, i + 1)));
  }

  /** `f"Total rats: {total} \n"`. */
  function TotalLine(total: nat): string
  {
    "Total rats: " + Decimal(total) + " \n"
  }

  /** The report for `total` rats over the walk `w`: the clean message when there are none, else the heading, the total and the lines. */
  function ReportText(keep: string -> bool, total: nat, format: string, includeBurrows: bool, w: seq<Visit>): string
  {
    if total == 0 then CLEAN_REPORT
    else Heading(format) + TotalLine(total) + Render(format, Layout(Steps(keep, includeBurrows), w, |w|))
  }

  /** What `visualize_infestation(directory, output_format, include_burrows)` returns for the listing `top` of `directory`. */
  function Visualization(directory: string, top: seq<Entry>, format: string, includeBurrows: bool): (r: string)
    ensures r == CLEAN_REPORT <==> CountRats(top, includeBurrows, None).totalRats == 0
  {
    CleanExactlyWhenNoRats(Keep(directory, top), CountRats(top, includeBurrows, None).totalRats, format, includeBurrows, Walk(directory, [], top));
    ReportText(Keep(directory, top), CountRats(top, includeBurrows, None).totalRats, format, includeBurrows, Walk(directory, [], top))
  }

  /**
    The clean message comes back exactly when no rat is counted; otherwise the
    report opens with its heading and the total.
   */
  lemma CleanExactlyWhenNoRats(keep: string -> bool, total: nat, format: string, includeBurrows: bool, w: seq<Visit>)
    ensures var r := ReportText(keep, total, format, includeBurrows, w);
      && (r == CLEAN_REPORT <==> total == 0)
      && (total > 0 ==> StartsWith(r, Heading(format) + TotalLine(total)))
  {
    var r := ReportText(keep, total, format, includeBurrows, w);
    if total > 0 {
      var h := Heading(format) + TotalLine(total);
      assert r == h + Render(format, Layout(Steps(keep, includeBurrows), w, |w|));
      assert r[..|h|] == h;
      assert r[0] == h[0] != CLEAN_REPORT[0];
    }
  }

  /** At most one heading line, for a directory named exactly `burrow`, one level above the step's files. */
  lemma HeadingShape(v: Visit)
    ensures var h := HeadingLines(v);
      && |h| <= 1
      && (|h| == 1 <==> Basename(v.root) == "burrow")
      && (|h| == 1 ==> h[0] == Line(Components(v.root) - 1, "burrow", false))
  {
    CheckPathRejectsDirectories(v.root);
  }

  /**
    The lines of a step are at most one heading line, first, for a directory
    named exactly `burrow` (so never for the "rat burrow" directories
    `create_rats` makes), then file lines one level deeper than that heading,
    none of them for a `burrow` step when `include_burrows` is off.
   */
  lemma StepShape(keep: string -> bool, includeBurrows: bool, v: Visit)
    ensures var ls := StepLines(keep, includeBurrows, v);
      && (forall i | 0 <= i < |ls| :: !ls[i].isFile ==> i == 0 && ls[i].text == "burrow" && ls[i].depth + 1 == Components(v.root))
      && (forall i | 0 <= i < |ls| :: ls[i].isFile ==> ls[i].depth == Components(v.root))
      && AllShown(keep, ls)
      && (Basename(v.root) == "burrow" && !includeBurrows ==> forall i | 0 <= i < |ls| :: !ls[i].isFile)
  {
    var depth := Components(v.root);
    var h := HeadingLines(v);
    var b := BodyLines(keep, includeBurrows, v);
    HeadingShape(v);
    if !(Basename(v.root) == "burrow" && !includeBurrows) {
      FileLinesShape(keep, depth, v.files, |v.files|);
    }
    assert AllShown(keep, h);
    AllShownAppend(keep, h, b);
    var ls := h + b;
    forall i | 0 <= i < |ls|
      ensures !ls[i].isFile ==> i == 0 && ls[i].text == "burrow" && ls[i].depth + 1 == depth
      ensures ls[i].isFile ==> ls[i].depth == depth
    {
      if i < |h| {
        assert ls[i] == h[i];
      } else {
        assert ls[i] == b[i - |h|];
      }
    }
  }

  /** The lines of the first `n` steps are shown when the lines of every step are. */
  lemma {:induction false} LayoutShown(keep: string -> bool, step: Visit -> seq<Line>, w: seq<Visit>, n: nat)
    requires n <= |w|
    requires forall i | 0 <= i < |w| :: AllShown(keep, step(w[i]))
    ensures AllShown(keep, Layout(step, w, n))
  {
    if n > 0 {
      LayoutShown(keep, step, w, n - 1);
      AllShownAppend(keep, Layout(step, w, n - 1), step(w[n - 1]));
    }
  }

  lemma StepShown(keep: string -> bool, includeBurrows: bool, v: Visit)
    ensures AllShown(keep, StepLines(keep, includeBurrows, v))
  {
    StepShape(keep, includeBurrows, v);
  }

  /**
    Every line of a report is a `burrow` heading or a line for a file that
    passes `check_path` when joined onto the directory asked for.
   */
  lemma ReportShown(directory: string, top: seq<Entry>, includeBurrows: bool)
    ensures var w := Walk(directory, [], top);
      var ls := Layout(Steps(Keep(directory, top), includeBurrows), w, |w|);
      forall i | 0 <= i < |ls| ::
        if ls[i].isFile then CheckPath(Join(directory, ls[i].text), IsDirNamed(top, ls[i].text)) else ls[i].text == "burrow"
  {
    var w := Walk(directory, [], top);
    var keep := Keep(directory, top);
    forall i | 0 <= i < |w|
      ensures AllShown(keep, Steps(keep, includeBurrows)(w[i]))
    {
      StepShown(keep, includeBurrows, w[i]);
    }
    LayoutShown(keep, Steps(keep, includeBurrows), w, |w|);
  }

  /** Every file among the first `m` that `keep` admits gets its line, at the step's depth. */
  lemma {:induction false} FileLinesComplete(keep: string -> bool, depth: nat, files: seq<string>, m: nat, x: nat)
    requires x < m <= |files| && keep(files[x])
    ensures Line(depth, files[x], true) in FileLines(keep, depth, files, m)
  {
    if x < m - 1 {
      FileLinesComplete(keep, depth, files, m - 1, x);
    }
  }

  /**
    A walk step shows a line for every file of it that `keep` admits, one
    level below the step's heading, unless it is a `burrow` step skipped
    because `include_burrows` is off.
   */
  lemma StepLinesComplete(keep: string -> bool, includeBurrows: bool, v: Visit, x: nat)
    requires x < |v.files| && keep(v.files[x])
    requires !(Basename(v.root) == "burrow" && !includeBurrows)
    ensures Line(Components(v.root), v.files[x], true) in StepLines(keep, includeBurrows, v)
  {
    FileLinesComplete(keep, Components(v.root), v.files, |v.files|, x);
  }

  /** A line of one of the first `n` steps is a line of their layout. */
  lemma {:induction false} LayoutHas(step: Visit -> seq<Line>, w: seq<Visit>, n: nat, k: nat, l: Line)
    requires k < n <= |w| && l in step(w[k])
    ensures l in Layout(step, w, n)
  {
    if k < n - 1 {
      LayoutHas(step, w, n - 1, k, l);
    }
  }

  /**
    Every file of the tree, at any depth, that passes `check_path` joined
    onto `directory` gets its line in the report: the walk step `k` lists it,
    and unless that step is a `burrow` step skipped because `include_burrows`
    is off, the report holds the file's line at that step's depth.
   */
  lemma ReportComplete(directory: string, top: seq<Entry>, includeBurrows: bool, p: seq<string>) returns (k: nat)
    requires p in FileLocations(top) && CheckPath(Join(directory, p[|p| - 1]), IsDirNamed(top, p[|p| - 1]))
    ensures var w := Walk(directory, [], top);
      && k < |w| && Lists(w[k], [], p)
      && (!(Basename(w[k].root) == "burrow" && !includeBurrows) ==>
            Line(Components(w[k].root), p[|p| - 1], true) in Layout(Steps(Keep(directory, top), includeBurrows), w, |w|))
  {
    var w := Walk(directory, [], top);
    var keep := Keep(directory, top);
    k := WalkFinds(directory, [], top, p);
    if !(Basename(w[k].root) == "burrow" && !includeBurrows) {
      var f := p[|p| - 1];
      var x :| 0 <= x < |w[k].files| && w[k].files[x] == f;
      assert keep(f);
      StepLinesComplete(keep, includeBurrows, w[k], x);
      LayoutHas(Steps(keep, includeBurrows), w, |w|, k, Line(Components(w[k].root), f, true));
    }
  }

  /** The report text for the files of one walk step, appended one admitted file at a time. */
  method ShowFiles(keep: string -> bool, format: string, depth: nat, files: seq<string>) returns (text: string)
    ensures text == Render(format, FileLines(keep, depth, files, |files|))
  {
    text := "";
    var j := 0;
    while j < |files|
      invariant 0 <= j <= |files|
      invariant text == Render(format, FileLines(keep, depth, files, j))
    {
      var file := files[j];
      ghost var before := text;
      if keep(file) {
        text := text + Piece(format, Line(depth, file, true));
      }
      FileText(keep, format, depth, files, j, before, text);
      j := j + 1;
    }
  }

  /** The text one step of the walk adds: the `burrow` heading, then the file lines unless they are skipped. */
  method ShowStep(keep: string -> bool, format: string, includeBurrows: bool, v: Visit) returns (text: string)
    ensures text == Render(format, StepLines(keep, includeBurrows, v))
  {
    var depth := Components(v.root);
    var fn := Basename(v.root);
    var headingText := "";
    if CheckPath(v.root, true) || fn == "burrow" {
      headingText := Piece(format, Line(depth - 1, fn, false));
    }
    var body := "";
    if !(fn == "burrow" && !includeBurrows) {
      body := ShowFiles(keep, format, depth, v.files);
    }
    StepText(keep, format, includeBurrows, v, headingText, body);
    text := headingText + body;
  }

  /** The lines of every walk step, appended to `head` one step after the other. */
  method ShowWalk(keep: string -> bool, format: string, includeBurrows: bool, w: seq<Visit>, head: string) returns (visualized: string)
    ensures visualized == head + Render(format, Layout(Steps(keep, includeBurrows), w, |w|))
  {
    visualized := head;
    var i := 0;
    while i < |w|
      invariant 0 <= i <= |w|
      invariant visualized == head + Render(format, Layout(Steps(keep, includeBurrows), w, i))
    {
      var step := ShowStep(keep, format, includeBurrows, w[i]);
      ReportGrows(keep, format, includeBurrows, w, i, head, visualized, step);
      visualized := visualized + step;
      i := i + 1;
    }
  }

  /**
    `visualize_infestation`: the count first, then the report accumulated
    across the walk, each file tested with `check_path` on the file's name
    joined onto `directory`.
   */
  method Visualize(directory: string, top: seq<Entry>, format: string, includeBurrows: bool) returns (visualized: string)
    ensures visualized == Visualization(directory, top, format, includeBurrows)
  {
    var ratCount := CountRats(top, includeBurrows, None);
    var w := Walk(directory, [], top);
    if ratCount.totalRats == 0 {
      return CLEAN_REPORT;
    }
    visualized := ShowWalk(Keep(directory, top), format, includeBurrows, w, Heading(format) + TotalLine(ratCount.totalRats));
  }
}
