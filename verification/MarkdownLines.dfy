/** What a line can become when it goes on (src/lib/markdown.ts): the tests on a line m and on m + x. */
module MarkdownLines {
  import opened Prelude
  import opened MarkdownInline
  import opened MarkdownBlocks
  import opened MarkdownLaws

  // ----- Runs -----

  lemma {:induction false} SpaceGrows(m: string, x: string, k: nat)
    requires k <= |m| && SkipSpace(m, k) < |m|
    ensures SkipSpace(m + x, k) == SkipSpace(m, k)
    decreases |m| - k
  {
    assert (m + x)[k] == m[k];
    if IsSpace(m[k]) {
      SpaceGrows(m, x, k + 1);
    }
  }

  lemma {:induction false} RunGrows(m: string, x: string, k: nat, c: char)
    requires k <= |m|
    ensures RunEnd(m + x, k, c) >= RunEnd(m, k, c)
    ensures RunEnd(m, k, c) < |m| ==> RunEnd(m + x, k, c) == RunEnd(m, k, c)
    decreases |m| - k
  {
    if k < |m| {
      assert (m + x)[k] == m[k];
      if m[k] == c {
        RunGrows(m, x, k + 1, c);
      }
    }
  }

  lemma {:induction false} DigitsGrow(m: string, x: string, k: nat)
    requires k <= |m|
    ensures DigitsEnd(m + x, k) >= DigitsEnd(m, k)
    ensures DigitsEnd(m, k) < |m| ==> DigitsEnd(m + x, k) == DigitsEnd(m, k)
    decreases |m| - k
  {
    if k < |m| {
      assert (m + x)[k] == m[k];
      if '0' <= m[k] <= '9' {
        DigitsGrow(m, x, k + 1);
      }
    }
  }

  /** The line's own text has begun: what comes later does not move its beginning. */
  lemma StartGrows(m: string, x: string)
    requires !Blank(m)
    ensures !Blank(m + x) && SkipSpace(m + x, 0) == SkipSpace(m, 0) < |m|
    ensures Start(m + x) == Start(m) && (m + x)[SkipSpace(m, 0)] == m[SkipSpace(m, 0)]
  {
    SpaceGrows(m, x, 0);
  }

  lemma StartRunGrows(m: string, x: string)
    requires Start(m).Some?
    ensures Start(m + x) == Start(m) && StartRun(m + x) >= StartRun(m)
    ensures StartRun(m) < |m| ==> StartRun(m + x) == StartRun(m) && (m + x)[StartRun(m)] == m[StartRun(m)]
  {
    StartGrows(m, x);
    RunGrows(m, x, Start(m).value, m[Start(m).value]);
  }

  // ----- Which tests a longer line passes -----

  lemma FenceGrows(m: string, x: string)
    requires IsFenceRun(m)
    ensures IsFenceRun(m + x)
  {
    StartGrows(m, x);
    StartRunGrows(m, x);
  }

  lemma HeadingGrows(m: string, x: string)
    requires IsHeadingRun(m)
    ensures IsHeadingRun(m + x)
  {
    StartGrows(m, x);
    StartRunGrows(m, x);
  }

  lemma QuoteGrows(m: string, x: string)
    requires !Blank(m)
    ensures IsQuote(m + x) == IsQuote(m)
  {
    StartGrows(m, x);
  }

  lemma MarkerGrows(m: string, x: string, ordered: bool)
    requires !Blank(m) && MarkerEnd(m, ordered).Some?
    ensures MarkerEnd(m + x, ordered) == MarkerEnd(m, ordered)
  {
    StartGrows(m, x);
    if ordered {
      DigitsGrow(m, x, Start(m).value);
    }
  }

  lemma ItemGrows(m: string, x: string, ordered: bool)
    requires IsItem(m, ordered)
    ensures IsItem(m + x, ordered)
  {
    StartNotBlank(m);
    MarkerGrows(m, x, ordered);
    assert (m + x)[MarkerEnd(m, ordered).value] == m[MarkerEnd(m, ordered).value];
  }

  /** The line ends inside or right after the marker of an item. */
  predicate IsUnfinishedMarker(m: string, ordered: bool) {
    && Start(m).Some?
    && (MarkerEnd(m, ordered) == Some(|m|)
        || (ordered && Start(m).value < DigitsEnd(m, Start(m).value) == |m|))
  }

  lemma ItemOnlyFromMarker(m: string, x: string, ordered: bool)
    requires !Blank(m) && !IsItem(m, ordered) && !IsUnfinishedMarker(m, ordered)
    ensures !IsItem(m + x, ordered)
  {
    StartGrows(m, x);
    if MarkerEnd(m, ordered).Some? {
      MarkerGrows(m, x, ordered);
      assert (m + x)[MarkerEnd(m, ordered).value] == m[MarkerEnd(m, ordered).value];
    } else if Start(m).Some? && ordered {
      NoMarker(m, x);
    }
  }

  lemma NoMarker(m: string, x: string)
    requires Start(m).Some? && MarkerEnd(m, true).None? && !IsUnfinishedMarker(m, true)
    ensures MarkerEnd(m + x, true).None?
  {
    StartGrows(m, x);
    var at := Start(m).value;
    DigitsGrow(m, x, at);
    var d := DigitsEnd(m, at);
    if d < |m| {
      assert (m + x)[d] == m[d];
    }
  }

  /** Outside an item, a line that is not indented far enough will not be. */
  lemma ContinuationGrows(m: string, x: string)
    requires !Blank(m) && !IsContinuation(m)
    ensures !IsContinuation(m + x)
  {
    StartGrows(m, x);
    if SkipSpace(m, 0) < 4 {
    } else {
      FarInIsNoItem(m);
    }
  }

  lemma FarInIsNoItem(m: string)
    requires SkipSpace(m, 0) >= 4
    ensures !IsItem(m, true) && !IsItem(m, false)
  {
  }

  /** A line that is no paragraph text, nor a rule, never becomes paragraph text. */
  lemma ParagraphOnlyFromRule(m: string, x: string)
    requires !Blank(m) && !IsParagraphLine(m) && !IsRule(m)
    ensures !IsParagraphLine(m + x)
  {
    StartGrows(m, x);
    if IsFenceRun(m) {
      FenceGrows(m, x);
    } else if IsHeadingRun(m) {
      HeadingGrows(m, x);
    } else if IsQuote(m) {
      QuoteGrows(m, x);
    } else if IsItem(m, false) {
      ItemGrows(m, x, false);
    } else {
      ItemGrows(m, x, true);
    }
  }

  // ----- Ways to go on -----

  /** What makes an item of an unfinished marker. */
  function MarkerRest(m: string, ordered: bool): string {
    if MarkerEnd(m, ordered).Some? then " " else ". "
  }

  lemma MarkerBecomesItem(m: string, ordered: bool)
    requires IsUnfinishedMarker(m, ordered)
    ensures IsItem(m + MarkerRest(m, ordered), ordered)
  {
    StartNotBlank(m);
    var x := MarkerRest(m, ordered);
    StartGrows(m, x);
    if MarkerEnd(m, ordered).Some? {
      MarkerGrows(m, x, ordered);
      assert (m + x)[|m|] == ' ';
    } else {
      DigitsThenDot(m, x);
    }
  }

  lemma DigitsThenDot(m: string, x: string)
    requires Start(m).Some? && Start(m).value < DigitsEnd(m, Start(m).value) == |m| && x == ". "
    ensures IsItem(m + x, true)
  {
    StartNotBlank(m);
    StartGrows(m, x);
    var at := Start(m).value;
    DigitsToEnd(m, x, at);
    assert (m + x)[|m|] == '.' && (m + x)[|m| + 1] == ' ';
  }

  lemma {:induction false} DigitsToEnd(m: string, x: string, k: nat)
    requires k <= |m| && DigitsEnd(m, k) == |m| && x != "" && x[0] == '.'
    ensures DigitsEnd(m + x, k) == |m|
    decreases |m| - k
  {
    if k < |m| {
      assert (m + x)[k] == m[k];
      DigitsToEnd(m, x, k + 1);
    } else {
      assert (m + x)[k] == '.';
    }
  }

  /** A rule that goes on with a word is paragraph text. */
  lemma RuleBecomesParagraph(m: string, w: string)
    requires IsRule(m) && w != "" && w[0] == 'a'
    ensures IsParagraphLine(m + (" " + w))
  {
    StartNotBlank(m);
    var x := " " + w;
    var line, at := m + x, Start(m).value;
    StartGrows(m, x);
    RunToEnd(m, x, at, m[at]);
    var run := StartRun(m);
    assert StartRun(line) == run;
    assert line[run..] == m[run..] + x;
    WordNotBlank(m[run..] + " ", w);
    assert m[run..] + " " + w == m[run..] + x;
    RunAll(m, at, m[at]);
    assert line[at + 1] == m[at];
    assert DigitsEnd(line, at) == at;
  }

  lemma {:induction false} RunToEnd(m: string, x: string, k: nat, c: char)
    requires k <= |m| && x != "" && x[0] == ' ' && c != ' '
    ensures RunEnd(m + x, k, c) == RunEnd(m, k, c)
    decreases |m| - k
  {
    if k < |m| {
      assert (m + x)[k] == m[k];
      if m[k] == c {
        RunToEnd(m, x, k + 1, c);
      }
    } else {
      assert (m + x)[k] == ' ';
    }
  }

  lemma {:induction false} RunAll(m: string, k: nat, c: char)
    requires k <= |m|
    ensures forall j :: k <= j < RunEnd(m, k, c) ==> m[j] == c
    decreases |m| - k
  {
    if k < |m| && m[k] == c {
      RunAll(m, k + 1, c);
    }
  }

  lemma {:induction false} WordNotBlank(s: string, w: string)
    requires w != "" && !IsSpace(w[0])
    ensures !Blank(s + w)
  {
    WordStops(s, w, 0);
  }

  lemma {:induction false} WordStops(s: string, w: string, k: nat)
    requires w != "" && !IsSpace(w[0]) && k <= |s|
    ensures SkipSpace(s + w, k) <= |s|
    decreases |s| - k
  {
    if k < |s| {
      WordStops(s, w, k + 1);
    } else {
      assert (s + w)[k] == w[0];
    }
  }

  // ----- Counting cells -----

  function Bars(s: string): nat {
    if s == "" then 0 else (if s[0] == '|' then 1 else 0) + Bars(s[1..])
  }

  lemma {:induction false} BarsConcat(a: string, b: string)
    ensures Bars(a + b) == Bars(a) + Bars(b)
  {
    if a == "" {
      assert a + b == b;
    } else {
      assert (a + b)[0] == a[0] && (a + b)[1..] == a[1..] + b;
      BarsConcat(a[1..], b);
    }
  }

  lemma {:induction false} CellsAreBars(s: string)
    ensures |Split(s, '|')| == Bars(s) + 1
  {
    if s != "" {
      CellsAreBars(s[1..]);
    }
  }

  lemma {:induction false} NoBarInSpace(s: string, k: nat)
    requires k <= SkipSpace(s, 0)
    ensures Bars(s[k..]) == Bars(s)
    decreases k
  {
    if k > 0 {
      NoBarInSpace(s, k - 1);
      SpaceBefore(s, 0, k - 1);
      assert s[k - 1..][1..] == s[k..] && s[k - 1..][0] == s[k - 1];
    } else {
      assert s[0..] == s;
    }
  }

  lemma {:induction false} SpaceBefore(s: string, from: nat, k: nat)
    requires from <= k < |s| && k < SkipSpace(s, from)
    ensures IsSpace(s[k])
    decreases k - from
  {
    if from < k {
      SpaceBefore(s, from + 1, k);
    }
  }

  /** A text without its first character, if that is a bar. */
  function WithoutFirstBar(t: string): string {
    if t != "" && t[0] == '|' then t[1..] else t
  }

  function WithoutLastBar(t: string): string {
    if t != "" && t[|t| - 1] == '|' then t[..|t| - 1] else t
  }

  /** A trimmed row without its outer bars. */
  function Inner(t: string): string {
    WithoutLastBar(WithoutFirstBar(t))
  }

  lemma RowIsInner(row: string)
    ensures |SplitRow(row)| == Bars(Inner(Trim(row))) + 1
  {
    CellsAreBars(Inner(Trim(row)));
  }

  lemma LastBar(s: string)
    requires s != ""
    ensures Bars(s) == Bars(s[..|s| - 1]) + if s[|s| - 1] == '|' then 1 else 0
  {
    var last := s[|s| - 1..];
    assert s == s[..|s| - 1] + last;
    BarsConcat(s[..|s| - 1], last);
    assert last[1..] == "";
    assert Bars(last) == if s[|s| - 1] == '|' then 1 else 0;
  }

  lemma FirstBar(s: string)
    requires s != ""
    ensures Bars(s[1..]) == Bars(s) - if s[0] == '|' then 1 else 0
  {
  }

  lemma BarsWithoutFirst(t: string)
    requires t != ""
    ensures Bars(WithoutFirstBar(t)) == Bars(t) - if t[0] == '|' then 1 else 0
  {
    FirstBar(t);
  }

  lemma BarsWithoutLast(t: string)
    requires t != ""
    ensures Bars(WithoutLastBar(t)) == Bars(t) - if t[|t| - 1] == '|' then 1 else 0
  {
    LastBar(t);
  }

  lemma WithoutFirstKeepsLast(a: string, y: string)
    requires a != "" && y != ""
    ensures var left := WithoutFirstBar(a + y); left != "" && left[|left| - 1] == y[|y| - 1]
  {
  }

  lemma InnerBarsOf(a: string, y: string)
    requires a != "" && y != ""
    ensures Bars(Inner(a + y))
            == Bars(a) - (if a[0] == '|' then 1 else 0) + Bars(y) - (if y[|y| - 1] == '|' then 1 else 0)
  {
    BarsConcat(a, y);
    BarsWithoutFirst(a + y);
    WithoutFirstKeepsLast(a, y);
    BarsWithoutLast(WithoutFirstBar(a + y));
  }

  /** The bars of a begun row that will separate cells, whatever comes. */
  function InnerBars(m: string): int
    requires !Blank(m)
  {
    Bars(m) - if m[SkipSpace(m, 0)] == '|' then 1 else 0
  }

  lemma TrimmedRow(m: string, y: string)
    requires !Blank(m) && y != "" && !IsSpace(y[|y| - 1])
    ensures Trim(m + y) == m[SkipSpace(m, 0)..] + y
  {
    StartGrows(m, y);
    var at := SkipSpace(m, 0);
    var t := m[at..] + y;
    assert (m + y)[at..] == t;
    assert t[|t| - 1] == y[|y| - 1];
  }

  /** How many cells a begun row has when it goes on with y. */
  lemma RowCells(m: string, y: string)
    requires !Blank(m) && y != "" && !IsSpace(y[|y| - 1])
    ensures |SplitRow(m + y)| == InnerBars(m) + Bars(y) + if y[|y| - 1] == '|' then 0 else 1
  {
    TrimmedRow(m, y);
    RowIsInner(m + y);
    var at := SkipSpace(m, 0);
    NoBarInSpace(m, at);
    InnerBarsOf(m[at..], y);
  }

  lemma DashCells(m: string)
    requires !Blank(m)
    ensures |SplitRow(m + "-")| == InnerBars(m) + 1
  {
    var y := "-";
    assert y[1..] == "";
    RowCells(m, y);
  }

  /** A dash and so many further cells. */
  function MoreCells(r: nat): (y: string)
    ensures y != "" && y[|y| - 1] == '-' && forall i :: 0 <= i < |y| ==> y[i] != '\n'
  {
    if r == 0 then "-" else "-|" + MoreCells(r - 1)
  }

  lemma {:induction false} MoreCellsBars(r: nat)
    ensures Bars(MoreCells(r)) == r && OnlySeparators(MoreCells(r)) && Contains(MoreCells(r), '-')
  {
    var y := MoreCells(r);
    if r == 0 {
      assert y[1..] == "";
    } else {
      MoreCellsBars(r - 1);
      assert y[1..][1..] == MoreCells(r - 1) && y[1..][0] == '|' && y[0] == '-';
    }
  }

  lemma EnoughCells(m: string, r: nat)
    requires !Blank(m)
    ensures |SplitRow(m + MoreCells(r))| == |SplitRow(m + "-")| + r
  {
    MoreCellsBars(r);
    RowCells(m, MoreCells(r));
    DashCells(m);
  }

  lemma NeverFewerCells(m: string, y: string)
    requires !Blank(m) && y != "" && !IsSpace(y[|y| - 1])
    ensures |SplitRow(m + y)| >= |SplitRow(m + "-")|
  {
    RowCells(m, y);
    DashCells(m);
    LastBar(y);
  }

  /** Only white space follows. */
  predicate AllSpace(s: string) {
    s == "" || (IsSpace(s[|s| - 1]) && AllSpace(s[..|s| - 1]))
  }

  /** x without the white space at its end. */
  lemma {:induction false} TrimmedEnd(m: string, x: string)
    ensures AllSpace(x) ==> TrimEnd(m + x) == TrimEnd(m)
    ensures !AllSpace(x) ==> exists k: nat :: k < |x| && !IsSpace(x[k]) && TrimEnd(m + x) == TrimEnd(m + x[..k + 1])
  {
    if x == "" {
      assert m + x == m;
    } else {
      var n := |x| - 1;
      assert (m + x)[|m + x| - 1] == x[n] && (m + x)[..|m + x| - 1] == m + x[..n];
      if IsSpace(x[n]) {
        TrimmedEnd(m, x[..n]);
        if !AllSpace(x) {
          var k: nat :| k < n && !IsSpace(x[..n][k]) && TrimEnd(m + x[..n]) == TrimEnd(m + x[..n][..k + 1]);
          assert x[..n][..k + 1] == x[..k + 1];
        }
      } else {
        assert x[..n + 1] == x;
      }
    }
  }

  lemma TrimFromStart(m: string, x: string)
    requires !Blank(m)
    ensures Trim(m + x) == TrimEnd(m[SkipSpace(m, 0)..] + x)
  {
    StartGrows(m, x);
    assert (m + x)[SkipSpace(m, 0)..] == m[SkipSpace(m, 0)..] + x;
  }

  lemma SameTrim(m: string, x: string, y: string)
    requires !Blank(m) && TrimEnd(m[SkipSpace(m, 0)..] + x) == TrimEnd(m[SkipSpace(m, 0)..] + y)
    ensures SplitRow(m + x) == SplitRow(m + y)
  {
    TrimFromStart(m, x);
    TrimFromStart(m, y);
  }

  lemma {:induction false} OnlySeparatorsConcat(a: string, b: string)
    ensures OnlySeparators(a + b) <==> OnlySeparators(a) && OnlySeparators(b)
    ensures Contains(a + b, '-') <==> Contains(a, '-') || Contains(b, '-')
  {
    if a == "" {
      assert a + b == b;
    } else {
      assert (a + b)[0] == a[0] && (a + b)[1..] == a[1..] + b;
      OnlySeparatorsConcat(a[1..], b);
    }
  }

  lemma {:induction false} SpaceHasNoDash(x: string)
    requires AllSpace(x)
    ensures !Contains(x, '-')
  {
    if x != "" {
      var n := |x| - 1;
      SpaceHasNoDash(x[..n]);
      assert x == x[..n] + [x[n]];
      OnlySeparatorsConcat(x[..n], [x[n]]);
      assert [x[n]][1..] == "";
    }
  }

  /**
   * A line that becomes the separator of a row of so many cells has only separator characters and not too many cells.
   */
  lemma SeparatorGrows(m: string, x: string, cells: nat)
    requires !Blank(m) && IsSeparator(m + x) && |SplitRow(m + x)| == cells
    requires !(IsSeparator(m) && |SplitRow(m)| == cells)
    ensures OnlySeparators(m) && |SplitRow(m + "-")| <= cells
  {
    OnlySeparatorsConcat(m, x);
    var at := SkipSpace(m, 0);
    TrimmedEnd(m[at..], x);
    if AllSpace(x) {
      SpaceHasNoDash(x);
      assert m[at..] + "" == m[at..] && m + "" == m;
      SameTrim(m, x, "");
      assert false;
    } else {
      var k: nat :| k < |x| && !IsSpace(x[k]) && TrimEnd(m[at..] + x) == TrimEnd(m[at..] + x[..k + 1]);
      SameTrim(m, x, x[..k + 1]);
      NeverFewerCells(m, x[..k + 1]);
    }
  }

  /** And every such line can become one. */
  lemma SeparatorReached(m: string, cells: nat) returns (x: string)
    requires !Blank(m) && OnlySeparators(m) && |SplitRow(m + "-")| <= cells
    ensures IsSeparator(m + x) && |SplitRow(m + x)| == cells && forall i :: 0 <= i < |x| ==> x[i] != '\n'
  {
    var r := cells - |SplitRow(m + "-")|;
    x := MoreCells(r);
    MoreCellsBars(r);
    OnlySeparatorsConcat(m, x);
    EnoughCells(m, r);
  }
}
