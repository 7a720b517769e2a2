/** Exactly when an unfinished line can still change a finished block, and how (src/lib/markdown.ts). */
module MarkdownMidLine {
  import opened Prelude
  import opened MarkdownInline
  import opened MarkdownBlocks
  import opened MarkdownLaws
  import opened MarkdownModes
  import opened MarkdownLines
  import opened MarkdownWords
  import opened MarkdownStreaming

  // ----- The block goes on over the unfinished line -----

  lemma {:induction false} ScanFurther(a: seq<string>, b: seq<string>, i: nat, n: nat, p: string -> bool)
    requires Agree(a, b, i, n) && Scan(a, i, p) == n && |b| == n + 1 && p(b[n])
    ensures Scan(b, i, p) == n + 1
    decreases n - i
  {
    if i < n {
      AgreeAt(a, b, i, n, i);
      AgreeOnPart(a, b, i, n, i + 1, n);
      ScanFurther(a, b, i + 1, n, p);
    }
  }

  lemma ScanOver(a: seq<string>, b: seq<string>, i: nat, n: nat, p: string -> bool)
    requires Agree(a, b, i, n) && Scan(a, i, p) <= n && |b| == n + 1 && !p(b[n])
    ensures Scan(b, i, p) == Scan(a, i, p)
  {
    if Scan(a, i, p) < n {
      ScanAgainInside(a, b, i, n, p);
    } else {
      ScanAgain(a, b, i, n, p);
    }
  }

  lemma LastItem(b: seq<string>, n: nat, p: string -> bool, f: string -> seq<Inline>)
    requires |b| == n + 1 && p(b[n])
    ensures ListItems(b, n, p, f).next == n + 1 && |ListItems(b, n, p, f).items| == 1
  {
    assert ListItems(b, n + 1, p, f) == Items([], n + 1);
  }

  lemma {:induction false} OneItemMore(a: seq<string>, b: seq<string>, i: nat, n: nat, p: string -> bool,
      f: string -> seq<Inline>)
    requires Agree(a, b, i, n) && ListItems(a, i, p, f).next == n && |b| == n + 1 && p(b[n]) && !IsContinuation(b[n])
    ensures ListItems(b, i, p, f).next == n + 1
    ensures |ListItems(b, i, p, f).items| == |ListItems(a, i, p, f).items| + 1
    decreases n - i
  {
    if i == n {
      LastItem(b, n, p, f);
      assert ListItems(a, n, p, f) == Items([], n);
    } else {
      AgreeAt(a, b, i, n, i);
      AgreeOnPart(a, b, i, n, i + 1, n);
      var j := Scan(a, i + 1, IsContinuation);
      ScanOver(a, b, i + 1, n, IsContinuation);
      AgreeOnPart(a, b, i, n, j, n);
      OneItemMore(a, b, j, n, p, f);
    }
  }

  /** Two steps whose blocks differ. */
  predicate Differ(s: Step, t: Step) {
    |s.blocks| == 1 && |t.blocks| == 1 && s.blocks[0] != t.blocks[0]
  }

  lemma MoreRows(a: seq<string>, b: seq<string>, i: nat, headers: seq<seq<Inline>>, row: string -> seq<seq<Inline>>,
      s: Step, t: Step)
    requires i + 1 < |a| && i + 1 < |b| && s == TableStep(a, i, headers, row) && t == TableStep(b, i, headers, row)
    requires s.next == |b| - 1 && i + 2 <= |b| - 1 && Agree(a, b, i + 2, |b| - 1) && IsRow(b[|b| - 1])
    ensures t.next == |b| && Differ(s, t)
  {
    ScanFurther(a, b, i + 2, |b| - 1, IsRow);
  }

  lemma TableGrows(a: seq<string>, b: seq<string>, i: nat, cells: seq<string>, s: Step, t: Step)
    requires i + 1 < |a| && i + 1 < |b| && s == TableAt(a, i, cells) && t == TableAt(b, i, cells)
    requires s.next == |b| - 1 && i + 2 <= |b| - 1 && Agree(a, b, i + 2, |b| - 1) && IsRow(b[|b| - 1])
    ensures t.next == |b| && Differ(s, t)
  {
    MoreRows(a, b, i, Map(cells, Inlines), RowOf(|cells|), s, t);
  }

  /** A table made of the line above and the unfinished line. */
  lemma TableInstead(b: seq<string>, i: nat, cells: seq<string>, s: Step, t: Step)
    requires i + 2 == |b| && t == TableAt(b, i, cells) && |s.blocks| == 1 && !s.blocks[0].Table?
    ensures Differ(s, t) && t.next == |b|
  {
  }

  lemma ListsDiffer(a: seq<string>, b: seq<string>, i: nat, ordered: bool, p: string -> bool, f: string -> seq<Inline>,
      s: Step, t: Step)
    requires i < |a| && i + 1 < |b| && ListItems(a, i, p, f).next == |b| - 1 && Agree(a, b, i, |b| - 1)
    requires p(b[|b| - 1]) && !IsContinuation(b[|b| - 1])
    requires s == Step([List(ordered, ListItems(a, i, p, f).items)], ListItems(a, i, p, f).next)
    requires t == Step([List(ordered, ListItems(b, i, p, f).items)], ListItems(b, i, p, f).next)
    ensures t.next == |b| && Differ(s, t)
  {
    OneItemMore(a, b, i, |b| - 1, p, f);
  }

  lemma ListGrows(a: seq<string>, b: seq<string>, i: nat, ordered: bool, s: Step, t: Step)
    requires i < |a| && i + 1 < |b| && s == ListStep(a, i, ordered) && t == ListStep(b, i, ordered)
    requires s.next == |b| - 1 && Agree(a, b, i, |b| - 1)
    requires ItemTest(ordered)(b[|b| - 1]) && !IsContinuation(b[|b| - 1])
    ensures t.next == |b| && Differ(s, t)
  {
    ListsDiffer(a, b, i, ordered, ItemTest(ordered), ItemInlines(ordered), s, t);
  }

  lemma {:induction false} JoinLast(lines: seq<string>, m: string)
    requires lines != []
    ensures Join(lines + [m], " ") == Join(lines, " ") + (" " + m)
  {
    if |lines| == 1 {
      assert lines + [m] == [lines[0], m] && [lines[0], m][1..] == [m];
    } else {
      assert (lines + [m])[1..] == lines[1..] + [m];
      JoinLast(lines[1..], m);
    }
  }

  lemma JoinedDiffer(lines: seq<string>, m: string, n: nat)
    requires lines != [] && n > |Join(lines, " ")|
    ensures Inlines(Join(lines + [m + (" " + Repeat('a', n))], " ")) != Inlines(Join(lines, " "))
  {
    var s, w := Join(lines, " "), Repeat('a', n);
    JoinLast(lines, m + (" " + w));
    assert s + (" " + (m + (" " + w))) == s + (" " + m) + (" " + w) + "";
    WordDiffers(s, s + (" " + m), n, "");
  }

  lemma LongerSlice(a: seq<string>, b: seq<string>, i: nat)
    requires i < |b| && Agree(a, b, i, |b| - 1)
    ensures b[i..|b|] == a[i..|b| - 1] + [b[|b| - 1]]
  {
  }

  function ParagraphTo(lines: seq<string>, i: nat, e: nat): Step
    requires i < e <= |lines|
  {
    Step([Paragraph(Inlines(Join(lines[i..e], " ")))], e)
  }

  function ParagraphBy(lines: seq<string>, i: nat, p: string -> bool): Step
    requires i < |lines|
  {
    var e := Scan(lines, i, p);
    Step(if e > i then [Paragraph(Inlines(Join(lines[i..e], " ")))] else [], e)
  }

  lemma IsParagraphBy(lines: seq<string>, i: nat)
    requires i < |lines|
    ensures ParagraphStep(lines, i) == ParagraphBy(lines, i, IsParagraphLine)
  {
  }

  lemma ParagraphGrows(a: seq<string>, b: seq<string>, i: nat, p: string -> bool, s: Step, t: Step)
    requires i < |a| && i + 1 < |b| && s == ParagraphBy(a, i, p) && t == ParagraphBy(b, i, p)
    requires i < s.next == |b| - 1 && Agree(a, b, i, |b| - 1) && p(b[|b| - 1])
    ensures s == ParagraphTo(a, i, |b| - 1) && t == ParagraphTo(b, i, |b|)
  {
    ScanFurther(a, b, i, |b| - 1, p);
  }

  lemma ParagraphsTo(a: seq<string>, b: seq<string>, i: nat, m: string, n: nat)
    requires i + 1 < |b| && Agree(a, b, i, |b| - 1)
    requires b[|b| - 1] == m + (" " + Repeat('a', n)) && n > |Join(a[i..|b| - 1], " ")|
    ensures Differ(ParagraphTo(a, i, |b| - 1), ParagraphTo(b, i, |b|))
  {
    LongerSlice(a, b, i);
    JoinedDiffer(a[i..|b| - 1], m, n);
  }

  // ----- The line goes back into the block -----

  lemma RowMade(m: string) returns (x: string)
    requires !Blank(m)
    ensures OneLine(x) && IsRow(m + x)
  {
    x := "|";
    StartGrows(m, x);
    HasBar(m, x);
  }

  lemma {:induction false} HasBar(m: string, y: string)
    requires Contains(y, '|')
    ensures Contains(m + y, '|')
  {
    if m == "" {
      assert m + y == y;
    } else {
      assert (m + y)[0] == m[0] && (m + y)[1..] == m[1..] + y;
      HasBar(m[1..], y);
    }
  }

  lemma ListIsOne(a: seq<string>, i: nat, ordered: bool, s: Step)
    requires i < |a| && s == ListStep(a, i, ordered)
    ensures |s.blocks| == 1 && s.blocks[0].List?
  {
  }

  lemma ParagraphIsOne(a: seq<string>, i: nat, s: Step)
    requires i < |a| && s == ParagraphStep(a, i) && i < s.next
    ensures |s.blocks| == 1 && s.blocks[0].Paragraph?
  {
  }

  /** Which step an iteration is, by what its line opens. */
  lemma StepIsParagraph(lines: seq<string>, i: nat)
    requires i < |lines| && Begin(lines, i) == InParagraph
    ensures StepAt(lines, i) == ParagraphStep(lines, i)
  {
    BeginsParagraph(lines, i, View(lines[i]), TableHeader(lines, i));
  }

  lemma StepIsList(lines: seq<string>, i: nat, ordered: bool)
    requires i < |lines| && Begin(lines, i) == InList(ordered)
    ensures StepAt(lines, i) == ListStep(lines, i, ordered)
  {
    BeginsList(lines, i, View(lines[i]), TableHeader(lines, i), ordered);
  }

  lemma StepIsTable(lines: seq<string>, i: nat, cells: seq<string>)
    requires i + 1 < |lines| && Begin(lines, i) == AtSeparator && TableHeader(lines, i) == Some(cells)
    ensures StepAt(lines, i) == TableAt(lines, i, cells)
  {
    PassesToTables(View(lines[i]));
    StepByTable(lines, i, View(lines[i]), cells);
  }

  // ----- A way to go on that changes the block -----

  /** The same line begins a block of the same kind if the table lookahead says the same. */
  lemma BeginAgain(a: seq<string>, b: seq<string>, i: nat)
    requires i < |a| && i < |b| && a[i] == b[i] && TableHeader(a, i).Some? == TableHeader(b, i).Some?
    ensures Begin(b, i) == Begin(a, i)
  {
  }

  lemma BeginsTableThen(a: seq<string>, b: seq<string>, i: nat)
    requires i < |a| && i < |b| && a[i] == b[i] && TableHeader(b, i).Some?
    requires Begin(a, i) == InParagraph || Begin(a, i).InList?
    ensures Begin(b, i) == AtSeparator
  {
  }

  lemma NoHeaderIn(a: seq<string>, i: nat)
    requires i < |a| && (Begin(a, i) == InParagraph || Begin(a, i).InList?)
    ensures TableHeader(a, i).None?
  {
  }

  lemma SameFront(p: seq<string>, m: string, x: string, a: seq<string>, b: seq<string>, i: nat)
    requires a == p + [m] && b == p + [m + x] && i < |p|
    ensures a[i] == b[i] == p[i] && Agree(a, b, i, |p|) && b[|p|] == m + x
    ensures i + 1 < |p| ==> TableHeader(a, i) == TableHeader(b, i)
  {
    assert a[i..|p|] == p[i..] == b[i..|p|];
    if i + 1 < |p| {
      assert a[i + 1] == p[i + 1] == b[i + 1];
      SameHeader(a, b, i);
    }
  }

  lemma HeaderIn(a: seq<string>, i: nat) returns (cells: seq<string>)
    requires i < |a| && Begin(a, i) == AtSeparator
    ensures TableHeader(a, i) == Some(cells)
  {
    cells := TableHeader(a, i).value;
  }

  /** Under a table, any line can become a row. */
  lemma RowChanges(p: seq<string>, m: string, a: seq<string>, i: nat, s: Step, x: string)
    requires a == p + [m] && i + 2 <= |p| && s == StepAt(a, i) && s.next == |p| && IsRow(m + x)
    requires Begin(a, i) == AtSeparator
    ensures var t := StepAt(p + [m + x], i); Differ(s, t) && t.next == |p| + 1
  {
    var b := p + [m + x];
    SameFront(p, m, x, a, b, i);
    var cells := HeaderIn(a, i);
    BeginAgain(a, b, i);
    AgreeOnPart(a, b, i, |p|, i + 2, |p|);
    RowsChange(a, b, i, cells, s, StepAt(b, i));
  }

  lemma RowsChange(a: seq<string>, b: seq<string>, i: nat, cells: seq<string>, s: Step, t: Step)
    requires i + 2 < |a| && i + 2 < |b| && Agree(a, b, i + 2, |b| - 1) && Begin(a, i) == Begin(b, i) == AtSeparator
    requires TableHeader(a, i) == TableHeader(b, i) == Some(cells)
    requires s == StepAt(a, i) && t == StepAt(b, i) && s.next == |b| - 1 && IsRow(b[|b| - 1])
    ensures Differ(s, t) && t.next == |b|
  {
    StepIsTable(a, i, cells);
    StepIsTable(b, i, cells);
    TableGrows(a, b, i, cells, s, t);
  }

  lemma TableTakesOver(p: seq<string>, a: seq<string>, b: seq<string>, i: nat, s: Step)
    requires i + 2 == |b| && i < |a| && a[i] == b[i] && TableHeader(b, i).Some?
    requires Begin(a, i) == InParagraph || Begin(a, i).InList?
    requires |s.blocks| == 1 && !s.blocks[0].Table?
    ensures var t := StepAt(b, i); Differ(s, t) && t.next == |b|
  {
    BeginsTableThen(a, b, i);
    StepIsTable(b, i, TableHeader(b, i).value);
    TableInstead(b, i, TableHeader(b, i).value, s, StepAt(b, i));
  }

  lemma ListOrParagraphIsOne(a: seq<string>, i: nat, s: Step)
    requires i < |a| && (Begin(a, i) == InParagraph || Begin(a, i).InList?) && s == StepAt(a, i) && i < s.next
    ensures |s.blocks| == 1 && !s.blocks[0].Table?
  {
    if Begin(a, i) == InParagraph {
      StepIsParagraph(a, i);
      ParagraphIsOne(a, i, s);
    } else {
      StepIsList(a, i, Begin(a, i).ordered);
      ListIsOne(a, i, Begin(a, i).ordered, s);
    }
  }

  lemma BecomesHeader(b: seq<string>, i: nat, cells: nat)
    requires i + 2 == |b| && Contains(b[i], '|') && cells == |SplitRow(b[i])|
    requires IsSeparator(b[i + 1]) && |SplitRow(b[i + 1])| == cells
    ensures TableHeader(b, i).Some?
  {
  }

  lemma HeaderReached(above: string, m: string) returns (x: string)
    requires !Blank(m) && CouldSeparate(above, m)
    ensures OneLine(x) && IsSeparator(m + x) && |SplitRow(m + x)| == |SplitRow(above)|
  {
    x := SeparatorReached(m, |SplitRow(above)|);
  }

  /** Under a line that can be a header, a line of separator characters can become the separator. */
  lemma SeparatorChanges(p: seq<string>, m: string, a: seq<string>, i: nat, s: Step, x: string)
    requires a == p + [m] && i + 1 == |p| && s == StepAt(a, i) && s.next == |p|
    requires (Begin(a, i) == InParagraph || Begin(a, i).InList?)
    requires Contains(p[i], '|') && IsSeparator(m + x) && |SplitRow(m + x)| == |SplitRow(p[i])|
    ensures var t := StepAt(p + [m + x], i); Differ(s, t) && t.next == |p| + 1
  {
    var b := p + [m + x];
    SameFront(p, m, x, a, b, i);
    BecomesHeader(b, i, |SplitRow(p[i])|);
    ListOrParagraphIsOne(a, i, s);
    TableTakesOver(p, a, b, i, s);
  }

  lemma ItemIsNoContinuation(line: string, ordered: bool)
    requires IsItem(line, ordered)
    ensures ItemTest(ordered)(line) && !IsContinuation(line)
  {
  }

  lemma ItemMade(m: string, ordered: bool) returns (x: string)
    requires IsUnfinishedMarker(m, ordered)
    ensures OneLine(x) && ItemTest(ordered)(m + x) && !IsContinuation(m + x)
  {
    x := MarkerRest(m, ordered);
    MarkerBecomesItem(m, ordered);
    ItemIsNoContinuation(m + x, ordered);
  }

  /** Under a list, an unfinished marker can become an item. */
  lemma MarkerChanges(p: seq<string>, m: string, a: seq<string>, i: nat, s: Step, ordered: bool, x: string)
    requires a == p + [m] && i < |p| && s == StepAt(a, i) && s.next == |p|
    requires Begin(a, i) == InList(ordered) && ItemTest(ordered)(m + x) && !IsContinuation(m + x)
    ensures var t := StepAt(p + [m + x], i); Differ(s, t) && t.next == |p| + 1
  {
    var b := p + [m + x];
    SameFront(p, m, x, a, b, i);
    NoHeaderIn(a, i);
    if TableHeader(b, i).Some? {
      ListOrParagraphIsOne(a, i, s);
      TableTakesOver(p, a, b, i, s);
    } else {
      BeginAgain(a, b, i);
      ItemsChange(a, b, i, ordered, s, StepAt(b, i));
    }
  }

  lemma ItemsChange(a: seq<string>, b: seq<string>, i: nat, ordered: bool, s: Step, t: Step)
    requires i < |a| && i + 1 < |b| && Agree(a, b, i, |b| - 1) && Begin(a, i) == Begin(b, i) == InList(ordered)
    requires s == StepAt(a, i) && t == StepAt(b, i) && s.next == |b| - 1
    requires ItemTest(ordered)(b[|b| - 1]) && !IsContinuation(b[|b| - 1])
    ensures Differ(s, t) && t.next == |b|
  {
    StepIsList(a, i, ordered);
    StepIsList(b, i, ordered);
    ListGrows(a, b, i, ordered, s, t);
  }

  lemma {:induction false} WordIsNoSeparator(s: string, w: string)
    requires w != "" && w[0] == 'a'
    ensures !OnlySeparators(s + w)
  {
    if s == "" {
      assert s + w == w;
    } else {
      assert (s + w)[0] == s[0] && (s + w)[1..] == s[1..] + w;
      WordIsNoSeparator(s[1..], w);
    }
  }

  lemma {:induction false} RepeatOneLine(n: nat)
    ensures OneLine(" " + Repeat('a', n))
  {
    RepeatAll('a', n);
  }

  lemma NoSeparatorNoHeader(b: seq<string>, i: nat)
    requires i + 2 == |b| && !OnlySeparators(b[i + 1])
    ensures TableHeader(b, i).None?
  {
  }

  /** Under a paragraph, a rule can become the paragraph's next line. */
  lemma RuleChanges(p: seq<string>, m: string, a: seq<string>, i: nat, s: Step) returns (x: string)
    requires a == p + [m] && i < |p| && s == StepAt(a, i) && s.next == |p| && !Blank(m)
    requires Begin(a, i) == InParagraph && IsRule(m)
    ensures OneLine(x) && var t := StepAt(p + [m + x], i); Differ(s, t) && t.next == |p| + 1
  {
    var n := |Join(a[i..|p|], " ")| + 1;
    x := " " + Repeat('a', n);
    RepeatOneLine(n);
    var b := p + [m + x];
    RuleBecomesParagraph(m, Repeat('a', n));
    SameFront(p, m, x, a, b, i);
    NoHeaderIn(a, i);
    if i + 1 == |p| {
      assert m + x == m + " " + Repeat('a', n);
      WordIsNoSeparator(m + " ", Repeat('a', n));
      NoSeparatorNoHeader(b, i);
    }
    BeginAgain(a, b, i);
    ParagraphsChange(a, b, i, m, n, s);
  }

  lemma ParagraphsChange(a: seq<string>, b: seq<string>, i: nat, m: string, n: nat, s: Step)
    requires i < |a| && i + 1 < |b| && Agree(a, b, i, |b| - 1) && Begin(a, i) == Begin(b, i) == InParagraph
    requires s == StepAt(a, i) && s.next == |b| - 1 && IsParagraphLine(b[|b| - 1])
    requires b[|b| - 1] == m + (" " + Repeat('a', n)) && n > |Join(a[i..|b| - 1], " ")|
    ensures var t := StepAt(b, i); Differ(s, t) && t.next == |b|
  {
    StepIsParagraph(a, i);
    StepIsParagraph(b, i);
    IsParagraphBy(a, i);
    IsParagraphBy(b, i);
    ParagraphGrows(a, b, i, IsParagraphLine, s, StepAt(b, i));
    ParagraphsTo(a, b, i, m, n);
  }

  // ----- Exactly when -----

  lemma AfterTable(v: LineView, table: bool)
    requires After(BeginBy(v, table)) == InTable
    ensures BeginBy(v, table) == AtSeparator
  {
  }

  lemma AfterOpen(mode: Mode)
    requires After(mode) == InParagraph || After(mode).InList?
    ensures After(mode) == mode
  {
  }

  /** A line that begins a block is not inside another one. */
  lemma OnlyTheFirst(r: Rules, lines: seq<string>, i: nat, mode: Mode, e: nat, k: nat)
    requires IsBlock(r, lines, i, mode, e) && k < e && !r.goesOn(ModeBy(r, lines, k), lines[k])
    ensures k <= i
  {
  }

  lemma LineAbove(p: seq<string>, m: string, a: seq<string>, i: nat, s: Step)
    requires a == p + [m] && StartsBlock(RulesOf(a), a, i) && i < |p| && s == StepAt(a, i) && s.next == |p|
    requires CanSeparate(p, m)
    ensures i + 1 == |p|
  {
    StepBlock(RulesOf(a), a, i, s);
    OnlyTheFirst(RulesOf(a), a, i, Begin(a, i), |p|, |p| - 1);
  }

  lemma HowItChanges(p: seq<string>, m: string, a: seq<string>, mode: Mode)
    requires a == p + [m] && mode == ModeAt(a, |p|) && CanChange(p, m)
    ensures !Blank(m) && (CanRejoin(mode, m) || ((mode == InParagraph || mode.InList?) && CanSeparate(p, m)))
  {
  }

  /**
   * A block that ends in front of an unfinished line which can change it: the line goes on and is part of the block.
   */
  lemma BlockChanges(p: seq<string>, m: string, a: seq<string>, i: nat, s: Step) returns (x: string)
    requires a == p + [m] && StartsBlock(RulesOf(a), a, i) && i < |p| && s == StepAt(a, i) && s.next == |p|
    requires CanChange(p, m)
    ensures OneLine(x) && var t := StepAt(p + [m + x], i); Differ(s, t) && t.next == |p| + 1
  {
    FrontMode(p, m, a, i, s);
    var mode := After(Begin(a, i));
    HowItChanges(p, m, a, mode);
    if !CanRejoin(mode, m) {
      AfterOpen(Begin(a, i));
      LineAbove(p, m, a, i, s);
      x := HeaderReached(p[i], m);
      SeparatorChanges(p, m, a, i, s, x);
    } else if mode == InTable {
      AfterTable(View(a[i]), TableHeader(a, i).Some?);
      x := RowMade(m);
      RowChanges(p, m, a, i, s, x);
    } else if mode == InParagraph {
      AfterOpen(Begin(a, i));
      x := RuleChanges(p, m, a, i, s);
    } else {
      AfterOpen(Begin(a, i));
      x := ItemMade(m, mode.ordered);
      MarkerChanges(p, m, a, i, s, mode.ordered, x);
    }
  }

  lemma LastLineShown(lines: seq<string>, n: nat)
    requires |lines| == n + 1 && ParseFrom(lines, n).Some? && !Blank(lines[n])
    ensures ParseFrom(lines, n).value != []
  {
    LastStep(lines, n);
    ShownUnlessBlank(lines, n, View(lines[n]), TableHeader(lines, n), StepAt(lines, n));
  }

  lemma ShownUnlessBlank(lines: seq<string>, i: nat, v: LineView, table: Option<seq<string>>, s: Step)
    requires i < |lines| && (table.Some? ==> i + 1 < |lines|) && s == StepBy(lines, i, v, table) && !v.blank
    requires i < s.next
    ensures s.blocks != []
  {
  }

  /** When the first blocks differ, so do the parses, wherever the last block is. */
  lemma FirstDiffers(s: Step, t: Step, rest: seq<Block>, more: seq<Block>)
    requires Differ(s, t) && rest != []
    ensures !(AllButLast(s.blocks + rest) <= t.blocks + more)
  {
    var u := AllButLast(s.blocks + rest);
    assert u[0] == s.blocks[0] && (t.blocks + more)[0] == t.blocks[0];
  }

  lemma CancelPrefix(b: seq<Block>, u: seq<Block>, v: seq<Block>)
    requires b + u <= b + v
    ensures u <= v
  {
    forall k | 0 <= k < |u| ensures u[k] == v[k] {
      assert (b + u)[|b| + k] == u[k] && (b + v)[|b| + k] == v[k];
    }
  }

  lemma PrefixDiffers(b: seq<Block>, rest: seq<Block>, more: seq<Block>)
    requires |b| <= 1 && !(AllButLast(rest) <= more)
    ensures !(AllButLast(b + rest) <= b + more)
  {
    assert rest != [];
    assert AllButLast(b + rest) == b + AllButLast(rest);
    if b + AllButLast(rest) <= b + more {
      CancelPrefix(b, AllButLast(rest), more);
    }
  }

  /** A text that goes on so that a block in front of its last one is another one. */
  ghost predicate Changed(a: seq<string>, b: seq<string>, i: nat) {
    && ParseFrom(a, i).Some? && ParseFrom(b, i).Some?
    && !(AllButLast(ParseFrom(a, i).value) <= ParseFrom(b, i).value)
  }

  lemma ChangedHere(a: seq<string>, b: seq<string>, i: nat, s: Step, t: Step)
    requires i < |a| && i < |b| && s == StepAt(a, i) && t == StepAt(b, i) && Differ(s, t) && t.next == |b|
    requires ParseFrom(a, i).Some? && s.next + 1 == |a| && !Blank(a[s.next])
    ensures Changed(a, b, i)
  {
    ParseUnfold(a, i, s);
    LastLineShown(a, s.next);
    LastStep(b, i);
    NoneLeft(t.blocks);
    FirstDiffers(s, t, ParseFrom(a, s.next).value, []);
  }

  lemma ParseFold(lines: seq<string>, i: nat, s: Step)
    requires i < |lines| && s == StepAt(lines, i) && i < s.next && ParseFrom(lines, s.next).Some?
    ensures ParseFrom(lines, i) == Some(s.blocks + ParseFrom(lines, s.next).value)
  {
  }

  lemma ChangedLater(a: seq<string>, b: seq<string>, i: nat, s: Step)
    requires i < |a| && i < |b| && s == StepAt(a, i) == StepAt(b, i) && i < s.next && Changed(a, b, s.next)
    ensures Changed(a, b, i)
  {
    ParseFold(a, i, s);
    ParseFold(b, i, s);
    PrefixDiffers(s.blocks, ParseFrom(a, s.next).value, ParseFrom(b, s.next).value);
  }

  /** An unfinished line that goes on with what is open is part of it. */
  lemma NothingInFront(p: seq<string>, m: string, a: seq<string>, i: nat, s: Step)
    requires a == p + [m] && StartsBlock(RulesOf(a), a, i) && i < |p| && s == StepAt(a, i) && s.next == |p| + 1
    ensures !CanChange(p, m)
  {
    StepBlock(RulesOf(a), a, i, s);
    LineOfBlock(RulesOf(a), a, i, Begin(a, i), |p| + 1, |p|);
  }

  lemma NothingAbove(m: string)
    ensures !CanChange([], m)
  {
  }

  lemma {:induction false} ChangeFrom(p: seq<string>, m: string, a: seq<string>, i: nat) returns (x: string)
    requires a == p + [m] && StartsBlock(RulesOf(a), a, i) && CanChange(p, m) && i < |p| && ParseFrom(a, i).Some?
    ensures OneLine(x) && Changed(a, p + [m + x], i)
    decreases |p| - i
  {
    var r, n, s := RulesOf(a), |p|, StepAt(a, i);
    ParseUnfold(a, i, s);
    if s.next == n + 1 {
      NothingInFront(p, m, a, i, s);
      assert false;
    } else if s.next == n {
      x := BlockChanges(p, m, a, i, s);
      ChangedHere(a, p + [m + x], i, s, StepAt(p + [m + x], i));
    } else {
      StepBlock(r, a, i, s);
      NextStartsBlock(r, a, i, Begin(a, i), s.next);
      x := ChangeFrom(p, m, a, s.next);
      var b := p + [m + x];
      assert b[..n] == p == a[..n];
      StepKept(r, a, b, i, n, s);
      ChangedLater(a, b, i, s);
    }
  }

  /** With this ending every block in front of the last one stays. */
  predicate KeptBy(p: seq<string>, m: string, x: string, q: seq<string>)
    requires ParseLines(p + [m]).Some?
  {
    var longer := ParseLines(p + [m + x] + q);
    longer.Some? ==> AllButLast(ParseLines(p + [m]).value) <= longer.value
  }

  lemma AChange(p: seq<string>, m: string) returns (x: string)
    requires ParseLines(p + [m]).Some? && CanChange(p, m)
    ensures OneLine(x) && !KeptBy(p, m, x, [])
  {
    if p == [] {
      NothingAbove(m);
      assert false;
    } else {
      x := ChangeFrom(p, m, p + [m], 0);
      assert p + [m + x] + [] == p + [m + x];
    }
  }

  lemma NoChange(p: seq<string>, m: string, x: string, q: seq<string>)
    requires ParseLines(p + [m]).Some? && !CanChange(p, m)
    ensures KeptBy(p, m, x, q)
  {
    if ParseLines(p + [m + x] + q).Some? {
      StableFrom(p, m, x, q, p + [m], p + [m + x] + q, 0);
    }
  }

  /**
   * However the unfinished line m goes on, and whatever lines follow, every block in front of the last one stays:
   * exactly when m cannot go back into the block it ends.
   */
  lemma SettledExactly(p: seq<string>, m: string)
    requires ParseLines(p + [m]).Some?
    ensures (forall x: string, q: seq<string> :: KeptBy(p, m, x, q)) <==> !CanChange(p, m)
  {
    if CanChange(p, m) {
      var x := AChange(p, m);
    } else {
      forall x: string, q: seq<string> ensures KeptBy(p, m, x, q) {
        NoChange(p, m, x, q);
      }
    }
  }

  // ----- The same for texts -----

  /** The lines of a text that goes on: its last line goes on with the first one of the rest. */
  function Continued(lines: seq<string>, rest: seq<string>): seq<string>
    requires lines != [] && rest != []
  {
    lines[..|lines| - 1] + [lines[|lines| - 1] + rest[0]] + rest[1..]
  }

  lemma ContinuedLater(line: string, lines: seq<string>, rest: seq<string>)
    requires lines != [] && rest != []
    ensures [line] + Continued(lines, rest) == Continued([line] + lines, rest)
  {
    assert ([line] + lines)[..|lines|] == [line] + lines[..|lines| - 1];
  }

  lemma ContinuedFirst(c: char, lines: seq<string>, rest: seq<string>)
    requires lines != [] && rest != []
    ensures var longer := Continued(lines, rest);
            [[c] + longer[0]] + longer[1..] == Continued([[c] + lines[0]] + lines[1..], rest)
  {
    if |lines| == 1 {
      assert [c] + (lines[0] + rest[0]) == [c] + lines[0] + rest[0];
    } else {
      assert lines == [lines[0]] + lines[1..];
      ContinuedLater(lines[0], lines[1..], rest);
      ContinuedLater([c] + lines[0], lines[1..], rest);
    }
  }

  lemma {:induction false} SplitLonger(text: string, more: string)
    ensures Split(text + more, '\n') == Continued(Split(text, '\n'), Split(more, '\n'))
  {
    var lines, rest := Split(text, '\n'), Split(more, '\n');
    if text == "" {
      assert text + more == more && [rest[0]] + rest[1..] == rest && "" + rest[0] == rest[0];
    } else {
      assert (text + more)[0] == text[0] && (text + more)[1..] == text[1..] + more;
      SplitLonger(text[1..], more);
      ContinuedFirst(text[0], Split(text[1..], '\n'), rest);
      ContinuedLater("", Split(text[1..], '\n'), rest);
    }
  }

  /** The lines of a text that are ended, and the one that is not. */
  function EndedLines(text: string): seq<string> {
    var lines := Split(text, '\n');
    lines[..|lines| - 1]
  }

  function LastLine(text: string): string {
    var lines := Split(text, '\n');
    lines[|lines| - 1]
  }

  lemma LinesOfText(text: string)
    ensures ParseText(text) == ParseLines(EndedLines(text) + [LastLine(text)])
  {
    var lines := Split(text, '\n');
    assert lines == EndedLines(text) + [LastLine(text)];
    if text == "" {
      BlankOnly();
    }
  }

  lemma LinesOfLonger(text: string, more: string)
    ensures var rest := Split(more, '\n');
            ParseText(text + more) == ParseLines(EndedLines(text) + [LastLine(text) + rest[0]] + rest[1..])
  {
    SplitLonger(text, more);
    if text + more == "" {
      BlankOnly();
    }
  }

  predicate TextKeptBy(text: string, more: string)
    requires ParseText(text).Some?
  {
    ParseText(text + more).Some? ==> AllButLast(ParseText(text).value) <= ParseText(text + more).value
  }

  lemma TextKeptAsLines(text: string, more: string)
    requires ParseText(text).Some?
    ensures ParseLines(EndedLines(text) + [LastLine(text)]).Some?
    ensures TextKeptBy(text, more) <==> KeptBy(EndedLines(text), LastLine(text), Split(more, '\n')[0],
        Split(more, '\n')[1..])
  {
    LinesOfText(text);
    LinesOfLonger(text, more);
  }

  lemma ATextChange(text: string) returns (more: string)
    requires ParseText(text).Some? && CanChange(EndedLines(text), LastLine(text))
    ensures !TextKeptBy(text, more)
  {
    LinesOfText(text);
    more := AChange(EndedLines(text), LastLine(text));
    SplitOne(more);
    TextKeptAsLines(text, more);
    assert Split(more, '\n')[1..] == [];
  }

  lemma NoTextChange(text: string, more: string)
    requires ParseText(text).Some? && !CanChange(EndedLines(text), LastLine(text))
    ensures TextKeptBy(text, more)
  {
    TextKeptAsLines(text, more);
    NoChange(EndedLines(text), LastLine(text), Split(more, '\n')[0], Split(more, '\n')[1..]);
  }

  /** Streaming: what follows a text changes no block but the last, exactly when its last line cannot. */
  lemma TextSettledExactly(text: string)
    requires ParseText(text).Some?
    ensures (forall more :: TextKeptBy(text, more)) <==> !CanChange(EndedLines(text), LastLine(text))
  {
    if CanChange(EndedLines(text), LastLine(text)) {
      var more := ATextChange(text);
    } else {
      forall more ensures TextKeptBy(text, more) {
        NoTextChange(text, more);
      }
    }
  }
}
