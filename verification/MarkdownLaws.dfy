/** Streaming stability, termination and shape of the block tokenizer's results. */
module MarkdownLaws {
  import opened Prelude
  import opened MarkdownInline
  import opened MarkdownBlocks

  // ----- Advancing -----

  /** A fence or heading whose rest has a line end in it: no branch takes it, and no paragraph does. */
  predicate Jams(line: string) {
    || (IsFenceRun(line) && FenceOpen(line).None?)
    || (IsHeadingRun(line) && ParseHeading(line).None?)
  }

  lemma JamsAreNothingElse(line: string)
    requires IsFenceRun(line) || IsHeadingRun(line)
    ensures !Blank(line) && !IsRule(line) && !IsQuote(line) && !IsItem(line, true) && !IsItem(line, false)
    ensures !IsParagraphLine(line)
    ensures IsFenceRun(line) ==> !IsHeadingRun(line)
    ensures FenceOpen(line).Some? ==> IsFenceRun(line)
    ensures ParseHeading(line).Some? ==> IsHeadingRun(line)
  {
    assert IsFenceRun(line) ==> !IsHeadingRun(line);
    StartNotBlank(line);
  }

  lemma StartNotBlank(line: string)
    requires Start(line).Some?
    ensures !Blank(line)
  {
  }

  /** An iteration advances unless it begins at a jamming line that no table begins with. */
  lemma StepAdvancesExactly(lines: seq<string>, i: nat)
    requires i < |lines|
    ensures StepAt(lines, i).next == i <==> Jams(lines[i]) && !IsTableStart(lines, i)
  {
    var line := lines[i];
    if IsFenceRun(line) || IsHeadingRun(line) {
      JamsAreNothingElse(line);
    }
  }

  lemma PlainSuffix(s: string, k: nat)
    requires Plain(s) && k <= |s|
    ensures Plain(s[k..])
    decreases k
  {
    if k > 0 {
      PlainSuffix(s[1..], k - 1);
      assert s[1..][k - 1..] == s[k..];
    } else {
      assert s[k..] == s;
    }
  }

  lemma PlainNeverJams(line: string)
    requires Plain(line)
    ensures !Jams(line)
  {
    if IsFenceRun(line) || IsHeadingRun(line) {
      PlainSuffix(line, SkipSpace(line, StartRun(line)));
    }
  }

  predicate AllPlain(lines: seq<string>) {
    forall i :: 0 <= i < |lines| ==> Plain(lines[i])
  }

  /** On lines without carriage returns and Unicode line ends the parser always comes to an end. */
  lemma {:induction false} PlainLinesParse(lines: seq<string>, i: nat)
    requires AllPlain(lines)
    ensures ParseFrom(lines, i).Some?
    decreases if i < |lines| then |lines| - i else 0
  {
    if i < |lines| {
      StepAdvancesExactly(lines, i);
      PlainNeverJams(lines[i]);
      PlainLinesParse(lines, StepAt(lines, i).next);
    }
  }

  lemma {:induction false} SplitOne(s: string)
    requires forall i :: 0 <= i < |s| ==> s[i] != '\n'
    ensures Split(s, '\n') == [s]
  {
    if s != "" {
      SplitOne(s[1..]);
      assert [s[0]] + s[1..] == s;
    }
  }

  // ----- Streaming -----

  lemma {:induction false} ScanStable(p: seq<string>, q: seq<string>, i: nat, cond: string -> bool)
    requires i <= |p| && Scan(p, i, cond) < |p|
    ensures Scan(p + q, i, cond) == Scan(p, i, cond)
    decreases |p| - i
  {
    assert i < |p| && (p + q)[i] == p[i];
    if cond(p[i]) {
      ScanStable(p, q, i + 1, cond);
    }
  }

  lemma SlicePrefix(p: seq<string>, q: seq<string>, a: nat, b: nat)
    requires a <= b <= |p|
    ensures (p + q)[a..b] == p[a..b]
  {
  }

  lemma {:induction false} ItemsStable(p: seq<string>, q: seq<string>, i: nat, cond: string -> bool,
      f: string -> seq<Inline>)
    requires i <= |p| && ListItems(p, i, cond, f).next < |p|
    ensures ListItems(p + q, i, cond, f) == ListItems(p, i, cond, f)
    decreases |p| - i
  {
    if i < |p| {
      assert (p + q)[i] == p[i];
      if cond(p[i]) {
        ScanStable(p, q, i + 1, IsContinuation);
        ItemsStable(p, q, Scan(p, i + 1, IsContinuation), cond, f);
      }
    }
  }

  lemma FenceStable(p: seq<string>, q: seq<string>, i: nat, o: Opening)
    requires i < |p| && FenceStep(p, i, o).next < |p|
    ensures FenceStep(p + q, i, o) == FenceStep(p, i, o)
  {
    var e := Scan(p, i + 1, NotClosing(o));
    ScanStable(p, q, i + 1, NotClosing(o));
    SlicePrefix(p, q, i + 1, e);
  }

  lemma QuoteStable(p: seq<string>, q: seq<string>, i: nat)
    requires i < |p| && QuoteStep(p, i).next < |p|
    ensures QuoteStep(p + q, i) == QuoteStep(p, i)
  {
    ScanStable(p, q, i, IsQuote);
    SlicePrefix(p, q, i, Scan(p, i, IsQuote));
  }

  lemma TableStable(p: seq<string>, q: seq<string>, i: nat, headers: seq<seq<Inline>>, row: string -> seq<seq<Inline>>)
    requires i + 1 < |p| && TableStep(p, i, headers, row).next < |p|
    ensures TableStep(p + q, i, headers, row) == TableStep(p, i, headers, row)
  {
    ScanStable(p, q, i + 2, IsRow);
    SlicePrefix(p, q, i + 2, Scan(p, i + 2, IsRow));
  }

  lemma TableAtStable(p: seq<string>, q: seq<string>, i: nat, cells: seq<string>)
    requires i + 1 < |p| && TableAt(p, i, cells).next < |p|
    ensures TableAt(p + q, i, cells) == TableAt(p, i, cells)
  {
    TableStable(p, q, i, Map(cells, Inlines), RowOf(|cells|));
  }

  lemma ParagraphStable(p: seq<string>, q: seq<string>, i: nat)
    requires i < |p| && ParagraphStep(p, i).next < |p|
    ensures ParagraphStep(p + q, i) == ParagraphStep(p, i)
  {
    ScanStable(p, q, i, IsParagraphLine);
    SlicePrefix(p, q, i, Scan(p, i, IsParagraphLine));
  }

  lemma ListStable(p: seq<string>, q: seq<string>, i: nat, ordered: bool)
    requires i < |p| && ListStep(p, i, ordered).next < |p|
    ensures ListStep(p + q, i, ordered) == ListStep(p, i, ordered)
  {
    ItemsStable(p, q, i, ItemTest(ordered), ItemInlines(ordered));
  }

  /** The table lookahead sees the same line, unless the candidate is the last line there is. */
  lemma LookaheadStable(p: seq<string>, q: seq<string>, i: nat)
    requires i + 1 < |p|
    ensures (p + q)[i] == p[i] && (IsTableStart(p + q, i) <==> IsTableStart(p, i))
  {
    assert (p + q)[i] == p[i] && (p + q)[i + 1] == p[i + 1];
  }

  /** Appending lines does not change an iteration that ends before the last of the given ones. */
  lemma StepStable(p: seq<string>, q: seq<string>, i: nat)
    requires i < |p| && i < StepAt(p, i).next < |p|
    ensures StepAt(p + q, i) == StepAt(p, i)
  {
    LookaheadStable(p, q, i);
    var line := p[i];
    if Blank(line) {
    } else if FenceOpen(line).Some? {
      FenceStable(p, q, i, FenceOpen(line).value);
    } else if IsRule(line) {
    } else if ParseHeading(line).Some? {
    } else if IsQuote(line) {
      QuoteStable(p, q, i);
    } else if IsTableStart(p, i) {
      TableAtStable(p, q, i, SplitRow(line));
    } else if IsItem(line, true) {
      ListStable(p, q, i, true);
    } else if IsItem(line, false) {
      ListStable(p, q, i, false);
    } else {
      ParagraphStable(p, q, i);
    }
  }

  function AllButLast(blocks: seq<Block>): seq<Block> {
    if blocks == [] then [] else blocks[..|blocks| - 1]
  }

  lemma PrefixGrows(b: seq<Block>, rest: seq<Block>, more: seq<Block>)
    requires |b| <= 1 && AllButLast(rest) <= more
    ensures AllButLast(b + rest) <= b + more
  {
    if rest == [] {
      assert b + rest == b;
    } else {
      assert AllButLast(b + rest) == b + AllButLast(rest);
    }
  }

  /**
   * Streaming stability: however lines go on, every block but the last stays as it is. (Appending lines cannot
   * undo a fence, a table lookahead or a list, except for the block that reaches the end of what was there.)
   */
  lemma {:induction false} StreamingStable(p: seq<string>, q: seq<string>, i: nat)
    requires i <= |p| && ParseFrom(p, i).Some? && ParseFrom(p + q, i).Some?
    ensures AllButLast(ParseFrom(p, i).value) <= ParseFrom(p + q, i).value
    decreases |p| - i
  {
    if i < |p| {
      var s := StepAt(p, i);
      if s.next < |p| {
        StepStable(p, q, i);
        StreamingStable(p, q, s.next);
        PrefixGrows(s.blocks, ParseFrom(p, s.next).value, ParseFrom(p + q, s.next).value);
      } else {
        LastStep(p, i);
      }
    }
  }

  lemma LastStep(p: seq<string>, i: nat)
    requires i < |p| && StepAt(p, i).next == |p|
    ensures ParseFrom(p, i) == Some(StepAt(p, i).blocks) && AllButLast(StepAt(p, i).blocks) == []
  {
    NoneLeft(StepAt(p, i).blocks);
    assert ParseFrom(p, |p|) == Some([]);
  }

  lemma NoneLeft(b: seq<Block>)
    ensures b + [] == b
  {
  }

  lemma {:induction false} SplitAtNewline(a: string, b: string)
    ensures Split(a + "\n" + b, '\n') == Split(a, '\n') + Split(b, '\n')
  {
    if a == "" {
      assert (a + "\n" + b)[1..] == b;
    } else {
      assert (a + "\n" + b)[0] == a[0] && (a + "\n" + b)[1..] == a[1..] + "\n" + b;
      SplitAtNewline(a[1..], b);
    }
  }

  /** Only newlines end lines. */
  predicate OnlyNewlines(text: string) {
    text == "" || ((!IsLineEnd(text[0]) || text[0] == '\n') && OnlyNewlines(text[1..]))
  }

  lemma {:induction false} SplitPlain(text: string)
    requires OnlyNewlines(text)
    ensures AllPlain(Split(text, '\n'))
  {
    if text != "" {
      SplitPlain(text[1..]);
      var rest := Split(text[1..], '\n');
      if text[0] != '\n' {
        var first := [text[0]] + rest[0];
        assert first[1..] == rest[0] && Plain(first);
      }
    }
  }

  lemma {:induction false} OnlyNewlinesConcat(a: string, b: string)
    ensures OnlyNewlines(a + b) <==> OnlyNewlines(a) && OnlyNewlines(b)
  {
    if a == "" {
      assert a + b == b;
    } else {
      assert (a + b)[0] == a[0] && (a + b)[1..] == a[1..] + b;
      OnlyNewlinesConcat(a[1..], b);
    }
  }

  lemma PlainTextParses(text: string)
    requires OnlyNewlines(text)
    ensures ParseText(text).Some? && ParseText(text) == ParseLines(Split(text, '\n'))
  {
    SplitPlain(text);
    PlainLinesParse(Split(text, '\n'), 0);
    if text == "" {
      BlankOnly();
    }
  }

  lemma BlankOnly()
    ensures ParseLines([""]) == Some([])
  {
    assert StepAt([""], 0) == Step([], 1);
    assert ParseFrom([""], 1) == Some([]);
    var none: seq<Block> := [];
    assert ParseFrom([""], 0) == Some(none + none) && none + none == none;
  }

  /**
   * A text whose chunks end at newlines: whatever comes after the newline, all blocks of the text so far but
   * the last are final.
   */
  lemma TextStreamingStable(text: string, more: string)
    requires OnlyNewlines(text) && OnlyNewlines(more)
    ensures ParseText(text).Some? && ParseText(text + "\n" + more).Some?
    ensures AllButLast(ParseText(text).value) <= ParseText(text + "\n" + more).value
  {
    OnlyNewlinesConcat(text + "\n", more);
    OnlyNewlinesConcat(text, "\n");
    assert OnlyNewlines("\n"[1..]);
    PlainTextParses(text);
    PlainTextParses(text + "\n" + more);
    SplitAtNewline(text, more);
    StreamingStable(Split(text, '\n'), Split(more, '\n'), 0);
  }

  // ----- Shape -----

  /** Tables are rectangular and all links allowed. */
  predicate WellShaped(b: Block) {
    match b
    case Fence(_, _) => true
    case Heading(level, children) => 1 <= level <= 6 && AllLinksAllowed(children)
    case Paragraph(children) => AllLinksAllowed(children)
    case Blockquote(children) => AllLinksAllowed(children)
    case List(_, items) => items != [] && CellsAllowed(items)
    case Table(headers, rows) => headers != [] && CellsAllowed(headers) && RowsFit(rows, |headers|)
    case Rule => true
  }

  predicate CellsAllowed(cells: seq<seq<Inline>>) {
    forall i :: 0 <= i < |cells| ==> AllLinksAllowed(cells[i])
  }

  predicate RowsFit(rows: seq<seq<seq<Inline>>>, width: nat) {
    forall i :: 0 <= i < |rows| ==> FitsRow(width)(rows[i])
  }

  function FitsRow(width: nat): seq<seq<Inline>> -> bool {
    (row: seq<seq<Inline>>) => |row| == width && CellsAllowed(row)
  }

  /** What holds of every image holds along a mapped list. */
  lemma {:induction false} MapAll<T>(lines: seq<string>, f: string -> T, ok: T -> bool)
    requires forall line :: ok(f(line))
    ensures forall i :: 0 <= i < |lines| ==> ok(Map(lines, f)[i])
  {
    if lines != [] {
      MapAll(lines[1..], f, ok);
    }
  }

  lemma InlineCellsAllowed(cells: seq<string>)
    ensures CellsAllowed(Map(cells, Inlines))
  {
    forall line ensures AllLinksAllowed(Inlines(line)) {
      ParsedLinksAllowed(line);
    }
    MapAll(cells, Inlines, AllLinksAllowed);
  }

  lemma RowFits(line: string, width: nat)
    ensures FitsRow(width)(RowOf(width)(line))
  {
    InlineCellsAllowed(Fit(SplitRow(line), width));
  }

  lemma RowsAreFit(lines: seq<string>, width: nat)
    ensures RowsFit(Map(lines, RowOf(width)), width)
  {
    forall line ensures FitsRow(width)(RowOf(width)(line)) {
      RowFits(line, width);
    }
    MapAll(lines, RowOf(width), FitsRow(width));
  }

  lemma {:induction false} ItemsAllowed(lines: seq<string>, i: nat, p: string -> bool, f: string -> seq<Inline>)
    requires i <= |lines| && forall line :: AllLinksAllowed(f(line))
    ensures CellsAllowed(ListItems(lines, i, p, f).items)
    ensures i < |lines| && p(lines[i]) ==> ListItems(lines, i, p, f).items != []
    decreases |lines| - i
  {
    if i < |lines| && p(lines[i]) {
      ItemsAllowed(lines, Scan(lines, i + 1, IsContinuation), p, f);
    }
  }

  lemma ListShaped(lines: seq<string>, i: nat, ordered: bool)
    requires i < |lines| && IsItem(lines[i], ordered)
    ensures WellShaped(ListStep(lines, i, ordered).blocks[0])
  {
    forall line ensures AllLinksAllowed(ItemInlines(ordered)(line)) {
      ParsedLinksAllowed(ItemText(line, ordered));
    }
    ItemsAllowed(lines, i, ItemTest(ordered), ItemInlines(ordered));
  }

  lemma TableShaped(lines: seq<string>, i: nat, cells: seq<string>)
    requires i + 1 < |lines| && cells != []
    ensures WellShaped(TableAt(lines, i, cells).blocks[0])
  {
    InlineCellsAllowed(cells);
    RowsAreFit(lines[i + 2..Scan(lines, i + 2, IsRow)], |cells|);
  }

  lemma StepShaped(lines: seq<string>, i: nat)
    requires i < |lines|
    ensures forall b :: b in StepAt(lines, i).blocks ==> WellShaped(b)
  {
    var line := lines[i];
    if Blank(line) {
    } else if FenceOpen(line).Some? {
    } else if IsRule(line) {
    } else if ParseHeading(line).Some? {
      ParsedLinksAllowed(ParseHeading(line).value.text);
    } else if IsQuote(line) {
      ParsedLinksAllowed(Join(Map(lines[i..Scan(lines, i, IsQuote)], Unquote), " "));
    } else if IsTableStart(lines, i) {
      TableShaped(lines, i, SplitRow(line));
    } else if IsItem(line, true) {
      ListShaped(lines, i, true);
    } else if IsItem(line, false) {
      ListShaped(lines, i, false);
    } else {
      ParsedLinksAllowed(Join(lines[i..Scan(lines, i, IsParagraphLine)], " "));
    }
  }

  /** Every block of every result: rectangular tables, heading levels 1 to 6, non-empty lists, allowed links. */
  lemma {:induction false} ResultShaped(lines: seq<string>, i: nat)
    requires ParseFrom(lines, i).Some?
    ensures forall b :: b in ParseFrom(lines, i).value ==> WellShaped(b)
    decreases if i < |lines| then |lines| - i else 0
  {
    if i < |lines| {
      StepShaped(lines, i);
      ResultShaped(lines, StepAt(lines, i).next);
    }
  }

  // ----- Fences -----

  /** A fence reaches to the first line that closes it, or to the end, and shows what is between as it is. */
  lemma FenceReachesItsClose(lines: seq<string>, i: nat) returns (e: nat)
    requires i < |lines| && !Blank(lines[i]) && FenceOpen(lines[i]).Some?
    ensures var o := FenceOpen(lines[i]).value;
            && i < e <= |lines|
            && (forall k :: i < k < e ==> !ClosesFence(lines[k], o))
            && (e < |lines| ==> ClosesFence(lines[e], o))
            && StepAt(lines, i) == Step([Fence(o.lang, Join(lines[i + 1..e], "\n"))], if e < |lines| then e + 1 else e)
  {
    var o := FenceOpen(lines[i]).value;
    e := Scan(lines, i + 1, NotClosing(o));
    ScannedHold(lines, i + 1, NotClosing(o));
    assert forall k :: i < k < e ==> NotClosing(o)(lines[k]);
  }

  lemma {:induction false} ScannedHold(lines: seq<string>, i: nat, p: string -> bool)
    requires i <= |lines|
    ensures forall k :: i <= k < Scan(lines, i, p) ==> p(lines[k])
    decreases |lines| - i
  {
    if i < |lines| && p(lines[i]) {
      ScannedHold(lines, i + 1, p);
    }
  }

  // ----- Tables -----

  /** Nothing that comes before tables takes the line. */
  predicate PassesToTable(v: LineView) {
    !v.blank && v.fence.None? && !v.rule && v.heading.None? && !v.quote
  }

  lemma StepByTable(lines: seq<string>, i: nat, v: LineView, cells: seq<string>)
    requires i + 1 < |lines| && PassesToTable(v)
    ensures StepBy(lines, i, v, Some(cells)) == TableAt(lines, i, cells)
  {
  }

  // ----- List items -----

  lemma ItemIsNothingElse(line: string, ordered: bool)
    requires IsItem(line, ordered)
    ensures !Blank(line) && !IsFenceRun(line) && !IsRule(line) && !IsHeadingRun(line) && !IsQuote(line)
    ensures !ordered ==> !IsItem(line, true)
  {
    StartNotBlank(line);
    var at := Start(line).value;
    if ordered {
      assert '0' <= line[at] <= '9';
    } else {
      assert IsSpace(line[at + 1]);
      assert RunEnd(line, at, line[at]) == RunEnd(line, at + 1, line[at]) == at + 1;
      assert DigitsEnd(line, at) == at;
    }
  }

  lemma NoMarks(line: string)
    requires !IsFenceRun(line) && !IsHeadingRun(line)
    ensures FenceOpen(line).None? && ParseHeading(line).None?
  {
  }

  lemma ItemTaken(lines: seq<string>, i: nat, ordered: bool)
    requires i < |lines| && IsItem(lines[i], ordered) && !Contains(lines[i], '|')
    ensures StepAt(lines, i) == ListStep(lines, i, ordered)
  {
    ItemIsNothingElse(lines[i], ordered);
    NoMarks(lines[i]);
  }

  // ----- In the middle of a line -----

  lemma {:induction false} AloneSpells(s: string, t: string)
    requires Inlines(s) == [MarkdownInline.Text(t)]
    ensures s == t
  {
    InlineSpellsSource(s);
    var ns := Inlines(s);
    var k: nat :| SpellsCut(ns, s, k);
    assert ns[1..] == [] && ns[0] == MarkdownInline.Text(t);
    assert SpellsAll([], s[k..]) && s[k..] == "";
    assert Spells(MarkdownInline.Text(t), s[..k]) && s[..k] == t;
    assert s[..k] + s[k..] == s;
  }

  lemma ParagraphTaken(lines: seq<string>, i: nat)
    requires i < |lines| && IsParagraphLine(lines[i]) && !Contains(lines[i], '|')
    ensures StepAt(lines, i) == ParagraphStep(lines, i)
  {
    NotFenceNorHeading(lines[i]);
  }

  lemma ParagraphOf(lines: seq<string>)
    requires lines != [] && forall i :: 0 <= i < |lines| ==> IsParagraphLine(lines[i])
    requires !Contains(lines[0], '|')
    ensures ParseLines(lines) == Some([Paragraph(Inlines(Join(lines, " ")))])
  {
    AllScanned(lines, 0, IsParagraphLine);
    assert lines[0..|lines|] == lines;
    ParagraphTaken(lines, 0);
    LastStep(lines, 0);
  }

  lemma NotFenceNorHeading(line: string)
    requires IsParagraphLine(line)
    ensures FenceOpen(line).None? && ParseHeading(line).None?
  {
  }

  lemma {:induction false} AllScanned(lines: seq<string>, i: nat, p: string -> bool)
    requires i <= |lines| && forall k :: i <= k < |lines| ==> p(lines[k])
    ensures Scan(lines, i, p) == |lines|
    decreases |lines| - i
  {
    if i < |lines| {
      AllScanned(lines, i + 1, p);
    }
  }

  /** Letters and dashes that are no rule, no item and no marker make paragraph lines. */
  lemma WordLine(a: string, b: string, c: string)
    requires a == "p" && b == "---" && c == "---a"
    ensures IsParagraphLine(a) && IsParagraphLine(c) && IsRule(b) && FenceOpen(b).None? && !Blank(b)
    ensures !Contains(a, '|') && Inlines(a) == [MarkdownInline.Text(a)]
  {
    assert Start(a) == Some(0) && Start(b) == Some(0) && Start(c) == Some(0);
    assert DigitsEnd(a, 0) == 0 && DigitsEnd(b, 0) == 0 && DigitsEnd(c, 0) == 0;
    assert RunEnd(a, 0, 'p') == RunEnd(a, 1, 'p') == 1;
    assert RunEnd(b, 3, '-') == 3 && RunEnd(b, 2, '-') == 3 && RunEnd(b, 1, '-') == 3 && RunEnd(b, 0, '-') == 3;
    assert RunEnd(c, 3, '-') == 3 && RunEnd(c, 2, '-') == 3 && RunEnd(c, 1, '-') == 3 && RunEnd(c, 0, '-') == 3;
    assert b[3..] == "" && c[3..] == "a";
    assert SkipSpace("a", 0) == 0;
    assert a[1..] == "";
    WordAlone(a);
  }

  lemma WordAlone(a: string)
    requires a == "p"
    ensures Inlines(a) == [MarkdownInline.Text(a)]
  {
    assert CodeSpan(a, 0, RunEnd(a, 0, '`') - 0) == NoSpan;
    assert TokenAt(a, 0) == Literal(1);
    assert "" + a[0..1] == a;
    assert InlineFrom(a, 0, "") == InlineFrom(a, 1, "" + a[0..1]) == Flush(a);
  }

  /** A rule after a one-line paragraph. */
  lemma RuleAfterText(a: string, rule: string)
    requires OneLine(a) && OneLine(rule) && !Contains(a, '|')
    requires IsParagraphLine(a) && IsRule(rule) && FenceOpen(rule).None? && !Blank(rule)
    ensures ParseText(a + "\n" + rule) == Some([Paragraph(Inlines(a)), Rule])
  {
    TwoLines(a, rule);
    ParagraphThenRule(a, rule);
  }

  /** A line that goes on with the paragraph instead. */
  lemma TextAfterText(a: string, b: string)
    requires OneLine(a) && OneLine(b) && !Contains(a, '|') && IsParagraphLine(a) && IsParagraphLine(b)
    ensures ParseText(a + "\n" + b) == Some([Paragraph(Inlines(a + " " + b))])
  {
    TwoLines(a, b);
    ParagraphOf([a, b]);
    assert [a, b][1..] == [b];
    assert Join([a, b], " ") == a + " " + Join([b], " ");
  }

  predicate OneLine(s: string) {
    forall i :: 0 <= i < |s| ==> s[i] != '\n'
  }

  lemma TwoLines(a: string, b: string)
    requires OneLine(a) && OneLine(b)
    ensures Split(a + "\n" + b, '\n') == [a, b] && a + "\n" + b != ""
  {
    SplitOne(a);
    SplitOne(b);
    SplitAtNewline(a, b);
    assert [a] + [b] == [a, b];
  }

  lemma ParagraphThenRule(a: string, rule: string)
    requires !Contains(a, '|') && IsParagraphLine(a) && IsRule(rule) && FenceOpen(rule).None? && !Blank(rule)
    ensures ParseLines([a, rule]) == Some([Paragraph(Inlines(a)), Rule])
  {
    var lines := [a, rule];
    ParagraphTaken(lines, 0);
    assert Scan(lines, 1, IsParagraphLine) == 1 && Scan(lines, 0, IsParagraphLine) == 1;
    assert lines[0..1] == [a];
    assert Join([a], " ") == a;
    assert ParagraphStep(lines, 0) == Step([Paragraph(Inlines(a))], 1);
    assert StepAt(lines, 1) == Step([Rule], 2);
    LastStep(lines, 1);
    assert [Paragraph(Inlines(a))] + [Rule] == [Paragraph(Inlines(a)), Rule];
  }

  lemma ParagraphsDiffer(a: string, t: string)
    requires Inlines(a) == [MarkdownInline.Text(a)] && a != t
    ensures !(AllButLast([Paragraph(Inlines(a)), Rule]) <= [Paragraph(Inlines(t))])
  {
    if Inlines(t) == Inlines(a) {
      AloneSpells(t, a);
    }
    var x, y := [Paragraph(Inlines(a))], [Paragraph(Inlines(t))];
    assert AllButLast([Paragraph(Inlines(a)), Rule]) == x;
    assert x[0] != y[0];
  }

  lemma Appended(a: string, rule: string, more: string, b: string)
    requires b == rule + more
    ensures a + "\n" + rule + more == a + "\n" + b
  {
  }

  /** The paragraph is no longer what it was. */
  lemma ParagraphLost(before: Option<seq<Block>>, after: Option<seq<Block>>, a: string, t: string)
    requires before == Some([Paragraph(Inlines(a)), Rule]) && after == Some([Paragraph(Inlines(t))])
    requires Inlines(a) == [MarkdownInline.Text(a)] && a != t
    ensures before.Some? && after.Some? && !(AllButLast(before.value) <= after.value)
  {
    ParagraphsDiffer(a, t);
  }

  /**
   * The promise is one for whole lines only: a text that stops in the middle of a line may lose a finished
   * block. Here the rule `---`, going on as `---a`, turns into the second line of the paragraph before it.
   */
  lemma MidLineUnstable(a: string, rule: string, more: string)
    requires a == "p" && rule == "---" && more == "a"
    ensures ParseText(a + "\n" + rule).Some? && ParseText(a + "\n" + rule + more).Some?
    ensures !(AllButLast(ParseText(a + "\n" + rule).value) <= ParseText(a + "\n" + rule + more).value)
  {
    var b := rule + more;
    WordLine(a, rule, b);
    RuleAfterText(a, rule);
    TextAfterText(a, b);
    Appended(a, rule, more, b);
    ParagraphLost(ParseText(a + "\n" + rule), ParseText(a + "\n" + b), a, a + " " + b);
  }
}
