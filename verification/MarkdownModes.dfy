/**
 * A reading of the block tokenizer (src/lib/markdown.ts) line by line: what is open in front of each line. It
 * looks at one line and the one after it, and says where the tokenizer's iterations begin and end.
 */
module MarkdownModes {
  import opened Prelude
  import opened MarkdownInline
  import opened MarkdownBlocks
  import opened MarkdownLaws

  /** What the lines read so far have left open. */
  datatype Mode =
    | Free
    | InParagraph
    | InQuote
    | InList(ordered: bool)
    | InFence(o: Opening)
    | AtSeparator
    | InTable

  /** What a line opens that begins a block. */
  function BeginBy(v: LineView, table: bool): Mode {
    if v.blank then Free
    else if v.fence.Some? then InFence(v.fence.value)
    else if v.rule then Free
    else if v.heading.Some? then Free
    else if v.quote then InQuote
    else if table then AtSeparator
    else if v.ordered then InList(true)
    else if v.unordered then InList(false)
    else InParagraph
  }

  function Begin(lines: seq<string>, i: nat): Mode
    requires i < |lines|
  {
    BeginBy(View(lines[i]), TableHeader(lines, i).Some?)
  }

  /** The line belongs to what is open. */
  predicate GoesOn(mode: Mode, line: string) {
    match mode
    case Free => false
    case InParagraph => IsParagraphLine(line)
    case InQuote => IsQuote(line)
    case InList(ordered) => IsItem(line, ordered) || IsContinuation(line)
    case InFence(_) => true
    case AtSeparator => true
    case InTable => IsRow(line)
  }

  /** What is open after a line that belongs to what was open before it. */
  function Onward(mode: Mode, line: string): Mode {
    match mode
    case InFence(o) => if ClosesFence(line, o) then Free else mode
    case AtSeparator => InTable
    case _ => mode
  }

  /** How lines are read: what each opens, whether it belongs to what is open, and what it leaves open then. */
  datatype Rules = Rules(begin: nat -> Mode, goesOn: (Mode, string) -> bool, onward: (Mode, string) -> Mode)

  function BeginOf(lines: seq<string>): nat -> Mode {
    (i: nat) => if i < |lines| then Begin(lines, i) else Free
  }

  function RulesOf(lines: seq<string>): Rules {
    Rules(BeginOf(lines), GoesOn, Onward)
  }

  /** What is open in front of line k. */
  function ModeBy(r: Rules, lines: seq<string>, k: nat): Mode
    requires k <= |lines|
  {
    if k == 0 then Free
    else
      var before := ModeBy(r, lines, k - 1);
      if r.goesOn(before, lines[k - 1]) then r.onward(before, lines[k - 1]) else r.begin(k - 1)
  }

  function ModeAt(lines: seq<string>, k: nat): Mode
    requires k <= |lines|
  {
    ModeBy(RulesOf(lines), lines, k)
  }

  // ----- What the rules say -----

  ghost predicate Keeps(r: Rules, mode: Mode, p: string -> bool) {
    forall line :: (r.goesOn(mode, line) <==> p(line)) && r.onward(mode, line) == mode
  }

  ghost predicate FenceRules(r: Rules, o: Opening, p: string -> bool) {
    forall line :: r.goesOn(InFence(o), line) && r.onward(InFence(o), line) == if p(line) then InFence(o) else Free
  }

  ghost predicate ListRules(r: Rules, ordered: bool, p: string -> bool) {
    forall line :: (r.goesOn(InList(ordered), line) <==> p(line) || IsContinuation(line))
        && r.onward(InList(ordered), line) == InList(ordered)
  }

  ghost predicate FreeRules(r: Rules) {
    && (forall line :: !r.goesOn(Free, line))
    && (forall line :: r.goesOn(AtSeparator, line) && r.onward(AtSeparator, line) == InTable)
  }

  ghost predicate Says(r: Rules) {
    && Keeps(r, InParagraph, IsParagraphLine) && Keeps(r, InQuote, IsQuote) && Keeps(r, InTable, IsRow)
    && (forall ordered :: ListRules(r, ordered, ItemTest(ordered)))
    && (forall o :: FenceRules(r, o, NotClosing(o)))
    && FreeRules(r)
  }

  lemma KeepsSay(lines: seq<string>)
    ensures var r := RulesOf(lines);
            Keeps(r, InParagraph, IsParagraphLine) && Keeps(r, InQuote, IsQuote) && Keeps(r, InTable, IsRow)
  {
    var r := RulesOf(lines);
    forall line ensures (r.goesOn(InParagraph, line) <==> IsParagraphLine(line))
        && r.onward(InParagraph, line) == InParagraph {
    }
    forall line ensures (r.goesOn(InQuote, line) <==> IsQuote(line)) && r.onward(InQuote, line) == InQuote {
    }
    forall line ensures (r.goesOn(InTable, line) <==> IsRow(line)) && r.onward(InTable, line) == InTable {
    }
  }

  lemma ListSays(lines: seq<string>, ordered: bool)
    ensures ListRules(RulesOf(lines), ordered, ItemTest(ordered))
  {
  }

  lemma FenceSays(lines: seq<string>, o: Opening)
    ensures FenceRules(RulesOf(lines), o, NotClosing(o))
  {
  }

  lemma FreeSays(lines: seq<string>)
    ensures FreeRules(RulesOf(lines))
  {
  }

  lemma RulesSay(lines: seq<string>)
    ensures Says(RulesOf(lines))
  {
    KeepsSay(lines);
    FreeSays(lines);
    forall ordered ensures ListRules(RulesOf(lines), ordered, ItemTest(ordered)) {
      ListSays(lines, ordered);
    }
    forall o ensures FenceRules(RulesOf(lines), o, NotClosing(o)) {
      FenceSays(lines, o);
    }
  }

  // ----- Each iteration, line by line -----

  lemma {:induction false} Stay(r: Rules, lines: seq<string>, from: nat, e: nat, mode: Mode)
    requires from <= e <= |lines| && ModeBy(r, lines, from) == mode
    requires forall j :: from <= j < e ==> r.goesOn(mode, lines[j]) && r.onward(mode, lines[j]) == mode
    ensures forall k :: from <= k <= e ==> ModeBy(r, lines, k) == mode
    decreases e
  {
    if from < e {
      Stay(r, lines, from, e - 1, mode);
      assert r.goesOn(mode, lines[e - 1]);
    }
  }

  /** What is open in front of line k inside the block that begins at i. */
  function Within(mode: Mode, i: nat, k: nat): Mode {
    if mode == AtSeparator && k > i + 1 then InTable else mode
  }

  /** What is open after the whole block, as far as a further line is concerned. */
  function After(mode: Mode): Mode {
    if mode == AtSeparator then InTable else if mode.InFence? then Free else mode
  }

  /** The lines from i to e are one block, and line e is not part of it. */
  ghost predicate IsBlock(r: Rules, lines: seq<string>, i: nat, mode: Mode, e: nat) {
    && i < e <= |lines|
    && (forall k :: i < k < e ==> ModeBy(r, lines, k) == Within(mode, i, k) && r.goesOn(Within(mode, i, k), lines[k]))
    && (e < |lines| ==> ModeBy(r, lines, e) == After(mode) && !r.goesOn(After(mode), lines[e]))
  }

  lemma {:induction false} ItemsSpan(lines: seq<string>, i: nat, p: string -> bool, f: string -> seq<Inline>)
    requires i <= |lines|
    ensures var e := ListItems(lines, i, p, f).next;
            && (forall k :: i <= k < e ==> p(lines[k]) || IsContinuation(lines[k]))
            && (e < |lines| ==> !p(lines[e]) && (e > i ==> !IsContinuation(lines[e])))
    decreases |lines| - i
  {
    if i < |lines| && p(lines[i]) {
      var j := Scan(lines, i + 1, IsContinuation);
      ScannedHold(lines, i + 1, IsContinuation);
      ItemsSpan(lines, j, p, f);
    }
  }

  lemma ScanBlock(r: Rules, lines: seq<string>, i: nat, mode: Mode, p: string -> bool)
    requires i < |lines| && ModeBy(r, lines, i + 1) == mode && Keeps(r, mode, p) && mode != AtSeparator
    requires !mode.InFence?
    requires p(lines[i])
    ensures IsBlock(r, lines, i, mode, Scan(lines, i, p))
  {
    ScannedHold(lines, i, p);
    Stay(r, lines, i + 1, Scan(lines, i, p), mode);
  }

  lemma TableBlock(r: Rules, lines: seq<string>, i: nat, p: string -> bool)
    requires i + 1 < |lines| && ModeBy(r, lines, i + 1) == AtSeparator && FreeRules(r) && Keeps(r, InTable, p)
    ensures IsBlock(r, lines, i, AtSeparator, Scan(lines, i + 2, p))
  {
    ScannedHold(lines, i + 2, p);
    assert ModeBy(r, lines, i + 2) == InTable;
    Stay(r, lines, i + 2, Scan(lines, i + 2, p), InTable);
  }

  lemma ListBlock(r: Rules, lines: seq<string>, i: nat, ordered: bool, p: string -> bool, f: string -> seq<Inline>)
    requires i < |lines| && ModeBy(r, lines, i + 1) == InList(ordered) && ListRules(r, ordered, p) && p(lines[i])
    ensures IsBlock(r, lines, i, InList(ordered), ListItems(lines, i, p, f).next)
  {
    ItemsSpan(lines, i, p, f);
    Stay(r, lines, i + 1, ListItems(lines, i, p, f).next, InList(ordered));
  }

  lemma FenceBlock(r: Rules, lines: seq<string>, i: nat, o: Opening, p: string -> bool)
    requires i < |lines| && ModeBy(r, lines, i + 1) == InFence(o) && FenceRules(r, o, p) && FreeRules(r)
    ensures var e := Scan(lines, i + 1, p); IsBlock(r, lines, i, InFence(o), if e < |lines| then e + 1 else e)
  {
    var e := Scan(lines, i + 1, p);
    ScannedHold(lines, i + 1, p);
    Stay(r, lines, i + 1, e, InFence(o));
  }

  lemma BeginsFree(lines: seq<string>, i: nat, v: LineView, table: Option<seq<string>>)
    requires i < |lines| && (table.Some? ==> i + 1 < |lines|) && BeginBy(v, table.Some?) == Free
    ensures StepBy(lines, i, v, table).next == i + 1
  {
  }

  lemma BeginsParagraph(lines: seq<string>, i: nat, v: LineView, table: Option<seq<string>>)
    requires i < |lines| && (table.Some? ==> i + 1 < |lines|) && BeginBy(v, table.Some?) == InParagraph
    ensures StepBy(lines, i, v, table) == ParagraphStep(lines, i)
  {
  }

  lemma BeginsQuote(lines: seq<string>, i: nat, v: LineView, table: Option<seq<string>>)
    requires i < |lines| && (table.Some? ==> i + 1 < |lines|) && BeginBy(v, table.Some?) == InQuote
    ensures StepBy(lines, i, v, table) == QuoteStep(lines, i)
  {
  }

  lemma BeginsList(lines: seq<string>, i: nat, v: LineView, table: Option<seq<string>>, ordered: bool)
    requires i < |lines| && (table.Some? ==> i + 1 < |lines|) && BeginBy(v, table.Some?) == InList(ordered)
    ensures StepBy(lines, i, v, table) == ListStep(lines, i, ordered)
  {
  }

  lemma BeginsFence(lines: seq<string>, i: nat, v: LineView, table: Option<seq<string>>)
    requires i < |lines| && (table.Some? ==> i + 1 < |lines|) && BeginBy(v, table.Some?).InFence?
    ensures StepBy(lines, i, v, table) == FenceStep(lines, i, BeginBy(v, table.Some?).o)
  {
  }

  lemma PassesToTables(v: LineView)
    requires BeginBy(v, true) == AtSeparator
    ensures PassesToTable(v)
  {
  }

  lemma BlockScan(r: Rules, lines: seq<string>, i: nat, mode: Mode, s: Step, p: string -> bool)
    requires i < |lines| && s.next == Scan(lines, i, p) && i < s.next
    requires ModeBy(r, lines, i + 1) == mode && Keeps(r, mode, p) && mode != AtSeparator && !mode.InFence?
    ensures IsBlock(r, lines, i, mode, s.next)
  {
    ScanBlock(r, lines, i, mode, p);
  }

  lemma BlockList(r: Rules, lines: seq<string>, i: nat, ordered: bool, s: Step, p: string -> bool,
      f: string -> seq<Inline>)
    requires i < |lines| && s.next == ListItems(lines, i, p, f).next && i < s.next
    requires ModeBy(r, lines, i + 1) == InList(ordered) && ListRules(r, ordered, p)
    ensures IsBlock(r, lines, i, InList(ordered), s.next)
  {
    ListBlock(r, lines, i, ordered, p, f);
  }

  lemma BlockFence(r: Rules, lines: seq<string>, i: nat, o: Opening, s: Step)
    requires i < |lines| && s == FenceStep(lines, i, o) && ModeBy(r, lines, i + 1) == InFence(o)
    requires FreeRules(r) && forall o :: FenceRules(r, o, NotClosing(o))
    ensures IsBlock(r, lines, i, InFence(o), s.next)
  {
    FenceBlock(r, lines, i, o, NotClosing(o));
  }

  lemma BlockFreeBy(r: Rules, lines: seq<string>, i: nat, v: LineView, table: Option<seq<string>>, s: Step)
    requires i < |lines| && (table.Some? ==> i + 1 < |lines|) && s == StepBy(lines, i, v, table) && i < s.next
    requires BeginBy(v, table.Some?) == Free && ModeBy(r, lines, i + 1) == BeginBy(v, table.Some?) && Says(r)
    ensures IsBlock(r, lines, i, BeginBy(v, table.Some?), s.next)
  {
    BeginsFree(lines, i, v, table);
    assert FreeRules(r);
  }

  lemma BlockParagraphBy(r: Rules, lines: seq<string>, i: nat, v: LineView, table: Option<seq<string>>, s: Step)
    requires i < |lines| && (table.Some? ==> i + 1 < |lines|) && s == StepBy(lines, i, v, table) && i < s.next
    requires BeginBy(v, table.Some?) == InParagraph && ModeBy(r, lines, i + 1) == BeginBy(v, table.Some?) && Says(r)
    ensures IsBlock(r, lines, i, BeginBy(v, table.Some?), s.next)
  {
    BeginsParagraph(lines, i, v, table);
    BlockScan(r, lines, i, InParagraph, s, IsParagraphLine);
  }

  lemma BlockQuoteBy(r: Rules, lines: seq<string>, i: nat, v: LineView, table: Option<seq<string>>, s: Step)
    requires i < |lines| && (table.Some? ==> i + 1 < |lines|) && s == StepBy(lines, i, v, table) && i < s.next
    requires BeginBy(v, table.Some?) == InQuote && ModeBy(r, lines, i + 1) == BeginBy(v, table.Some?) && Says(r)
    ensures IsBlock(r, lines, i, BeginBy(v, table.Some?), s.next)
  {
    BeginsQuote(lines, i, v, table);
    BlockScan(r, lines, i, InQuote, s, IsQuote);
  }

  lemma BlockListBy(r: Rules, lines: seq<string>, i: nat, v: LineView, table: Option<seq<string>>, s: Step)
    requires i < |lines| && (table.Some? ==> i + 1 < |lines|) && s == StepBy(lines, i, v, table) && i < s.next
    requires BeginBy(v, table.Some?).InList? && ModeBy(r, lines, i + 1) == BeginBy(v, table.Some?) && Says(r)
    ensures IsBlock(r, lines, i, BeginBy(v, table.Some?), s.next)
  {
    var ordered := BeginBy(v, table.Some?).ordered;
    BeginsList(lines, i, v, table, ordered);
    BlockList(r, lines, i, ordered, s, ItemTest(ordered), ItemInlines(ordered));
  }

  lemma BlockFenceBy(r: Rules, lines: seq<string>, i: nat, v: LineView, table: Option<seq<string>>, s: Step)
    requires i < |lines| && (table.Some? ==> i + 1 < |lines|) && s == StepBy(lines, i, v, table) && i < s.next
    requires BeginBy(v, table.Some?).InFence? && ModeBy(r, lines, i + 1) == BeginBy(v, table.Some?) && Says(r)
    ensures IsBlock(r, lines, i, BeginBy(v, table.Some?), s.next)
  {
    BeginsFence(lines, i, v, table);
    BlockFence(r, lines, i, BeginBy(v, table.Some?).o, s);
  }

  lemma BlockTable(r: Rules, lines: seq<string>, i: nat, cells: seq<string>, s: Step)
    requires i + 1 < |lines| && s == TableAt(lines, i, cells)
    requires ModeBy(r, lines, i + 1) == AtSeparator && FreeRules(r) && Keeps(r, InTable, IsRow)
    ensures IsBlock(r, lines, i, AtSeparator, s.next)
  {
    TableBlock(r, lines, i, IsRow);
  }

  lemma BlockTableBy(r: Rules, lines: seq<string>, i: nat, v: LineView, cells: seq<string>, s: Step)
    requires i + 1 < |lines| && s == StepBy(lines, i, v, Some(cells)) && i < s.next
    requires BeginBy(v, true) == AtSeparator && ModeBy(r, lines, i + 1) == AtSeparator && Says(r)
    ensures IsBlock(r, lines, i, AtSeparator, s.next)
  {
    PassesToTables(v);
    StepByTable(lines, i, v, cells);
    BlockTable(r, lines, i, cells, s);
  }

  /** Every iteration that advances goes exactly over the block that begins there. */
  lemma BlockBy(r: Rules, lines: seq<string>, i: nat, v: LineView, table: Option<seq<string>>, s: Step)
    requires i < |lines| && (table.Some? ==> i + 1 < |lines|) && s == StepBy(lines, i, v, table) && i < s.next
    requires ModeBy(r, lines, i + 1) == BeginBy(v, table.Some?) && Says(r)
    ensures IsBlock(r, lines, i, BeginBy(v, table.Some?), s.next)
  {
    match BeginBy(v, table.Some?)
    case Free => BlockFreeBy(r, lines, i, v, table, s);
    case InParagraph => BlockParagraphBy(r, lines, i, v, table, s);
    case InQuote => BlockQuoteBy(r, lines, i, v, table, s);
    case InList(_) => BlockListBy(r, lines, i, v, table, s);
    case InFence(_) => BlockFenceBy(r, lines, i, v, table, s);
    case AtSeparator => BlockTableBy(r, lines, i, v, table.value, s);
  }

  /** A block begins at this line, if there is one. */
  predicate StartsBlock(r: Rules, lines: seq<string>, i: nat) {
    i <= |lines| && (i < |lines| ==> !r.goesOn(ModeBy(r, lines, i), lines[i]))
  }

  lemma BeginOnBoundary(r: Rules, lines: seq<string>, i: nat)
    requires i < |lines| && StartsBlock(r, lines, i)
    ensures ModeBy(r, lines, i + 1) == r.begin(i)
  {
  }

  /** The lines of an iteration are read in the modes of its block, and the next block begins where it ends. */
  lemma StepBlock(r: Rules, lines: seq<string>, i: nat, s: Step)
    requires r == RulesOf(lines) && i < |lines| && StartsBlock(r, lines, i) && s == StepAt(lines, i) && i < s.next
    ensures IsBlock(r, lines, i, Begin(lines, i), s.next)
  {
    RulesSay(lines);
    BeginOnBoundary(r, lines, i);
    BlockBy(r, lines, i, View(lines[i]), TableHeader(lines, i), s);
  }

  lemma NextStartsBlock(r: Rules, lines: seq<string>, i: nat, mode: Mode, e: nat)
    requires i < |lines| && IsBlock(r, lines, i, mode, e)
    ensures StartsBlock(r, lines, e)
  {
  }

  // ----- Where the parser ends -----

  /** The line is content of a fence, or the separator or a row of a table. */
  predicate Covered(mode: Mode, line: string) {
    mode.InFence? || mode == AtSeparator || (mode == InTable && IsRow(line))
  }

  /** A jamming line outside fences and tables that starts no table. */
  predicate Loops(lines: seq<string>, k: nat) {
    k < |lines| && Jams(lines[k]) && !Covered(ModeAt(lines, k), lines[k]) && !IsTableStart(lines, k)
  }

  /** Only a fence or a table goes on with a line that jams. */
  lemma JamsGoOnCovered(line: string, mode: Mode)
    requires Jams(line) && GoesOn(mode, line)
    ensures Covered(mode, line)
  {
    JamsAreNothingElse(line);
  }

  lemma NotCoveredOutside(line: string, mode: Mode)
    requires !GoesOn(mode, line)
    ensures !Covered(mode, line)
  {
  }

  lemma StuckLoops(lines: seq<string>, i: nat)
    requires i < |lines| && !GoesOn(ModeAt(lines, i), lines[i])
    ensures StepAt(lines, i).next == i <==> Loops(lines, i)
  {
    StepAdvancesExactly(lines, i);
    NotCoveredOutside(lines[i], ModeAt(lines, i));
  }

  lemma InsideNeverLoops(lines: seq<string>, k: nat)
    requires k < |lines| && GoesOn(ModeAt(lines, k), lines[k])
    ensures !Loops(lines, k)
  {
    if Jams(lines[k]) {
      JamsGoOnCovered(lines[k], ModeAt(lines, k));
    }
  }

  /** No iteration gets stuck at a line from i up to e. */
  ghost predicate NeverLoops(lines: seq<string>, i: nat, e: nat) {
    forall k :: i <= k < e ==> !Loops(lines, k)
  }

  lemma JoinNeverLoops(lines: seq<string>, i: nat, j: nat, e: nat)
    requires i <= j <= e
    ensures NeverLoops(lines, i, e) <==> NeverLoops(lines, i, j) && NeverLoops(lines, j, e)
  {
  }

  lemma LoopsAtOnce(lines: seq<string>, i: nat, e: nat)
    requires i < e && Loops(lines, i)
    ensures !NeverLoops(lines, i, e)
  {
  }

  lemma LineOfBlock(r: Rules, lines: seq<string>, i: nat, mode: Mode, e: nat, k: nat)
    requires i < k < e && IsBlock(r, lines, i, mode, e)
    ensures r.goesOn(ModeBy(r, lines, k), lines[k])
  {
  }

  lemma BlockNeverLoops(r: Rules, lines: seq<string>, i: nat, mode: Mode, e: nat)
    requires r == RulesOf(lines) && i < |lines| && IsBlock(r, lines, i, mode, e) && !Loops(lines, i)
    ensures NeverLoops(lines, i, e)
  {
    forall k | i < k < e ensures !Loops(lines, k) {
      LineOfBlock(r, lines, i, mode, e, k);
      InsideNeverLoops(lines, k);
    }
  }

  /** One iteration gets stuck at its first line or goes over a whole block. */
  lemma OneIteration(r: Rules, lines: seq<string>, i: nat, s: Step)
    requires r == RulesOf(lines) && i < |lines| && StartsBlock(r, lines, i) && s == StepAt(lines, i)
    ensures s.next == i ==> Loops(lines, i)
    ensures i < s.next ==> NeverLoops(lines, i, s.next) && StartsBlock(r, lines, s.next)
  {
    StuckLoops(lines, i);
    if i < s.next {
      StepBlock(r, lines, i, s);
      NextStartsBlock(r, lines, i, Begin(lines, i), s.next);
      BlockNeverLoops(r, lines, i, Begin(lines, i), s.next);
    }
  }

  lemma ParseOn(lines: seq<string>, i: nat, s: Step)
    requires i < |lines| && s == StepAt(lines, i)
    ensures ParseFrom(lines, i).Some? <==> i < s.next && ParseFrom(lines, s.next).Some?
  {
  }

  lemma {:induction false} EndsFrom(r: Rules, lines: seq<string>, i: nat)
    requires r == RulesOf(lines) && StartsBlock(r, lines, i)
    ensures ParseFrom(lines, i).Some? <==> NeverLoops(lines, i, |lines|)
    decreases |lines| - i
  {
    if i < |lines| {
      var s := StepAt(lines, i);
      ParseOn(lines, i, s);
      OneIteration(r, lines, i, s);
      if i < s.next {
        EndsFrom(r, lines, s.next);
        JoinNeverLoops(lines, i, s.next, |lines|);
      } else {
        LoopsAtOnce(lines, i, |lines|);
      }
    }
  }

  /**
   * The parser comes to an end exactly when every jamming line is content of a fence, belongs to a table or
   * starts one, as a reading line by line tells.
   */
  lemma EndsExactly(lines: seq<string>)
    ensures ParseLines(lines).Some? <==> forall k :: 0 <= k < |lines| ==> !Loops(lines, k)
  {
    EndsFrom(RulesOf(lines), lines, 0);
  }

  lemma {:induction false} NeverOpened(r: Rules, lines: seq<string>, k: nat)
    requires k <= |lines|
    requires forall j: nat :: j < |lines| ==>
               r.begin(j) != AtSeparator && !r.begin(j).InFence? && r.begin(j) != InTable
    requires forall mode, line :: mode == AtSeparator || mode.InFence? || r.onward(mode, line) == mode
    ensures var mode := ModeBy(r, lines, k); mode != AtSeparator && !mode.InFence? && mode != InTable
  {
    if k > 0 {
      NeverOpened(r, lines, k - 1);
    }
  }

  lemma OnwardOutside()
    ensures forall mode, line :: mode == AtSeparator || mode.InFence? || Onward(mode, line) == mode
  {
  }

  lemma NothingOpens(lines: seq<string>, j: nat)
    requires j < |lines| && FenceOpen(lines[j]).None? && !IsTableStart(lines, j)
    ensures var mode := BeginOf(lines)(j); mode != AtSeparator && !mode.InFence? && mode != InTable
  {
  }

  /** Where no line opens a fence and none starts a table: exactly when no line jams. */
  lemma EndsExactlyWithoutFences(lines: seq<string>)
    requires forall j :: 0 <= j < |lines| ==> FenceOpen(lines[j]).None? && !IsTableStart(lines, j)
    ensures ParseLines(lines).Some? <==> forall k :: 0 <= k < |lines| ==> !Jams(lines[k])
  {
    var r := RulesOf(lines);
    forall j: nat | j < |lines| ensures r.begin(j) != AtSeparator && !r.begin(j).InFence? && r.begin(j) != InTable {
      NothingOpens(lines, j);
    }
    OnwardOutside();
    EndsExactly(lines);
    forall k | 0 <= k < |lines| ensures Loops(lines, k) <==> Jams(lines[k]) {
      NeverOpened(r, lines, k);
      assert !IsTableStart(lines, k);
    }
  }
}
