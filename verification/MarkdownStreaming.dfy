/**
 * Which finished blocks an unfinished line can still change (src/lib/markdown.ts): the last line of a text goes on,
 * and what was read before it stays, except where the line can go back into the block in front of it.
 */
module MarkdownStreaming {
  import opened Prelude
  import opened MarkdownInline
  import opened MarkdownBlocks
  import opened MarkdownLaws
  import opened MarkdownModes
  import opened MarkdownLines

  // ----- The same lines give the same block -----

  /** Two lists of lines agree from i up to e. */
  predicate Agree(a: seq<string>, b: seq<string>, i: nat, e: nat) {
    i <= e <= |a| && e <= |b| && a[i..e] == b[i..e]
  }

  lemma AgreeAt(a: seq<string>, b: seq<string>, i: nat, e: nat, k: nat)
    requires Agree(a, b, i, e) && i <= k < e
    ensures a[k] == b[k]
  {
    assert a[i..e][k - i] == b[i..e][k - i];
  }

  lemma AgreeOnPart(a: seq<string>, b: seq<string>, i: nat, e: nat, j: nat, f: nat)
    requires Agree(a, b, i, e) && i <= j <= f <= e
    ensures Agree(a, b, j, f)
  {
    SliceOfSlice(a, i, e, j, f);
    SliceOfSlice(b, i, e, j, f);
  }

  lemma {:induction false} ScanAgain(a: seq<string>, b: seq<string>, i: nat, e: nat, p: string -> bool)
    requires Agree(a, b, i, e) && Scan(a, i, p) == e && (e < |b| ==> !p(b[e]))
    ensures Scan(b, i, p) == e
    decreases e - i
  {
    if i < e {
      AgreeAt(a, b, i, e, i);
      AgreeOnPart(a, b, i, e, i + 1, e);
      ScanAgain(a, b, i + 1, e, p);
    }
  }

  lemma ScanAgainInside(a: seq<string>, b: seq<string>, i: nat, e: nat, p: string -> bool)
    requires Agree(a, b, i, e) && Scan(a, i, p) < e
    ensures Scan(b, i, p) == Scan(a, i, p)
  {
    var m := Scan(a, i, p);
    AgreeAt(a, b, i, e, m);
    AgreeOnPart(a, b, i, e, i, m);
    ScanAgain(a, b, i, m, p);
  }

  lemma {:induction false} ItemsAgain(a: seq<string>, b: seq<string>, i: nat, e: nat, p: string -> bool,
      f: string -> seq<Inline>)
    requires Agree(a, b, i, e) && ListItems(a, i, p, f).next == e && (e < |b| ==> !p(b[e]) && !IsContinuation(b[e]))
    ensures ListItems(b, i, p, f) == ListItems(a, i, p, f)
    decreases e - i
  {
    if i < e {
      AgreeAt(a, b, i, e, i);
      var j := Scan(a, i + 1, IsContinuation);
      AgreeOnPart(a, b, i, e, i + 1, e);
      if j < e {
        ScanAgainInside(a, b, i + 1, e, IsContinuation);
      } else {
        ScanAgain(a, b, i + 1, e, IsContinuation);
      }
      AgreeOnPart(a, b, i, e, j, e);
      ItemsAgain(a, b, j, e, p, f);
    }
  }

  lemma QuoteAgain(a: seq<string>, b: seq<string>, i: nat, s: Step)
    requires i < |a| && i < |b| && s == QuoteStep(a, i) && Agree(a, b, i, s.next)
    requires s.next < |b| ==> !IsQuote(b[s.next])
    ensures QuoteStep(b, i) == s
  {
    ScanAgain(a, b, i, s.next, IsQuote);
  }

  lemma ParagraphAgain(a: seq<string>, b: seq<string>, i: nat, s: Step)
    requires i < |a| && i < |b| && s == ParagraphStep(a, i) && Agree(a, b, i, s.next)
    requires s.next < |b| ==> !IsParagraphLine(b[s.next])
    ensures ParagraphStep(b, i) == s
  {
    ScanAgain(a, b, i, s.next, IsParagraphLine);
  }

  lemma TableStepAgain(a: seq<string>, b: seq<string>, i: nat, headers: seq<seq<Inline>>,
      row: string -> seq<seq<Inline>>, s: Step)
    requires i + 1 < |a| && i + 1 < |b| && s == TableStep(a, i, headers, row) && i + 2 <= s.next
    requires Agree(a, b, i + 2, s.next) && (s.next < |b| ==> !IsRow(b[s.next]))
    ensures TableStep(b, i, headers, row) == s
  {
    ScanAgain(a, b, i + 2, s.next, IsRow);
  }

  lemma TableLength(a: seq<string>, i: nat, cells: seq<string>)
    requires i + 1 < |a|
    ensures TableAt(a, i, cells).next == Scan(a, i + 2, IsRow) >= i + 2
  {
  }

  lemma TableAgain(a: seq<string>, b: seq<string>, i: nat, cells: seq<string>, s: Step)
    requires i + 1 < |a| && i + 1 < |b| && s == TableAt(a, i, cells) && i + 2 <= s.next
    requires Agree(a, b, i + 2, s.next) && (s.next < |b| ==> !IsRow(b[s.next]))
    ensures TableAt(b, i, cells) == s
  {
    TableStepAgain(a, b, i, Map(cells, Inlines), RowOf(|cells|), s);
  }

  lemma ListAgain(a: seq<string>, b: seq<string>, i: nat, ordered: bool, s: Step)
    requires i < |a| && i < |b| && s == ListStep(a, i, ordered) && Agree(a, b, i, s.next)
    requires s.next < |b| ==> !ItemTest(ordered)(b[s.next]) && !IsContinuation(b[s.next])
    ensures ListStep(b, i, ordered) == s
  {
    ItemsAgain(a, b, i, s.next, ItemTest(ordered), ItemInlines(ordered));
  }

  lemma FenceAgain(a: seq<string>, b: seq<string>, i: nat, o: Opening, s: Step)
    requires i < |a| && i < |b| && s == FenceStep(a, i, o) && Agree(a, b, i, s.next)
    requires s.next < |a| || |a| == |b|
    ensures FenceStep(b, i, o) == s
  {
    var e := Scan(a, i + 1, NotClosing(o));
    AgreeOnPart(a, b, i, s.next, i + 1, s.next);
    if e < s.next {
      ScanAgainInside(a, b, i + 1, s.next, NotClosing(o));
    } else {
      ScanAgain(a, b, i + 1, s.next, NotClosing(o));
    }
    AgreeOnPart(a, b, i, s.next, i + 1, e);
  }

  lemma SameBegin(v: LineView, ta: Option<seq<string>>, tb: Option<seq<string>>)
    requires ta == tb || !PassesToTable(v)
    ensures BeginBy(v, ta.Some?) == BeginBy(v, tb.Some?)
  {
  }

  lemma ParagraphBlockAgain(r: Rules, a: seq<string>, b: seq<string>, i: nat, v: LineView, ta: Option<seq<string>>,
      tb: Option<seq<string>>,
                     s: Step)
    requires i < |a| && i < |b| && (ta.Some? ==> i + 1 < |a|) && (tb.Some? ==> i + 1 < |b|)
    requires Says(r) && s == StepBy(a, i, v, ta) && i < s.next && (s.next < |a| || |a| == |b|) && Agree(a, b, i, s.next)
    requires ta == tb || !PassesToTable(v)
    requires s.next < |b| ==> !r.goesOn(After(BeginBy(v, ta.Some?)), b[s.next])
    requires BeginBy(v, ta.Some?) == InParagraph
    ensures StepBy(b, i, v, tb) == s
  {
    BeginsParagraph(a, i, v, ta);
    SameBegin(v, ta, tb);
    BeginsParagraph(b, i, v, tb);
    ParagraphAgain(a, b, i, s);
  }

  lemma QuoteBlockAgain(r: Rules, a: seq<string>, b: seq<string>, i: nat, v: LineView, ta: Option<seq<string>>,
      tb: Option<seq<string>>,
                     s: Step)
    requires i < |a| && i < |b| && (ta.Some? ==> i + 1 < |a|) && (tb.Some? ==> i + 1 < |b|)
    requires Says(r) && s == StepBy(a, i, v, ta) && i < s.next && (s.next < |a| || |a| == |b|) && Agree(a, b, i, s.next)
    requires ta == tb || !PassesToTable(v)
    requires s.next < |b| ==> !r.goesOn(After(BeginBy(v, ta.Some?)), b[s.next])
    requires BeginBy(v, ta.Some?) == InQuote
    ensures StepBy(b, i, v, tb) == s
  {
    BeginsQuote(a, i, v, ta);
    SameBegin(v, ta, tb);
    BeginsQuote(b, i, v, tb);
    QuoteAgain(a, b, i, s);
  }

  lemma ListBlockAgain(a: seq<string>, b: seq<string>, i: nat, v: LineView, ta: Option<seq<string>>,
      tb: Option<seq<string>>, s: Step,
                       ordered: bool)
    requires i < |a| && i < |b| && (ta.Some? ==> i + 1 < |a|) && (tb.Some? ==> i + 1 < |b|)
    requires s == StepBy(a, i, v, ta) && i < s.next && Agree(a, b, i, s.next)
    requires BeginBy(v, ta.Some?) == BeginBy(v, tb.Some?) == InList(ordered)
    requires s.next < |b| ==> !ItemTest(ordered)(b[s.next]) && !IsContinuation(b[s.next])
    ensures StepBy(b, i, v, tb) == s
  {
    BeginsList(a, i, v, ta, ordered);
    BeginsList(b, i, v, tb, ordered);
    ListAgain(a, b, i, ordered, s);
  }

  lemma FenceBlockAgain(r: Rules, a: seq<string>, b: seq<string>, i: nat, v: LineView, ta: Option<seq<string>>,
      tb: Option<seq<string>>,
                     s: Step)
    requires i < |a| && i < |b| && (ta.Some? ==> i + 1 < |a|) && (tb.Some? ==> i + 1 < |b|)
    requires Says(r) && s == StepBy(a, i, v, ta) && i < s.next && (s.next < |a| || |a| == |b|) && Agree(a, b, i, s.next)
    requires ta == tb || !PassesToTable(v)
    requires s.next < |b| ==> !r.goesOn(After(BeginBy(v, ta.Some?)), b[s.next])
    requires BeginBy(v, ta.Some?).InFence?
    ensures StepBy(b, i, v, tb) == s
  {
    BeginsFence(a, i, v, ta);
    SameBegin(v, ta, tb);
    BeginsFence(b, i, v, tb);
    FenceAgain(a, b, i, BeginBy(v, ta.Some?).o, s);
  }

  lemma TableBlockAgain(a: seq<string>, b: seq<string>, i: nat, v: LineView, cells: seq<string>, s: Step)
    requires i + 1 < |a| && i + 1 < |b| && PassesToTable(v) && s == StepBy(a, i, v, Some(cells)) && i < s.next
    requires Agree(a, b, i, s.next) && (s.next < |b| ==> !IsRow(b[s.next]))
    ensures StepBy(b, i, v, Some(cells)) == s
  {
    StepByTable(a, i, v, cells);
    StepByTable(b, i, v, cells);
    TableLength(a, i, cells);
    AgreeOnPart(a, b, i, s.next, i + 2, s.next);
    TableAgain(a, b, i, cells, s);
  }

  lemma OutsideList(r: Rules, ordered: bool, line: string)
    requires Says(r) && !r.goesOn(InList(ordered), line)
    ensures !ItemTest(ordered)(line) && !IsContinuation(line)
  {
    assert ListRules(r, ordered, ItemTest(ordered));
  }

  lemma OutsideTable(r: Rules, line: string)
    requires Says(r) && !r.goesOn(InTable, line)
    ensures !IsRow(line)
  {
    assert Keeps(r, InTable, IsRow);
  }

  lemma ListOrTableAgain(r: Rules, a: seq<string>, b: seq<string>, i: nat, v: LineView, ta: Option<seq<string>>,
      tb: Option<seq<string>>,
                         s: Step)
    requires i < |a| && i < |b| && (ta.Some? ==> i + 1 < |a|) && (tb.Some? ==> i + 1 < |b|)
    requires Says(r) && s == StepBy(a, i, v, ta) && i < s.next && (s.next < |a| || |a| == |b|) && Agree(a, b, i, s.next)
    requires ta == tb || !PassesToTable(v)
    requires BeginBy(v, ta.Some?).InList? || BeginBy(v, ta.Some?) == AtSeparator
    requires s.next < |b| ==> !r.goesOn(After(BeginBy(v, ta.Some?)), b[s.next])
    ensures StepBy(b, i, v, tb) == s
  {
    SameBegin(v, ta, tb);
    var mode := BeginBy(v, ta.Some?);
    if mode.InList? {
      if s.next < |b| {
        OutsideList(r, mode.ordered, b[s.next]);
      }
      ListBlockAgain(a, b, i, v, ta, tb, s, mode.ordered);
    } else {
      PassesToTables(v);
      if s.next < |b| {
        OutsideTable(r, b[s.next]);
      }
      TableBlockAgain(a, b, i, v, ta.value, s);
    }
  }

  /**
   * A block is read again wherever the same lines stand and the next one is no part of it, or there is none in either.
   */
  lemma BlockAgain(r: Rules, a: seq<string>, b: seq<string>, i: nat, v: LineView, ta: Option<seq<string>>,
      tb: Option<seq<string>>,
                     s: Step)
    requires i < |a| && i < |b| && (ta.Some? ==> i + 1 < |a|) && (tb.Some? ==> i + 1 < |b|)
    requires Says(r) && s == StepBy(a, i, v, ta) && i < s.next && (s.next < |a| || |a| == |b|) && Agree(a, b, i, s.next)
    requires ta == tb || !PassesToTable(v)
    requires s.next < |b| ==> !r.goesOn(After(BeginBy(v, ta.Some?)), b[s.next])
    ensures StepBy(b, i, v, tb) == s
  {
    match BeginBy(v, ta.Some?)
    case Free => FreeAgain(a, b, i, v, ta, tb);
    case InParagraph => ParagraphBlockAgain(r, a, b, i, v, ta, tb, s);
    case InQuote => QuoteBlockAgain(r, a, b, i, v, ta, tb, s);
    case InList(_) => ListOrTableAgain(r, a, b, i, v, ta, tb, s);
    case InFence(_) => FenceBlockAgain(r, a, b, i, v, ta, tb, s);
    case AtSeparator => ListOrTableAgain(r, a, b, i, v, ta, tb, s);
  }

  lemma FreeAgain(a: seq<string>, b: seq<string>, i: nat, v: LineView, ta: Option<seq<string>>, tb: Option<seq<string>>)
    requires i < |a| && i < |b| && (ta.Some? ==> i + 1 < |a|) && (tb.Some? ==> i + 1 < |b|)
    requires BeginBy(v, ta.Some?) == Free
    ensures StepBy(a, i, v, ta) == StepBy(b, i, v, tb)
  {
  }

  // ----- When an unfinished line can change what is in front of it -----

  /** The unfinished line can become the separator under a header with the cells of the line above. */
  predicate CouldSeparate(above: string, m: string) {
    Contains(above, '|') && OnlySeparators(m) && |SplitRow(m + "-")| <= |SplitRow(above)|
  }

  /** The line above begins a block, and the unfinished line can become the separator that makes it a table's header. */
  predicate CanSeparate(p: seq<string>, m: string) {
    && p != [] && !GoesOn(ModeAt(p + [m], |p| - 1), p[|p| - 1])
    && CouldSeparate(p[|p| - 1], m)
  }

  /**
   * The unfinished line m after the lines p ends a block that it can still go back into: it stands right under a
   * table, or it is an item's unfinished marker under a list of that kind, or a rule under a paragraph, or it can
   * turn the line above into the header of a table.
   */
  predicate CanChange(p: seq<string>, m: string) {
    var mode := ModeAt(p + [m], |p|);
    && !Blank(m) && !GoesOn(mode, m)
    && match mode
       case InTable => true
       case InList(ordered) => IsUnfinishedMarker(m, ordered) || CanSeparate(p, m)
       case InParagraph => IsRule(m) || CanSeparate(p, m)
       case _ => false
  }

  /** The unfinished line as such can go back into what is open. */
  predicate CanRejoin(mode: Mode, m: string) {
    mode == InTable || (mode.InList? && IsUnfinishedMarker(m, mode.ordered)) || (mode == InParagraph && IsRule(m))
  }

  lemma StaysOut(mode: Mode, m: string, x: string)
    requires !Blank(m) && !GoesOn(mode, m) && !CanRejoin(mode, m)
    ensures !GoesOn(mode, m + x)
  {
    match mode
    case Free =>
    case InParagraph => ParagraphOnlyFromRule(m, x);
    case InQuote => QuoteGrows(m, x);
    case InList(ordered) =>
      ItemOnlyFromMarker(m, x, ordered);
      ContinuationGrows(m, x);
    case InFence(_) =>
    case AtSeparator =>
    case InTable =>
  }

  // ----- What stays -----

  lemma SameHeader(a: seq<string>, b: seq<string>, i: nat)
    requires i + 1 < |a| && i + 1 < |b| && a[i] == b[i] && a[i + 1] == b[i + 1]
    ensures TableHeader(a, i) == TableHeader(b, i)
  {
  }

  /** A block that ends before the line above the unfinished one. */
  lemma StepKept(r: Rules, a: seq<string>, b: seq<string>, i: nat, n: nat, s: Step)
    requires n < |a| && n < |b| && Agree(a, b, 0, n) && r == RulesOf(a) && StartsBlock(r, a, i) && i < n
    requires s == StepAt(a, i) && i < s.next < n
    ensures StepAt(b, i) == s
  {
    StepBlock(r, a, i, s);
    RulesSay(a);
    AgreeAt(a, b, 0, n, i);
    AgreeAt(a, b, 0, n, i + 1);
    AgreeAt(a, b, 0, n, s.next);
    AgreeOnPart(a, b, 0, n, i, s.next);
    SameHeader(a, b, i);
    BlockAgain(r, a, b, i, View(a[i]), TableHeader(a, i), TableHeader(b, i), s);
  }

  /** A block that ends right in front of the unfinished line, when that line stays out of it. */
  lemma LastStepKept(r: Rules, a: seq<string>, b: seq<string>, i: nat, n: nat, s: Step)
    requires n < |a| && n < |b| && Agree(a, b, 0, n) && r == RulesOf(a) && i < n
    requires s == StepAt(a, i) && s.next == n
    requires !r.goesOn(After(Begin(a, i)), b[n])
    requires TableHeader(a, i) == TableHeader(b, i) || !PassesToTable(View(a[i]))
    ensures StepAt(b, i) == s
  {
    RulesSay(a);
    AgreeAt(a, b, 0, n, i);
    AgreeOnPart(a, b, 0, n, i, n);
    BlockAgain(r, a, b, i, View(a[i]), TableHeader(a, i), TableHeader(b, i), s);
  }

  lemma NoTableBegins(v: LineView, table: bool)
    requires BeginBy(v, table) != AtSeparator && PassesToTable(v)
    ensures !table && (BeginBy(v, table) == InParagraph || BeginBy(v, table).InList?)
  {
  }

  /** The line above does not become a header if the unfinished line cannot become its separator. */
  lemma NoHeader(above: string, m: string, x: string, a: seq<string>, b: seq<string>, i: nat)
    requires i + 1 < |a| && i + 1 < |b| && a[i] == b[i] == above && a[i + 1] == m && b[i + 1] == m + x
    requires !Blank(m) && !IsTableStart(a, i)
    requires !CouldSeparate(above, m)
    ensures !IsTableStart(b, i)
  {
    if IsTableStart(b, i) {
      SeparatorGrows(m, x, |SplitRow(above)|);
    }
  }

  lemma HeaderKept(p: seq<string>, m: string, a: seq<string>, b: seq<string>, x: string, i: nat)
    requires a == p + [m] && |p| < |b| && b[..|p|] == p && b[|p|] == m + x
    requires i < |p| && !Blank(m) && Begin(a, i) != AtSeparator
    requires i + 1 == |p| && (Begin(a, i) == InParagraph || Begin(a, i).InList?) ==> !CouldSeparate(p[i], m)
    ensures TableHeader(a, i) == TableHeader(b, i) || !PassesToTable(View(a[i]))
  {
    assert a[i] == p[i] && b[i] == b[..|p|][i];
    if i + 1 < |p| {
      assert a[i + 1] == p[i + 1] && b[i + 1] == b[..|p|][i + 1];
      SameHeader(a, b, i);
    } else if PassesToTable(View(a[i])) {
      NoTableBegins(View(a[i]), TableHeader(a, i).Some?);
      NoHeader(p[i], m, x, a, b, i);
    }
  }

  /** What stands open in front of the unfinished line when a block ends there. */
  lemma FrontMode(p: seq<string>, m: string, a: seq<string>, i: nat, s: Step)
    requires a == p + [m] && StartsBlock(RulesOf(a), a, i) && i < |p| && s == StepAt(a, i) && s.next == |p|
    ensures ModeAt(a, |p|) == After(Begin(a, i)) && !RulesOf(a).goesOn(ModeAt(a, |p|), m)
    ensures Begin(a, i) == AtSeparator ==> i + 1 < |p|
  {
    StepBlock(RulesOf(a), a, i, s);
  }

  lemma CannotChange(p: seq<string>, m: string, a: seq<string>, mode: Mode)
    requires a == p + [m] && mode == ModeAt(a, |p|) && !Blank(m) && !GoesOn(mode, m) && !CanChange(p, m)
    ensures !CanRejoin(mode, m)
    ensures mode == InParagraph || mode.InList? ==> !CanSeparate(p, m)
  {
  }

  lemma CannotSeparate(p: seq<string>, m: string, a: seq<string>)
    requires a == p + [m] && p != [] && StartsBlock(RulesOf(a), a, |p| - 1) && !CanSeparate(p, m)
    ensures !CouldSeparate(p[|p| - 1], m)
  {
  }

  lemma FrontHeaderKept(p: seq<string>, m: string, x: string, a: seq<string>, b: seq<string>, i: nat, mode: Mode)
    requires a == p + [m] && |p| < |b| && b[..|p|] == p && b[|p|] == m + x && StartsBlock(RulesOf(a), a, i) && i < |p|
    requires !Blank(m) && mode == After(Begin(a, i)) && !CanRejoin(mode, m)
    requires mode == InParagraph || mode.InList? ==> !CanSeparate(p, m)
    ensures TableHeader(a, i) == TableHeader(b, i) || !PassesToTable(View(a[i]))
  {
    if i + 1 == |p| && (mode == InParagraph || mode.InList?) {
      CannotSeparate(p, m, a);
    }
    HeaderKept(p, m, a, b, x, i);
  }

  lemma KeptInFront(p: seq<string>, m: string, x: string, q: seq<string>, a: seq<string>, b: seq<string>, i: nat,
      s: Step)
    requires a == p + [m] && b == p + [m + x] + q && StartsBlock(RulesOf(a), a, i) && i < |p|
    requires s == StepAt(a, i) && s.next == |p| && !Blank(m) && !CanChange(p, m)
    ensures StepAt(b, i) == s
  {
    var n, mode := |p|, After(Begin(a, i));
    FrontMode(p, m, a, i, s);
    CannotChange(p, m, a, mode);
    assert a[n] == m && b[n] == m + x && b[..n] == p == a[..n];
    StaysOut(mode, m, x);
    FrontHeaderKept(p, m, x, a, b, i, mode);
    LastStepKept(RulesOf(a), a, b, i, n, s);
  }

  lemma LastOnly(blocks: seq<Block>, more: seq<Block>)
    requires |blocks| <= 1
    ensures AllButLast(blocks) <= more
  {
  }

  lemma FirstStays(b: seq<Block>, rest: seq<Block>, more: seq<Block>)
    requires |rest| <= 1
    ensures AllButLast(b + rest) <= b + more
  {
    assert AllButLast(b + rest) <= b;
  }

  lemma ParseUnfold(lines: seq<string>, i: nat, s: Step)
    requires i < |lines| && s == StepAt(lines, i) && ParseFrom(lines, i).Some?
    ensures i < s.next && ParseFrom(lines, s.next).Some?
    ensures ParseFrom(lines, i).value == s.blocks + ParseFrom(lines, s.next).value
  {
  }

  lemma LastLineParse(lines: seq<string>, n: nat)
    requires |lines| == n + 1 && ParseFrom(lines, n).Some?
    ensures |ParseFrom(lines, n).value| <= 1 && (Blank(lines[n]) ==> ParseFrom(lines, n).value == [])
  {
    LastStep(lines, n);
  }

  /** Unless the line can still change it, everything in front of its last block stays, however the text goes on. */
  lemma {:induction false} StableFrom(p: seq<string>, m: string, x: string, q: seq<string>, a: seq<string>,
      b: seq<string>, i: nat)
    requires a == p + [m] && b == p + [m + x] + q && StartsBlock(RulesOf(a), a, i) && !CanChange(p, m)
    requires ParseFrom(a, i).Some? && ParseFrom(b, i).Some? && i <= |p|
    ensures AllButLast(ParseFrom(a, i).value) <= ParseFrom(b, i).value
    decreases |p| - i
  {
    var r, n := RulesOf(a), |p|;
    if i == n {
      LastLineParse(a, n);
      LastOnly(ParseFrom(a, n).value, ParseFrom(b, n).value);
    } else {
      var s := StepAt(a, i);
      ParseUnfold(a, i, s);
      if s.next == n + 1 {
        LastStep(a, i);
      } else if s.next == n {
        LastLineParse(a, n);
        if Blank(m) {
          NoneLeft(s.blocks);
          LastOnly(s.blocks, ParseFrom(b, i).value);
        } else {
          KeptInFront(p, m, x, q, a, b, i, s);
          ParseUnfold(b, i, s);
          FirstStays(s.blocks, ParseFrom(a, n).value, ParseFrom(b, n).value);
        }
      } else {
        assert b[..n] == p == a[..n];
        StepBlock(r, a, i, s);
        NextStartsBlock(r, a, i, Begin(a, i), s.next);
        StepKept(r, a, b, i, n, s);
        ParseUnfold(b, i, s);
        StableFrom(p, m, x, q, a, b, s.next);
        PrefixGrows(s.blocks, ParseFrom(a, s.next).value, ParseFrom(b, s.next).value);
      }
    }
  }
}
