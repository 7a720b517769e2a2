/** Which indented lines say nothing in the result: the continuation lines of list items (src/lib/markdown.ts). */
module MarkdownContinuations {
  import opened Prelude
  import opened MarkdownInline
  import opened MarkdownBlocks
  import opened MarkdownLaws
  import opened MarkdownModes
  import opened MarkdownLines
  import opened MarkdownWords
  import opened MarkdownStreaming
  import opened MarkdownMidLine

  // ----- The items of a list are its item lines -----

  /** The lines that satisfy p, in order. */
  function Chosen(lines: seq<string>, p: string -> bool): seq<string> {
    if lines == [] then [] else (if p(lines[0]) then [lines[0]] else []) + Chosen(lines[1..], p)
  }

  lemma {:induction false} ChosenConcat(a: seq<string>, b: seq<string>, p: string -> bool)
    ensures Chosen(a + b, p) == Chosen(a, p) + Chosen(b, p)
  {
    if a == [] {
      assert a + b == b;
    } else {
      assert (a + b)[0] == a[0] && (a + b)[1..] == a[1..] + b;
      ChosenConcat(a[1..], b, p);
      RegroupLines(if p(a[0]) then [a[0]] else [], Chosen(a[1..], p), Chosen(b, p));
    }
  }

  lemma RegroupLines(a: seq<string>, b: seq<string>, c: seq<string>)
    ensures a + (b + c) == a + b + c
  {
  }

  lemma {:induction false} NoneChosen(lines: seq<string>, p: string -> bool)
    requires forall line :: line in lines ==> !p(line)
    ensures Chosen(lines, p) == []
  {
    if lines != [] {
      assert lines[0] in lines;
      NoneChosen(lines[1..], p);
    }
  }

  lemma NoneChosenBetween(lines: seq<string>, i: nat, j: nat, p: string -> bool)
    requires i <= j <= |lines| && forall k :: i <= k < j ==> !p(lines[k])
    ensures Chosen(lines[i..j], p) == []
  {
    var more := lines[i..j];
    forall line | line in more ensures !p(line) {
      var k :| 0 <= k < |more| && more[k] == line;
      assert line == lines[i + k];
    }
    NoneChosen(more, p);
  }

  /** The lines of one item: its own, and those that go on with it. */
  lemma ItemLines(lines: seq<string>, i: nat, j: nat, e: nat, p: string -> bool)
    requires i < j <= e <= |lines| && p(lines[i]) && forall k :: i < k < j ==> !p(lines[k])
    ensures Chosen(lines[i..e], p) == [lines[i]] + Chosen(lines[j..e], p)
  {
    assert lines[i..e][0] == lines[i] && lines[i..e][1..] == lines[i + 1..e] == lines[i + 1..j] + lines[j..e];
    NoneChosenBetween(lines, i + 1, j, p);
    ChosenConcat(lines[i + 1..j], lines[j..e], p);
  }

  /** What a list shows depends on its item lines alone. */
  lemma {:induction false} ItemsAreItemLines(lines: seq<string>, i: nat, p: string -> bool, f: string -> seq<Inline>)
    requires i <= |lines| && forall line :: IsContinuation(line) ==> !p(line)
    ensures var r := ListItems(lines, i, p, f); r.items == Map(Chosen(lines[i..r.next], p), f)
    decreases |lines| - i
  {
    if i < |lines| && p(lines[i]) {
      var j, r := Scan(lines, i + 1, IsContinuation), ListItems(lines, i, p, f);
      ItemsAreItemLines(lines, j, p, f);
      ScannedHold(lines, i + 1, IsContinuation);
      ItemLines(lines, i, j, r.next, p);
    }
  }

  lemma ListShowsItemLines(lines: seq<string>, i: nat, ordered: bool)
    requires i < |lines|
    ensures var s := ListStep(lines, i, ordered);
            s.blocks == [List(ordered, Map(Chosen(lines[i..s.next], ItemTest(ordered)), ItemInlines(ordered)))]
  {
    forall line | IsContinuation(line) ensures !ItemTest(ordered)(line) {
    }
    ItemsAreItemLines(lines, i, ItemTest(ordered), ItemInlines(ordered));
  }

  // ----- The same lines from somewhere on -----

  lemma HeaderOnSuffix(a: seq<string>, b: seq<string>, j: nat)
    requires |a| == |b| && j < |a| && Agree(a, b, j, |a|)
    ensures a[j] == b[j] && TableHeader(a, j) == TableHeader(b, j)
  {
    AgreeAt(a, b, j, |a|, j);
    if j + 1 < |a| {
      AgreeAt(a, b, j, |a|, j + 1);
      SameHeader(a, b, j);
    }
  }

  lemma StuckAgain(a: seq<string>, b: seq<string>, j: nat)
    requires j < |a| && j < |b| && a[j] == b[j] && TableHeader(a, j) == TableHeader(b, j)
    ensures StepAt(a, j).next == j <==> StepAt(b, j).next == j
  {
    StepAdvancesExactly(a, j);
    StepAdvancesExactly(b, j);
  }

  lemma StepAgain(a: seq<string>, b: seq<string>, j: nat, s: Step)
    requires |a| == |b| && j < |a| && Agree(a, b, j, |a|) && StartsBlock(RulesOf(a), a, j) && s == StepAt(a, j)
    requires j < s.next
    ensures StepAt(b, j) == s
  {
    StepBlock(RulesOf(a), a, j, s);
    RulesSay(a);
    HeaderOnSuffix(a, b, j);
    AgreeOnPart(a, b, j, |a|, j, s.next);
    if s.next < |a| {
      AgreeAt(a, b, j, |a|, s.next);
    }
    BlockAgain(RulesOf(a), a, b, j, View(a[j]), TableHeader(a, j), TableHeader(b, j), s);
  }

  lemma ParseStuck(lines: seq<string>, i: nat)
    requires i < |lines| && StepAt(lines, i).next == i
    ensures ParseFrom(lines, i) == None
  {
  }

  lemma ParseSame(a: seq<string>, b: seq<string>, i: nat, s: Step)
    requires i < |a| && i < |b| && s == StepAt(a, i) == StepAt(b, i) && i < s.next
    requires ParseFrom(a, s.next) == ParseFrom(b, s.next)
    ensures ParseFrom(a, i) == ParseFrom(b, i)
  {
  }

  lemma {:induction false} ParseSuffix(a: seq<string>, b: seq<string>, j: nat)
    requires |a| == |b| && j <= |a| && Agree(a, b, j, |a|) && StartsBlock(RulesOf(a), a, j)
    ensures ParseFrom(a, j) == ParseFrom(b, j)
    decreases |a| - j
  {
    if j < |a| {
      var s := StepAt(a, j);
      HeaderOnSuffix(a, b, j);
      StuckAgain(a, b, j);
      if s.next == j {
        ParseStuck(a, j);
        ParseStuck(b, j);
      } else {
        StepAgain(a, b, j, s);
        StepBlock(RulesOf(a), a, j, s);
        NextStartsBlock(RulesOf(a), a, j, Begin(a, j), s.next);
        AgreeOnPart(a, b, j, |a|, s.next, |a|);
        ParseSuffix(a, b, s.next);
        ParseSame(a, b, j, s);
      }
    }
  }

  // ----- One line replaced -----

  /** Two lists of lines differ at most in line k. */
  ghost predicate OneLineOff(a: seq<string>, b: seq<string>, k: nat) {
    |a| == |b| && k < |a| && forall x :: 0 <= x < |a| && x != k ==> a[x] == b[x]
  }

  lemma OffAgrees(a: seq<string>, b: seq<string>, k: nat, j: nat)
    requires OneLineOff(a, b, k) && k < j <= |a|
    ensures Agree(a, b, 0, k) && Agree(a, b, j, |a|)
  {
  }

  lemma {:induction false} ScanReplaced(a: seq<string>, b: seq<string>, i: nat, k: nat, p: string -> bool)
    requires OneLineOff(a, b, k) && i <= |a| && (p(a[k]) <==> p(b[k]))
    ensures Scan(a, i, p) == Scan(b, i, p)
    decreases |a| - i
  {
    if i < |a| && p(a[i]) {
      ScanReplaced(a, b, i + 1, k, p);
    }
  }

  ghost predicate SameScans(a: seq<string>, b: seq<string>, p: string -> bool)
    requires |a| == |b|
  {
    forall j: nat :: j <= |a| ==> Scan(a, j, p) == Scan(b, j, p)
  }

  lemma ScansReplaced(a: seq<string>, b: seq<string>, k: nat, p: string -> bool)
    requires OneLineOff(a, b, k) && (p(a[k]) <==> p(b[k]))
    ensures SameScans(a, b, p)
  {
    forall j: nat | j <= |a| ensures Scan(a, j, p) == Scan(b, j, p) {
      ScanReplaced(a, b, j, k, p);
    }
  }

  lemma {:induction false} ItemsReplaced(a: seq<string>, b: seq<string>, i: nat, k: nat, p: string -> bool,
      f: string -> seq<Inline>)
    requires OneLineOff(a, b, k) && i <= |a| && !p(a[k]) && !p(b[k]) && SameScans(a, b, IsContinuation)
    ensures ListItems(a, i, p, f) == ListItems(b, i, p, f)
    decreases |a| - i
  {
    if i < |a| && p(a[i]) {
      ItemsReplaced(a, b, Scan(a, i + 1, IsContinuation), k, p, f);
    }
  }

  lemma ListReplaced(a: seq<string>, b: seq<string>, i: nat, k: nat, ordered: bool)
    requires OneLineOff(a, b, k) && i < |a| && IsContinuation(a[k]) && IsContinuation(b[k])
    ensures ListStep(a, i, ordered) == ListStep(b, i, ordered)
  {
    ScansReplaced(a, b, k, IsContinuation);
    ItemsReplaced(a, b, i, k, ItemTest(ordered), ItemInlines(ordered));
  }

  lemma {:induction false} ModesAgree(r: Rules, t: Rules, a: seq<string>, b: seq<string>, k: nat, j: nat)
    requires Agree(a, b, 0, k) && j <= k && r.goesOn == t.goesOn && r.onward == t.onward
    requires forall x: nat :: x < j ==> r.begin(x) == t.begin(x)
    ensures ModeBy(r, a, j) == ModeBy(t, b, j)
    decreases j
  {
    if j > 0 {
      ModesAgree(r, t, a, b, k, j - 1);
      AgreeAt(a, b, 0, k, j - 1);
    }
  }

  lemma BeginsAgree(a: seq<string>, b: seq<string>, k: nat, x: nat)
    requires k < |a| && k < |b| && Agree(a, b, 0, k) && x + 1 < k
    ensures Begin(a, x) == Begin(b, x)
  {
    AgreeAt(a, b, 0, k, x);
    AgreeAt(a, b, 0, k, x + 1);
    SameHeader(a, b, x);
    BeginAgain(a, b, x);
  }

  /** The modes up to the line in front of the replaced one. */
  lemma ModesInFront(a: seq<string>, b: seq<string>, k: nat, j: nat)
    requires k < |a| && k < |b| && Agree(a, b, 0, k) && j < k
    ensures ModeAt(a, j) == ModeAt(b, j)
  {
    forall x: nat | x < j ensures RulesOf(a).begin(x) == RulesOf(b).begin(x) {
      BeginsAgree(a, b, k, x);
    }
    ModesAgree(RulesOf(a), RulesOf(b), a, b, k, j);
  }

  /** If the mode at the replaced line is the same, so is what a line in front of it begins, if it begins a block. */
  lemma BeginInFront(r: Rules, t: Rules, a: seq<string>, b: seq<string>, k: nat, i: nat)
    requires r.goesOn == t.goesOn && r.onward == t.onward && forall x: nat :: x + 1 < k ==> r.begin(x) == t.begin(x)
    requires Agree(a, b, 0, k) && k < |a| && k < |b| && i < k && StartsBlock(r, a, i)
    requires ModeBy(r, a, k) == ModeBy(t, b, k)
    ensures r.begin(i) == t.begin(i)
  {
    if i + 1 == k {
      ModesAgree(r, t, a, b, k, i);
      AgreeAt(a, b, 0, k, i);
    }
  }

  lemma BeginKept(a: seq<string>, b: seq<string>, k: nat, i: nat)
    requires OneLineOff(a, b, k) && i < k && StartsBlock(RulesOf(a), a, i) && ModeAt(a, k) == ModeAt(b, k)
    ensures Begin(a, i) == Begin(b, i)
  {
    OffAgrees(a, b, k, k + 1);
    forall x: nat | x + 1 < k ensures RulesOf(a).begin(x) == RulesOf(b).begin(x) {
      BeginsAgree(a, b, k, x);
    }
    BeginInFront(RulesOf(a), RulesOf(b), a, b, k, i);
    assert BeginOf(a)(i) == BeginOf(b)(i);
  }

  // ----- A continuation line replaced -----

  lemma IndentedGoesOn(mode: Mode, line: string)
    requires IsContinuation(line) && (mode.InList? || mode == AtSeparator)
    ensures GoesOn(mode, line)
  {
  }

  lemma OnlyListsInside(mode: Mode, i: nat, k: nat)
    requires Within(mode, i, k).InList? || Within(mode, i, k) == AtSeparator
    ensures Within(mode, i, k) == mode && (mode == AtSeparator ==> k <= i + 1)
  {
  }

  /** The block that the replaced line is in. */
  lemma ListStepReplaced(a: seq<string>, b: seq<string>, k: nat, i: nat, ordered: bool)
    requires OneLineOff(a, b, k) && i < |a| && IsContinuation(a[k]) && IsContinuation(b[k])
    requires Begin(a, i) == Begin(b, i) == InList(ordered)
    ensures StepAt(a, i) == StepAt(b, i)
  {
    ListReplaced(a, b, i, k, ordered);
    StepIsList(a, i, ordered);
    StepIsList(b, i, ordered);
  }

  lemma HeaderCells(lines: seq<string>, i: nat, cells: seq<string>)
    requires i < |lines| && TableHeader(lines, i) == Some(cells)
    ensures cells == SplitRow(lines[i]) && i + 1 < |lines|
  {
  }

  lemma TableReplacedBy(a: seq<string>, b: seq<string>, i: nat, cells: seq<string>, s: Step)
    requires |a| == |b| && i + 2 <= |a| && Agree(a, b, i + 2, |a|) && s == TableAt(a, i, cells)
    requires i + 2 <= s.next <= |a| && (s.next < |a| ==> !IsRow(a[s.next]))
    ensures TableAt(b, i, cells) == s
  {
    AgreeOnPart(a, b, i + 2, |a|, i + 2, s.next);
    if s.next < |a| {
      AgreeAt(a, b, i + 2, |a|, s.next);
    }
    TableAgain(a, b, i, cells, s);
  }

  lemma TableReplaced(a: seq<string>, b: seq<string>, i: nat, cells: seq<string>)
    requires |a| == |b| && i + 2 <= |a| && Agree(a, b, i + 2, |a|)
    ensures TableAt(a, i, cells) == TableAt(b, i, cells)
  {
    TableLength(a, i, cells);
    RowsEnd(a, i, cells);
    TableReplacedBy(a, b, i, cells, TableAt(a, i, cells));
  }

  lemma RowsEnd(a: seq<string>, i: nat, cells: seq<string>)
    requires i + 2 <= |a|
    ensures var e := TableAt(a, i, cells).next; e < |a| ==> !IsRow(a[e])
  {
    TableLength(a, i, cells);
  }

  lemma SameCells(a: seq<string>, b: seq<string>, i: nat) returns (cells: seq<string>)
    requires i < |a| && i < |b| && a[i] == b[i] && Begin(a, i) == Begin(b, i) == AtSeparator
    ensures TableHeader(a, i) == TableHeader(b, i) == Some(cells) && i + 1 < |a| && i + 1 < |b|
  {
    cells := HeaderIn(a, i);
    var others := HeaderIn(b, i);
    HeaderCells(a, i, cells);
    HeaderCells(b, i, others);
  }

  lemma SeparatorStepReplaced(a: seq<string>, b: seq<string>, i: nat)
    requires OneLineOff(a, b, i + 1) && Begin(a, i) == Begin(b, i) == AtSeparator
    ensures StepAt(a, i) == StepAt(b, i)
  {
    var cells := SameCells(a, b, i);
    OffAgrees(a, b, i + 1, i + 2);
    StepIsTable(a, i, cells);
    StepIsTable(b, i, cells);
    TableReplaced(a, b, i, cells);
  }

  lemma BlockReplaced(a: seq<string>, b: seq<string>, k: nat, i: nat, s: Step)
    requires OneLineOff(a, b, k) && i < k && IsContinuation(a[k]) && IsContinuation(b[k])
    requires StartsBlock(RulesOf(a), a, i) && s == StepAt(a, i) && k < s.next
    requires ModeAt(a, k) == ModeAt(b, k) && (ModeAt(a, k).InList? || ModeAt(a, k) == AtSeparator)
    ensures StepAt(b, i) == s
  {
    OffAgrees(a, b, k, k + 1);
    StepBlock(RulesOf(a), a, i, s);
    BeginKept(a, b, k, i);
    OnlyListsInside(Begin(a, i), i, k);
    if Begin(a, i).InList? {
      ListStepReplaced(a, b, k, i, Begin(a, i).ordered);
    } else {
      SeparatorStepReplaced(a, b, i);
    }
  }

  /** A block that the replaced line goes on with does not end in front of it. */
  lemma NotInFront(a: seq<string>, k: nat, i: nat, s: Step)
    requires k < |a| && StartsBlock(RulesOf(a), a, i) && i < k && s == StepAt(a, i) && s.next == k
    ensures !GoesOn(ModeAt(a, k), a[k])
  {
    StepBlock(RulesOf(a), a, i, s);
  }

  /** A line that jams begins the same and starts no table either way. */
  lemma StuckBeginning(a: seq<string>, i: nat)
    requires i < |a| && StepAt(a, i).next == i
    ensures Jams(a[i]) && PassesToTable(View(a[i])) && Begin(a, i) != AtSeparator
  {
    StepAdvancesExactly(a, i);
    JamsAreNothingElse(a[i]);
  }

  lemma StuckBy(b: seq<string>, i: nat)
    requires i < |b| && Jams(b[i]) && PassesToTable(View(b[i])) && Begin(b, i) != AtSeparator
    ensures StepAt(b, i).next == i
  {
    StepAdvancesExactly(b, i);
  }

  lemma StuckReplaced(a: seq<string>, b: seq<string>, k: nat, i: nat)
    requires OneLineOff(a, b, k) && i < k && StartsBlock(RulesOf(a), a, i) && ModeAt(a, k) == ModeAt(b, k)
    requires StepAt(a, i).next == i
    ensures StepAt(b, i).next == i
  {
    BeginKept(a, b, k, i);
    StuckBeginning(a, i);
    StuckBy(b, i);
  }

  lemma {:induction false} ReplacedFrom(a: seq<string>, b: seq<string>, k: nat, i: nat)
    requires OneLineOff(a, b, k) && i <= k && StartsBlock(RulesOf(a), a, i) && IsContinuation(a[k])
    requires IsContinuation(b[k])
    requires ModeAt(a, k) == ModeAt(b, k) && (ModeAt(a, k).InList? || ModeAt(a, k) == AtSeparator)
    ensures ParseFrom(a, i) == ParseFrom(b, i)
    decreases k - i
  {
    var s := StepAt(a, i);
    IndentedGoesOn(ModeAt(a, k), a[k]);
    assert i < k;
    OffAgrees(a, b, k, k + 1);
    if s.next == i {
      StuckReplaced(a, b, k, i);
      ParseStuck(a, i);
      ParseStuck(b, i);
    } else if s.next < k {
      StepBlock(RulesOf(a), a, i, s);
      NextStartsBlock(RulesOf(a), a, i, Begin(a, i), s.next);
      StepKept(RulesOf(a), a, b, i, k, s);
      ReplacedFrom(a, b, k, s.next);
      ParseSame(a, b, i, s);
    } else {
      ReplacedInside(a, b, k, i, s);
    }
  }

  lemma ReplacedInside(a: seq<string>, b: seq<string>, k: nat, i: nat, s: Step)
    requires OneLineOff(a, b, k) && i < k && StartsBlock(RulesOf(a), a, i) && IsContinuation(a[k])
    requires IsContinuation(b[k])
    requires ModeAt(a, k) == ModeAt(b, k) && (ModeAt(a, k).InList? || ModeAt(a, k) == AtSeparator)
    requires GoesOn(ModeAt(a, k), a[k]) && s == StepAt(a, i) && k <= s.next
    ensures ParseFrom(a, i) == ParseFrom(b, i)
  {
    if s.next == k {
      NotInFront(a, k, i, s);
      assert false;
    } else {
      BlockReplaced(a, b, k, i, s);
      StepBlock(RulesOf(a), a, i, s);
      NextStartsBlock(RulesOf(a), a, i, Begin(a, i), s.next);
      OffAgrees(a, b, k, s.next);
      ParseSuffix(a, b, s.next);
      ParseSame(a, b, i, s);
    }
  }

  /**
   * The line that goes on with an item, or that separates a table's header from its rows, may as well say something
   * else: the document is read the same. (The mode in front of it stays the same unless the new line separates a
   * table that the old one did not.)
   */
  lemma ContinuationTextIsLost(lines: seq<string>, k: nat, c: string)
    requires k < |lines| && IsContinuation(lines[k]) && IsContinuation(c)
    requires ModeAt(lines, k).InList? || ModeAt(lines, k) == AtSeparator
    requires ModeAt(lines[k := c], k) == ModeAt(lines, k)
    ensures ParseLines(lines[k := c]) == ParseLines(lines)
  {
    ReplacedFrom(lines, lines[k := c], k, 0);
  }

  // ----- Everywhere else an indented line is shown -----

  /** An indented line that is not part of any table. */
  predicate IsIndentedText(line: string) {
    IsContinuation(line) && !Contains(line, '|') && !OnlySeparators(line)
  }

  /** Four spaces and a word. */
  function IndentedWord(n: nat): string {
    "   " + (" " + Repeat('a', n))
  }

  lemma {:induction false} NoBarInWord(n: nat)
    ensures !Contains(Repeat('a', n), '|')
  {
    if n > 0 {
      NoBarInWord(n - 1);
    }
  }

  lemma IndentedWordIs(line: string, w: string)
    requires line == "    " + w && w != "" && w[0] == 'a' && !Contains(w, '|')
    ensures IsIndentedText(line)
  {
    assert line[0] == line[1] == line[2] == line[3] == ' ' && line[4] == 'a';
    assert SkipSpace(line, 4) == 4 && SkipSpace(line, 3) == 4 && SkipSpace(line, 2) == 4 && SkipSpace(line, 1) == 4;
    assert SkipSpace(line, 0) == 4;
    WordIsNoSeparator("    ", w);
    assert line[3..][1..] == w && line[2..][1..] == line[3..] && line[1..][1..] == line[2..];
    assert !Contains(line[3..], '|') && !Contains(line[2..], '|') && !Contains(line[1..], '|');
  }

  lemma IndentedWordIsText(n: nat)
    requires n > 0
    ensures IsIndentedText(IndentedWord(n))
  {
    NoBarInWord(n);
    assert IndentedWord(n) == "    " + Repeat('a', n);
    IndentedWordIs(IndentedWord(n), Repeat('a', n));
  }

  lemma IndentedView(line: string)
    requires IsContinuation(line)
    ensures PassesToTable(View(line)) && !View(line).ordered && !View(line).unordered && IsParagraphLine(line)
    ensures !IsQuote(line)
  {
  }

  lemma IndentedBegins(lines: seq<string>, k: nat)
    requires k < |lines| && IsContinuation(lines[k])
    ensures Begin(lines, k) == if TableHeader(lines, k).Some? then AtSeparator else InParagraph
  {
    IndentedView(lines[k]);
  }

  lemma TextBegins(lines: seq<string>, k: nat)
    requires k < |lines| && IsIndentedText(lines[k])
    ensures Begin(lines, k) == InParagraph
  {
    IndentedBegins(lines, k);
  }

  lemma NeverClosesFence(line: string, o: Opening)
    requires IsContinuation(line)
    ensures NotClosing(o)(line)
  {
  }

  // ----- The block with the line in it is another one -----

  lemma {:induction false} JoinAtLeast(lines: seq<string>, sep: string, x: nat)
    requires x < |lines|
    ensures |Join(lines, sep)| >= |lines[x]|
  {
    if |lines| > 1 && x > 0 {
      JoinAtLeast(lines[1..], sep, x - 1);
    }
  }

  lemma FencesDiffer(a: seq<string>, b: seq<string>, k: nat, i: nat, o: Opening, p: string -> bool, s: Step, t: Step)
    requires OneLineOff(a, b, k) && i < k && p(a[k]) && p(b[k]) && k < Scan(a, i + 1, p)
    requires s.blocks == [Fence(o.lang, Join(a[i + 1..Scan(a, i + 1, p)], "\n"))]
    requires t.blocks == [Fence(o.lang, Join(b[i + 1..Scan(b, i + 1, p)], "\n"))]
    requires |b[k]| > |Join(a[i + 1..Scan(a, i + 1, p)], "\n")|
    ensures Differ(s, t)
  {
    ScanReplaced(a, b, i + 1, k, p);
    var e := Scan(b, i + 1, p);
    assert b[i + 1..e][k - i - 1] == b[k];
    JoinAtLeast(b[i + 1..e], "\n", k - i - 1);
  }

  lemma InsideFence(a: seq<string>, k: nat, i: nat, o: Opening, s: Step)
    requires i < k < |a| && s == FenceStep(a, i, o) && k < s.next && NotClosing(o)(a[k])
    ensures k < Scan(a, i + 1, NotClosing(o))
  {
  }

  lemma FenceStepIs(a: seq<string>, i: nat, o: Opening)
    requires i < |a|
    ensures FenceStep(a, i, o).blocks == [Fence(o.lang, Join(a[i + 1..Scan(a, i + 1, NotClosing(o))], "\n"))]
  {
  }

  lemma FenceChanges(a: seq<string>, b: seq<string>, k: nat, i: nat, o: Opening, s: Step, t: Step)
    requires OneLineOff(a, b, k) && i < k < s.next && s == FenceStep(a, i, o) && t == FenceStep(b, i, o)
    requires IsContinuation(a[k]) && IsContinuation(b[k])
    requires |b[k]| > |Join(a[i + 1..Scan(a, i + 1, NotClosing(o))], "\n")|
    ensures Differ(s, t)
  {
    NeverClosesFence(a[k], o);
    NeverClosesFence(b[k], o);
    InsideFence(a, k, i, o, s);
    FenceStepIs(a, i, o);
    FenceStepIs(b, i, o);
    FencesDiffer(a, b, k, i, o, NotClosing(o), s, t);
  }

  lemma {:induction false} ScanCut(a: seq<string>, b: seq<string>, i: nat, k: nat, p: string -> bool)
    requires OneLineOff(a, b, k) && i <= k && k < Scan(a, i, p) && !p(b[k])
    ensures Scan(b, i, p) == k
    decreases k - i
  {
    if i < k {
      ScanCut(a, b, i + 1, k, p);
    }
  }

  lemma FewerRows(a: seq<string>, b: seq<string>, k: nat, i: nat, headers: seq<seq<Inline>>,
      row: string -> seq<seq<Inline>>,
                  p: string -> bool, s: Step, t: Step)
    requires OneLineOff(a, b, k) && i + 2 <= k && k < Scan(a, i + 2, p) && !p(b[k])
    requires s.blocks == [Table(headers, Map(a[i + 2..Scan(a, i + 2, p)], row))]
    requires t.blocks == [Table(headers, Map(b[i + 2..Scan(b, i + 2, p)], row))]
    ensures Differ(s, t)
  {
    ScanCut(a, b, i + 2, k, p);
  }

  lemma TableStepIs(a: seq<string>, i: nat, cells: seq<string>)
    requires i + 2 <= |a|
    ensures TableAt(a, i, cells).blocks == [Table(Map(cells, Inlines),
        Map(a[i + 2..Scan(a, i + 2, IsRow)], RowOf(|cells|)))]
  {
  }

  lemma TableShrinks(a: seq<string>, b: seq<string>, k: nat, i: nat, cells: seq<string>, s: Step, t: Step)
    requires OneLineOff(a, b, k) && i + 2 <= k < s.next && s == TableAt(a, i, cells) && t == TableAt(b, i, cells)
    requires !IsRow(b[k])
    ensures Differ(s, t)
  {
    TableLength(a, i, cells);
    TableStepIs(a, i, cells);
    TableStepIs(b, i, cells);
    FewerRows(a, b, k, i, Map(cells, Inlines), RowOf(|cells|), IsRow, s, t);
  }

  lemma {:induction false} JoinAround(lines: seq<string>, x: nat) returns (u: string, v: string)
    requires x < |lines|
    ensures Join(lines, " ") == u + lines[x] + v
  {
    if |lines| == 1 {
      u, v := "", "";
    } else if x == 0 {
      u, v := "", " " + Join(lines[1..], " ");
    } else {
      u, v := JoinAround(lines[1..], x - 1);
      assert lines[0] + " " + (u + lines[x] + v) == (lines[0] + " " + u) + lines[x] + v;
      u := lines[0] + " " + u;
    }
  }

  lemma WordsDiffer(a: seq<string>, b: seq<string>, x: nat, n: nat)
    requires x < |b| && b[x] == IndentedWord(n) && n > |Join(a, " ")|
    ensures Inlines(Join(b, " ")) != Inlines(Join(a, " "))
  {
    var u, v := JoinAround(b, x);
    assert u + b[x] + v == (u + "   ") + (" " + Repeat('a', n)) + v;
    WordDiffers(Join(a, " "), u + "   ", n, v);
  }

  lemma ParagraphsDifferTo(a: seq<string>, b: seq<string>, k: nat, i: nat, e: nat, n: nat)
    requires OneLineOff(a, b, k) && i <= k < e <= |a|
    requires b[k] == IndentedWord(n) && n > |Join(a[i..e], " ")|
    ensures Differ(ParagraphTo(a, i, e), ParagraphTo(b, i, e))
  {
    assert b[i..e][k - i] == b[k];
    WordsDiffer(a[i..e], b[i..e], k - i, n);
  }

  lemma ParagraphIsTo(lines: seq<string>, i: nat, p: string -> bool)
    requires i < |lines| && i < Scan(lines, i, p)
    ensures ParagraphBy(lines, i, p) == ParagraphTo(lines, i, Scan(lines, i, p))
  {
  }

  lemma ParagraphsDifferBy(a: seq<string>, b: seq<string>, k: nat, i: nat, p: string -> bool, n: nat, s: Step, t: Step)
    requires OneLineOff(a, b, k) && i <= k && p(a[k]) && p(b[k]) && k < Scan(a, i, p)
    requires s == ParagraphBy(a, i, p) && t == ParagraphBy(b, i, p)
    requires b[k] == IndentedWord(n) && n > |Join(a[i..Scan(a, i, p)], " ")|
    ensures Differ(s, t)
  {
    var e := Scan(a, i, p);
    ScanReplaced(a, b, i, k, p);
    ParagraphIsTo(a, i, p);
    ParagraphIsTo(b, i, p);
    ParagraphsDifferTo(a, b, k, i, e, n);
  }

  lemma StepIsFence(lines: seq<string>, i: nat, o: Opening)
    requires i < |lines| && Begin(lines, i) == InFence(o)
    ensures StepAt(lines, i) == FenceStep(lines, i, o)
  {
    BeginsFence(lines, i, View(lines[i]), TableHeader(lines, i));
  }

  lemma FenceBeginsAgain(a: seq<string>, b: seq<string>, i: nat)
    requires i < |a| && i < |b| && a[i] == b[i] && Begin(a, i).InFence?
    ensures Begin(b, i) == Begin(a, i)
  {
  }

  /** The lines with an indented word in the place of one of them. */
  lemma WithWord(a: seq<string>, k: nat, n: nat) returns (b: seq<string>)
    requires k < |a| && n > 0
    ensures OneLineOff(a, b, k) && b[k] == IndentedWord(n) && IsIndentedText(b[k])
  {
    b := a[k := IndentedWord(n)];
    IndentedWordIsText(n);
  }

  /** The text of an indented line inside a fence is shown. */
  lemma FenceShows(a: seq<string>, k: nat, i: nat, s: Step) returns (b: seq<string>)
    requires i < k < |a| && k < s.next && s == StepAt(a, i) && IsContinuation(a[k]) && Begin(a, i).InFence?
    ensures OneLineOff(a, b, k) && IsIndentedText(b[k]) && Differ(s, StepAt(b, i))
  {
    var o := Begin(a, i).o;
    var n := |Join(a[i + 1..Scan(a, i + 1, NotClosing(o))], "\n")| + 1;
    b := WithWord(a, k, n);
    FenceBeginsAgain(a, b, i);
    StepIsFence(a, i, o);
    StepIsFence(b, i, o);
    FenceChanges(a, b, k, i, o, s, StepAt(b, i));
  }

  lemma NoSeparatorBelow(b: seq<string>, i: nat)
    requires i + 1 < |b| && !OnlySeparators(b[i + 1])
    ensures TableHeader(b, i).None?
  {
  }

  lemma ParagraphBeginsAgain(a: seq<string>, b: seq<string>, k: nat, i: nat)
    requires OneLineOff(a, b, k) && i <= k && Begin(a, i) == InParagraph && IsIndentedText(b[k])
    ensures Begin(b, i) == InParagraph
  {
    if i == k {
      TextBegins(b, k);
    } else {
      NoHeaderIn(a, i);
      if i + 1 == k {
        NoSeparatorBelow(b, i);
      } else {
        SameHeader(a, b, i);
      }
      BeginAgain(a, b, i);
    }
  }

  lemma ParagraphChanges(a: seq<string>, b: seq<string>, k: nat, i: nat, n: nat, s: Step, t: Step)
    requires OneLineOff(a, b, k) && i <= k < s.next && IsParagraphLine(a[k]) && IsParagraphLine(b[k])
    requires Begin(a, i) == Begin(b, i) == InParagraph && s == StepAt(a, i) && t == StepAt(b, i)
    requires b[k] == IndentedWord(n) && n > |Join(a[i..Scan(a, i, IsParagraphLine)], " ")|
    ensures Differ(s, t)
  {
    StepIsParagraph(a, i);
    StepIsParagraph(b, i);
    IsParagraphBy(a, i);
    IsParagraphBy(b, i);
    ParagraphsDifferBy(a, b, k, i, IsParagraphLine, n, s, t);
  }

  /** So is the text of an indented line of a paragraph. */
  lemma ParagraphShows(a: seq<string>, k: nat, i: nat, s: Step) returns (b: seq<string>)
    requires i <= k < |a| && k < s.next && s == StepAt(a, i) && IsContinuation(a[k]) && Begin(a, i) == InParagraph
    ensures OneLineOff(a, b, k) && IsIndentedText(b[k]) && Differ(s, StepAt(b, i))
  {
    var n := |Join(a[i..Scan(a, i, IsParagraphLine)], " ")| + 1;
    b := WithWord(a, k, n);
    IndentedView(a[k]);
    IndentedView(b[k]);
    ParagraphBeginsAgain(a, b, k, i);
    ParagraphChanges(a, b, k, i, n, s, StepAt(b, i));
  }

  lemma TextIsNoRow(line: string)
    requires IsIndentedText(line)
    ensures !IsRow(line)
  {
  }

  lemma RowsShrink(a: seq<string>, b: seq<string>, k: nat, i: nat, cells: seq<string>, s: Step, t: Step)
    requires OneLineOff(a, b, k) && i + 2 <= k < s.next && s == StepAt(a, i) && t == StepAt(b, i) && !IsRow(b[k])
    requires Begin(a, i) == Begin(b, i) == AtSeparator && TableHeader(a, i) == TableHeader(b, i) == Some(cells)
    ensures Differ(s, t)
  {
    StepIsTable(a, i, cells);
    StepIsTable(b, i, cells);
    TableShrinks(a, b, k, i, cells, s, t);
  }

  lemma TableBeginsAgain(a: seq<string>, b: seq<string>, i: nat) returns (cells: seq<string>)
    requires i + 1 < |a| && i + 1 < |b| && a[i] == b[i] && a[i + 1] == b[i + 1] && Begin(a, i) == AtSeparator
    ensures Begin(b, i) == AtSeparator && TableHeader(a, i) == TableHeader(b, i) == Some(cells)
  {
    SameHeader(a, b, i);
    BeginAgain(a, b, i);
    cells := HeaderIn(a, i);
  }

  /** An indented line of a table is a row or, without a bar, ends it. */
  lemma TableShows(a: seq<string>, b: seq<string>, k: nat, i: nat, s: Step)
    requires OneLineOff(a, b, k) && i + 2 <= k < s.next && s == StepAt(a, i) && Begin(a, i) == AtSeparator
    requires !IsRow(b[k])
    ensures Differ(s, StepAt(b, i))
  {
    var cells := TableBeginsAgain(a, b, i);
    RowsShrink(a, b, k, i, cells, s, StepAt(b, i));
  }

  lemma OneTable(a: seq<string>, i: nat, s: Step)
    requires i < |a| && s == StepAt(a, i) && Begin(a, i) == AtSeparator
    ensures |s.blocks| == 1 && s.blocks[0].Table?
  {
    var cells := HeaderIn(a, i);
    HeaderCells(a, i, cells);
    StepIsTable(a, i, cells);
    TableStepIs(a, i, cells);
  }

  lemma OneParagraph(b: seq<string>, i: nat)
    requires i < |b| && Begin(b, i) == InParagraph && IsParagraphLine(b[i])
    ensures var t := StepAt(b, i); |t.blocks| == 1 && t.blocks[0].Paragraph?
  {
    StepIsParagraph(b, i);
    ParagraphIsOne(b, i, StepAt(b, i));
  }

  /** And an indented header is not one without a bar. */
  lemma HeaderShows(a: seq<string>, b: seq<string>, i: nat, s: Step)
    requires i < |a| && i < |b| && s == StepAt(a, i) && Begin(a, i) == AtSeparator && IsIndentedText(b[i])
    ensures Differ(s, StepAt(b, i))
  {
    OneTable(a, i, s);
    TextBegins(b, i);
    IndentedView(b[i]);
    OneParagraph(b, i);
  }

  lemma NotGoingOn(line: string)
    requires IsContinuation(line)
    ensures !GoesOn(InQuote, line) && !GoesOn(Free, line)
  {
    IndentedView(line);
  }

  /** What block an indented line is in that goes on with it. */
  lemma KindInside(a: seq<string>, k: nat, i: nat, s: Step)
    requires i < k < |a| && k < s.next && StartsBlock(RulesOf(a), a, i) && s == StepAt(a, i) && IsContinuation(a[k])
    requires !ModeAt(a, k).InList? && ModeAt(a, k) != AtSeparator
    ensures Begin(a, i).InFence? || Begin(a, i) == InParagraph || (Begin(a, i) == AtSeparator && i + 2 <= k)
  {
    StepBlock(RulesOf(a), a, i, s);
    LineOfBlock(RulesOf(a), a, i, Begin(a, i), s.next, k);
    NeverBeginsInTable(a, i);
    KindBy(Begin(a, i), a[k], i, k);
  }

  lemma KindBy(mode: Mode, line: string, i: nat, k: nat)
    requires GoesOn(Within(mode, i, k), line) && IsContinuation(line) && i < k
    requires !Within(mode, i, k).InList? && Within(mode, i, k) != AtSeparator && mode != InTable
    ensures mode.InFence? || mode == InParagraph || (mode == AtSeparator && i + 2 <= k)
  {
    NotGoingOn(line);
  }

  lemma NeverBeginsInTable(a: seq<string>, i: nat)
    requires i < |a|
    ensures Begin(a, i) != InTable
  {
  }

  lemma TableOrHeaderShows(a: seq<string>, b: seq<string>, k: nat, i: nat, s: Step, t: Step)
    requires OneLineOff(a, b, k) && i <= k < s.next && s == StepAt(a, i) && t == StepAt(b, i)
    requires Begin(a, i) == AtSeparator && IsIndentedText(b[k]) && (i == k || i + 2 <= k)
    ensures Differ(s, t)
  {
    if i == k {
      HeaderShows(a, b, i, s);
    } else {
      TextIsNoRow(b[k]);
      TableShows(a, b, k, i, s);
    }
  }

  lemma TableLineShows(a: seq<string>, k: nat, i: nat, s: Step) returns (b: seq<string>)
    requires i <= k < |a| && k < s.next && s == StepAt(a, i) && Begin(a, i) == AtSeparator && (i == k || i + 2 <= k)
    ensures OneLineOff(a, b, k) && IsIndentedText(b[k]) && Differ(s, StepAt(b, i))
  {
    b := WithWord(a, k, 1);
    TableOrHeaderShows(a, b, k, i, s, StepAt(b, i));
  }

  lemma KindOfBlock(a: seq<string>, k: nat, i: nat, s: Step)
    requires i <= k < |a| && k < s.next && StartsBlock(RulesOf(a), a, i) && s == StepAt(a, i) && IsContinuation(a[k])
    requires !ModeAt(a, k).InList? && ModeAt(a, k) != AtSeparator
    ensures Begin(a, i) == InParagraph || (Begin(a, i).InFence? && i < k)
        || (Begin(a, i) == AtSeparator && (i == k || i + 2 <= k))
  {
    if i < k {
      KindInside(a, k, i, s);
    } else {
      IndentedBegins(a, k);
    }
  }

  /** Outside lists, and not as a separator, an indented line is shown by the block it is in. */
  lemma BlockShows(a: seq<string>, k: nat, i: nat, s: Step) returns (b: seq<string>)
    requires i <= k < |a| && k < s.next && StartsBlock(RulesOf(a), a, i) && s == StepAt(a, i) && IsContinuation(a[k])
    requires !ModeAt(a, k).InList? && ModeAt(a, k) != AtSeparator
    ensures OneLineOff(a, b, k) && IsIndentedText(b[k]) && Differ(s, StepAt(b, i))
  {
    KindOfBlock(a, k, i, s);
    if Begin(a, i) == InParagraph {
      b := ParagraphShows(a, k, i, s);
    } else if Begin(a, i).InFence? {
      b := FenceShows(a, k, i, s);
    } else {
      b := TableLineShows(a, k, i, s);
    }
  }

  // ----- The whole document -----

  lemma DiffersHere(a: seq<string>, b: seq<string>, i: nat, s: Step, t: Step)
    requires i < |a| && i < |b| && s == StepAt(a, i) && t == StepAt(b, i) && Differ(s, t) && ParseFrom(a, i).Some?
    ensures ParseFrom(a, i) != ParseFrom(b, i)
  {
    ParseUnfold(a, i, s);
    if ParseFrom(b, i).Some? {
      ParseUnfold(b, i, t);
      assert ParseFrom(a, i).value[0] == s.blocks[0] && ParseFrom(b, i).value[0] == t.blocks[0];
    }
  }

  lemma CancelBlocks(b: seq<Block>, u: seq<Block>, v: seq<Block>)
    requires b + u == b + v
    ensures u == v
  {
    assert u == (b + u)[|b|..] && v == (b + v)[|b|..];
  }

  lemma DiffersLater(a: seq<string>, b: seq<string>, i: nat, s: Step)
    requires i < |a| && i < |b| && s == StepAt(a, i) == StepAt(b, i) && i < s.next && ParseFrom(a, i).Some?
    requires ParseFrom(a, s.next) != ParseFrom(b, s.next)
    ensures ParseFrom(a, i) != ParseFrom(b, i)
  {
    ParseUnfold(a, i, s);
    if ParseFrom(b, i).Some? {
      ParseUnfold(b, i, s);
      if ParseFrom(a, i) == ParseFrom(b, i) {
        CancelBlocks(s.blocks, ParseFrom(a, s.next).value, ParseFrom(b, s.next).value);
      }
    }
  }

  lemma TextStaysOut(mode: Mode, line: string, c: string)
    requires IsContinuation(line) && !GoesOn(mode, line) && IsIndentedText(c)
    ensures !GoesOn(mode, c) && mode != InParagraph && !mode.InList? && mode != AtSeparator
  {
    IndentedView(line);
    IndentedView(c);
  }

  lemma BeforeTheTable(v: LineView, table: bool)
    requires After(BeginBy(v, table)) != InParagraph && !After(BeginBy(v, table)).InList?
    requires BeginBy(v, table) != AtSeparator
    ensures !PassesToTable(v)
  {
  }

  /** A block that ends in front of the line ends there whatever indented text the line is. */
  lemma FrontKept(a: seq<string>, b: seq<string>, k: nat, i: nat, s: Step)
    requires OneLineOff(a, b, k) && i < k && StartsBlock(RulesOf(a), a, i) && s == StepAt(a, i) && s.next == k
    requires IsContinuation(a[k]) && IsIndentedText(b[k])
    ensures StepAt(b, i) == s
  {
    var mode := After(Begin(a, i));
    OffAgrees(a, b, k, k + 1);
    StepBlock(RulesOf(a), a, i, s);
    NotInFront(a, k, i, s);
    TextStaysOut(mode, a[k], b[k]);
    if Begin(a, i) == AtSeparator {
      TableIsLong(a, i);
      SameHeader(a, b, i);
    } else {
      BeforeTheTable(View(a[i]), TableHeader(a, i).Some?);
    }
    LastStepKept(RulesOf(a), a, b, i, k, s);
  }

  lemma TableIsLong(a: seq<string>, i: nat)
    requires i < |a| && Begin(a, i) == AtSeparator
    ensures StepAt(a, i).next >= i + 2
  {
    var cells := HeaderIn(a, i);
    HeaderCells(a, i, cells);
    StepIsTable(a, i, cells);
    TableLength(a, i, cells);
  }

  lemma {:induction false} ShownFrom(a: seq<string>, k: nat, i: nat) returns (b: seq<string>)
    requires i <= k < |a| && StartsBlock(RulesOf(a), a, i) && IsContinuation(a[k]) && ParseFrom(a, i).Some?
    requires !ModeAt(a, k).InList? && ModeAt(a, k) != AtSeparator
    ensures OneLineOff(a, b, k) && IsIndentedText(b[k]) && ParseFrom(a, i) != ParseFrom(b, i)
    decreases k - i
  {
    var s := StepAt(a, i);
    ParseUnfold(a, i, s);
    if k < s.next {
      b := BlockShows(a, k, i, s);
      DiffersHere(a, b, i, s, StepAt(b, i));
    } else {
      StepBlock(RulesOf(a), a, i, s);
      NextStartsBlock(RulesOf(a), a, i, Begin(a, i), s.next);
      b := ShownFrom(a, k, s.next);
      OffAgrees(a, b, k, k + 1);
      if s.next < k {
        StepKept(RulesOf(a), a, b, i, k, s);
      } else {
        FrontKept(a, b, k, i, s);
      }
      DiffersLater(a, b, i, s);
    }
  }

  lemma BeginWithoutTable(v: LineView, table: bool)
    requires BeginBy(v, table) != AtSeparator
    ensures BeginBy(v, table) == BeginBy(v, false)
  {
  }

  lemma BeginAbove(a: seq<string>, b: seq<string>, i: nat)
    requires i + 1 < |a| && i + 1 < |b| && a[i] == b[i] && !OnlySeparators(b[i + 1]) && Begin(a, i) != AtSeparator
    ensures Begin(b, i) == Begin(a, i)
  {
    NoSeparatorBelow(b, i);
    BeginWithoutTable(View(a[i]), TableHeader(a, i).Some?);
  }

  lemma ModeNext(r: Rules, t: Rules, a: seq<string>, b: seq<string>, i: nat)
    requires i < |a| && i < |b| && a[i] == b[i] && r.goesOn == t.goesOn && r.onward == t.onward
    requires ModeBy(r, a, i) == ModeBy(t, b, i)
    requires r.goesOn(ModeBy(r, a, i), a[i]) || r.begin(i) == t.begin(i)
    ensures ModeBy(r, a, i + 1) == ModeBy(t, b, i + 1)
  {
  }

  lemma ModeNextIs(r: Rules, a: seq<string>, i: nat)
    requires i < |a| && !r.goesOn(ModeBy(r, a, i), a[i])
    ensures ModeBy(r, a, i + 1) == r.begin(i)
  {
  }

  /** Indented text leaves the mode in front of it alone. */
  lemma ModeKept(a: seq<string>, b: seq<string>, k: nat)
    requires OneLineOff(a, b, k) && !OnlySeparators(b[k]) && ModeAt(a, k) != AtSeparator
    ensures ModeAt(b, k) == ModeAt(a, k)
  {
    if k > 0 {
      var r, t, i := RulesOf(a), RulesOf(b), k - 1;
      OffAgrees(a, b, k, k + 1);
      ModesInFront(a, b, k, i);
      if !r.goesOn(ModeBy(r, a, i), a[i]) {
        ModeNextIs(r, a, i);
        BeginAbove(a, b, i);
      }
      ModeNext(r, t, a, b, i);
    }
  }

  /**
   * Whatever indented line stands in its place, if nothing else is open in front of it then, the result is the same.
   */
  ghost predicate IsLost(lines: seq<string>, k: nat)
    requires k < |lines|
  {
    forall c :: IsContinuation(c) && ModeAt(lines[k := c], k) == ModeAt(lines, k)
        ==> ParseLines(lines[k := c]) == ParseLines(lines)
  }

  lemma Lost(lines: seq<string>, k: nat)
    requires k < |lines| && IsContinuation(lines[k])
    requires ModeAt(lines, k).InList? || ModeAt(lines, k) == AtSeparator
    ensures IsLost(lines, k)
  {
    forall c | IsContinuation(c) && ModeAt(lines[k := c], k) == ModeAt(lines, k)
      ensures ParseLines(lines[k := c]) == ParseLines(lines)
    {
      ContinuationTextIsLost(lines, k, c);
    }
  }

  lemma OffIsUpdate(a: seq<string>, b: seq<string>, k: nat)
    requires OneLineOff(a, b, k)
    ensures b == a[k := b[k]]
  {
  }

  lemma NotLost(lines: seq<string>, k: nat, other: seq<string>)
    requires OneLineOff(lines, other, k) && IsContinuation(other[k]) && ModeAt(other, k) == ModeAt(lines, k)
    requires ParseLines(other) != ParseLines(lines)
    ensures !IsLost(lines, k)
  {
    OffIsUpdate(lines, other, k);
  }

  /** An indented line is lost exactly when it goes on with a list or separates a table's header from its rows. */
  lemma LostExactly(lines: seq<string>, k: nat)
    requires k < |lines| && IsContinuation(lines[k]) && ParseLines(lines).Some?
    ensures IsLost(lines, k) <==> ModeAt(lines, k).InList? || ModeAt(lines, k) == AtSeparator
  {
    if ModeAt(lines, k).InList? || ModeAt(lines, k) == AtSeparator {
      Lost(lines, k);
    } else {
      var other := ShownFrom(lines, k, 0);
      ModeKept(lines, other, k);
      NotLost(lines, k, other);
    }
  }
}
