/**
 * The block tokenizer (src/lib/markdown.ts). Each anchored regular expression is written out on the line's
 * characters; `.` does not match a line end, which is why a carriage return can stop the parser for good.
 */
module MarkdownBlocks {
  import opened Prelude
  import opened MarkdownInline

  datatype Block =
    | Fence(lang: string, content: string)
    | Heading(level: nat, children: seq<Inline>)
    | Paragraph(children: seq<Inline>)
    | Blockquote(children: seq<Inline>)
    | List(ordered: bool, items: seq<seq<Inline>>)
    | Table(headers: seq<seq<Inline>>, rows: seq<seq<seq<Inline>>>)
    | Rule

  // ----- Lines -----

  predicate IsLineEnd(c: char) {
    c == '\n' || c == '\r' || c == '\U{2028}' || c == '\U{2029}'
  }

  /** No character that `.` fails to match. */
  predicate Plain(s: string) {
    s == "" || (!IsLineEnd(s[0]) && Plain(s[1..]))
  }

  predicate Contains(s: string, c: char) {
    s != "" && (s[0] == c || Contains(s[1..], c))
  }

  function SkipSpace(s: string, from: nat): (r: nat)
    requires from <= |s|
    ensures from <= r <= |s| && (r < |s| ==> !IsSpace(s[r]))
    decreases |s| - from
  {
    if from < |s| && IsSpace(s[from]) then SkipSpace(s, from + 1) else from
  }

  predicate Blank(s: string) {
    SkipSpace(s, 0) == |s|
  }

  function TrimEnd(s: string): string {
    if s != "" && IsSpace(s[|s| - 1]) then TrimEnd(s[..|s| - 1]) else s
  }

  function Trim(s: string): string {
    TrimEnd(s[SkipSpace(s, 0)..])
  }

  /** `split(c)`. */
  function Split(s: string, c: char): (r: seq<string>)
    ensures r != []
  {
    if s == "" then [""]
    else
      var rest := Split(s[1..], c);
      if s[0] == c then [""] + rest else [[s[0]] + rest[0]] + rest[1..]
  }

  /** `join(sep)`. */
  function Join(lines: seq<string>, sep: string): string {
    if lines == [] then "" else if |lines| == 1 then lines[0] else lines[0] + sep + Join(lines[1..], sep)
  }

  /** Where the line's own text begins, at most three white characters in; None where it is further in or missing. */
  function Start(line: string): (r: Option<nat>)
    ensures r.Some? ==> r.value < |line| && !IsSpace(line[r.value])
  {
    var at := SkipSpace(line, 0);
    if at <= 3 && at < |line| then Some(at) else None
  }

  /** The first character of the line's own text. */
  predicate StartsWithChar(line: string, a: char, b: char, c: char) {
    Start(line).Some? && var x := line[Start(line).value]; x == a || x == b || x == c
  }

  /** The end of the run of equal characters with which the line's text begins. */
  function StartRun(line: string): (r: nat)
    requires Start(line).Some?
    ensures Start(line).value < r <= |line|
  {
    RunEnd(line, Start(line).value, line[Start(line).value])
  }

  // ----- What a line is -----

  /** Three or more backticks or tildes. */
  predicate IsFenceRun(line: string) {
    StartsWithChar(line, '`', '~', '~') && StartRun(line) - Start(line).value >= 3
  }

  datatype Opening = Opening(ch: char, len: nat, lang: string)

  function FenceOpen(line: string): Option<Opening> {
    if !IsFenceRun(line) then None
    else
      var rest := line[SkipSpace(line, StartRun(line))..];
      if Plain(rest) then Some(Opening(line[Start(line).value], StartRun(line) - Start(line).value, Trim(rest)))
      else None
  }

  function MarksEnd(s: string, from: nat): (r: nat)
    requires from <= |s|
    ensures from <= r <= |s|
    decreases |s| - from
  {
    if from < |s| && (s[from] == '`' || s[from] == '~') then MarksEnd(s, from + 1) else from
  }

  predicate ClosesFence(line: string, o: Opening) {
    && Start(line).Some?
    && var at := Start(line).value;
       line[at] == o.ch && (o.ch == '`' || o.ch == '~') && MarksEnd(line, at) - at >= o.len
           && Blank(line[MarksEnd(line, at)..])
  }

  predicate IsRule(line: string) {
    StartsWithChar(line, '-', '*', '_') && StartRun(line) - Start(line).value >= 3 && Blank(line[StartRun(line)..])
  }

  /** One to six `#` and white space. */
  predicate IsHeadingRun(line: string) {
    && StartsWithChar(line, '#', '#', '#') && StartRun(line) - Start(line).value <= 6
    && StartRun(line) < |line| && IsSpace(line[StartRun(line)])
  }

  datatype HeadingLine = HeadingLine(level: nat, text: string)

  function ParseHeading(line: string): Option<HeadingLine> {
    if !IsHeadingRun(line) then None
    else
      var rest := line[SkipSpace(line, StartRun(line))..];
      if Plain(rest) then Some(HeadingLine(StartRun(line) - Start(line).value, Trim(rest))) else None
  }

  predicate IsQuote(line: string) {
    StartsWithChar(line, '>', '>', '>')
  }

  function Unquote(line: string): string {
    if !IsQuote(line) then line
    else
      var from := Start(line).value + 1;
      if from < |line| && IsSpace(line[from]) then line[from + 1..] else line[from..]
  }

  function DigitsEnd(s: string, from: nat): (r: nat)
    requires from <= |s|
    ensures from <= r <= |s|
    decreases |s| - from
  {
    if from < |s| && '0' <= s[from] <= '9' then DigitsEnd(s, from + 1) else from
  }

  /** The place after an item's marker, where white space must follow. */
  function MarkerEnd(line: string, ordered: bool): (r: Option<nat>)
    ensures r.Some? ==> r.value <= |line|
  {
    if Start(line).None? then None
    else
      var at := Start(line).value;
      if ordered then
        var d := DigitsEnd(line, at);
        if d > at && d < |line| && (line[d] == '.' || line[d] == ')') then Some(d + 1) else None
      else if line[at] == '-' || line[at] == '*' || line[at] == '+' then Some(at + 1) else None
  }

  predicate IsItem(line: string, ordered: bool) {
    var m := MarkerEnd(line, ordered);
    m.Some? && m.value < |line| && IsSpace(line[m.value])
  }

  function ItemText(line: string, ordered: bool): string {
    if IsItem(line, ordered) then line[SkipSpace(line, MarkerEnd(line, ordered).value)..] else line
  }

  /** An indented line that goes on with a list item. */
  predicate IsContinuation(line: string) {
    !Blank(line) && !IsItem(line, true) && !IsItem(line, false) && SkipSpace(line, 0) >= 4
  }

  predicate IsParagraphLine(line: string) {
    && !Blank(line) && !IsFenceRun(line) && !IsHeadingRun(line) && !IsQuote(line) && !IsRule(line)
    && !IsItem(line, false) && !IsItem(line, true)
  }

  // ----- Tables -----

  function Map<T>(lines: seq<string>, f: string -> T): (r: seq<T>)
    ensures |r| == |lines|
  {
    if lines == [] then [] else [f(lines[0])] + Map(lines[1..], f)
  }

  predicate OnlySeparators(s: string) {
    s == "" || ((IsSpace(s[0]) || s[0] == ':' || s[0] == '|' || s[0] == '-') && OnlySeparators(s[1..]))
  }

  predicate IsSeparator(line: string) {
    OnlySeparators(line) && Contains(line, '-')
  }

  function SplitRow(row: string): seq<string> {
    var t := Trim(row);
    var left := if t != "" && t[0] == '|' then t[1..] else t;
    var inner := if left != "" && left[|left| - 1] == '|' then left[..|left| - 1] else left;
    Map(Split(inner, '|'), Trim)
  }

  predicate IsTableStart(lines: seq<string>, i: nat)
    requires i < |lines|
  {
    && Contains(lines[i], '|') && i + 1 < |lines| && IsSeparator(lines[i + 1])
    && |SplitRow(lines[i])| == |SplitRow(lines[i + 1])|
  }

  /** The header cells of the table that begins here. */
  function TableHeader(lines: seq<string>, i: nat): (r: Option<seq<string>>)
    requires i < |lines|
    ensures r.Some? <==> IsTableStart(lines, i)
  {
    if IsTableStart(lines, i) then Some(SplitRow(lines[i])) else None
  }

  predicate IsRow(line: string) {
    !Blank(line) && Contains(line, '|')
  }

  /** Padded with empty cells or cut to the width. */
  function Fit(cells: seq<string>, width: nat): (r: seq<string>)
    ensures |r| == width
  {
    if |cells| >= width then cells[..width] else cells + seq(width - |cells|, i => "")
  }

  function RowOf(width: nat): string -> seq<seq<Inline>> {
    (line: string) => Map(Fit(SplitRow(line), width), Inlines)
  }

  // ----- One block -----

  /** The first line from i on that does not satisfy p, or the end. */
  function Scan(lines: seq<string>, i: nat, p: string -> bool): (r: nat)
    requires i <= |lines|
    ensures i <= r <= |lines| && (r < |lines| ==> !p(lines[r]))
    ensures i < |lines| ==> (r > i <==> p(lines[i]))
    decreases |lines| - i
  {
    if i < |lines| && p(lines[i]) then Scan(lines, i + 1, p) else i
  }

  /** The block an iteration adds, if any, and the line at which the next one starts. */
  datatype Step = Step(blocks: seq<Block>, next: nat)

  function NotClosing(o: Opening): string -> bool {
    (line: string) => !ClosesFence(line, o)
  }

  function FenceStep(lines: seq<string>, i: nat, o: Opening): (s: Step)
    requires i < |lines|
    ensures i < s.next <= |lines|
  {
    var e := Scan(lines, i + 1, NotClosing(o));
    Step([Fence(o.lang, Join(lines[i + 1..e], "\n"))], if e < |lines| then e + 1 else e)
  }

  function QuoteStep(lines: seq<string>, i: nat): (s: Step)
    requires i < |lines|
    ensures i <= s.next <= |lines| && (IsQuote(lines[i]) ==> i < s.next)
  {
    var e := Scan(lines, i, IsQuote);
    Step([Blockquote(Inlines(Join(Map(lines[i..e], Unquote), " ")))], e)
  }

  function TableStep(lines: seq<string>, i: nat, headers: seq<seq<Inline>>, row: string -> seq<seq<Inline>>): (s: Step)
    requires i + 1 < |lines|
    ensures i < s.next <= |lines|
  {
    var e := Scan(lines, i + 2, IsRow);
    Step([Table(headers, Map(lines[i + 2..e], row))], e)
  }

  function TableAt(lines: seq<string>, i: nat, cells: seq<string>): (s: Step)
    requires i + 1 < |lines|
    ensures i < s.next <= |lines|
  {
    TableStep(lines, i, Map(cells, Inlines), RowOf(|cells|))
  }

  datatype Items = Items(items: seq<seq<Inline>>, next: nat)

  /** Items begin with a line that satisfies p; the text of an item's continuation lines is skipped. */
  function ListItems(lines: seq<string>, i: nat, p: string -> bool, f: string -> seq<Inline>): (r: Items)
    requires i <= |lines|
    ensures i <= r.next <= |lines|
    ensures i < |lines| && p(lines[i]) ==> i < r.next
    decreases |lines| - i
  {
    if i < |lines| && p(lines[i]) then
      var rest := ListItems(lines, Scan(lines, i + 1, IsContinuation), p, f);
      Items([f(lines[i])] + rest.items, rest.next)
    else Items([], i)
  }

  function ItemTest(ordered: bool): string -> bool {
    (line: string) => IsItem(line, ordered)
  }

  function ItemInlines(ordered: bool): string -> seq<Inline> {
    (line: string) => Inlines(ItemText(line, ordered))
  }

  function ListStep(lines: seq<string>, i: nat, ordered: bool): (s: Step)
    requires i < |lines|
    ensures i <= s.next <= |lines| && (IsItem(lines[i], ordered) ==> i < s.next)
  {
    var r := ListItems(lines, i, ItemTest(ordered), ItemInlines(ordered));
    Step([List(ordered, r.items)], r.next)
  }

  function ParagraphStep(lines: seq<string>, i: nat): (s: Step)
    requires i < |lines|
    ensures i <= s.next <= |lines| && (i < s.next <==> IsParagraphLine(lines[i]))
  {
    var e := Scan(lines, i, IsParagraphLine);
    Step(if e > i then [Paragraph(Inlines(Join(lines[i..e], " ")))] else [], e)
  }

  /** What the tests on one line say. */
  datatype LineView = LineView(blank: bool, fence: Option<Opening>, rule: bool, heading: Option<HeadingLine>,
      quote: bool,
                               ordered: bool, unordered: bool)

  function View(line: string): LineView {
    LineView(Blank(line), FenceOpen(line), IsRule(line), ParseHeading(line), IsQuote(line), IsItem(line, true),
        IsItem(line, false))
  }

  /** The first test that succeeds decides. */
  function StepBy(lines: seq<string>, i: nat, v: LineView, table: Option<seq<string>>): (s: Step)
    requires i < |lines| && (table.Some? ==> i + 1 < |lines|)
    ensures i <= s.next <= |lines| && |s.blocks| <= 1
  {
    if v.blank then Step([], i + 1)
    else if v.fence.Some? then FenceStep(lines, i, v.fence.value)
    else if v.rule then Step([Rule], i + 1)
    else if v.heading.Some? then Step([Heading(v.heading.value.level, Inlines(v.heading.value.text))], i + 1)
    else if v.quote then QuoteStep(lines, i)
    else if table.Some? then TableAt(lines, i, table.value)
    else if v.ordered then ListStep(lines, i, true)
    else if v.unordered then ListStep(lines, i, false)
    else ParagraphStep(lines, i)
  }

  /** One iteration of the outer loop. */
  function StepAt(lines: seq<string>, i: nat): (s: Step)
    requires i < |lines|
    ensures i <= s.next <= |lines| && |s.blocks| <= 1
  {
    StepBy(lines, i, View(lines[i]), TableHeader(lines, i))
  }

  /** The blocks from line i on; None where an iteration does not advance, and the loop never ends. */
  function ParseFrom(lines: seq<string>, i: nat): Option<seq<Block>>
    decreases if i < |lines| then |lines| - i else 0
  {
    if i >= |lines| then Some([])
    else
      var s := StepAt(lines, i);
      if s.next == i then None
      else
        var rest := ParseFrom(lines, s.next);
        if rest.None? then None else Some(s.blocks + rest.value)
  }

  function ParseLines(lines: seq<string>): Option<seq<Block>> {
    ParseFrom(lines, 0)
  }

  function ParseText(text: string): Option<seq<Block>> {
    if text == "" then Some([]) else ParseLines(Split(text, '\n'))
  }

  // ----- The program's form -----

  method ReadFence(lines: seq<string>, start: nat, o: Opening) returns (block: Block, i: nat)
    requires start < |lines|
    ensures Step([block], i) == FenceStep(lines, start, o)
  {
    var contentLines: seq<string> := [];
    i := start + 1;
    var closed := false;
    while i < |lines| && !closed
      invariant start < i <= |lines|
      invariant closed ==> start + 1 < i && Scan(lines, start + 1, NotClosing(o)) == i - 1
      invariant closed ==> contentLines == lines[start + 1..i - 1]
      invariant !closed ==> Scan(lines, start + 1, NotClosing(o)) == Scan(lines, i, NotClosing(o))
      invariant !closed ==> contentLines == lines[start + 1..i]
      decreases |lines| - i
    {
      if ClosesFence(lines[i], o) {
        closed := true;
      } else {
        contentLines := contentLines + [lines[i]];
      }
      i := i + 1;
    }
    block := Fence(o.lang, Join(contentLines, "\n"));
  }

  lemma {:induction false} MapAppend<T>(lines: seq<string>, line: string, f: string -> T)
    ensures Map(lines + [line], f) == Map(lines, f) + [f(line)]
  {
    if lines == [] {
      assert [] + [line] == [line] && [line][1..] == [];
      assert Map([line], f) == [f([line][0])] + Map([line][1..], f);
    } else {
      assert (lines + [line])[1..] == lines[1..] + [line];
      MapAppend(lines[1..], line, f);
    }
  }

  /** Collects what f makes of the lines while they satisfy p. */
  method Collect<T>(lines: seq<string>, start: nat, p: string -> bool, f: string -> T) returns (taken: seq<T>, i: nat)
    requires start <= |lines|
    ensures i == Scan(lines, start, p) && taken == Map(lines[start..i], f)
  {
    taken := [];
    i := start;
    while i < |lines| && p(lines[i])
      invariant start <= i <= |lines|
      invariant Scan(lines, start, p) == Scan(lines, i, p)
      invariant taken == Map(lines[start..i], f)
    {
      assert lines[start..i + 1] == lines[start..i] + [lines[i]];
      MapAppend(lines[start..i], lines[i], f);
      taken := taken + [f(lines[i])];
      i := i + 1;
    }
  }

  method ReadQuote(lines: seq<string>, start: nat) returns (block: Block, i: nat)
    requires start < |lines|
    ensures Step([block], i) == QuoteStep(lines, start)
  {
    var quoteLines;
    quoteLines, i := Collect(lines, start, IsQuote, Unquote);
    var children := ParseInline(Join(quoteLines, " "));
    block := Blockquote(children);
  }

  method ReadTable(lines: seq<string>, start: nat, headers: seq<seq<Inline>>, row: string -> seq<seq<Inline>>)
    returns (block: Block, i: nat)
    requires start + 1 < |lines|
    ensures Step([block], i) == TableStep(lines, start, headers, row)
  {
    var rows;
    rows, i := Collect(lines, start + 2, IsRow, row);
    block := Table(headers, rows);
  }

  method ReadTableAt(lines: seq<string>, start: nat, cells: seq<string>) returns (block: Block, i: nat)
    requires start + 1 < |lines|
    ensures Step([block], i) == TableAt(lines, start, cells)
  {
    block, i := ReadTable(lines, start, Map(cells, Inlines), RowOf(|cells|));
  }

  method TryParseTable(lines: seq<string>, start: nat) returns (table: Option<Block>, i: nat)
    requires start + 1 < |lines| && Contains(lines[start], '|') && IsSeparator(lines[start + 1])
    ensures table.Some? <==> IsTableStart(lines, start)
    ensures table.Some? ==> Step([table.value], i) == TableAt(lines, start, SplitRow(lines[start]))
  {
    var headerCells := SplitRow(lines[start]);
    var sepCells := SplitRow(lines[start + 1]);
    table, i := None, start;
    if |headerCells| == |sepCells| {
      var block;
      block, i := ReadTableAt(lines, start, headerCells);
      table := Some(block);
    }
  }

  function Itself(line: string): string {
    line
  }

  lemma {:induction false} MapItself(lines: seq<string>)
    ensures Map(lines, Itself) == lines
  {
    if lines != [] {
      MapItself(lines[1..]);
    }
  }

  /** One item further. */
  lemma ItemStep(lines: seq<string>, i: nat, p: string -> bool, f: string -> seq<Inline>, done: seq<seq<Inline>>,
      next: nat)
    requires i < |lines| && p(lines[i]) && next == Scan(lines, i + 1, IsContinuation)
    ensures ListItems(lines, i, p, f).next == ListItems(lines, next, p, f).next
    ensures done + ListItems(lines, i, p, f).items == done + [f(lines[i])] + ListItems(lines, next, p, f).items
  {
    var one, rest := [f(lines[i])], ListItems(lines, next, p, f).items;
    assert done + (one + rest) == done + one + rest;
  }

  method SkipContinuation(lines: seq<string>, start: nat) returns (i: nat)
    requires start <= |lines|
    ensures i == Scan(lines, start, IsContinuation)
  {
    i := start;
    while i < |lines| && IsContinuation(lines[i])
      invariant start <= i <= |lines|
      invariant Scan(lines, start, IsContinuation) == Scan(lines, i, IsContinuation)
    {
      i := i + 1;
    }
  }

  method ReadItems(lines: seq<string>, start: nat, p: string -> bool, f: string -> seq<Inline>)
      returns (items: seq<seq<Inline>>, i: nat)
    requires start <= |lines|
    ensures Items(items, i) == ListItems(lines, start, p, f)
  {
    items := [];
    i := start;
    while i < |lines| && p(lines[i])
      invariant start <= i <= |lines|
      invariant ListItems(lines, start, p, f).next == ListItems(lines, i, p, f).next
      invariant ListItems(lines, start, p, f).items == items + ListItems(lines, i, p, f).items
      decreases |lines| - i
    {
      var item := f(lines[i]);
      var next := SkipContinuation(lines, i + 1);
      ItemStep(lines, i, p, f, items, next);
      items := items + [item];
      i := next;
    }
    assert items + [] == items;
  }

  method ReadList(lines: seq<string>, start: nat, ordered: bool) returns (block: Block, i: nat)
    requires start < |lines|
    ensures Step([block], i) == ListStep(lines, start, ordered)
  {
    var items;
    items, i := ReadItems(lines, start, ItemTest(ordered), ItemInlines(ordered));
    block := List(ordered, items);
  }

  method ReadParagraph(lines: seq<string>, start: nat) returns (blocks: seq<Block>, i: nat)
    requires start < |lines|
    ensures Step(blocks, i) == ParagraphStep(lines, start)
  {
    var paraLines;
    paraLines, i := Collect(lines, start, IsParagraphLine, Itself);
    MapItself(lines[start..i]);
    blocks := [];
    if |paraLines| > 0 {
      var children := ParseInline(Join(paraLines, " "));
      blocks := [Paragraph(children)];
    }
  }

  method Iterate(lines: seq<string>, start: nat) returns (blocks: seq<Block>, i: nat)
    requires start < |lines|
    ensures Step(blocks, i) == StepAt(lines, start)
  {
    var line := lines[start];
    if Blank(line) {
      return [], start + 1;
    }
    var opening := FenceOpen(line);
    if opening.Some? {
      var fence, next := ReadFence(lines, start, opening.value);
      return [fence], next;
    }
    if IsRule(line) {
      return [Rule], start + 1;
    }
    var heading := ParseHeading(line);
    if heading.Some? {
      var children := ParseInline(heading.value.text);
      return [Heading(heading.value.level, children)], start + 1;
    }
    if IsQuote(line) {
      var quote, next := ReadQuote(lines, start);
      return [quote], next;
    }
    if Contains(line, '|') && start + 1 < |lines| && IsSeparator(lines[start + 1]) {
      var table, next := TryParseTable(lines, start);
      if table.Some? {
        return [table.value], next;
      }
    }
    if IsItem(line, true) {
      var list, next := ReadList(lines, start, true);
      return [list], next;
    }
    if IsItem(line, false) {
      var list, next := ReadList(lines, start, false);
      return [list], next;
    }
    blocks, i := ReadParagraph(lines, start);
  }

  method ParseLoop(lines: seq<string>) returns (blocks: seq<Block>)
    requires ParseLines(lines).Some?
    ensures ParseLines(lines) == Some(blocks)
  {
    blocks := [];
    var i := 0;
    assert [] + ParseLines(lines).value == ParseLines(lines).value;
    while i < |lines|
      invariant i <= |lines|
      invariant ParseFrom(lines, i).Some? && ParseLines(lines).value == blocks + ParseFrom(lines, i).value
      decreases |lines| - i
    {
      ParseStep(lines, i, blocks);
      var more, next := Iterate(lines, i);
      blocks := blocks + more;
      i := next;
    }
    assert blocks + [] == blocks;
  }

  /** Returns whenever the loop ends. */
  method ParseMarkdown(text: string) returns (blocks: seq<Block>)
    requires ParseText(text).Some?
    ensures ParseText(text) == Some(blocks)
  {
    if text == "" {
      return [];
    }
    blocks := ParseLoop(Split(text, '\n'));
  }

  /** One iteration further. */
  lemma ParseStep(lines: seq<string>, i: nat, done: seq<Block>)
    requires i < |lines| && ParseFrom(lines, i).Some?
    ensures var s := StepAt(lines, i);
            && i < s.next && ParseFrom(lines, s.next).Some?
            && done + ParseFrom(lines, i).value == done + s.blocks + ParseFrom(lines, s.next).value
  {
    var s := StepAt(lines, i);
    RegroupBlocks(done, s.blocks, ParseFrom(lines, s.next).value);
  }

  lemma RegroupBlocks(a: seq<Block>, b: seq<Block>, c: seq<Block>)
    ensures a + (b + c) == a + b + c
  {
  }
}
