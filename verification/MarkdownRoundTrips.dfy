/** What is written as a block of a kind is read as that block. */
module MarkdownRoundTrips {
  import opened Prelude
  import opened MarkdownInline
  import opened MarkdownBlocks
  import opened MarkdownLaws
  import opened MarkdownLines
  import opened MarkdownShapes
  import opened MarkdownWords

  // ----- Fences -----

  lemma {:induction false} RunOfRepeat(before: nat, n: nat, c: char, rest: string)
    requires before <= n && (rest != "" ==> rest[0] != c)
    ensures RunEnd(Repeat(c, n) + rest, before, c) == n
    decreases n - before
  {
    var s := Repeat(c, n) + rest;
    RepeatAll(c, n);
    if before < n {
      assert s[before] == c;
      RunOfRepeat(before + 1, n, c, rest);
    } else if rest != "" {
      assert s[n] == rest[0];
    }
  }

  lemma {:induction false} MarksOfRepeat(before: nat, n: nat, c: char)
    requires before <= n && (c == '`' || c == '~')
    ensures MarksEnd(Repeat(c, n), before) == n
    decreases n - before
  {
    RepeatAll(c, n);
    if before < n {
      assert Repeat(c, n)[before] == c;
      MarksOfRepeat(before + 1, n, c);
    }
  }

  lemma FenceOpens(c: char, n: nat, lang: string)
    requires (c == '`' || c == '~') && n >= 3
    requires Plain(lang) && Trim(lang) == lang && (lang != "" ==> lang[0] != c && !IsSpace(lang[0]))
    ensures !Blank(Repeat(c, n) + lang) && FenceOpen(Repeat(c, n) + lang) == Some(Opening(c, n, lang))
  {
    FromStart(Repeat(c, n), "", lang);
    FenceRead(Repeat(c, n) + lang, c, n, "", "", lang);
    OpeningNotBlank(Repeat(c, n) + lang);
  }

  lemma FromStart(marks: string, gap: string, rest: string)
    ensures marks + (gap + rest) == "" + marks + gap + rest
    ensures gap == "" ==> marks + rest == "" + marks + gap + rest
  {
  }

  lemma OpeningNotBlank(line: string)
    requires FenceOpen(line).Some?
    ensures !Blank(line)
  {
    ViewHasOneKind(line);
  }

  lemma FenceTaken(lines: seq<string>, i: nat, o: Opening)
    requires i < |lines| && !Blank(lines[i]) && FenceOpen(lines[i]) == Some(o)
    ensures StepAt(lines, i) == FenceStep(lines, i, o)
  {
  }

  lemma FenceCloses(c: char, n: nat, lang: string)
    requires (c == '`' || c == '~') && n >= 3
    ensures ClosesFence(Repeat(c, n), Opening(c, n, lang))
  {
    var line := Repeat(c, n);
    RepeatAll(c, n);
    assert line[0] == c && SkipSpace(line, 0) == 0;
    MarksOfRepeat(0, n, c);
    assert line[n..] == "";
  }

  ghost predicate NoneCloses(lines: seq<string>, from: nat, to: nat, o: Opening)
    requires to <= |lines|
  {
    forall i :: from <= i < to ==> !ClosesFence(lines[i], o)
  }

  lemma FenceScanned(lines: seq<string>, i: nat, e: nat, o: Opening)
    requires i < e < |lines| && ClosesFence(lines[e], o) && NoneCloses(lines, i + 1, e, o)
    ensures Scan(lines, i + 1, NotClosing(o)) == e
  {
    forall k | i + 1 <= k < e ensures NotClosing(o)(lines[k]) {
      assert !ClosesFence(lines[k], o);
    }
    ScanTo(lines, i + 1, e, NotClosing(o));
  }

  /** Lines none of which closes the fence come back verbatim from inside it, and reading goes on after it. */
  lemma FenceRoundTrip(lines: seq<string>, i: nat, e: nat, c: char, n: nat, lang: string)
    requires (c == '`' || c == '~') && n >= 3
    requires Plain(lang) && Trim(lang) == lang && (lang != "" ==> lang[0] != c && !IsSpace(lang[0]))
    requires i < e < |lines| && lines[i] == Repeat(c, n) + lang && lines[e] == Repeat(c, n)
    requires NoneCloses(lines, i + 1, e, Opening(c, n, lang))
    ensures StepAt(lines, i) == Step([Fence(lang, Join(lines[i + 1..e], "\n"))], e + 1)
  {
    FenceOpens(c, n, lang);
    FenceCloses(c, n, lang);
    FenceScanned(lines, i, e, Opening(c, n, lang));
    FenceTaken(lines, i, Opening(c, n, lang));
  }

  lemma {:induction false} ScanTo(lines: seq<string>, i: nat, e: nat, p: string -> bool)
    requires i <= e <= |lines| && (e < |lines| ==> !p(lines[e])) && forall k :: i <= k < e ==> p(lines[k])
    ensures Scan(lines, i, p) == e
    decreases e - i
  {
    if i < e {
      ScanTo(lines, i + 1, e, p);
    }
  }

  // ----- Headings -----

  lemma HeadingLineParses(level: nat, text: string)
    requires 1 <= level <= 6 && Plain(text) && Trim(text) == text && (text != "" ==> !IsSpace(text[0]))
    ensures var line := Repeat('#', level) + (" " + text);
            !Blank(line) && FenceOpen(line).None? && !IsRule(line)
                && ParseHeading(line) == Some(HeadingLine(level, text))
  {
    var line := Repeat('#', level) + (" " + text);
    FromStart(Repeat('#', level), " ", text);
    HeadingRead(line, level, "", " ", text);
    ViewHasOneKind(line);
  }

  lemma HeadingRoundTrip(level: nat, text: string)
    requires 1 <= level <= 6 && Plain(text) && Trim(text) == text && (text != "" ==> !IsSpace(text[0]))
    ensures ParseLines([Repeat('#', level) + (" " + text)]) == Some([Heading(level, Inlines(text))])
  {
    HeadingLineParses(level, text);
    var lines := [Repeat('#', level) + (" " + text)];
    assert StepAt(lines, 0) == Step([Heading(level, Inlines(text))], 1);
    LastStep(lines, 0);
  }

  // ----- Headings with a carriage return -----

  lemma {:induction false} SpaceAfter(pre: string, t: string, k: nat)
    requires k <= |t|
    ensures SkipSpace(pre + t, |pre| + k) == |pre| + SkipSpace(t, k)
    decreases |t| - k
  {
    if k < |t| {
      assert (pre + t)[|pre| + k] == t[k];
      SpaceAfter(pre, t, k + 1);
    }
  }

  lemma {:induction false} SpaceToEnd(t: string, k: nat)
    requires k <= |t| && SkipSpace(t, k) == |t|
    ensures SkipSpace(t + "\r", k) == |t| + 1
    decreases |t| - k
  {
    var longer := t + "\r";
    if k < |t| {
      assert longer[k] == t[k];
      SpaceToEnd(t, k + 1);
    } else {
      assert longer[k] == '\r' && SkipSpace(longer, k + 1) == |t| + 1;
    }
  }

  lemma {:induction false} ReturnIsNotPlain(s: string)
    requires s != "" && s[|s| - 1] == '\r'
    ensures !Plain(s)
  {
    if |s| > 1 {
      ReturnIsNotPlain(s[1..]);
    }
  }

  /** Where the text of a heading begins, and that it is empty only if it was blank. */
  lemma HeadingRest(level: nat, text: string, line: string)
    requires 1 <= level <= 6 && line == Repeat('#', level) + (" " + (text + "\r"))
    ensures IsHeadingRun(line) && StartRun(line) == level
    ensures Plain(line[SkipSpace(line, level)..]) <==> Blank(text)
  {
    var t := " " + (text + "\r");
    RepeatAll('#', level);
    assert line[0] == '#' && SkipSpace(line, 0) == 0 && Start(line) == Some(0);
    RunOfRepeat(0, level, '#', t);
    assert line[level] == t[0] == ' ';
    SpaceAfter(Repeat('#', level), t, 0);
    SpaceAfter(" ", text + "\r", 0);
    assert SkipSpace(t, 0) == SkipSpace(t, 1);
    if Blank(text) {
      SpaceToEnd(text, 0);
      assert line[SkipSpace(line, level)..] == "";
    } else {
      SpaceGrows(text, "\r", 0);
      var rest := line[SkipSpace(line, level)..];
      assert rest[|rest| - 1] == line[|line| - 1] == '\r';
      ReturnIsNotPlain(rest);
    }
  }

  lemma HeadingJamsExactly(line: string)
    requires IsHeadingRun(line)
    ensures Jams(line) <==> !Plain(line[SkipSpace(line, StartRun(line))..])
  {
    JamsAreNothingElse(line);
  }

  lemma LoneLine(line: string)
    requires OneLine(line) && line != ""
    ensures ParseText(line) == None <==> Jams(line)
  {
    SplitOne(line);
    StepAdvancesExactly([line], 0);
    if !Jams(line) {
      LastStep([line], 0);
    }
  }

  lemma HeadingWithReturn(level: nat, text: string, line: string)
    requires 1 <= level <= 6 && OneLine(text) && line == Repeat('#', level) + (" " + (text + "\r"))
    ensures OneLine(line) && line != "" && (Jams(line) <==> !Blank(text))
  {
    RepeatAll('#', level);
    HeadingRest(level, text, line);
    HeadingJamsExactly(line);
  }

  /** A heading saved with a carriage return stops the parser for good, unless it is empty. */
  lemma CarriageReturnJams(level: nat, text: string)
    requires 1 <= level <= 6 && OneLine(text)
    ensures ParseText(Repeat('#', level) + (" " + (text + "\r"))) == None <==> !Blank(text)
  {
    HeadingWithReturn(level, text, Repeat('#', level) + (" " + (text + "\r")));
    LoneLine(Repeat('#', level) + (" " + (text + "\r")));
  }

  // ----- Quotes -----

  function Quoted(text: string): string {
    "> " + text
  }

  lemma QuotedLine(text: string)
    ensures IsQuote(Quoted(text)) && Unquote(Quoted(text)) == text
    ensures !Blank(Quoted(text)) && FenceOpen(Quoted(text)).None? && !IsRule(Quoted(text))
    ensures ParseHeading(Quoted(text)).None?
  {
    var line := Quoted(text);
    assert line[0] == '>' && line[1] == ' ' && SkipSpace(line, 0) == 0 && Start(line) == Some(0);
    assert line[2..] == text;
  }

  lemma {:induction false} MapOfMap<T>(texts: seq<string>, g: string -> string, f: string -> T, h: string -> T)
    requires forall t :: t in texts ==> f(g(t)) == h(t)
    ensures Map(Map(texts, g), f) == Map(texts, h)
  {
    if texts != [] {
      assert texts[0] in texts;
      MapOfMap(texts[1..], g, f, h);
      assert Map(texts, g)[0] == g(texts[0]) && Map(texts, g)[1..] == Map(texts[1..], g);
    }
  }

  lemma {:induction false} MapAt<T>(texts: seq<string>, g: string -> T, i: nat)
    requires i < |texts|
    ensures Map(texts, g)[i] == g(texts[i])
  {
    if i > 0 {
      MapAt(texts[1..], g, i - 1);
    }
  }

  lemma QuoteRoundTrip(texts: seq<string>)
    requires texts != []
    ensures ParseLines(Map(texts, Quoted)) == Some([Blockquote(Inlines(Join(texts, " ")))])
  {
    var lines := Map(texts, Quoted);
    forall i | 0 <= i < |lines| ensures IsQuote(lines[i]) {
      MapAt(texts, Quoted, i);
      QuotedLine(texts[i]);
    }
    MapAt(texts, Quoted, 0);
    QuotedLine(texts[0]);
    AllScanned(lines, 0, IsQuote);
    forall t | t in texts ensures Unquote(Quoted(t)) == Itself(t) {
      QuotedLine(t);
    }
    MapOfMap(texts, Quoted, Unquote, Itself);
    MapItself(texts);
    assert lines[0..|lines|] == lines;
    assert StepAt(lines, 0) == QuoteStep(lines, 0);
    LastStep(lines, 0);
  }

  // ----- Tables -----

  /** A row of a table with its outer bars. */
  function Row(cells: seq<string>): string {
    "|" + Join(cells, "|") + "|"
  }

  predicate IsCell(cell: string) {
    Trim(cell) == cell && !Contains(cell, '|')
  }

  predicate AreCells(cells: seq<string>) {
    cells == [] || (IsCell(cells[0]) && AreCells(cells[1..]))
  }

  lemma {:induction false} SplitCell(cell: string, rest: string)
    requires !Contains(cell, '|')
    ensures Split(cell, '|') == [cell]
    ensures Split(cell + "|" + rest, '|') == [cell] + Split(rest, '|')
  {
    var s := cell + "|" + rest;
    if cell == "" {
      assert s[0] == '|' && s[1..] == rest;
    } else {
      SplitCell(cell[1..], rest);
      assert s[0] == cell[0] && s[1..] == cell[1..] + "|" + rest;
      assert [cell[0]] + cell[1..] == cell;
    }
  }

  predicate BarFree(cells: seq<string>) {
    cells == [] || (!Contains(cells[0], '|') && BarFree(cells[1..]))
  }

  lemma {:induction false} CellsAreBarFree(cells: seq<string>)
    requires AreCells(cells)
    ensures BarFree(cells) && Map(cells, Trim) == cells
  {
    if cells != [] {
      CellsAreBarFree(cells[1..]);
    }
  }

  lemma {:induction false} SplitJoin(cells: seq<string>)
    requires cells != [] && BarFree(cells)
    ensures Split(Join(cells, "|"), '|') == cells
  {
    if |cells| == 1 {
      SplitCell(cells[0], "");
    } else {
      SplitCell(cells[0], Join(cells[1..], "|"));
      SplitJoin(cells[1..]);
      assert [cells[0]] + cells[1..] == cells;
    }
  }

  /** Between outer bars the texts between the bars are the cells, without the white space around them. */
  lemma RowSplits(cells: seq<string>)
    requires cells != [] && BarFree(cells)
    ensures SplitRow(Row(cells)) == Map(cells, Trim)
    ensures Contains(Row(cells), '|') && !Blank(Row(cells))
  {
    var row, inner := Row(cells), Join(cells, "|");
    assert row[0] == '|' && row[|row| - 1] == '|' && SkipSpace(row, 0) == 0;
    assert row[0..] == row && TrimEnd(row) == row && Trim(row) == row;
    var left := row[1..];
    assert left == inner + "|" && left[..|left| - 1] == inner;
    SplitJoin(cells);
  }

  /** Splitting a written row gives its cells back. */
  lemma RowRoundTrip(cells: seq<string>)
    requires cells != [] && AreCells(cells)
    ensures SplitRow(Row(cells)) == cells
    ensures Contains(Row(cells), '|') && !Blank(Row(cells))
  {
    CellsAreBarFree(cells);
    RowSplits(cells);
  }

  lemma {:induction false} JoinEnds(cells: seq<string>)
    requires cells != [] && cells[0] != "" && cells[|cells| - 1] != ""
    ensures var s, last := Join(cells, "|"), cells[|cells| - 1];
            s != "" && s[0] == cells[0][0] && s[|s| - 1] == last[|last| - 1]
  {
    if |cells| > 1 {
      JoinLast(cells[1..]);
    }
  }

  lemma {:induction false} JoinLast(cells: seq<string>)
    requires cells != [] && cells[|cells| - 1] != ""
    ensures var s, last := Join(cells, "|"), cells[|cells| - 1]; s != "" && s[|s| - 1] == last[|last| - 1]
  {
    if |cells| > 1 {
      JoinLast(cells[1..]);
    }
  }

  lemma TrimEnds(s: string)
    requires s != "" && !IsSpace(s[0]) && !IsSpace(s[|s| - 1])
    ensures Trim(s) == s
  {
    assert s[0..] == s;
  }

  lemma {:induction false} TrimEndLast(s: string)
    ensures TrimEnd(s) != "" ==> !IsSpace(TrimEnd(s)[|TrimEnd(s)| - 1])
  {
    if s != "" && IsSpace(s[|s| - 1]) {
      TrimEndLast(s[..|s| - 1]);
    }
  }

  lemma {:induction false} TrimEndShorter(s: string)
    ensures |TrimEnd(s)| <= |s|
  {
    if s != "" && IsSpace(s[|s| - 1]) {
      TrimEndShorter(s[..|s| - 1]);
    }
  }

  lemma CellEnds(cell: string)
    requires IsCell(cell) && cell != ""
    ensures !IsSpace(cell[0]) && !IsSpace(cell[|cell| - 1]) && cell[0] != '|' && cell[|cell| - 1] != '|'
  {
    TrimEndLast(cell[SkipSpace(cell, 0)..]);
    TrimEndShorter(cell[SkipSpace(cell, 0)..]);
    NoBarAt(cell, 0);
    NoBarAt(cell, |cell| - 1);
  }

  lemma {:induction false} NoBarAt(s: string, i: nat)
    requires i < |s| && !Contains(s, '|')
    ensures s[i] != '|'
  {
    if i > 0 {
      NoBarAt(s[1..], i - 1);
    }
  }

  lemma {:induction false} LastCell(cells: seq<string>, i: nat)
    requires AreCells(cells) && i < |cells|
    ensures IsCell(cells[i])
  {
    if i > 0 {
      LastCell(cells[1..], i - 1);
    }
  }

  /** The outer bars may be missing where the outer cells are not empty. */
  lemma BareRowRoundTrip(cells: seq<string>)
    requires cells != [] && AreCells(cells) && cells[0] != "" && cells[|cells| - 1] != ""
    ensures SplitRow(Join(cells, "|")) == cells
  {
    BareEnds(cells, Join(cells, "|"));
    CellsAreBarFree(cells);
    SplitJoin(cells);
  }

  /** Neither white space nor a bar at the ends. */
  lemma BareEnds(cells: seq<string>, row: string)
    requires cells != [] && AreCells(cells) && cells[0] != "" && cells[|cells| - 1] != "" && row == Join(cells, "|")
    ensures row != "" && row[0] != '|' && row[|row| - 1] != '|' && Trim(row) == row
  {
    LastCell(cells, 0);
    LastCell(cells, |cells| - 1);
    CellEnds(cells[0]);
    CellEnds(cells[|cells| - 1]);
    JoinEnds(cells);
    TrimEnds(row);
  }

  /** The separator row of a table with the given number of columns. */
  function Dashes(n: nat): (r: seq<string>)
    ensures |r| == n
  {
    if n == 0 then [] else ["-"] + Dashes(n - 1)
  }

  lemma {:induction false} DashesSeparate(n: nat)
    requires n > 0
    ensures OnlySeparators(Join(Dashes(n), "|")) && Contains(Join(Dashes(n), "|"), '-')
    ensures AreCells(Dashes(n))
  {
    DashCell("-");
    if n > 1 {
      DashesSeparate(n - 1);
      assert Dashes(n)[1..] == Dashes(n - 1);
      OnlySeparatorsConcat("-", "|");
      OnlySeparatorsConcat("-" + "|", Join(Dashes(n - 1), "|"));
      BarSeparates("|");
    } else {
      assert Dashes(1) == ["-"];
    }
  }

  lemma DashCell(dash: string)
    requires dash == "-"
    ensures IsCell(dash) && OnlySeparators(dash) && Contains(dash, '-')
  {
    assert dash[1..] == "" && SkipSpace(dash, 0) == 0 && dash[0..] == dash;
  }

  lemma BarSeparates(bar: string)
    requires bar == "|"
    ensures OnlySeparators(bar)
  {
    assert bar[1..] == "";
  }

  lemma SeparatorRow(n: nat)
    requires n > 0
    ensures IsSeparator(Row(Dashes(n))) && |SplitRow(Row(Dashes(n)))| == n
  {
    DashesSeparate(n);
    BarSeparates("|");
    OnlySeparatorsConcat("|", Join(Dashes(n), "|"));
    OnlySeparatorsConcat("|" + Join(Dashes(n), "|"), "|");
    RowRoundTrip(Dashes(n));
  }

  lemma BarLine(line: string)
    requires line != "" && line[0] == '|'
    ensures PassesToTable(View(line))
  {
    assert SkipSpace(line, 0) == 0 && Start(line) == Some(0);
  }

  lemma BarOfRow(cells: seq<string>)
    ensures PassesToTable(View(Row(cells)))
  {
    assert Row(cells)[0] == '|';
    BarLine(Row(cells));
  }

  lemma HeaderOfRows(lines: seq<string>, i: nat, cells: seq<string>)
    requires cells != [] && AreCells(cells)
    requires i + 2 <= |lines| && lines[i] == Row(cells) && lines[i + 1] == Row(Dashes(|cells|))
    ensures TableHeader(lines, i) == Some(cells)
  {
    RowRoundTrip(cells);
    SeparatorRow(|cells|);
  }

  /** The table with the given header cells and one row per line, cut or padded to fit. */
  function TableOf(cells: seq<string>, body: seq<string>): Block {
    Table(Map(cells, Inlines), Map(body, RowOf(|cells|)))
  }

  lemma TableStepBody(lines: seq<string>, i: nat, headers: seq<seq<Inline>>, row: string -> seq<seq<Inline>>, e: nat)
    requires i + 2 <= |lines| && e == Scan(lines, i + 2, IsRow)
    ensures TableStep(lines, i, headers, row) == Step([Table(headers, Map(lines[i + 2..e], row))], e)
  {
  }

  lemma TableStepAtEnd(lines: seq<string>, i: nat, headers: seq<seq<Inline>>, row: string -> seq<seq<Inline>>)
    requires i + 2 <= |lines| && Scan(lines, i + 2, IsRow) == |lines|
    ensures TableStep(lines, i, headers, row) == Step([Table(headers, Map(lines[i + 2..], row))], |lines|)
  {
    TableStepBody(lines, i, headers, row, |lines|);
    assert lines[i + 2..|lines|] == lines[i + 2..];
  }

  lemma TableAtEnd(lines: seq<string>, i: nat, cells: seq<string>)
    requires i + 2 <= |lines| && Scan(lines, i + 2, IsRow) == |lines|
    ensures TableAt(lines, i, cells) == Step([TableOf(cells, lines[i + 2..])], |lines|)
  {
    TableStepAtEnd(lines, i, Map(cells, Inlines), RowOf(|cells|));
  }

  function MapRows<T>(rows: seq<seq<string>>, f: seq<string> -> T): (r: seq<T>)
    ensures |r| == |rows|
  {
    if rows == [] then [] else [f(rows[0])] + MapRows(rows[1..], f)
  }

  lemma {:induction false} MapOfRows<T>(rows: seq<seq<string>>, w: seq<string> -> string, f: string -> T,
      h: seq<string> -> T)
    requires forall cells :: cells in rows ==> f(w(cells)) == h(cells)
    ensures Map(MapRows(rows, w), f) == MapRows(rows, h)
  {
    if rows != [] {
      assert rows[0] in rows;
      MapOfRows(rows[1..], w, f, h);
      assert MapRows(rows, w)[0] == w(rows[0]) && MapRows(rows, w)[1..] == MapRows(rows[1..], w);
    }
  }

  lemma {:induction false} AllOfRows(rows: seq<seq<string>>, w: seq<string> -> string, p: string -> bool)
    requires forall cells :: cells in rows ==> p(w(cells))
    ensures forall i :: 0 <= i < |rows| ==> p(MapRows(rows, w)[i])
  {
    if rows != [] {
      assert rows[0] in rows;
      AllOfRows(rows[1..], w, p);
    }
  }

  /** The lines of a table's body, as they are written. */
  function RowLines(rows: seq<seq<string>>): seq<string> {
    MapRows(rows, Row)
  }

  function InlineCells(cells: seq<string>): seq<seq<Inline>> {
    Map(cells, Inlines)
  }

  ghost predicate AreRows(rows: seq<seq<string>>) {
    forall cells :: cells in rows ==> cells != [] && AreCells(cells)
  }

  /** A row of the given width: its first cells, and behind them empty ones where it is too short. */
  function ShownCells(width: nat): seq<string> -> seq<seq<Inline>> {
    (cells: seq<string>) => seq(width, i requires 0 <= i < width => if i < |cells| then Inlines(cells[i]) else [])
  }

  lemma FitShows(cells: seq<string>, width: nat)
    ensures Map(Fit(cells, width), Inlines) == ShownCells(width)(cells)
  {
    var fitted, shown := Fit(cells, width), ShownCells(width)(cells);
    forall i | 0 <= i < width ensures Map(fitted, Inlines)[i] == shown[i] {
      MapAt(fitted, Inlines, i);
      assert i >= |cells| ==> fitted[i] == "" && Inlines("") == [];
    }
  }

  lemma RowBack(cells: seq<string>, width: nat)
    requires cells != [] && AreCells(cells)
    ensures RowOf(width)(Row(cells)) == ShownCells(width)(cells) && IsRow(Row(cells))
  {
    RowRoundTrip(cells);
    FitShows(cells, width);
  }

  /** f gives back the cells of a written row. */
  ghost predicate GivesBack(f: string -> seq<seq<Inline>>, width: nat) {
    forall cells :: cells != [] && AreCells(cells) ==> f(Row(cells)) == ShownCells(width)(cells)
  }

  lemma RowsComeBack(width: nat)
    ensures GivesBack(RowOf(width), width)
  {
    forall cells | cells != [] && AreCells(cells) ensures RowOf(width)(Row(cells)) == ShownCells(width)(cells) {
      RowBack(cells, width);
    }
  }

  lemma RowsBackBy(rows: seq<seq<string>>, width: nat, f: string -> seq<seq<Inline>>)
    requires AreRows(rows) && GivesBack(f, width)
    ensures Map(RowLines(rows), f) == MapRows(rows, ShownCells(width))
  {
    MapOfRows(rows, Row, f, ShownCells(width));
  }

  lemma RowsBack(rows: seq<seq<string>>, width: nat)
    requires AreRows(rows)
    ensures Map(RowLines(rows), RowOf(width)) == MapRows(rows, ShownCells(width))
  {
    RowsComeBack(width);
    RowsBackBy(rows, width, RowOf(width));
  }

  lemma LastScanned(lines: seq<string>, i: nat, body: seq<string>, p: string -> bool)
    requires i + 2 <= |lines| && lines[i + 2..] == body && forall x :: 0 <= x < |body| ==> p(body[x])
    ensures Scan(lines, i + 2, p) == |lines|
  {
    forall k | i + 2 <= k < |lines| ensures p(lines[k]) {
      assert lines[k] == lines[i + 2..][k - i - 2];
    }
    AllScanned(lines, i + 2, p);
  }

  lemma BodyScanned(lines: seq<string>, i: nat, rows: seq<seq<string>>)
    requires i + 2 <= |lines| && lines[i + 2..] == RowLines(rows) && AreRows(rows)
    ensures Scan(lines, i + 2, IsRow) == |lines|
  {
    forall cells | cells in rows ensures IsRow(Row(cells)) {
      RowBack(cells, 1);
    }
    AllOfRows(rows, Row, IsRow);
    LastScanned(lines, i, RowLines(rows), IsRow);
  }

  lemma TableShows(cells: seq<string>, body: seq<string>, shown: seq<seq<seq<Inline>>>)
    requires Map(body, RowOf(|cells|)) == shown
    ensures TableOf(cells, body) == Table(InlineCells(cells), shown)
  {
  }

  lemma TableOfRows(cells: seq<string>, rows: seq<seq<string>>)
    requires cells != [] && AreRows(rows)
    ensures TableOf(cells, RowLines(rows)) == Table(InlineCells(cells), MapRows(rows, ShownCells(|cells|)))
  {
    RowsBack(rows, |cells|);
    TableShows(cells, RowLines(rows), MapRows(rows, ShownCells(|cells|)));
  }

  lemma RowsBegin(lines: seq<string>, i: nat, cells: seq<string>)
    requires cells != [] && AreCells(cells)
    requires i + 2 <= |lines| && lines[i] == Row(cells) && lines[i + 1] == Row(Dashes(|cells|))
    ensures PassesToTable(View(lines[i])) && TableHeader(lines, i) == Some(cells)
  {
    BarOfRow(cells);
    HeaderOfRows(lines, i, cells);
  }

  lemma TableToEnd(lines: seq<string>, i: nat, cells: seq<string>)
    requires i + 2 <= |lines| && Scan(lines, i + 2, IsRow) == |lines|
    ensures TableAt(lines, i, cells).next == |lines|
  {
    TableAtEnd(lines, i, cells);
  }

  lemma StepIsTableAt(lines: seq<string>, i: nat, cells: seq<string>) returns (s: Step)
    requires i + 1 < |lines| && PassesToTable(View(lines[i])) && TableHeader(lines, i) == Some(cells)
    ensures s == StepAt(lines, i) == TableAt(lines, i, cells)
  {
    s := TableAt(lines, i, cells);
    StepByTable(lines, i, View(lines[i]), cells);
  }

  /** A table that reaches to the end of the lines is all there is. */
  lemma TableParses(lines: seq<string>, i: nat, cells: seq<string>) returns (s: Step)
    requires i + 1 < |lines| && PassesToTable(View(lines[i])) && TableHeader(lines, i) == Some(cells)
    requires TableAt(lines, i, cells).next == |lines|
    ensures s == TableAt(lines, i, cells) && ParseFrom(lines, i) == Some(s.blocks)
  {
    s := StepIsTableAt(lines, i, cells);
    LastStep(lines, i);
  }

  lemma TableOfWritten(lines: seq<string>, i: nat, cells: seq<string>, rows: seq<seq<string>>, s: Step)
    requires cells != [] && AreRows(rows) && i + 2 <= |lines| && lines[i + 2..] == RowLines(rows)
    requires s == TableAt(lines, i, cells) && Scan(lines, i + 2, IsRow) == |lines|
    ensures s.blocks == [Table(InlineCells(cells), MapRows(rows, ShownCells(|cells|)))]
  {
    TableAtEnd(lines, i, cells);
    TableOfRows(cells, rows);
  }

  /** A written table, up to the end of the lines. */
  lemma WrittenTable(lines: seq<string>, i: nat, cells: seq<string>, rows: seq<seq<string>>)
    requires cells != [] && AreCells(cells) && AreRows(rows)
    requires i + 2 <= |lines| && lines[i] == Row(cells) && lines[i + 1] == Row(Dashes(|cells|))
    requires lines[i + 2..] == RowLines(rows)
    ensures ParseFrom(lines, i) == Some([Table(InlineCells(cells), MapRows(rows, ShownCells(|cells|)))])
  {
    RowsBegin(lines, i, cells);
    BodyScanned(lines, i, rows);
    TableToEnd(lines, i, cells);
    var s := TableParses(lines, i, cells);
    TableOfWritten(lines, i, cells, rows, s);
  }

  /** A written table is read as the table with these headers and these rows, cut or filled up to their number. */
  lemma TableRoundTrip(cells: seq<string>, rows: seq<seq<string>>)
    requires cells != [] && AreCells(cells) && AreRows(rows)
    ensures ParseLines([Row(cells), Row(Dashes(|cells|))] + RowLines(rows))
        == Some([Table(InlineCells(cells), MapRows(rows, ShownCells(|cells|)))])
  {
    var lines := [Row(cells), Row(Dashes(|cells|))] + RowLines(rows);
    assert lines[0 + 2..] == RowLines(rows);
    WrittenTable(lines, 0, cells, rows);
  }
}
