/** What a line of each kind looks like, and which block a line begins (src/lib/markdown.ts). */
module MarkdownShapes {
  import opened Prelude
  import opened MarkdownInline
  import opened MarkdownBlocks
  import opened MarkdownLaws
  import opened MarkdownLists
  import opened MarkdownTokens
  import opened MarkdownWords

  // ----- White space -----

  lemma BlankExactly(s: string)
    ensures Blank(s) <==> IsGap(s)
  {
    Skipped(s, 0);
    if IsGap(s) {
      SkipsTo(s, 0, |s|);
    }
  }

  lemma {:induction false} TrimEndIs(s: string) returns (b: string)
    ensures s == TrimEnd(s) + b && IsGap(b)
    ensures TrimEnd(s) != "" ==> !IsSpace(TrimEnd(s)[|TrimEnd(s)| - 1])
  {
    if s != "" && IsSpace(s[|s| - 1]) {
      var b' := TrimEndIs(s[..|s| - 1]);
      b := b' + [s[|s| - 1]];
      assert s == s[..|s| - 1] + [s[|s| - 1]];
    } else {
      b := "";
    }
  }

  lemma {:induction false} TrimEndOf(t: string, b: string)
    requires IsGap(b) && (t != "" ==> !IsSpace(t[|t| - 1]))
    ensures TrimEnd(t + b) == t
  {
    if b == "" {
      assert t + b == t;
    } else {
      assert (t + b)[..|t + b| - 1] == t + b[..|b| - 1];
      TrimEndOf(t, b[..|b| - 1]);
    }
  }

  /** The text between the white space at both ends. */
  ghost predicate IsTrimmed(s: string, a: string, t: string, b: string) {
    s == a + t + b && IsGap(a) && IsGap(b) && (t == "" || (!IsSpace(t[0]) && !IsSpace(t[|t| - 1])))
  }

  lemma TrimExactly(s: string, t: string)
    ensures Trim(s) == t <==> exists a, b :: IsTrimmed(s, a, t, b)
  {
    var a, b := TrimmedAway(s);
    forall a, b, t | IsTrimmed(s, a, t, b) ensures Trim(s) == t {
      TrimOf(s, a, t, b);
    }
  }

  lemma TrimmedAway(s: string) returns (a: string, b: string)
    ensures IsTrimmed(s, a, Trim(s), b)
  {
    var k := SkipSpace(s, 0);
    Skipped(s, 0);
    b := TrimEndIs(s[k..]);
    a := s[..k];
    Between(s, k, TrimEnd(s[k..]), b);
  }

  lemma Between(s: string, k: nat, t: string, b: string)
    requires k <= |s| && s[k..] == t + b
    ensures s == s[..k] + t + b && (t != "" ==> k < |s| && t[0] == s[k])
    ensures forall i :: 0 <= i < k ==> s[..k][i] == s[i]
  {
    assert s == s[..k] + s[k..];
    assert t != "" ==> (t + b)[0] == t[0];
  }

  lemma TrimOf(s: string, a: string, t: string, b: string)
    requires IsTrimmed(s, a, t, b)
    ensures Trim(s) == t
  {
    if t == "" {
      SkipsTo(s, 0, |s|);
      assert s[|s|..] == "";
    } else {
      assert s[|a|] == t[0];
      SkipsTo(s, 0, |a|);
      assert s[|a|..] == t + b;
      TrimEndOf(t, b);
    }
  }

  // ----- A run of marks -----

  predicate IsLead(s: string) {
    |s| <= 3 && IsGap(s)
  }

  /** A line of at most three white characters, a whole run of n marks, white space and the rest. */
  ghost predicate Marked(line: string, lead: string, c: char, n: nat, gap: string, rest: string) {
    && IsLead(lead) && n >= 1 && !IsSpace(c) && IsGap(gap)
    && (rest != "" ==> !IsSpace(rest[0]) && (gap == "" ==> rest[0] != c))
    && line == lead + Repeat(c, n) + gap + rest
  }

  /** How such a line is read. */
  ghost predicate ReadsAs(line: string, lead: string, c: char, n: nat, gap: string, rest: string) {
    && Start(line) == Some(|lead|) && line[|lead|] == c
    && StartRun(line) == |lead| + n <= |line|
    && SkipSpace(line, |lead| + n) == |lead| + n + |gap|
    && line[|lead| + n..] == gap + rest && line[|lead| + n + |gap|..] == rest
  }

  lemma MarkedRead(line: string, lead: string, c: char, n: nat, gap: string, rest: string)
    requires Marked(line, lead, c, n, gap, rest)
    ensures ReadsAs(line, lead, c, n, gap, rest)
  {
    var a, b, e := |lead|, |lead| + n, |lead| + n + |gap|;
    RepeatAll(c, n);
    assert forall i :: 0 <= i < a ==> line[i] == lead[i];
    assert forall i :: a <= i < b ==> line[i] == Repeat(c, n)[i - a];
    assert forall i :: b <= i < e ==> line[i] == gap[i - b];
    assert e < |line| ==> line[e] == rest[0];
    SkipsTo(line, 0, a);
    RunTo(line, a, b, c);
    SkipsTo(line, b, e);
  }

  lemma MarkOf(line: string) returns (lead: string, c: char, n: nat, gap: string, rest: string)
    requires Start(line).Some?
    ensures Marked(line, lead, c, n, gap, rest) && ReadsAs(line, lead, c, n, gap, rest)
  {
    var a, b := Start(line).value, StartRun(line);
    c := line[a];
    var e := SkipSpace(line, b);
    lead, n, gap, rest := line[..a], b - a, line[b..e], line[e..];
    Skipped(line, 0);
    Skipped(line, b);
    RunIs(line, a, c);
    RunIsRepeat(line, a, b, c);
    CutAt(line, a, b, e);
  }

  lemma RunIsRepeat(line: string, a: nat, b: nat, c: char)
    requires a <= b <= |line| && forall i :: a <= i < b ==> line[i] == c
    ensures Repeat(c, b - a) == line[a..b]
  {
    RepeatAll(c, b - a);
  }

  lemma CutAt(line: string, a: nat, b: nat, e: nat)
    requires a <= b <= e <= |line|
    ensures line == line[..a] + line[a..b] + line[b..e] + line[e..] && line[b..] == line[b..e] + line[e..]
  {
  }

  // ----- The kinds of lines -----

  lemma BlankRest(gap: string, rest: string)
    requires Blank(gap + rest) && (rest != "" ==> !IsSpace(rest[0]))
    ensures rest == ""
  {
    BlankExactly(gap + rest);
    AtRest(gap, rest);
  }

  lemma AtRest(gap: string, rest: string)
    ensures rest != "" ==> |gap| < |gap + rest| && (gap + rest)[|gap|] == rest[0]
  {
  }

  lemma AtGap(line: string, k: nat, gap: string, rest: string)
    requires k < |line| && line[k..] == gap + rest
    ensures gap == "" ==> rest != "" && rest[0] == line[k]
  {
    assert line[k..][0] == line[k];
  }

  /** A rule: three or more equal ones of `-`, `*` and `_`, and white space. */
  lemma RuleExactly(line: string)
    ensures IsRule(line) <==>
            exists lead, c, n, gap :: Marked(line, lead, c, n, gap, "") && n >= 3 && (c == '-' || c == '*' || c == '_')
  {
    if IsRule(line) {
      var lead, c, n, gap, rest := MarkOf(line);
      BlankRest(gap, rest);
      assert Marked(line, lead, c, n, gap, "");
    }
    forall lead, c, n, gap | Marked(line, lead, c, n, gap, "") && n >= 3 && (c == '-' || c == '*' || c == '_')
      ensures IsRule(line) {
      MarkedRead(line, lead, c, n, gap, "");
      assert gap + "" == gap;
      BlankExactly(gap);
    }
  }

  /** One to six `#`, white space, and a rest without line ends. */
  ghost predicate HeadingOf(line: string, level: nat, lead: string, gap: string, rest: string) {
    Marked(line, lead, '#', level, gap, rest) && level <= 6 && gap != "" && Plain(rest)
  }

  lemma HeadingRead(line: string, level: nat, lead: string, gap: string, rest: string)
    requires HeadingOf(line, level, lead, gap, rest)
    ensures ParseHeading(line) == Some(HeadingLine(level, Trim(rest)))
  {
    MarkedRead(line, lead, '#', level, gap, rest);
    assert line[|lead| + level] == (gap + rest)[0] == gap[0];
  }

  lemma HeadingParts(line: string) returns (level: nat, lead: string, gap: string, rest: string)
    requires ParseHeading(line).Some?
    ensures HeadingOf(line, level, lead, gap, rest)
  {
    var c;
    lead, c, level, gap, rest := MarkOf(line);
    assert IsSpace(line[|lead| + level]);
    AtGap(line, |lead| + level, gap, rest);
  }

  /** A heading has a level and a text, of which the ends are trimmed. */
  lemma HeadingExactly(line: string, level: nat, text: string)
    ensures ParseHeading(line) == Some(HeadingLine(level, text)) <==>
            exists lead, gap, rest :: HeadingOf(line, level, lead, gap, rest) && text == Trim(rest)
  {
    if ParseHeading(line).Some? {
      var l, lead, gap, rest := HeadingParts(line);
      HeadingRead(line, l, lead, gap, rest);
    }
    forall lead, gap, rest | HeadingOf(line, level, lead, gap, rest)
      ensures ParseHeading(line) == Some(HeadingLine(level, Trim(rest))) {
      HeadingRead(line, level, lead, gap, rest);
    }
  }

  /** Three or more backticks or tildes, and a rest without line ends. */
  ghost predicate FenceOf(line: string, c: char, n: nat, lead: string, gap: string, rest: string) {
    Marked(line, lead, c, n, gap, rest) && n >= 3 && IsMark(c) && Plain(rest)
  }

  lemma FenceRead(line: string, c: char, n: nat, lead: string, gap: string, rest: string)
    requires FenceOf(line, c, n, lead, gap, rest)
    ensures FenceOpen(line) == Some(Opening(c, n, Trim(rest)))
  {
    MarkedRead(line, lead, c, n, gap, rest);
  }

  lemma FenceParts(line: string) returns (c: char, n: nat, lead: string, gap: string, rest: string)
    requires FenceOpen(line).Some?
    ensures FenceOf(line, c, n, lead, gap, rest)
  {
    lead, c, n, gap, rest := MarkOf(line);
  }

  /** The opening of a fence: its mark, how many there are, and the language, of which the ends are trimmed. */
  lemma FenceExactly(line: string, o: Opening)
    ensures FenceOpen(line) == Some(o) <==>
            exists lead, gap, rest :: FenceOf(line, o.ch, o.len, lead, gap, rest) && o.lang == Trim(rest)
  {
    if FenceOpen(line).Some? {
      var c, n, lead, gap, rest := FenceParts(line);
      FenceRead(line, c, n, lead, gap, rest);
    }
    forall lead, gap, rest | FenceOf(line, o.ch, o.len, lead, gap, rest)
      ensures FenceOpen(line) == Some(Opening(o.ch, o.len, Trim(rest))) {
      FenceRead(line, o.ch, o.len, lead, gap, rest);
    }
  }

  ghost predicate QuoteOf(line: string, lead: string, rest: string) {
    IsLead(lead) && line == lead + ">" + rest
  }

  /** A quoted line: `>` and the text, without one white character in front of it. */
  lemma QuoteExactly(line: string, text: string)
    ensures IsQuote(line) && Unquote(line) == text <==>
            exists lead, rest ::
              QuoteOf(line, lead, rest) && text == if rest != "" && IsSpace(rest[0]) then rest[1..] else rest
  {
    if IsQuote(line) {
      var a := Start(line).value;
      Skipped(line, 0);
      assert QuoteOf(line, line[..a], line[a + 1..]);
    }
    forall lead, rest | QuoteOf(line, lead, rest)
      ensures IsQuote(line) && Unquote(line) == if rest != "" && IsSpace(rest[0]) then rest[1..] else rest {
      assert line[|lead|] == '>' && forall i :: 0 <= i < |lead| ==> line[i] == lead[i];
      SkipsTo(line, 0, |lead|);
      assert line[|lead| + 1..] == rest;
      assert rest != "" ==> line[|lead| + 1] == rest[0] && line[|lead| + 2..] == rest[1..];
    }
  }

  // ----- The end of a fence -----

  predicate IsMark(c: char) {
    c == '`' || c == '~'
  }

  lemma {:induction false} MarksTo(s: string, from: nat, to: nat)
    requires from <= to <= |s| && (to < |s| ==> !IsMark(s[to])) && forall i :: from <= i < to ==> IsMark(s[i])
    ensures MarksEnd(s, from) == to
    decreases |s| - from
  {
    if from < to {
      MarksTo(s, from + 1, to);
    }
  }

  lemma {:induction false} MarksAre(s: string, from: nat)
    requires from <= |s|
    ensures forall i :: from <= i < MarksEnd(s, from) ==> IsMark(s[i])
    decreases |s| - from
  {
    if from < |s| && IsMark(s[from]) {
      MarksAre(s, from + 1);
    }
  }

  ghost predicate ClosingOf(line: string, lead: string, marks: string, gap: string) {
    && IsLead(lead) && marks != "" && (forall i :: 0 <= i < |marks| ==> IsMark(marks[i])) && IsGap(gap)
    && line == lead + marks + gap
  }

  /** The end of a fence: at least as many backticks or tildes, in any mixture that begins with the fence's own. */
  lemma CloseExactly(line: string, o: Opening)
    requires IsMark(o.ch)
    ensures ClosesFence(line, o) <==>
            exists lead, marks, gap :: ClosingOf(line, lead, marks, gap) && marks[0] == o.ch && |marks| >= o.len
  {
    if ClosesFence(line, o) {
      var a := Start(line).value;
      var b := MarksEnd(line, a);
      Skipped(line, 0);
      MarksAre(line, a);
      BlankExactly(line[b..]);
      assert line == line[..a] + line[a..b] + line[b..];
      assert ClosingOf(line, line[..a], line[a..b], line[b..]);
    }
    forall lead, marks, gap | ClosingOf(line, lead, marks, gap) && marks[0] == o.ch && |marks| >= o.len
      ensures ClosesFence(line, o) {
      ClosingRead(line, lead, marks, gap);
    }
  }

  lemma ClosingRead(line: string, lead: string, marks: string, gap: string)
    requires ClosingOf(line, lead, marks, gap)
    ensures Start(line) == Some(|lead|) && line[|lead|] == marks[0] && MarksEnd(line, |lead|) == |lead| + |marks|
    ensures Blank(line[|lead| + |marks|..])
  {
    var a, b := |lead|, |lead| + |marks|;
    assert forall i :: 0 <= i < a ==> line[i] == lead[i];
    assert forall i :: a <= i < b ==> line[i] == marks[i - a];
    assert b < |line| ==> line[b] == gap[0];
    SkipsTo(line, 0, a);
    MarksTo(line, a, b);
    assert line[b..] == gap;
    BlankExactly(gap);
  }

  /** A line that goes on with a list item: at least four white characters and some other text. */
  lemma ContinuationExactly(line: string)
    ensures IsContinuation(line) <==> |line| > 4 && (forall i :: 0 <= i < 4 ==> IsSpace(line[i])) && !IsGap(line)
  {
    var k := SkipSpace(line, 0);
    BlankExactly(line);
    Skipped(line, 0);
    if k > 3 {
      assert !IsItem(line, true) && !IsItem(line, false);
    }
  }

  // ----- The separator of a table -----

  lemma {:induction false} ContainsExactly(s: string, c: char)
    ensures Contains(s, c) <==> c in s
  {
    if s != "" {
      ContainsExactly(s[1..], c);
      assert s == [s[0]] + s[1..];
    }
  }

  predicate IsSeparatorChar(c: char) {
    IsSpace(c) || c == ':' || c == '|' || c == '-'
  }

  lemma {:induction false} OnlySeparatorsExactly(s: string)
    ensures OnlySeparators(s) <==> forall i :: 0 <= i < |s| ==> IsSeparatorChar(s[i])
  {
    if s != "" {
      OnlySeparatorsExactly(s[1..]);
      assert forall i :: 0 < i < |s| ==> s[i] == s[1..][i - 1];
      assert forall i :: 0 <= i < |s[1..]| ==> s[1..][i] == s[i + 1];
    }
  }

  lemma SeparatorExactly(line: string)
    ensures IsSeparator(line) <==> '-' in line && forall i :: 0 <= i < |line| ==> IsSeparatorChar(line[i])
  {
    OnlySeparatorsExactly(line);
    ContainsExactly(line, '-');
  }

  // ----- Which block a line begins -----

  /** At most one of the tests on a line succeeds. */
  predicate OneKind(v: LineView) {
    && (v.blank ==> v.fence.None? && !v.rule && v.heading.None? && !v.quote && !v.ordered && !v.unordered)
    && (v.fence.Some? ==> !v.rule && v.heading.None? && !v.quote && !v.ordered && !v.unordered)
    && (v.rule ==> v.heading.None? && !v.quote && !v.ordered && !v.unordered)
    && (v.heading.Some? ==> !v.quote && !v.ordered && !v.unordered)
    && (v.quote ==> !v.ordered && !v.unordered)
    && (v.ordered ==> !v.unordered)
  }

  lemma BlankBegins(line: string)
    ensures Blank(line) ==> Start(line).None?
  {
  }

  lemma MarksDiffer(line: string)
    ensures IsFenceRun(line) ==> !IsRule(line) && !IsHeadingRun(line) && !IsQuote(line)
    ensures IsRule(line) ==> !IsHeadingRun(line) && !IsQuote(line)
    ensures IsHeadingRun(line) ==> !IsQuote(line)
  {
  }

  lemma ViewHasOneKind(line: string)
    ensures OneKind(View(line))
  {
    BlankBegins(line);
    MarksDiffer(line);
    if IsItem(line, true) {
      ItemIsNothingElse(line, true);
    }
    if IsItem(line, false) {
      ItemIsNothingElse(line, false);
    }
  }

  /** Lines that begin with marks of their own. */
  ghost predicate BeginsMarked(v: LineView, blocks: seq<Block>) {
    && (v.blank ==> blocks == [])
    && (v.fence.Some? ==> |blocks| == 1 && blocks[0].Fence?)
    && (v.rule ==> blocks == [Rule])
    && (v.heading.Some? ==> blocks == [Heading(v.heading.value.level, Inlines(v.heading.value.text))])
    && (v.quote ==> |blocks| == 1 && blocks[0].Blockquote?)
  }

  /** Tables, lists and paragraphs. */
  ghost predicate BeginsOther(v: LineView, table: bool, blocks: seq<Block>) {
    && (table && (v.ordered || v.unordered || PassesToTable(v)) ==> |blocks| == 1 && blocks[0].Table?)
    && (!table && v.ordered ==> |blocks| == 1 && blocks[0].List? && blocks[0].ordered)
    && (!table && v.unordered ==> |blocks| == 1 && blocks[0].List? && !blocks[0].ordered)
    && (!table && PassesToTable(v) && !v.ordered && !v.unordered ==>
          |blocks| <= 1 && forall b :: b in blocks ==> b.Paragraph?)
  }

  lemma MarkedBy(lines: seq<string>, i: nat, v: LineView, table: Option<seq<string>>)
    requires i < |lines| && (table.Some? ==> i + 1 < |lines|) && OneKind(v)
    ensures BeginsMarked(v, StepBy(lines, i, v, table).blocks)
  {
  }

  lemma OtherBy(lines: seq<string>, i: nat, v: LineView, table: Option<seq<string>>)
    requires i < |lines| && (table.Some? ==> i + 1 < |lines|) && OneKind(v)
    ensures BeginsOther(v, table.Some?, StepBy(lines, i, v, table).blocks)
  {
  }

  /**
   * The first line of a block decides its kind, whatever order the tests come in, but for tables: a quote that could
   * begin one is a quote, and an item or a text that could is a table.
   */
  lemma KindExactly(lines: seq<string>, i: nat)
    requires i < |lines|
    ensures BeginsMarked(View(lines[i]), StepAt(lines, i).blocks)
    ensures BeginsOther(View(lines[i]), IsTableStart(lines, i), StepAt(lines, i).blocks)
  {
    ViewHasOneKind(lines[i]);
    var v, table := View(lines[i]), TableHeader(lines, i);
    MarkedBy(lines, i, v, table);
    OtherBy(lines, i, v, table);
  }
}
