/** Where each inline token begins and ends (src/lib/markdown.ts). */
module MarkdownTokens {
  import opened Prelude
  import opened MarkdownInline

  ghost predicate Free(s: string, from: nat, to: nat, c: char)
    requires to <= |s|
  {
    forall i :: from <= i < to ==> s[i] != c
  }

  lemma {:induction false} IndexIsNext(s: string, from: nat, c: char)
    requires from <= |s|
    ensures Free(s, from, IndexOf(s, from, c), c)
    decreases |s| - from
  {
    if from < |s| && s[from] != c {
      IndexIsNext(s, from + 1, c);
    }
  }

  // ----- Code -----

  /** At e, after some other character, there stand exactly n ticks. */
  ghost predicate Closes(s: string, start: nat, e: nat, n: nat) {
    && start < e && e + n <= |s| && s[e - 1] != '`'
    && (forall i :: e <= i < e + n ==> s[i] == '`') && (e + n < |s| ==> s[e + n] != '`')
  }

  lemma {:induction false} RunIs(s: string, from: nat, c: char)
    requires from <= |s|
    ensures forall i :: from <= i < RunEnd(s, from, c) ==> s[i] == c
    ensures RunEnd(s, from, c) < |s| ==> s[RunEnd(s, from, c)] != c
    decreases |s| - from
  {
    if from < |s| && s[from] == c {
      RunIs(s, from + 1, c);
    }
  }

  lemma {:induction false} RunTo(s: string, from: nat, to: nat, c: char)
    requires from <= to <= |s| && (to < |s| ==> s[to] != c) && forall i :: from <= i < to ==> s[i] == c
    ensures RunEnd(s, from, c) == to
    decreases |s| - from
  {
    if from < to {
      RunTo(s, from + 1, to, c);
    }
  }

  lemma ClosesByRun(s: string, start: nat, e: nat, n: nat)
    requires start < e < |s| && n > 0
    ensures Closes(s, start, e, n) <==> s[e - 1] != '`' && RunEnd(s, e, '`') == e + n
  {
    RunIs(s, e, '`');
    if Closes(s, start, e, n) {
      RunTo(s, e, e + n, '`');
    }
  }

  ghost predicate NoneCloses(s: string, start: nat, from: nat, to: nat, n: nat) {
    forall e :: from <= e < to ==> !Closes(s, start, e, n)
  }

  lemma {:induction false} CloseIsNext(s: string, start: nat, e: nat, n: nat)
    requires start < e <= |s| && n > 0
    ensures var r := CodeClose(s, e, n);
            (r < |s| ==> Closes(s, start, r, n)) && NoneCloses(s, start, e, r, n)
    decreases |s| - e
  {
    if e < |s| {
      ClosesByRun(s, start, e, n);
      if !Closes(s, start, e, n) {
        CloseIsNext(s, start, e + 1, n);
      }
    }
  }

  /** Nothing closes the n ticks in front of the start. */
  ghost predicate NoCode(s: string, start: nat, n: nat) {
    forall e :: start < e <= |s| ==> !Closes(s, start, e, n)
  }

  lemma NoneLater(s: string, start: nat, n: nat, r: nat)
    requires n > 0 && NoneCloses(s, start, start + 1, r, n) && r >= |s|
    ensures NoCode(s, start, n)
  {
  }

  /** No code begins with the n ticks at this place. */
  ghost predicate NoCodeOf(s: string, pos: nat, n: nat) {
    NoCode(s, pos + n, n)
  }

  ghost predicate NoneLonger(s: string, pos: nat, k: nat, n: nat) {
    forall m :: k < m <= n ==> NoCodeOf(s, pos, m)
  }

  /** The span begins with k of the n ticks and ends at the first place that closes them. */
  ghost predicate CodeAt(s: string, pos: nat, k: nat, n: nat, r: Span) {
    && r.Span? && 0 < k <= n && r.start == pos + k && r.next == r.end + k
    && Closes(s, r.start, r.end, k) && NoneCloses(s, r.start, r.start + 1, r.end, k)
    && NoneLonger(s, pos, k, n)
  }

  /**
   * Code begins with as many of the ticks as some later run, after another character, has exactly; it ends at the
   * first such run, and holds the ticks left over at its beginning.
   */
  lemma {:induction false} CodeSpanExactly(s: string, pos: nat, n: nat) returns (k: nat)
    requires pos + n <= |s|
    ensures if CodeSpan(s, pos, n).Span? then CodeAt(s, pos, k, n, CodeSpan(s, pos, n)) else NoneLonger(s, pos, 0, n)
    decreases n
  {
    k := n;
    if n > 0 {
      var e := if pos + n < |s| then CodeClose(s, pos + n + 1, n) else |s|;
      if pos + n < |s| {
        CloseIsNext(s, pos + n, pos + n + 1, n);
      }
      if e >= |s| {
        NoneLater(s, pos + n, n, e);
        k := CodeSpanExactly(s, pos, n - 1);
        OneLonger(s, pos, k, n);
        OneLonger(s, pos, 0, n);
      }
    }
  }

  lemma OneLonger(s: string, pos: nat, k: nat, n: nat)
    requires n > 0 && NoCode(s, pos + n, n)
    ensures NoneLonger(s, pos, k, n - 1) ==> NoneLonger(s, pos, k, n)
  {
  }

  // ----- Bold, italic, links and tags -----

  /** The marks, a body without their character that is not empty, the marks again, and no more of them. */
  ghost predicate Emphasized(s: string, pos: nat, mark: string, e: nat) {
    && mark != "" && pos + |mark| < e && e + |mark| <= |s|
    && s[pos..pos + |mark|] == mark && Free(s, pos + |mark|, e, mark[0]) && s[e..e + |mark|] == mark
    && (e + |mark| < |s| ==> s[e + |mark|] != mark[0])
  }

  lemma EmphasisExactly(s: string, pos: nat, mark: string, e: nat)
    requires pos <= |s| && mark != ""
    ensures EmphasisSpan(s, pos, mark) == Span(pos + |mark|, e, e + |mark|) <==> Emphasized(s, pos, mark, e)
    ensures EmphasisSpan(s, pos, mark).Span? ==> Emphasized(s, pos, mark, EmphasisSpan(s, pos, mark).end)
  {
    if pos + |mark| <= |s| {
      var start := pos + |mark|;
      IndexIsNext(s, start, mark[0]);
      if Emphasized(s, pos, mark, e) {
        assert s[e] == s[e..e + |mark|][0] == mark[0];
        IndexIsFirst(s, start, e, mark[0]);
      }
    }
  }

  /** `[`, a label without `]`, `](`, an address without `)` and white space, and `)`. */
  ghost predicate Linked(s: string, pos: nat, mid: nat, end: nat) {
    && pos + 1 < mid && mid + 2 < end < |s|
    && s[pos] == '[' && Free(s, pos + 1, mid, ']') && s[mid] == ']' && s[mid + 1] == '('
    && (forall i :: mid + 2 <= i < end ==> s[i] != ')' && !IsSpace(s[i])) && s[end] == ')'
  }

  lemma {:induction false} UrlIsNext(s: string, from: nat)
    requires from <= |s|
    ensures forall i :: from <= i < UrlEnd(s, from) ==> s[i] != ')' && !IsSpace(s[i])
    decreases |s| - from
  {
    if from < |s| && s[from] != ')' && !IsSpace(s[from]) {
      UrlIsNext(s, from + 1);
    }
  }

  lemma LinkExactly(s: string, pos: nat, mid: nat, end: nat)
    requires pos < |s|
    ensures FindLink(s, pos) == LinkSpan(mid, end) <==> Linked(s, pos, mid, end)
  {
    IndexIsNext(s, pos + 1, ']');
    var m := IndexOf(s, pos + 1, ']');
    if m + 2 <= |s| {
      UrlIsNext(s, m + 2);
    }
    if Linked(s, pos, mid, end) {
      IndexIsFirst(s, pos + 1, mid, ']');
      UrlEndIsFirst(s, mid + 2, end);
    }
  }

  /** `<`, perhaps `/`, a letter, and everything to the next `>`. */
  ghost predicate Tagged(s: string, pos: nat, name: nat, e: nat) {
    && pos < name < e && e < |s| && s[pos] == '<'
    && (name == pos + 1 || (name == pos + 2 && s[pos + 1] == '/'))
    && IsLetter(s[name]) && Free(s, name + 1, e, '>') && s[e] == '>'
  }

  lemma TagExactly(s: string, pos: nat, e: nat)
    requires pos < |s|
    ensures TagEnd(s, pos) == e + 1 && e >= pos <==> exists name: nat :: Tagged(s, pos, name, e)
    ensures TagEnd(s, pos) == pos <==> !exists name: nat, e: nat :: Tagged(s, pos, name, e)
  {
    if TagEnd(s, pos) > pos {
      var name := if pos + 1 < |s| && s[pos + 1] == '/' then pos + 2 else pos + 1;
      IndexIsNext(s, name + 1, '>');
      assert Tagged(s, pos, name, TagEnd(s, pos) - 1);
    }
    forall name: nat, e: nat | Tagged(s, pos, name, e) ensures TagEnd(s, pos) == e + 1 {
      IndexIsFirst(s, name + 1, e, '>');
    }
  }

  // ----- Which token it is -----

  /** At most one candidate matches. */
  predicate OnlyOne(c: Candidates, pos: nat) {
    && (c.code.Span? ==> c.bold.NoSpan? && c.bold_.NoSpan? && c.italic.NoSpan? && c.italic_.NoSpan?)
    && (c.code.Span? || c.bold.Span? || c.bold_.Span? || c.italic.Span? || c.italic_.Span? ==>
          c.link.NoLink? && c.tag <= pos)
    && (c.bold.Span? ==> c.bold_.NoSpan? && c.italic.NoSpan? && c.italic_.NoSpan?)
    && (c.bold_.Span? ==> c.italic.NoSpan? && c.italic_.NoSpan?)
    && (c.italic.Span? ==> c.italic_.NoSpan?)
    && (c.link.LinkSpan? ==> c.tag <= pos)
  }

  predicate IsBold(s: string, b: Span, t: Token) {
    b.Span? && b.start <= b.end <= |s| ==> t == BoldToken(s[b.start..b.end], b.next)
  }

  predicate IsItalic(s: string, b: Span, t: Token) {
    b.Span? && b.start <= b.end <= |s| ==> t == ItalicToken(s[b.start..b.end], b.next)
  }

  /** Every candidate that matches is the token; if none does it is the one character. */
  predicate IsEach(s: string, pos: nat, c: Candidates, t: Token)
    requires InsideAll(s, pos, c)
  {
    && (c.code.Span? ==> t == CodeToken(s[c.code.start..c.code.end], c.code.next))
    && IsBold(s, c.bold, t) && IsBold(s, c.bold_, t) && IsItalic(s, c.italic, t) && IsItalic(s, c.italic_, t)
    && (c.link.LinkSpan? && IsAllowedLinkUrl(s[c.link.mid + 2..c.link.end]) ==>
          t == LinkToken(s[pos + 1..c.link.mid], s[c.link.mid + 2..c.link.end], c.link.end + 1))
    && (c.tag > pos ==> t == Literal(c.tag))
    && (NoneMatches(c, pos) ==> t == Literal(pos + 1))
  }

  predicate NoneMatches(c: Candidates, pos: nat) {
    && c.code.NoSpan? && c.bold.NoSpan? && c.bold_.NoSpan? && c.italic.NoSpan? && c.italic_.NoSpan?
    && c.link.NoLink? && c.tag == pos
  }

  lemma PickIs(s: string, pos: nat, c: Candidates)
    requires pos < |s| && InsideAll(s, pos, c) && OnlyOne(c, pos)
    ensures IsEach(s, pos, c, Pick(s, pos, c))
  {
  }

  lemma OnlyOneMatches(s: string, pos: nat)
    requires pos < |s|
    ensures OnlyOne(CandidatesAt(s, pos), pos)
  {
    FirstCharacter(s, pos);
  }

  /** No two tokens begin at the same place, so the order in which they are tried does not matter. */
  lemma TokenExactly(s: string, pos: nat)
    requires pos < |s|
    ensures var c := Candidates(CodeSpan(s, pos, RunEnd(s, pos, '`') - pos), EmphasisSpan(s, pos, "**"),
                                EmphasisSpan(s, pos, "__"), EmphasisSpan(s, pos, "*"), EmphasisSpan(s, pos, "_"),
                                FindLink(s, pos), TagEnd(s, pos));
            InsideAll(s, pos, c) && IsEach(s, pos, c, TokenAt(s, pos))
  {
    OnlyOneMatches(s, pos);
    PickIs(s, pos, CandidatesAt(s, pos));
  }

  lemma FirstCharacter(s: string, pos: nat)
    requires pos < |s|
    ensures CodeSpan(s, pos, RunEnd(s, pos, '`') - pos).Span? ==> s[pos] == '`'
    ensures EmphasisSpan(s, pos, "**").Span? ==> s[pos] == '*' && EmphasisSpan(s, pos, "*").NoSpan?
    ensures EmphasisSpan(s, pos, "__").Span? ==> s[pos] == '_' && EmphasisSpan(s, pos, "_").NoSpan?
    ensures EmphasisSpan(s, pos, "*").Span? ==> s[pos] == '*'
    ensures EmphasisSpan(s, pos, "_").Span? ==> s[pos] == '_'
    ensures FindLink(s, pos).LinkSpan? ==> s[pos] == '['
    ensures TagEnd(s, pos) > pos ==> s[pos] == '<'
  {
    DoubleMark(s, pos, "**", "*");
    DoubleMark(s, pos, "__", "_");
    OneMark(s, pos, "*");
    OneMark(s, pos, "_");
  }

  lemma OneMark(s: string, pos: nat, mark: string)
    requires pos < |s| && |mark| == 1
    ensures EmphasisSpan(s, pos, mark).Span? ==> s[pos] == mark[0]
  {
    if EmphasisSpan(s, pos, mark).Span? {
      assert s[pos] == s[pos..pos + 1][0];
    }
  }

  lemma DoubleMark(s: string, pos: nat, two: string, one: string)
    requires pos < |s| && |one| == 1 && two == one + one
    ensures EmphasisSpan(s, pos, two).Span? ==> s[pos] == one[0] && EmphasisSpan(s, pos, one).NoSpan?
  {
    if EmphasisSpan(s, pos, two).Span? {
      assert s[pos] == s[pos..pos + 2][0] && s[pos + 1] == s[pos..pos + 2][1];
      assert IndexOf(s, pos + 1, one[0]) == pos + 1;
    }
  }
}
