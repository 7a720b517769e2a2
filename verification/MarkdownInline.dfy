/**
 * The inline tokenizer (src/lib/markdown.ts). Each sticky regular expression is written out as the unique match
 * it can make at a position.
 */
module MarkdownInline {

  datatype Inline =
    | Text(text: string)
    | Code(text: string)
    | Bold(children: seq<Inline>)
    | Italic(children: seq<Inline>)
    | Link(lbl: string, url: string)

  // ----- Characters -----

  /** What `\s` matches and `trim` removes. */
  predicate IsSpace(c: char) {
    '\U{9}' <= c <= '\U{D}' || c == ' ' || c == '\U{A0}' || c == '\U{1680}' || '\U{2000}' <= c <= '\U{200A}'
    || c == '\U{2028}' || c == '\U{2029}' || c == '\U{202F}' || c == '\U{205F}' || c == '\U{3000}' || c == '\U{FEFF}'
  }

  predicate IsLetter(c: char) {
    'a' <= c <= 'z' || 'A' <= c <= 'Z'
  }

  // ----- Scanning -----

  /** The position of the next c, or the end. */
  function IndexOf(s: string, from: nat, c: char): (r: nat)
    requires from <= |s|
    ensures from <= r <= |s| && (r < |s| ==> s[r] == c)
    decreases |s| - from
  {
    if from == |s| || s[from] == c then from else IndexOf(s, from + 1, c)
  }

  function RunEnd(s: string, from: nat, c: char): (r: nat)
    requires from <= |s|
    ensures from <= r <= |s|
    decreases |s| - from
  {
    if from < |s| && s[from] == c then RunEnd(s, from + 1, c) else from
  }

  function Repeat(c: char, n: nat): (r: string)
    ensures |r| == n
  {
    if n == 0 then "" else [c] + Repeat(c, n - 1)
  }

  predicate StartsWith(s: string, pos: nat, prefix: string) {
    pos + |prefix| <= |s| && s[pos..pos + |prefix|] == prefix
  }

  // ----- Tokens -----

  datatype Token =
    | CodeToken(body: string, next: nat)
    | BoldToken(body: string, next: nat)
    | ItalicToken(body: string, next: nat)
    | LinkToken(lbl: string, url: string, next: nat)
    | Literal(next: nat)

  datatype Span = Span(start: nat, end: nat, next: nat) | NoSpan

  /** The first place after the opening ticks where exactly n of them stand, after something else. */
  function CodeClose(s: string, e: nat, n: nat): (r: nat)
    requires 0 < e <= |s|
    ensures e <= r <= |s|
    ensures r < |s| ==> RunEnd(s, r, '`') == r + n
    decreases |s| - e
  {
    if e == |s| then e
    else if s[e - 1] != '`' && RunEnd(s, e, '`') == e + n then e
    else CodeClose(s, e + 1, n)
  }

  /** Tries the longest opening first and then shorter ones, whose code begins with the ticks left over. */
  function CodeSpan(s: string, pos: nat, n: nat): (r: Span)
    requires pos + n <= |s|
    ensures r.Span? ==> pos < r.start < r.end < r.next <= |s| && r.start - pos == r.next - r.end <= n
    ensures r.Span? ==> RunEnd(s, r.end, '`') == r.next
    decreases n
  {
    if n == 0 then NoSpan
    else
      var e := if pos + n < |s| then CodeClose(s, pos + n + 1, n) else |s|;
      if e < |s| then Span(pos + n, e, e + n) else CodeSpan(s, pos, n - 1)
  }

  /** `mark` around a text without its character, not followed by that character. */
  function EmphasisSpan(s: string, pos: nat, mark: string): (r: Span)
    requires pos <= |s| && mark != ""
    ensures r.Span? ==> pos < r.start < r.end < r.next <= |s|
    ensures r.Span? ==> s[pos..r.start] == mark && s[r.end..r.next] == mark
  {
    if !StartsWith(s, pos, mark) then NoSpan
    else
      var start := pos + |mark|;
      var e := IndexOf(s, start, mark[0]);
      if e > start && StartsWith(s, e, mark) && !(e + |mark| < |s| && s[e + |mark|] == mark[0])
      then Span(start, e, e + |mark|) else NoSpan
  }

  function UrlEnd(s: string, from: nat): (r: nat)
    requires from <= |s|
    ensures from <= r <= |s| && (r < |s| ==> s[r] == ')' || IsSpace(s[r]))
    decreases |s| - from
  {
    if from == |s| || s[from] == ')' || IsSpace(s[from]) then from else UrlEnd(s, from + 1)
  }

  datatype LinkSpan = LinkSpan(mid: nat, end: nat) | NoLink

  /** `[label](url)`: the label ends before `mid`, the url before `end`. */
  function FindLink(s: string, pos: nat): (r: LinkSpan)
    requires pos < |s|
    ensures r.LinkSpan? ==> pos + 1 < r.mid && r.mid + 2 < r.end < |s|
    ensures r.LinkSpan? ==> s[pos] == '[' && s[r.mid] == ']' && s[r.mid + 1] == '(' && s[r.end] == ')'
  {
    if s[pos] != '[' then NoLink
    else
      var mid := IndexOf(s, pos + 1, ']');
      if mid > pos + 1 && mid + 1 < |s| && s[mid + 1] == '(' then
        var end := UrlEnd(s, mid + 2);
        if end > mid + 2 && end < |s| && s[end] == ')' then LinkSpan(mid, end) else NoLink
      else NoLink
  }

  function Lower(c: char): char {
    if 'A' <= c <= 'Z' then c - 'A' + 'a' else c
  }

  function LowerAll(s: string): string {
    seq(|s|, i requires 0 <= i < |s| => Lower(s[i]))
  }

  /** The part before the first `/`, `?` or `#`. */
  function Prefix(url: string): string {
    if url == "" || url[0] == '/' || url[0] == '?' || url[0] == '#' then "" else [url[0]] + Prefix(url[1..])
  }

  /** An http(s) url, or one without a scheme. */
  predicate IsAllowedLinkUrl(url: string) {
    || "http://" <= LowerAll(url)
    || "https://" <= LowerAll(url)
    || ':' !in Prefix(url)
  }

  /** The end of the HTML tag that starts here, or the position itself. */
  function TagEnd(s: string, pos: nat): (r: nat)
    requires pos < |s|
    ensures pos <= r <= |s|
  {
    if s[pos] != '<' then pos
    else
      var name := if pos + 1 < |s| && s[pos + 1] == '/' then pos + 2 else pos + 1;
      if name < |s| && IsLetter(s[name]) then
        var close := IndexOf(s, name + 1, '>');
        if close < |s| then close + 1 else pos
      else pos
  }

  /** What can be matched at one position. */
  datatype Candidates = Candidates(code: Span, bold: Span, bold_: Span, italic: Span, italic_: Span, link: LinkSpan,
      tag: nat)

  predicate Inside(s: string, pos: nat, span: Span) {
    span.Span? ==> pos < span.start < span.end < span.next <= |s|
  }

  predicate InsideAll(s: string, pos: nat, c: Candidates) {
    && Inside(s, pos, c.code) && Inside(s, pos, c.bold) && Inside(s, pos, c.bold_)
    && Inside(s, pos, c.italic) && Inside(s, pos, c.italic_)
    && (c.link.LinkSpan? ==> pos + 1 < c.link.mid && c.link.mid + 2 < c.link.end < |s|)
    && pos <= c.tag <= |s|
  }

  function Body(s: string, pos: nat, span: Span): string
    requires span.Span? && Inside(s, pos, span)
  {
    s[span.start..span.end]
  }

  /** The first candidate in the tokenizer's order; a link only with an allowed url. */
  function Pick(s: string, pos: nat, c: Candidates): (t: Token)
    requires pos < |s| && InsideAll(s, pos, c)
    ensures pos < t.next <= |s|
    ensures t.BoldToken? || t.ItalicToken? ==> |t.body| < |s|
  {
    if c.code.Span? then CodeToken(Body(s, pos, c.code), c.code.next)
    else if c.bold.Span? then BoldToken(Body(s, pos, c.bold), c.bold.next)
    else if c.bold_.Span? then BoldToken(Body(s, pos, c.bold_), c.bold_.next)
    else if c.italic.Span? then ItalicToken(Body(s, pos, c.italic), c.italic.next)
    else if c.italic_.Span? then ItalicToken(Body(s, pos, c.italic_), c.italic_.next)
    else if c.link.LinkSpan? && IsAllowedLinkUrl(s[c.link.mid + 2..c.link.end]) then
      LinkToken(s[pos + 1..c.link.mid], s[c.link.mid + 2..c.link.end], c.link.end + 1)
    else if c.tag > pos then Literal(c.tag)
    else Literal(pos + 1)
  }

  function CandidatesAt(s: string, pos: nat): (c: Candidates)
    requires pos < |s|
    ensures InsideAll(s, pos, c)
  {
    Candidates(CodeSpan(s, pos, RunEnd(s, pos, '`') - pos), EmphasisSpan(s, pos, "**"), EmphasisSpan(s, pos, "__"),
               EmphasisSpan(s, pos, "*"), EmphasisSpan(s, pos, "_"), FindLink(s, pos), TagEnd(s, pos))
  }

  function TokenAt(s: string, pos: nat): (t: Token)
    requires pos < |s|
    ensures pos < t.next <= |s|
    ensures t.BoldToken? || t.ItalicToken? ==> |t.body| < |s|
  {
    Pick(s, pos, CandidatesAt(s, pos))
  }

  // ----- The tokenizer -----

  function Flush(buffer: string): seq<Inline> {
    if buffer == "" then [] else [Text(buffer)]
  }

  /** The node of a token that is not literal text. */
  function NodeOf(s: string, t: Token): Inline
    requires !t.Literal? && (t.BoldToken? || t.ItalicToken? ==> |t.body| < |s|)
    decreases |s|, 0
  {
    match t
    case CodeToken(body, _) => Code(body)
    case BoldToken(body, _) => Bold(InlineFrom(body, 0, ""))
    case ItalicToken(body, _) => Italic(InlineFrom(body, 0, ""))
    case LinkToken(lbl, url, _) => Link(lbl, url)
  }

  function InlineFrom(s: string, pos: nat, buffer: string): seq<Inline>
    requires pos <= |s|
    decreases |s|, |s| - pos
  {
    if pos == |s| then Flush(buffer)
    else
      var t := TokenAt(s, pos);
      if t.Literal? then InlineFrom(s, t.next, buffer + s[pos..t.next])
      else Flush(buffer) + ([NodeOf(s, t)] + InlineFrom(s, t.next, ""))
  }

  function Inlines(s: string): seq<Inline> {
    InlineFrom(s, 0, "")
  }

  method MakeNode(s: string, t: Token) returns (node: Inline)
    requires !t.Literal? && (t.BoldToken? || t.ItalicToken? ==> |t.body| < |s|)
    ensures node == NodeOf(s, t)
    decreases |s|, 0
  {
    match t
    case CodeToken(body, _) =>
      node := Code(body);
    case BoldToken(body, _) =>
      var children := ParseInline(body);
      node := Bold(children);
    case ItalicToken(body, _) =>
      var children := ParseInline(body);
      node := Italic(children);
    case LinkToken(lbl, url, _) =>
      node := Link(lbl, url);
  }

  /** One token further; `done` are the nodes that came before. */
  lemma InlineStep(done: seq<Inline>, s: string, pos: nat, buffer: string, t: Token)
    requires pos < |s| && t == TokenAt(s, pos)
    ensures t.Literal? ==> InlineFrom(s, pos, buffer) == InlineFrom(s, t.next, buffer + s[pos..t.next])
    ensures !t.Literal? ==>
              done + InlineFrom(s, pos, buffer) == done + Flush(buffer) + [NodeOf(s, t)] + InlineFrom(s, t.next, "")
  {
    if !t.Literal? {
      Regroup(done, Flush(buffer), [NodeOf(s, t)], InlineFrom(s, t.next, ""));
    }
  }

  lemma Regroup(a: seq<Inline>, b: seq<Inline>, c: seq<Inline>, d: seq<Inline>)
    ensures a + (b + (c + d)) == a + b + c + d
  {
  }

  method ParseInline(s: string) returns (nodes: seq<Inline>)
    ensures nodes == Inlines(s)
    decreases |s|, 1
  {
    nodes := [];
    var pos := 0;
    var buffer := "";
    assert [] + Inlines(s) == Inlines(s);
    while pos < |s|
      invariant pos <= |s|
      invariant Inlines(s) == nodes + InlineFrom(s, pos, buffer)
    {
      var t := TokenAt(s, pos);
      InlineStep(nodes, s, pos, buffer, t);
      if t.Literal? {
        buffer := buffer + s[pos..t.next];
      } else {
        nodes := nodes + Flush(buffer);
        var node := MakeNode(s, t);
        nodes := nodes + [node];
        buffer := "";
      }
      pos := t.next;
    }
    nodes := nodes + Flush(buffer);
  }

  // ----- Fidelity -----

  /** The node can be written as this piece of source. */
  ghost predicate Spells(n: Inline, s: string)
    decreases n
  {
    match n
    case Text(t) => s == t && t != ""
    case Code(t) => IsTicked(s, t)
    case Bold(children) =>
      exists inner :: (Around(s, "**", inner) || Around(s, "__", inner)) && SpellsAll(children, inner)
    case Italic(children) =>
      exists inner :: (Around(s, "*", inner) || Around(s, "_", inner)) && SpellsAll(children, inner)
    case Link(lbl, url) => s == "[" + lbl + "](" + url + ")" && IsAllowedLinkUrl(url)
  }

  /** The nodes, written one after the other, are the source. */
  ghost predicate SpellsAll(ns: seq<Inline>, s: string)
    decreases ns
  {
    if ns == [] then s == ""
    else exists k: nat :: SpellsCut(ns, s, k)
  }

  /** The first node is written before the cut and the others after it. */
  ghost predicate SpellsCut(ns: seq<Inline>, s: string, k: nat)
    requires ns != []
    decreases ns, 0
  {
    k <= |s| && Spells(ns[0], s[..k]) && SpellsAll(ns[1..], s[k..])
  }

  lemma SpellsCons(n: Inline, s: string, ns: seq<Inline>, t: string)
    requires Spells(n, s) && SpellsAll(ns, t)
    ensures SpellsAll([n] + ns, s + t)
  {
    assert ([n] + ns)[1..] == ns;
    assert (s + t)[..|s|] == s && (s + t)[|s|..] == t;
    assert SpellsCut([n] + ns, s + t, |s|);
  }

  lemma SpellsFlush(buffer: string, ns: seq<Inline>, t: string)
    requires SpellsAll(ns, t)
    ensures SpellsAll(Flush(buffer) + ns, buffer + t)
  {
    if buffer == "" {
      assert Flush(buffer) + ns == ns && buffer + t == t;
    } else {
      SpellsCons(Text(buffer), buffer, ns, t);
    }
  }

  lemma SliceOfSlice<T>(a: seq<T>, i: nat, e: nat, j: nat, f: nat)
    requires i <= j <= f <= e <= |a|
    ensures a[j..f] == a[i..e][j - i..f - i]
  {
    var t := a[i..e];
    forall k | 0 <= k < f - j ensures a[j..f][k] == t[j - i..f - i][k] {
      assert t[j - i + k] == a[j + k];
    }
  }

  lemma SplitAt3(s: string, a: nat, b: nat, c: nat, d: nat)
    requires a <= b <= c <= d <= |s|
    ensures s[a..d] == s[a..b] + s[b..c] + s[c..d]
  {
  }

  lemma {:induction false} RunPrefix(s: string, from: nat, n: nat, c: char)
    requires from <= |s| && from + n <= RunEnd(s, from, c)
    ensures s[from..from + n] == Repeat(c, n)
    decreases n
  {
    if n > 0 {
      RunPrefix(s, from + 1, n - 1, c);
      assert s[from..from + n] == [s[from]] + s[from + 1..from + 1 + (n - 1)];
    }
  }

  /** The piece of source between two places where the same mark stands. */
  lemma MarkedPiece(s: string, pos: nat, mark: string)
    requires pos <= |s| && mark != "" && EmphasisSpan(s, pos, mark).Span?
    ensures var span := EmphasisSpan(s, pos, mark); s[pos..span.next] == mark + s[span.start..span.end] + mark
  {
    var span := EmphasisSpan(s, pos, mark);
    SplitAt3(s, pos, span.start, span.end, span.next);
  }

  lemma CodePiece(s: string, pos: nat, n: nat, span: Span)
    requires pos <= |s| && pos + n <= RunEnd(s, pos, '`')
    requires span == CodeSpan(s, pos, n) && span.Span?
    ensures IsTicked(s[pos..span.next], s[span.start..span.end])
  {
    Ticked(s, pos, span.start - pos, span.end);
  }

  ghost predicate IsTicked(piece: string, body: string) {
    exists k: nat :: k > 0 && piece == Repeat('`', k) + body + Repeat('`', k)
  }

  lemma Ticked(s: string, pos: nat, k: nat, end: nat)
    requires k > 0 && pos + k < end && end + k <= |s|
    requires pos + k <= RunEnd(s, pos, '`') && RunEnd(s, end, '`') == end + k
    ensures IsTicked(s[pos..end + k], s[pos + k..end])
  {
    SplitAt3(s, pos, pos + k, end, end + k);
    RunPrefix(s, pos, k, '`');
    RunPrefix(s, end, k, '`');
    assert s[pos..end + k] == Repeat('`', k) + s[pos + k..end] + Repeat('`', k);
  }

  lemma LinkPiece(s: string, pos: nat, mid: nat, end: nat)
    requires pos + 1 < mid && mid + 2 < end < |s|
    requires s[pos] == '[' && s[mid] == ']' && s[mid + 1] == '(' && s[end] == ')'
    ensures s[pos..end + 1] == "[" + s[pos + 1..mid] + "](" + s[mid + 2..end] + ")"
  {
    SplitAt3(s, pos, pos + 1, mid, end + 1);
    SplitAt3(s, mid, mid + 2, end, end + 1);
    assert s[pos..pos + 1] == "[" && s[mid..mid + 2] == "](" && s[end..end + 1] == ")";
  }

  /** A token that is not literal, with its marks, is the piece of source. */
  ghost predicate Piece(t: Token, piece: string) {
    match t
    case Literal(_) => true
    case CodeToken(body, _) => IsTicked(piece, body)
    case BoldToken(body, _) => Around(piece, "**", body) || Around(piece, "__", body)
    case ItalicToken(body, _) => Around(piece, "*", body) || Around(piece, "_", body)
    case LinkToken(lbl, url, _) => piece == "[" + lbl + "](" + url + ")" && IsAllowedLinkUrl(url)
  }

  predicate Around(piece: string, mark: string, body: string) {
    piece == mark + body + mark
  }

  predicate SpanAround(s: string, pos: nat, span: Span, mark: string)
    requires Inside(s, pos, span)
  {
    span.Span? ==> Around(s[pos..span.next], mark, Body(s, pos, span))
  }

  ghost predicate PiecesAll(s: string, pos: nat, c: Candidates)
    requires InsideAll(s, pos, c)
  {
    && (c.code.Span? ==> IsTicked(s[pos..c.code.next], Body(s, pos, c.code)))
    && SpanAround(s, pos, c.bold, "**") && SpanAround(s, pos, c.bold_, "__")
    && SpanAround(s, pos, c.italic, "*") && SpanAround(s, pos, c.italic_, "_")
    && (c.link.LinkSpan? ==>
          s[pos..c.link.end + 1] == "[" + s[pos + 1..c.link.mid] + "](" + s[c.link.mid + 2..c.link.end] + ")")
  }

  lemma PickPiece(s: string, pos: nat, c: Candidates)
    requires pos < |s| && InsideAll(s, pos, c) && PiecesAll(s, pos, c)
    ensures Piece(Pick(s, pos, c), s[pos..Pick(s, pos, c).next])
  {
  }

  lemma MarkedSpan(s: string, pos: nat, mark: string, span: Span)
    requires pos < |s| && mark != "" && span == EmphasisSpan(s, pos, mark)
    ensures Inside(s, pos, span) && SpanAround(s, pos, span, mark)
  {
    if span.Span? {
      MarkedPiece(s, pos, mark);
    }
  }

  lemma CodeCandidate(s: string, pos: nat, n: nat, span: Span)
    requires pos < |s| && pos + n == RunEnd(s, pos, '`') && span == CodeSpan(s, pos, n)
    ensures span.Span? ==> Inside(s, pos, span) && IsTicked(s[pos..span.next], s[span.start..span.end])
  {
    if span.Span? {
      CodePiece(s, pos, n, span);
    }
  }

  lemma LinkCandidate(s: string, pos: nat, link: LinkSpan)
    requires pos < |s| && link == FindLink(s, pos)
    ensures link.LinkSpan? ==>
              && pos + 1 < link.mid && link.mid + 2 < link.end < |s|
              && s[pos..link.end + 1] == "[" + s[pos + 1..link.mid] + "](" + s[link.mid + 2..link.end] + ")"
  {
    if link.LinkSpan? {
      LinkPiece(s, pos, link.mid, link.end);
    }
  }

  lemma CandidatePieces(s: string, pos: nat, c: Candidates)
    requires pos < |s| && c == CandidatesAt(s, pos)
    ensures InsideAll(s, pos, c) && PiecesAll(s, pos, c)
  {
    MarkedSpan(s, pos, "**", c.bold);
    MarkedSpan(s, pos, "__", c.bold_);
    MarkedSpan(s, pos, "*", c.italic);
    MarkedSpan(s, pos, "_", c.italic_);
    CodeCandidate(s, pos, RunEnd(s, pos, '`') - pos, c.code);
    LinkCandidate(s, pos, c.link);
  }

  lemma TokenPiece(s: string, pos: nat)
    requires pos < |s|
    ensures Piece(TokenAt(s, pos), s[pos..TokenAt(s, pos).next])
  {
    CandidatePieces(s, pos, CandidatesAt(s, pos));
    PickPiece(s, pos, CandidatesAt(s, pos));
  }

  lemma {:induction false} NodeSpells(s: string, pos: nat)
    requires pos < |s| && !TokenAt(s, pos).Literal?
    ensures Spells(NodeOf(s, TokenAt(s, pos)), s[pos..TokenAt(s, pos).next])
    decreases |s|, 0
  {
    var t := TokenAt(s, pos);
    TokenPiece(s, pos);
    if t.BoldToken? || t.ItalicToken? {
      FromSpells(t.body, 0, "");
      assert "" + t.body[0..] == t.body;
    }
  }

  lemma {:induction false} FromSpells(s: string, pos: nat, buffer: string)
    requires pos <= |s|
    ensures SpellsAll(InlineFrom(s, pos, buffer), buffer + s[pos..])
    decreases |s|, |s| - pos
  {
    if pos == |s| {
      EndSpells(s, buffer);
    } else {
      var next := TokenAt(s, pos).next;
      if TokenAt(s, pos).Literal? {
        FromSpells(s, next, buffer + s[pos..next]);
        Rejoin(buffer, s, pos, next);
      } else {
        NodeSpells(s, pos);
        FromSpells(s, next, "");
        NodeStepSpells(s, pos, buffer);
      }
    }
  }

  lemma EndSpells(s: string, buffer: string)
    ensures SpellsAll(InlineFrom(s, |s|, buffer), buffer + s[|s|..])
  {
    SpellsFlush(buffer, [], "");
    assert Flush(buffer) + [] == Flush(buffer) && buffer + "" == buffer + s[|s|..];
  }

  lemma NodeStepSpells(s: string, pos: nat, buffer: string)
    requires pos < |s| && !TokenAt(s, pos).Literal?
    requires Spells(NodeOf(s, TokenAt(s, pos)), s[pos..TokenAt(s, pos).next])
    requires SpellsAll(InlineFrom(s, TokenAt(s, pos).next, ""), "" + s[TokenAt(s, pos).next..])
    ensures SpellsAll(InlineFrom(s, pos, buffer), buffer + s[pos..])
  {
    var t := TokenAt(s, pos);
    SpellsStep(buffer, NodeOf(s, t), InlineFrom(s, t.next, ""), s, pos, t.next);
  }

  lemma Rejoin(buffer: string, s: string, pos: nat, next: nat)
    requires pos <= next <= |s|
    ensures buffer + s[pos..next] + s[next..] == buffer + s[pos..]
    ensures "" + s[next..] == s[next..]
  {
  }

  lemma SpellsStep(buffer: string, n: Inline, rest: seq<Inline>, s: string, pos: nat, next: nat)
    requires pos <= next <= |s| && Spells(n, s[pos..next]) && SpellsAll(rest, "" + s[next..])
    ensures SpellsAll(Flush(buffer) + ([n] + rest), buffer + s[pos..])
  {
    Rejoin("", s, pos, next);
    SpellsCons(n, s[pos..next], rest, s[next..]);
    assert s[pos..next] + s[next..] == s[pos..];
    SpellsFlush(buffer, [n] + rest, s[pos..]);
  }

  /** Nothing is lost or invented: with the marks put back, the nodes are the source, at every depth. */
  lemma InlineSpellsSource(s: string)
    ensures SpellsAll(Inlines(s), s)
  {
    FromSpells(s, 0, "");
    assert "" + s[0..] == s;
  }

  // ----- Visible text -----

  function Visible(n: Inline): string
    decreases n
  {
    match n
    case Text(t) => t
    case Code(t) => t
    case Bold(children) => VisibleAll(children)
    case Italic(children) => VisibleAll(children)
    case Link(lbl, _) => lbl
  }

  function VisibleAll(ns: seq<Inline>): string
    decreases ns
  {
    if ns == [] then "" else Visible(ns[0]) + VisibleAll(ns[1..])
  }

  /** a is b with some characters left out. */
  predicate Subsequence(a: string, b: string)
    decreases b
  {
    a == "" || (b != "" && ((a[0] == b[0] && Subsequence(a[1..], b[1..])) || Subsequence(a, b[1..])))
  }

  lemma {:induction false} SubsequenceConcat(a: string, b: string, c: string, d: string)
    requires Subsequence(a, b) && Subsequence(c, d)
    ensures Subsequence(a + c, b + d)
    decreases b
  {
    if b == "" {
      assert a + c == c && b + d == d;
    } else {
      assert (b + d)[0] == b[0] && (b + d)[1..] == b[1..] + d;
      if a == "" {
        SubsequenceConcat("", b[1..], c, d);
        assert "" + c == c && a + c == c;
      } else if a[0] == b[0] && Subsequence(a[1..], b[1..]) {
        SubsequenceConcat(a[1..], b[1..], c, d);
        assert (a + c)[0] == a[0] && (a + c)[1..] == a[1..] + c;
      } else {
        SubsequenceConcat(a, b[1..], c, d);
      }
    }
  }

  lemma {:induction false} SubsequenceSelf(a: string)
    ensures Subsequence(a, a)
  {
    if a != "" {
      SubsequenceSelf(a[1..]);
    }
  }

  /** Leaving out what stands before and after. */
  lemma SubsequenceInside(before: string, a: string, b: string, after: string)
    requires Subsequence(a, b)
    ensures Subsequence(a, before + b + after)
  {
    SubsequenceConcat("", before, a, b);
    assert "" + a == a;
    SubsequenceConcat(a, before + b, "", after);
    assert a + "" == a;
  }

  lemma {:induction false} SpellingShows(n: Inline, s: string)
    requires Spells(n, s)
    ensures Subsequence(Visible(n), s)
    decreases n
  {
    match n
    case Text(t) => SubsequenceSelf(t);
    case Code(t) =>
      var k: nat :| k > 0 && s == Repeat('`', k) + t + Repeat('`', k);
      SubsequenceSelf(t);
      SubsequenceInside(Repeat('`', k), t, t, Repeat('`', k));
    case Bold(children) =>
      var inner :| (Around(s, "**", inner) || Around(s, "__", inner)) && SpellsAll(children, inner);
      SpellingShowsAll(children, inner);
      SubsequenceInside("**", VisibleAll(children), inner, "**");
      SubsequenceInside("__", VisibleAll(children), inner, "__");
    case Italic(children) =>
      var inner :| (Around(s, "*", inner) || Around(s, "_", inner)) && SpellsAll(children, inner);
      SpellingShowsAll(children, inner);
      SubsequenceInside("*", VisibleAll(children), inner, "*");
      SubsequenceInside("_", VisibleAll(children), inner, "_");
    case Link(lbl, url) =>
      SubsequenceSelf(lbl);
      SubsequenceInside("[", lbl, lbl, "](" + url + ")");
      assert s == "[" + lbl + ("](" + url + ")");
  }

  lemma {:induction false} SpellingShowsAll(ns: seq<Inline>, s: string)
    requires SpellsAll(ns, s)
    ensures Subsequence(VisibleAll(ns), s)
    decreases ns
  {
    if ns != [] {
      var k: nat :| SpellsCut(ns, s, k);
      SpellingShows(ns[0], s[..k]);
      SpellingShowsAll(ns[1..], s[k..]);
      SubsequenceConcat(Visible(ns[0]), s[..k], VisibleAll(ns[1..]), s[k..]);
      assert s[..k] + s[k..] == s;
    }
  }

  /** The visible text is the source with some characters left out, in order. */
  lemma VisibleTextIsSubsequence(s: string)
    ensures Subsequence(VisibleAll(Inlines(s)), s)
  {
    InlineSpellsSource(s);
    SpellingShowsAll(Inlines(s), s);
  }

  // ----- Links -----

  /** Every link in the nodes, at any depth, has an allowed url. */
  predicate LinksAllowed(n: Inline)
    decreases n
  {
    match n
    case Text(_) => true
    case Code(_) => true
    case Bold(children) => AllLinksAllowed(children)
    case Italic(children) => AllLinksAllowed(children)
    case Link(_, url) => IsAllowedLinkUrl(url)
  }

  predicate AllLinksAllowed(ns: seq<Inline>)
    decreases ns
  {
    ns == [] || (LinksAllowed(ns[0]) && AllLinksAllowed(ns[1..]))
  }

  lemma {:induction false} SpellingAllows(n: Inline, s: string)
    requires Spells(n, s)
    ensures LinksAllowed(n)
    decreases n
  {
    match n
    case Bold(children) =>
      var inner :| (Around(s, "**", inner) || Around(s, "__", inner)) && SpellsAll(children, inner);
      SpellingAllowsAll(children, inner);
    case Italic(children) =>
      var inner :| (Around(s, "*", inner) || Around(s, "_", inner)) && SpellsAll(children, inner);
      SpellingAllowsAll(children, inner);
    case _ =>
  }

  lemma {:induction false} SpellingAllowsAll(ns: seq<Inline>, s: string)
    requires SpellsAll(ns, s)
    ensures AllLinksAllowed(ns)
    decreases ns
  {
    if ns != [] {
      var k: nat :| SpellsCut(ns, s, k);
      SpellingAllows(ns[0], s[..k]);
      SpellingAllowsAll(ns[1..], s[k..]);
    }
  }

  lemma ParsedLinksAllowed(s: string)
    ensures AllLinksAllowed(Inlines(s))
  {
    InlineSpellsSource(s);
    SpellingAllowsAll(Inlines(s), s);
  }

  lemma {:induction false} IndexIsFirst(s: string, from: nat, k: nat, c: char)
    requires from <= k < |s| && s[k] == c && forall i :: from <= i < k ==> s[i] != c
    ensures IndexOf(s, from, c) == k
    decreases k - from
  {
    if from < k {
      IndexIsFirst(s, from + 1, k, c);
    }
  }

  /** A word of small letters, in any mixture of cases. */
  predicate Spelt(s: string, word: string) {
    |s| == |word| && forall i :: 0 <= i < |s| ==> s[i] == word[i] || s[i] as int == word[i] as int - 32
  }

  lemma SpeltIsLower(s: string, word: string)
    requires forall i :: 0 <= i < |word| ==> 'a' <= word[i] <= 'z'
    ensures Spelt(s, word) <==> LowerAll(s) == word
  {
    if |s| == |word| {
      if LowerAll(s) == word {
        forall i | 0 <= i < |s| ensures s[i] == word[i] || s[i] as int == word[i] as int - 32 {
          assert LowerAll(s)[i] == word[i];
        }
      }
    }
  }

  lemma {:induction false} PrefixIsCut(url: string, k: nat)
    requires k <= |url| && forall i :: 0 <= i < k ==> url[i] !in "/?#"
    ensures k == |url| || url[k] in "/?#" ==> Prefix(url) == url[..k]
    ensures k < |url| && url[k] == ':' ==> ':' in Prefix(url)
  {
    if k == 0 {
      assert url[..0] == "";
    } else {
      PrefixIsCut(url[1..], k - 1);
      assert url[..k] == [url[0]] + url[1..][..k - 1];
    }
  }

  lemma LowerBegins(url: string, k: nat, scheme: string)
    requires k < |url| && url[k] == ':' && forall i :: 0 <= i < k ==> url[i] !in ":/?#"
    requires scheme == "http" || scheme == "https"
    ensures scheme + "://" <= LowerAll(url) <==> Spelt(url[..k], scheme) && "//" <= url[k + 1..]
  {
    var lower, n := LowerAll(url), |scheme|;
    assert lower[..k] == LowerAll(url[..k]) && lower[k] == ':';
    SpeltIsLower(url[..k], scheme);
    IndexIsFirst(lower, 0, k, ':');
    if scheme + "://" <= lower {
      assert lower[n] == (scheme + "://")[n] == ':' && forall i :: 0 <= i < n ==> lower[i] == (scheme + "://")[i];
      IndexIsFirst(lower, 0, n, ':');
      assert lower[k + 1] == (scheme + "://")[n + 1] && lower[k + 2] == (scheme + "://")[n + 2];
      assert url[k + 1..][..2] == "//";
    }
    if Spelt(url[..k], scheme) && "//" <= url[k + 1..] {
      assert url[k + 1] == url[k + 1..][0] && url[k + 2] == url[k + 1..][1];
      assert lower[..k + 3] == scheme + "://";
    }
  }

  /**
   * Which urls are allowed, by the first of the characters `:`, `/`, `?` and `#`: those in which it is not a colon,
   * and http and https ones, in any case, that go on with two slashes.
   */
  lemma AllowedExactly(url: string, k: nat)
    requires k <= |url| && (forall i :: 0 <= i < k ==> url[i] !in ":/?#") && (k < |url| ==> url[k] in ":/?#")
    ensures IsAllowedLinkUrl(url) <==>
            (k < |url| && url[k] == ':' ==>
              (Spelt(url[..k], "http") || Spelt(url[..k], "https")) && "//" <= url[k + 1..])
  {
    PrefixIsCut(url, k);
    if k < |url| && url[k] == ':' {
      LowerBegins(url, k, "http");
      LowerBegins(url, k, "https");
      assert "http" + "://" == "http://" && "https" + "://" == "https://";
    }
  }

  // ----- What is written is recognised -----

  lemma WholeToken(s: string, t: Token)
    requires s != "" && t == TokenAt(s, 0) && !t.Literal? && t.next == |s|
    ensures Inlines(s) == [NodeOf(s, t)]
  {
    assert Flush("") + ([NodeOf(s, t)] + InlineFrom(s, |s|, "")) == [NodeOf(s, t)];
  }

  lemma WholeEmphasis(mark: string, b: string)
    requires mark == "**" || mark == "__" || mark == "*" || mark == "_"
    requires b != "" && mark[0] !in b
    ensures EmphasisSpan(mark + b + mark, 0, mark) == Span(|mark|, |mark| + |b|, |mark| + |b| + |mark|)
  {
    var s, e := mark + b + mark, |mark| + |b|;
    assert s[..|mark|] == mark && s[e..e + |mark|] == mark && s[|mark|..e] == b;
    forall i | |mark| <= i < e ensures s[i] != mark[0] {
      assert s[i] == b[i - |mark|];
    }
    IndexIsFirst(s, |mark|, e, mark[0]);
  }

  /** A text without a mark's character, put between two marks, comes back as one bold or italic node. */
  lemma EmphasisParses(mark: string, b: string)
    requires mark == "**" || mark == "__" || mark == "*" || mark == "_"
    requires b != "" && mark[0] !in b
    ensures Inlines(mark + b + mark) == [if |mark| == 2 then Bold(Inlines(b)) else Italic(Inlines(b))]
  {
    var s := mark + b + mark;
    WholeEmphasis(mark, b);
    assert s[0] == mark[0] && s[|mark|] == b[0] && s[|mark|..|mark| + |b|] == b;
    assert CodeSpan(s, 0, RunEnd(s, 0, '`') - 0) == NoSpan;
    if |mark| == 1 {
      assert s[1] != mark[0] && !StartsWith(s, 0, [mark[0], mark[0]]);
    }
    WholeToken(s, TokenAt(s, 0));
  }

  lemma {:induction false} CloseIsFirst(s: string, e: nat)
    requires 0 < e < |s| && s[|s| - 1] == '`' && forall i :: e - 1 <= i < |s| - 1 ==> s[i] != '`'
    ensures CodeClose(s, e, 1) == |s| - 1
    decreases |s| - e
  {
    if e == |s| - 1 {
      assert RunEnd(s, e, '`') == RunEnd(s, e + 1, '`') == e + 1;
    } else {
      assert RunEnd(s, e, '`') == e;
      CloseIsFirst(s, e + 1);
    }
  }

  lemma CodeParses(b: string)
    requires b != "" && '`' !in b
    ensures Inlines("`" + b + "`") == [Code(b)]
  {
    var s := "`" + b + "`";
    assert s[1] == b[0] && s[1..|s| - 1] == b;
    forall i | 1 <= i < |s| - 1 ensures s[i] != '`' {
      assert s[i] == b[i - 1];
    }
    assert RunEnd(s, 0, '`') == RunEnd(s, 1, '`') == 1;
    CloseIsFirst(s, 2);
    assert CodeSpan(s, 0, 1) == Span(1, |s| - 1, |s|);
    WholeToken(s, TokenAt(s, 0));
  }

  lemma {:induction false} UrlEndIsFirst(s: string, from: nat, k: nat)
    requires from <= k < |s| && s[k] == ')' && forall i :: from <= i < k ==> s[i] != ')' && !IsSpace(s[i])
    ensures UrlEnd(s, from) == k
    decreases k - from
  {
    if from < k {
      UrlEndIsFirst(s, from + 1, k);
    }
  }

  /** A label and a url come back as a link if the url is allowed, and not as a link if it is not. */
  lemma LinkParses(lbl: string, url: string)
    requires lbl != "" && ']' !in lbl && url != "" && forall i :: 0 <= i < |url| ==> url[i] != ')' && !IsSpace(url[i])
    ensures var s := "[" + lbl + "](" + url + ")";
            if IsAllowedLinkUrl(url) then Inlines(s) == [Link(lbl, url)] else TokenAt(s, 0).Literal?
  {
    var s := "[" + lbl + "](" + url + ")";
    var mid, end := 1 + |lbl|, 3 + |lbl| + |url|;
    LinkWritten(lbl, url, s, mid, end);
    assert CodeSpan(s, 0, RunEnd(s, 0, '`') - 0) == NoSpan;
    if IsAllowedLinkUrl(url) {
      WholeToken(s, TokenAt(s, 0));
    }
  }

  lemma LinkWritten(lbl: string, url: string, s: string, mid: nat, end: nat)
    requires lbl != "" && ']' !in lbl && url != "" && forall i :: 0 <= i < |url| ==> url[i] != ')' && !IsSpace(url[i])
    requires s == "[" + lbl + "](" + url + ")" && mid == 1 + |lbl| && end == 3 + |lbl| + |url|
    ensures |s| == end + 1 && s[0] == '[' && s[1..mid] == lbl && s[mid + 2..end] == url
    ensures FindLink(s, 0) == LinkSpan(mid, end)
  {
    assert s[1..mid] == lbl && s[mid + 2..end] == url && s[mid] == ']' && s[mid + 1] == '(' && s[end] == ')';
    forall i | 1 <= i < mid ensures s[i] != ']' {
      assert s[i] == lbl[i - 1];
    }
    forall i | mid + 2 <= i < end ensures s[i] != ')' && !IsSpace(s[i]) {
      assert s[i] == url[i - mid - 2];
    }
    IndexIsFirst(s, 1, mid, ']');
    UrlEndIsFirst(s, mid + 2, end);
  }
}
