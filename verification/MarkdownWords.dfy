/** A word stays visible: whatever marks stand around it, the inline tokenizer (src/lib/markdown.ts) shows it. */
module MarkdownWords {
  import opened MarkdownInline

  /** What tokens begin and end with, or have between a label and its url. */
  predicate IsMark(c: char) {
    c == '`' || c == '*' || c == '_' || c == '[' || c == ']' || c == '(' || c == ')'
  }

  /** A word has no marks and no white space in it. */
  ghost predicate IsWord(w: string) {
    w != "" && forall i :: 0 <= i < |w| ==> !IsMark(w[i]) && !IsSpace(w[i])
  }

  /** The word stands in the text, after a space. */
  ghost predicate HasWord(s: string, k: nat, w: string) {
    1 <= k && k + |w| <= |s| && s[k - 1] == ' ' && s[k..k + |w|] == w
  }

  /** The word stands somewhere in the text. */
  ghost predicate Shows(s: string, w: string) {
    exists k: nat :: StartsWith(s, k, w)
  }

  lemma {:induction false} RepeatAll(c: char, n: nat)
    ensures forall i :: 0 <= i < n ==> Repeat(c, n)[i] == c
  {
    if n > 0 {
      RepeatAll(c, n - 1);
    }
  }

  // ----- Tokens with a word inside -----

  lemma WordAt(s: string, k: nat, w: string, i: nat)
    requires HasWord(s, k, w) && k <= i < k + |w|
    ensures s[i] == w[i - k]
  {
    assert s[k..k + |w|][i - k] == s[i];
  }

  /** A word inside a piece that begins and ends with so many marks is inside the text between them. */
  lemma WordBetween(piece: string, mark: string, body: string, k: nat, w: string)
    requires piece == mark + body + mark && HasWord(piece, k, w) && IsWord(w)
    requires forall i :: 0 <= i < |mark| ==> IsMark(mark[i])
    ensures |mark| < k && HasWord(body, k - |mark|, w)
  {
    var m, n := |mark|, |w|;
    forall i | 0 <= i < m ensures IsMark(piece[i]) {
      assert piece[i] == mark[i];
    }
    forall i | m + |body| <= i < |piece| ensures IsMark(piece[i]) {
      assert piece[i] == mark[i - m - |body|];
    }
    WordAt(piece, k, w, k + n - 1);
    assert !IsMark(piece[k - 1]) && !IsMark(piece[k + n - 1]);
    assert body[k - m - 1] == piece[k - 1];
    assert body[k - m..k - m + n] == piece[k..k + n];
  }

  lemma WordShows(s: string, k: nat, w: string)
    requires HasWord(s, k, w)
    ensures Shows(s, w)
  {
    assert StartsWith(s, k, w);
  }

  lemma WordInCode(piece: string, body: string, k: nat, w: string)
    requires IsTicked(piece, body) && HasWord(piece, k, w) && IsWord(w)
    ensures Shows(body, w)
  {
    var t: nat :| t > 0 && piece == Repeat('`', t) + body + Repeat('`', t);
    RepeatAll('`', t);
    WordBetween(piece, Repeat('`', t), body, k, w);
    WordShows(body, k - t, w);
  }

  /** A url has no space in it, so the word is in the label. */
  lemma WordInLink(lbl: string, url: string, k: nat, w: string)
    requires HasWord("[" + lbl + "](" + url + ")", k, w) && IsWord(w)
    requires forall i :: 0 <= i < |url| ==> !IsSpace(url[i])
    ensures Shows(lbl, w)
  {
    var piece := "[" + lbl + "](" + url + ")";
    var mid := 1 + |lbl|;
    assert piece[0] == '[' && piece[mid] == ']' && piece[mid + 1] == '(' && piece[|piece| - 1] == ')';
    forall i | mid < i < |piece| ensures piece[i] != ' ' {
      assert mid + 2 <= i < |piece| - 1 ==> piece[i] == url[i - mid - 2];
    }
    forall i | k <= i < k + |w| ensures piece[i] != ']' {
      WordAt(piece, k, w, i);
    }
    assert k - 1 < mid;
    assert k + |w| <= mid;
    assert lbl[k - 1..k - 1 + |w|] == piece[k..k + |w|];
    assert StartsWith(lbl, k - 1, w);
  }

  lemma {:induction false} UrlHasNoSpace(s: string, from: nat)
    requires from <= |s|
    ensures forall i :: from <= i < UrlEnd(s, from) ==> !IsSpace(s[i])
    decreases |s| - from
  {
    if from < UrlEnd(s, from) {
      UrlHasNoSpace(s, from + 1);
    }
  }

  lemma PickedUrl(s: string, pos: nat, c: Candidates)
    requires pos < |s| && InsideAll(s, pos, c) && Pick(s, pos, c).LinkToken?
    ensures c.link.LinkSpan? && Pick(s, pos, c).url == s[c.link.mid + 2..c.link.end]
  {
  }

  lemma LinkHasNoSpace(s: string, pos: nat, link: LinkSpan)
    requires pos < |s| && link == FindLink(s, pos) && link.LinkSpan?
    ensures forall i :: link.mid + 2 <= i < link.end ==> !IsSpace(s[i])
  {
    UrlHasNoSpace(s, link.mid + 2);
  }

  lemma TokenUrl(s: string, pos: nat, t: Token)
    requires pos < |s| && t == TokenAt(s, pos) && t.LinkToken?
    ensures forall i :: 0 <= i < |t.url| ==> !IsSpace(t.url[i])
  {
    var c := CandidatesAt(s, pos);
    PickedUrl(s, pos, c);
    LinkHasNoSpace(s, pos, c.link);
  }

  /** A token that is not literal begins and ends with a mark. */
  lemma MarkedPieceEnds(t: Token, piece: string)
    requires Piece(t, piece) && !t.Literal? && piece != ""
    ensures IsMark(piece[0]) && IsMark(piece[|piece| - 1])
  {
    if t.CodeToken? {
      var k: nat :| k > 0 && piece == Repeat('`', k) + t.body + Repeat('`', k);
      RepeatAll('`', k);
      assert piece[0] == Repeat('`', k)[0] && piece[|piece| - 1] == Repeat('`', k)[k - 1];
    }
  }

  // ----- The whole text -----

  lemma {:induction false} VisibleConcat(a: seq<Inline>, b: seq<Inline>)
    ensures VisibleAll(a + b) == VisibleAll(a) + VisibleAll(b)
  {
    if a == [] {
      assert a + b == b;
    } else {
      assert (a + b)[0] == a[0] && (a + b)[1..] == a[1..] + b;
      VisibleConcat(a[1..], b);
    }
  }

  lemma VisibleStep(buffer: string, n: Inline, rest: seq<Inline>)
    ensures VisibleAll(Flush(buffer) + ([n] + rest)) == buffer + Visible(n) + VisibleAll(rest)
  {
    VisibleConcat(Flush(buffer), [n] + rest);
    VisibleFlush(buffer);
    assert ([n] + rest)[0] == n && ([n] + rest)[1..] == rest;
  }

  lemma VisibleFlush(buffer: string)
    ensures VisibleAll(Flush(buffer)) == buffer
  {
    if buffer != "" {
      assert Flush(buffer)[1..] == [];
    }
  }

  lemma ShowsBetween(a: string, b: string, c: string, w: string)
    requires Shows(b, w)
    ensures Shows(a + b + c, w)
  {
    var k: nat :| StartsWith(b, k, w);
    assert (a + b + c)[|a| + k..|a| + k + |w|] == b[k..k + |w|];
    assert StartsWith(a + b + c, |a| + k, w);
  }

  /** What has been read of the word is at the end of the buffer, or all of it is somewhere in it. */
  ghost predicate Carried(s: string, pos: nat, buffer: string, k: nat, w: string)
    requires pos <= |s|
  {
    || pos <= k
    || (pos < k + |w| && |buffer| >= pos - k && buffer[|buffer| - (pos - k)..] == s[k..pos])
    || Shows(buffer, w)
  }

  lemma CarriedOn(s: string, pos: nat, next: nat, buffer: string, k: nat, w: string)
    requires pos < next <= |s| && HasWord(s, k, w) && w != "" && Carried(s, pos, buffer, k, w)
    ensures Carried(s, next, buffer + s[pos..next], k, w)
  {
    var longer := buffer + s[pos..next];
    if pos <= k {
      if k < next {
        CarriedIn(s, pos, next, buffer, k, w);
      }
    } else if Shows(buffer, w) {
      ShowsBetween("", buffer, s[pos..next], w);
      assert "" + buffer + s[pos..next] == longer;
    } else {
      CarriedThrough(s, pos, next, buffer, k, w);
    }
  }

  lemma CarriedIn(s: string, pos: nat, next: nat, buffer: string, k: nat, w: string)
    requires pos <= k < next <= |s| && HasWord(s, k, w)
    ensures Carried(s, next, buffer + s[pos..next], k, w)
  {
    var longer, at := buffer + s[pos..next], |buffer| + k - pos;
    assert longer[at..] == s[k..next];
    if next >= k + |w| {
      assert longer[at..at + |w|] == s[k..k + |w|];
      assert StartsWith(longer, at, w);
    }
  }

  lemma CarriedThrough(s: string, pos: nat, next: nat, buffer: string, k: nat, w: string)
    requires k < pos < k + |w| && pos < next <= |s| && HasWord(s, k, w)
    requires |buffer| >= pos - k && buffer[|buffer| - (pos - k)..] == s[k..pos]
    ensures Carried(s, next, buffer + s[pos..next], k, w)
  {
    var longer, at := buffer + s[pos..next], |buffer| - (pos - k);
    assert longer[at..] == buffer[at..] + s[pos..next];
    assert s[k..pos] + s[pos..next] == s[k..next];
    if next >= k + |w| {
      assert longer[at..at + |w|] == longer[at..][..|w|] == s[k..next][..|w|] == s[k..k + |w|];
      assert StartsWith(longer, at, w);
    }
  }

  lemma BoldBody(piece: string, body: string, k: nat, w: string)
    requires (Around(piece, "**", body) || Around(piece, "__", body)) && HasWord(piece, k, w) && IsWord(w)
    ensures 2 < k && HasWord(body, k - 2, w)
  {
    var mark := if Around(piece, "**", body) then "**" else "__";
    WordBetween(piece, mark, body, k, w);
  }

  lemma ItalicBody(piece: string, body: string, k: nat, w: string)
    requires (Around(piece, "*", body) || Around(piece, "_", body)) && HasWord(piece, k, w) && IsWord(w)
    ensures 1 < k && HasWord(body, k - 1, w)
  {
    var mark := if Around(piece, "*", body) then "*" else "_";
    WordBetween(piece, mark, body, k, w);
  }

  lemma {:induction false} NodeShown(s: string, t: Token, piece: string, k: nat, w: string)
    requires !t.Literal? && (t.BoldToken? || t.ItalicToken? ==> |t.body| < |s|) && Piece(t, piece)
    requires t.LinkToken? ==> forall i :: 0 <= i < |t.url| ==> !IsSpace(t.url[i])
    requires HasWord(piece, k, w) && IsWord(w)
    ensures Shows(Visible(NodeOf(s, t)), w)
    decreases |s|, 0
  {
    match t
    case CodeToken(body, _) => WordInCode(piece, body, k, w);
    case BoldToken(body, _) =>
      BoldBody(piece, body, k, w);
      WordShown(body, 0, "", k - 2, w);
    case ItalicToken(body, _) =>
      ItalicBody(piece, body, k, w);
      WordShown(body, 0, "", k - 1, w);
    case LinkToken(lbl, url, _) => WordInLink(lbl, url, k, w);
  }

  /** A token that begins in front of the word either ends there or has the whole of it inside. */
  lemma TokenAndWord(s: string, pos: nat, k: nat, w: string, t: Token)
    requires pos < |s| && t == TokenAt(s, pos) && !t.Literal? && IsWord(w) && HasWord(s, k, w)
    ensures pos < k || k + |w| <= pos
    ensures t.next <= k || k + |w| <= pos || HasWord(s[pos..t.next], k - pos, w)
  {
    TokenPiece(s, pos);
    MarkedPieceEnds(t, s[pos..t.next]);
    PieceAndWord(s, pos, t.next, k, w);
  }

  lemma PieceAndWord(s: string, pos: nat, next: nat, k: nat, w: string)
    requires pos < next <= |s| && IsWord(w) && HasWord(s, k, w)
    requires IsMark(s[pos..next][0]) && IsMark(s[pos..next][next - pos - 1])
    ensures pos < k || k + |w| <= pos
    ensures next <= k || k + |w| <= pos || (pos < k && HasWord(s[pos..next], k - pos, w))
  {
    assert IsMark(s[pos]) && IsMark(s[next - 1]) && !IsMark(s[k - 1]);
    forall i | k <= i < k + |w| ensures !IsMark(s[i]) {
      WordAt(s, k, w, i);
    }
    if pos < k && k < next {
      assert k + |w| <= next - 1;
      SliceOfSlice(s, pos, next, k, k + |w|);
    }
  }

  lemma InlineUnfold(s: string, pos: nat, buffer: string, t: Token)
    requires pos < |s| && t == TokenAt(s, pos)
    ensures t.Literal? ==> InlineFrom(s, pos, buffer) == InlineFrom(s, t.next, buffer + s[pos..t.next])
    ensures !t.Literal? ==> InlineFrom(s, pos, buffer) == Flush(buffer) + ([NodeOf(s, t)] + InlineFrom(s, t.next, ""))
  {
  }

  /** What a token that is not literal shows together with what comes before and after it. */
  lemma {:induction false} TokenShown(s: string, pos: nat, buffer: string, k: nat, w: string, t: Token)
    requires pos < |s| && t == TokenAt(s, pos) && !t.Literal? && IsWord(w) && HasWord(s, k, w)
    requires Carried(s, pos, buffer, k, w)
    ensures Shows(buffer, w) || t.next <= k || Shows(Visible(NodeOf(s, t)), w)
    decreases |s|, 1
  {
    TokenAndWord(s, pos, k, w, t);
    if k < t.next && pos < k {
      TokenPiece(s, pos);
      if t.LinkToken? {
        TokenUrl(s, pos, t);
      }
      NodeShown(s, t, s[pos..t.next], k - pos, w);
    }
  }

  /** A word after a space stands in the visible text, whatever marks there are around it. */
  lemma {:induction false} WordShown(s: string, pos: nat, buffer: string, k: nat, w: string)
    requires pos <= |s| && HasWord(s, k, w) && IsWord(w) && Carried(s, pos, buffer, k, w)
    ensures Shows(VisibleAll(InlineFrom(s, pos, buffer)), w)
    decreases |s|, 2, |s| - pos
  {
    if pos == |s| {
      VisibleFlush(buffer);
    } else {
      var t := TokenAt(s, pos);
      InlineUnfold(s, pos, buffer, t);
      if t.Literal? {
        CarriedOn(s, pos, t.next, buffer, k, w);
        WordShown(s, t.next, buffer + s[pos..t.next], k, w);
      } else {
        TokenShown(s, pos, buffer, k, w, t);
        var node, rest := Visible(NodeOf(s, t)), VisibleAll(InlineFrom(s, t.next, ""));
        VisibleStep(buffer, NodeOf(s, t), InlineFrom(s, t.next, ""));
        if t.next <= k {
          WordShown(s, t.next, "", k, w);
        }
        ShownSomewhere(buffer, node, rest, w);
      }
    }
  }

  lemma ShownSomewhere(a: string, b: string, c: string, w: string)
    requires Shows(a, w) || Shows(b, w) || Shows(c, w)
    ensures Shows(a + b + c, w)
  {
    if Shows(a, w) {
      ShowsBetween("", a, b + c, w);
      assert "" + a + (b + c) == a + b + c;
    } else if Shows(b, w) {
      ShowsBetween(a, b, c, w);
    } else {
      ShowsBetween(a + b, c, "", w);
      assert a + b + c + "" == a + b + c;
    }
  }

  lemma {:induction false} SubsequenceShorter(a: string, b: string)
    requires Subsequence(a, b)
    ensures |a| <= |b|
    decreases b
  {
    if a != "" {
      if a[0] == b[0] && Subsequence(a[1..], b[1..]) {
        SubsequenceShorter(a[1..], b[1..]);
      } else {
        SubsequenceShorter(a, b[1..]);
      }
    }
  }

  /** A text with a word in it that is longer than another text is parsed differently. */
  lemma WordDiffers(s: string, u: string, n: nat, v: string)
    requires n > |s|
    ensures Inlines(u + (" " + Repeat('a', n)) + v) != Inlines(s)
  {
    var w := Repeat('a', n);
    var t := u + (" " + w) + v;
    RepeatAll('a', n);
    assert t[|u| + 1..|u| + 1 + |w|] == w;
    WordShown(t, 0, "", |u| + 1, w);
    var k: nat :| StartsWith(VisibleAll(Inlines(t)), k, w);
    VisibleTextIsSubsequence(s);
    SubsequenceShorter(VisibleAll(Inlines(s)), s);
  }

  /** A word after a space stands in the visible text of the parsed source. */
  lemma WordStaysVisible(s: string, k: nat, w: string)
    requires HasWord(s, k, w) && IsWord(w)
    ensures Shows(VisibleAll(Inlines(s)), w)
  {
    WordShown(s, 0, "", k, w);
  }
}
