/** What an item of a list looks like, and that lists read what is written so (src/lib/markdown.ts). */
module MarkdownLists {
  import opened Prelude
  import opened MarkdownInline
  import opened MarkdownBlocks
  import opened MarkdownLaws
  import opened MarkdownLines

  /** The parts of an item's line. */
  datatype Item = Item(lead: string, marker: string, gap: string, text: string) {
    function Line(): string {
      lead + marker + gap + text
    }
  }

  predicate IsGap(s: string) {
    forall i :: 0 <= i < |s| ==> IsSpace(s[i])
  }

  /** A number with a dot or a bracket behind it, or one of the three bullets. */
  predicate IsMarker(m: string, ordered: bool) {
    if ordered then
      && |m| >= 2 && (m[|m| - 1] == '.' || m[|m| - 1] == ')')
      && forall i :: 0 <= i < |m| - 1 ==> '0' <= m[i] <= '9'
    else m == "-" || m == "*" || m == "+"
  }

  /** At most three white characters, a marker, white space, and a text that does not begin with any. */
  predicate IsWritten(w: Item, ordered: bool) {
    && |w.lead| <= 3 && IsGap(w.lead)
    && IsMarker(w.marker, ordered)
    && w.gap != "" && IsGap(w.gap)
    && (w.text != "" ==> !IsSpace(w.text[0]))
  }

  lemma {:induction false} SkipsTo(s: string, from: nat, to: nat)
    requires from <= to <= |s| && (to < |s| ==> !IsSpace(s[to]))
    requires forall i :: from <= i < to ==> IsSpace(s[i])
    ensures SkipSpace(s, from) == to
    decreases |s| - from
  {
    if from < to {
      SkipsTo(s, from + 1, to);
    }
  }

  lemma {:induction false} Skipped(s: string, from: nat)
    requires from <= |s|
    ensures forall i :: from <= i < SkipSpace(s, from) ==> IsSpace(s[i])
    ensures SkipSpace(s, from) < |s| ==> !IsSpace(s[SkipSpace(s, from)])
    decreases |s| - from
  {
    if from < |s| && IsSpace(s[from]) {
      Skipped(s, from + 1);
    }
  }

  lemma {:induction false} DigitsTo(s: string, from: nat, to: nat)
    requires from <= to < |s| && !('0' <= s[to] <= '9') && forall i :: from <= i < to ==> '0' <= s[i] <= '9'
    ensures DigitsEnd(s, from) == to
    decreases |s| - from
  {
    if from < to {
      DigitsTo(s, from + 1, to);
    }
  }

  lemma {:induction false} AllDigits(s: string, from: nat)
    requires from <= |s|
    ensures forall i :: from <= i < DigitsEnd(s, from) ==> '0' <= s[i] <= '9'
    decreases |s| - from
  {
    if from < |s| && '0' <= s[from] <= '9' {
      AllDigits(s, from + 1);
    }
  }

  /** Where the parts of a written item lie. */
  lemma PartsAt(w: Item)
    ensures var s, a, b, c := w.Line(), |w.lead|, |w.lead| + |w.marker|, |w.lead| + |w.marker| + |w.gap|;
            && |s| == c + |w.text|
            && s[..a] == w.lead && s[a..b] == w.marker && s[b..c] == w.gap && s[c..] == w.text
  {
  }

  lemma MarkerEndsAt(s: string, a: nat, b: nat, ordered: bool)
    requires a < b <= |s| && a <= 3 && IsGap(s[..a]) && IsMarker(s[a..b], ordered)
    ensures MarkerEnd(s, ordered) == Some(b)
  {
    assert forall i :: a <= i < b ==> s[i] == s[a..b][i - a];
    assert forall i :: 0 <= i < a ==> s[i] == s[..a][i];
    SkipsTo(s, 0, a);
    assert Start(s) == Some(a);
    if ordered {
      DigitsTo(s, a, b - 1);
    }
  }

  /** Written as an item, a text is read as the text of an item. */
  lemma ItemRead(w: Item, ordered: bool)
    requires IsWritten(w, ordered)
    ensures IsItem(w.Line(), ordered) && ItemText(w.Line(), ordered) == w.text
    ensures !IsContinuation(w.Line())
  {
    var s, a, b, c := w.Line(), |w.lead|, |w.lead| + |w.marker|, |w.lead| + |w.marker| + |w.gap|;
    PartsAt(w);
    MarkerEndsAt(s, a, b, ordered);
    assert forall i :: b <= i < c ==> s[i] == s[b..c][i - b];
    assert c < |s| ==> s[c] == w.text[0];
    SkipsTo(s, b, c);
  }

  /** The marker of an item line, and what is in front of it. */
  lemma MarkerOf(line: string, a: nat, b: nat, ordered: bool)
    requires Start(line) == Some(a) && MarkerEnd(line, ordered) == Some(b)
    ensures a < b && a <= 3 && IsGap(line[..a]) && IsMarker(line[a..b], ordered)
  {
    Skipped(line, 0);
    if ordered {
      AllDigits(line, a);
      assert forall i :: 0 <= i < b - a ==> line[a..b][i] == line[a + i];
    }
  }

  lemma GapOf(line: string, b: nat, c: nat)
    requires b < |line| && IsSpace(line[b]) && c == SkipSpace(line, b)
    ensures b < c && IsGap(line[b..c]) && (c < |line| ==> !IsSpace(line[c]))
  {
    Skipped(line, b);
  }

  /** Every item line is written so. */
  lemma ItemOf(line: string, ordered: bool) returns (w: Item)
    requires IsItem(line, ordered)
    ensures IsWritten(w, ordered) && w.Line() == line && w.text == ItemText(line, ordered)
  {
    var a, b := Start(line).value, MarkerEnd(line, ordered).value;
    var c := SkipSpace(line, b);
    MarkerOf(line, a, b, ordered);
    GapOf(line, b, c);
    w := Cut(line, a, b, c);
  }

  lemma Cut(line: string, a: nat, b: nat, c: nat) returns (w: Item)
    requires a <= b <= c <= |line|
    ensures w == Item(line[..a], line[a..b], line[b..c], line[c..]) && w.Line() == line
  {
    w := Item(line[..a], line[a..b], line[b..c], line[c..]);
    assert w.Line() == line;
  }

  /** Which lines are items, and with which text. */
  lemma ItemExactly(line: string, ordered: bool, text: string)
    ensures IsItem(line, ordered) && ItemText(line, ordered) == text <==>
            exists w: Item :: IsWritten(w, ordered) && w.Line() == line && w.text == text
  {
    if IsItem(line, ordered) {
      var w := ItemOf(line, ordered);
    }
    forall w: Item | IsWritten(w, ordered) && w.Line() == line
      ensures IsItem(line, ordered) && ItemText(line, ordered) == w.text {
      ItemRead(w, ordered);
    }
  }

  // ----- Whole lists -----

  function Lines(ws: seq<Item>): (r: seq<string>)
    ensures |r| == |ws|
  {
    if ws == [] then [] else [ws[0].Line()] + Lines(ws[1..])
  }

  function Texts(ws: seq<Item>): (r: seq<string>)
    ensures |r| == |ws|
  {
    if ws == [] then [] else [ws[0].text] + Texts(ws[1..])
  }

  /** Items of one kind without bars, so that none of them begins a table. */
  ghost predicate AreWritten(ws: seq<Item>, ordered: bool) {
    forall w :: w in ws ==> IsWritten(w, ordered) && !Contains(w.Line(), '|')
  }

  lemma {:induction false} AllLines(ws: seq<Item>, p: string -> bool)
    requires forall w :: w in ws ==> p(w.Line())
    ensures forall k :: 0 <= k < |ws| ==> p(Lines(ws)[k])
  {
    if ws != [] {
      assert ws[0] in ws;
      AllLines(ws[1..], p);
    }
  }

  lemma {:induction false} MapOfLines<T>(ws: seq<Item>, f: string -> T, g: string -> T)
    requires forall w :: w in ws ==> f(w.Line()) == g(w.text)
    ensures Map(Lines(ws), f) == Map(Texts(ws), g)
  {
    if ws != [] {
      assert ws[0] in ws;
      MapOfLines(ws[1..], f, g);
      assert Lines(ws)[1..] == Lines(ws[1..]) && Texts(ws)[1..] == Texts(ws[1..]);
    }
  }

  /** An item without bars. */
  function BareItem(ordered: bool): string -> bool {
    (line: string) => IsItem(line, ordered) && !IsContinuation(line) && !Contains(line, '|')
  }

  lemma LinesAreItems(ws: seq<Item>, ordered: bool)
    requires AreWritten(ws, ordered)
    ensures forall k :: 0 <= k < |ws| ==> BareItem(ordered)(Lines(ws)[k])
    ensures Map(Lines(ws), ItemInlines(ordered)) == Map(Texts(ws), Inlines)
  {
    forall w | w in ws ensures BareItem(ordered)(w.Line()) && ItemInlines(ordered)(w.Line()) == Inlines(w.text) {
      ItemRead(w, ordered);
    }
    AllLines(ws, BareItem(ordered));
    MapOfLines(ws, ItemInlines(ordered), Inlines);
  }

  lemma {:induction false} ItemsOfLines(lines: seq<string>, i: nat, p: string -> bool, f: string -> seq<Inline>)
    requires i <= |lines| && forall k :: 0 <= k < |lines| ==> p(lines[k]) && !IsContinuation(lines[k])
    ensures ListItems(lines, i, p, f) == Items(Map(lines[i..], f), |lines|)
    decreases |lines| - i
  {
    if i < |lines| {
      assert lines[i..][0] == lines[i] && lines[i..][1..] == lines[i + 1..];
      assert Scan(lines, i + 1, IsContinuation) == i + 1;
      ItemsOfLines(lines, i + 1, p, f);
    }
  }

  /** Items of one kind, each with its own marker and indentation, are read as one list of their texts. */
  lemma ListRoundTrip(ws: seq<Item>, ordered: bool)
    requires ws != [] && AreWritten(ws, ordered)
    ensures ParseLines(Lines(ws)) == Some([List(ordered, Map(Texts(ws), Inlines))])
  {
    var lines := Lines(ws);
    LinesAreItems(ws, ordered);
    forall k | 0 <= k < |lines| ensures ItemTest(ordered)(lines[k]) && !IsContinuation(lines[k]) {
      assert BareItem(ordered)(lines[k]);
    }
    assert BareItem(ordered)(lines[0]);
    ItemTaken(lines, 0, ordered);
    assert lines[0..] == lines;
    ItemsOfLines(lines, 0, ItemTest(ordered), ItemInlines(ordered));
    LastStep(lines, 0);
  }
}
