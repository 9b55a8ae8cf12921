/** `parse_structured_text`: the gap analysis, the proposal and the
    verification reports, written by the model in lightly marked-up prose,
    turned into styled paragraphs each followed by a spacer. `\s` and
    `str.strip()` use `str.isspace`; `\d` is read as an ASCII digit. */
module StructuredText {
  import opened Text
  import opened Values
  import opened ReportItems

  const Bold: string := "**"
  const OpenTag: string := "<b>"
  const CloseTag: string := "</b>"
  const MaxHeadingLength: nat := 100

  // ---------------------------------------------------------------------
  // `re.sub(r'\*\*(.*?)\*\*', r'<b>\1</b>', text)`

  /** Some newline lies in `s[lo..hi]`. */
  predicate NewlineIn(s: string, lo: nat, hi: nat)
    requires hi <= |s|
  {
    exists n :: lo <= n < hi && s[n] == '\n'
  }

  /** Where the lazy `(.*?)\*\*` that starts at `k` ends: the first `**` at
      or after `k`, provided no newline comes before it (`.` does not match
      a newline). */
  function CloseAt(s: string, k: nat): (r: Option<nat>)
    requires k <= |s|
    ensures r.Some? ==> k <= r.value && OccursAt(s, Bold, r.value)
                        && forall m :: k <= m < r.value ==> s[m] != '\n' && !OccursAt(s, Bold, m)
    ensures r.None? ==> forall m :: k <= m < |s| && OccursAt(s, Bold, m) ==> NewlineIn(s, k, m)
    decreases |s| - k
  {
    if OccursAt(s, Bold, k) then Some(k)
    else if k == |s| || s[k] == '\n' then None
    else CloseAt(s, k + 1)
  }

  /** The substitution, scanning left to right: a `**` that opens a match
      is replaced with its text between `<b>` and `</b>`; where no match
      starts, one character is copied and the scan moves on. */
  function Embolden(s: string): string
    decreases |s|
  {
    if |s| < 2 then s
    else if s[..2] == Bold && CloseAt(s, 2).Some? then
      var j := CloseAt(s, 2).value;
      OpenTag + s[2..j] + CloseTag + Embolden(s[j + 2..])
    else [s[0]] + Embolden(s[1..])
  }

  // ---------------------------------------------------------------------
  // `re.split(r'\n\s*\n+', text)`

  /** The end of the run of white space that starts at `i`. */
  function SpaceEnd(s: string, i: nat): (e: nat)
    requires i <= |s|
    ensures i <= e <= |s|
    ensures forall m :: i <= m < e ==> IsSpace(s[m])
    ensures e == |s| || !IsSpace(s[e])
    decreases |s| - i
  {
    if i < |s| && IsSpace(s[i]) then SpaceEnd(s, i + 1) else i
  }

  /** The last newline in `s[lo..hi]`. */
  function LastNewline(s: string, lo: nat, hi: nat): (r: Option<nat>)
    requires lo <= hi <= |s|
    ensures r.Some? ==> lo <= r.value < hi && s[r.value] == '\n'
                        && forall m :: r.value < m < hi ==> s[m] != '\n'
    ensures r.None? ==> forall m :: lo <= m < hi ==> s[m] != '\n'
    decreases hi - lo
  {
    if hi == lo then None
    else if s[hi - 1] == '\n' then Some(hi - 1)
    else LastNewline(s, lo, hi - 1)
  }

  /** The end of a separator match starting at `i`: a newline, then the
      greedy `\s*` gives back characters until `\n+` can match, so the
      match runs to just after the last newline of the white space that
      follows. There is none when that white space holds no newline. */
  function SeparatorEnd(s: string, i: nat): (r: Option<nat>)
    requires i <= |s|
    ensures r.Some? ==> i + 2 <= r.value <= |s|
  {
    if i < |s| && s[i] == '\n' then
      var p := LastNewline(s, i + 1, SpaceEnd(s, i + 1));
      if p.Some? then Some(p.value + 1) else None
    else None
  }

  /** The leftmost position at or after `i` where a separator matches. */
  function FirstSeparator(s: string, i: nat): (r: Option<nat>)
    requires i <= |s|
    ensures r.Some? ==> i <= r.value <= |s| && SeparatorEnd(s, r.value).Some?
    decreases |s| - i
  {
    if i == |s| then None
    else if SeparatorEnd(s, i).Some? then Some(i)
    else FirstSeparator(s, i + 1)
  }

  /** The pieces between separator matches. */
  function Paragraphs(s: string): (r: seq<string>)
    ensures |r| >= 1
    decreases |s|
  {
    var a := FirstSeparator(s, 0);
    if a.None? then [s]
    else [s[..a.value]] + Paragraphs(s[SeparatorEnd(s, a.value).value..])
  }

  // ---------------------------------------------------------------------
  // Classification of one paragraph (lines 90-104).

  /** `<b>...</b>` on a single line of fewer than 100 characters. */
  predicate IsBoldLine(p: string) {
    StartsWith(p, OpenTag) && EndsWith(p, CloseTag) && '\n' !in p && |p| < MaxHeadingLength
  }

  /** The number of digits in the run that starts at `i`. */
  function DigitRun(s: string, i: nat): (n: nat)
    requires i <= |s|
    ensures i + n <= |s|
    ensures forall m :: i <= m < i + n ==> IsDigit(s[m])
    ensures i + n == |s| || !IsDigit(s[i + n])
    decreases |s| - i
  {
    if i < |s| && IsDigit(s[i]) then 1 + DigitRun(s, i + 1) else 0
  }

  /** `re.match(r'<b>\d+\.\s+.*?</b>', p)` for a paragraph without newlines:
      `<b>`, digits, a dot, white space, and a `</b>` somewhere after the
      first white-space character. */
  predicate NumberedHeading(p: string) {
    StartsWith(p, OpenTag)
    && var d := DigitRun(p, 3);
    && d >= 1
    && 3 + d + 1 < |p| && p[3 + d] == '.' && IsSpace(p[3 + d + 1])
    && Contains(p[3 + d + 2..], CloseTag)
  }

  /** `p.replace('<b>', '').replace('</b>', '')`. */
  function Untag(p: string): string {
    Replace(Replace(p, OpenTag, ""), CloseTag, "")
  }

  /** The three labels that mark a score line. */
  predicate ScoreLine(p: string) {
    StartsWith(p, "<b>Overall Confidence Score:</b>")
    || StartsWith(p, "<b>Confidence Score:</b>")
    || StartsWith(p, "<b>Relevance Score:</b>")
  }

  /** The paragraph a cleaned, non-empty piece of text becomes. */
  function Classify(p: string): (r: Item)
    ensures r.Para?
  {
    if IsBoldLine(p) then
      if NumberedHeading(p) || CountChar(p, ':') == 1 then Para(Heading2, Untag(p))
      else Para(Heading3, Untag(p))
    else if ScoreLine(p) then Para(BoldBody, p)
    else Para(Body, p)
  }

  /** The story for a sequence of pieces: each piece that is not blank gives
      its paragraph and a spacer. Defined on the last piece so that the loop
      that builds it extends it piece by piece. */
  function StoryOf(pieces: seq<string>): seq<Item>
    decreases |pieces|
  {
    if pieces == [] then []
    else
      var before := StoryOf(pieces[..|pieces| - 1]);
      var cleaned := Strip(pieces[|pieces| - 1]);
      if cleaned == "" then before else before + [Classify(cleaned), Spacer]
  }

  /** `parse_structured_text(text)`. */
  function Story(text: Option<string>): seq<Item> {
    if text.None? || text.value == "" then []
    else StoryOf(Paragraphs(Strip(Embolden(text.value))))
  }

  method ParseStructuredText(text: Option<string>) returns (story: seq<Item>)
    ensures story == Story(text)
  {
    if text.None? || text.value == "" {
      return [];
    }
    var marked := Embolden(text.value);
    var pieces := Paragraphs(Strip(marked));
    story := BuildStory(pieces);
  }

  /** The loop over the pieces. */
  method BuildStory(pieces: seq<string>) returns (story: seq<Item>)
    ensures story == StoryOf(pieces)
  {
    story := [];
    var i := 0;
    while i < |pieces|
      invariant 0 <= i <= |pieces|
      invariant story == StoryOf(pieces[..i])
    {
      assert pieces[..i + 1][..i] == pieces[..i];
      var cleaned := Strip(pieces[i]);
      if cleaned != "" {
        story := story + [Classify(cleaned), Spacer];
      }
      i := i + 1;
    }
    assert pieces[..i] == pieces;
  }

  // ---------------------------------------------------------------------
  // Properties of the story.

  /** The number of pieces that are not blank. */
  function NonBlank(pieces: seq<string>): nat
    decreases |pieces|
  {
    if pieces == [] then 0
    else NonBlank(pieces[..|pieces| - 1]) + (if Strip(pieces[|pieces| - 1]) == "" then 0 else 1)
  }

  /** A paragraph at each even position and a spacer at each odd one. */
  predicate Alternating(story: seq<Item>) {
    forall i :: 0 <= i < |story| ==> if i % 2 == 0 then story[i].Para? else story[i] == Spacer
  }

  lemma AlternatingExtend(before: seq<Item>, k: nat, x: Item)
    requires |before| == 2 * k && Alternating(before) && x.Para?
    ensures Alternating(before + [x, Spacer])
  {
    var story := before + [x, Spacer];
    forall i | 0 <= i < |story| ensures if i % 2 == 0 then story[i].Para? else story[i] == Spacer {
      if i < |before| {
        assert story[i] == before[i];
      } else if i == |before| {
        assert story[i] == x && i % 2 == 0;
      } else {
        assert story[i] == Spacer && i % 2 == 1;
      }
    }
  }

  /** Two items per non-blank piece: a paragraph at each even position and
      a spacer at each odd one. */
  lemma {:induction false} StoryShape(pieces: seq<string>)
    ensures |StoryOf(pieces)| == 2 * NonBlank(pieces)
    ensures Alternating(StoryOf(pieces))
    decreases |pieces|
  {
    if pieces != [] {
      var init := pieces[..|pieces| - 1];
      StoryShape(init);
      var cleaned := Strip(pieces[|pieces| - 1]);
      if cleaned != "" {
        AlternatingExtend(StoryOf(init), NonBlank(init), Classify(cleaned));
      }
    }
  }

  /** The story of two blocks of pieces is the story of the first followed
      by that of the second. */
  lemma {:induction false} StoryAppend(a: seq<string>, b: seq<string>)
    ensures StoryOf(a + b) == StoryOf(a) + StoryOf(b)
    decreases |b|
  {
    if b == [] {
      assert a + b == a;
    } else {
      var init, last := b[..|b| - 1], b[|b| - 1];
      assert (a + b)[..|a + b| - 1] == a + init;
      assert (a + b)[|a + b| - 1] == last;
      StoryAppend(a, init);
      var tail := if Strip(last) == "" then [] else [Classify(Strip(last)), Spacer];
      assert StoryOf(b) == StoryOf(init) + tail;
      assert StoryOf(a + b) == StoryOf(a + init) + tail;
    }
  }

  /** Not blank, and no white space at either end. */
  predicate Clean(p: string) {
    p != [] && !IsSpace(p[0]) && !IsSpace(p[|p| - 1])
  }

  /** The paragraph of each piece followed by a spacer. */
  function Pairs(pieces: seq<string>): seq<Item>
    decreases |pieces|
  {
    if pieces == [] then []
    else Pairs(pieces[..|pieces| - 1]) + [Classify(pieces[|pieces| - 1]), Spacer]
  }

  /** Clean pieces each give their paragraph and a spacer: nothing is
      dropped and nothing is reordered. */
  lemma {:induction false} StoryOfCleanPieces(pieces: seq<string>)
    requires forall i :: 0 <= i < |pieces| ==> Clean(pieces[i])
    ensures StoryOf(pieces) == Pairs(pieces)
    decreases |pieces|
  {
    if pieces != [] {
      StoryOfCleanPieces(pieces[..|pieces| - 1]);
      StripUnchanged(pieces[|pieces| - 1]);
    }
  }

  /** Piece `i` gives the paragraph at position `2 i` and the spacer
      after it. */
  lemma {:induction false} PairsAt(pieces: seq<string>)
    ensures |Pairs(pieces)| == 2 * |pieces|
    ensures forall i :: 0 <= i < |pieces| ==>
              Pairs(pieces)[2 * i] == Classify(pieces[i]) && Pairs(pieces)[2 * i + 1] == Spacer
    decreases |pieces|
  {
    if pieces != [] {
      var init := pieces[..|pieces| - 1];
      PairsAt(init);
      assert pieces == init + [pieces[|pieces| - 1]];
      PairsExtend(Pairs(init), init, pieces[|pieces| - 1]);
    }
  }

  /** Paragraph-and-spacer pairs for `pieces`, extended by one more piece. */
  lemma PairsExtend(story: seq<Item>, pieces: seq<string>, last: string)
    requires |story| == 2 * |pieces|
    requires forall i :: 0 <= i < |pieces| ==> story[2 * i] == Classify(pieces[i]) && story[2 * i + 1] == Spacer
    ensures var s2, p2 := story + [Classify(last), Spacer], pieces + [last];
      forall i :: 0 <= i < |p2| ==> s2[2 * i] == Classify(p2[i]) && s2[2 * i + 1] == Spacer
  {
  }

  /** Empty text gives an empty story. */
  lemma NoTextNoStory(text: Option<string>)
    requires text.None? || Strip(Embolden(text.value)) == ""
    ensures Story(text) == []
  {
    if text.Some? && text.value != "" {
      assert FirstSeparator("", 0).None?;
      assert Paragraphs("") == [""];
      assert StoryOf([""]) == [];
    }
  }

  // ---------------------------------------------------------------------
  // Properties of the bold substitution.

  /** Text without `**` is left as it is. */
  lemma {:induction false} PlainTextUnchanged(s: string)
    requires !Contains(s, Bold)
    ensures Embolden(s) == s
    decreases |s|
  {
    if |s| >= 2 {
      assert !OccursAt(s, Bold, 0);
      PlainTextUnchanged(s[1..]);
    }
  }

  /** The scan for the closing `**` passes over characters that are neither
      `*` nor a newline. */
  lemma {:induction false} CloseScan(s: string, k: nat, j: nat)
    requires k <= j && OccursAt(s, Bold, j)
    requires forall m :: k <= m < j ==> s[m] != '*' && s[m] != '\n'
    ensures CloseAt(s, k) == Some(j)
    decreases j - k
  {
    if k < j {
      assert s[k] != '*';
      CloseScan(s, k + 1, j);
    }
  }

  /** `**x**` becomes `<b>x</b>` when `x` is a single line without `*`. */
  lemma BoldSpan(x: string, rest: string)
    requires '*' !in x && '\n' !in x
    ensures Embolden(Bold + x + Bold + rest) == OpenTag + x + CloseTag + Embolden(rest)
  {
    var s := Bold + x + Bold + rest;
    var j := 2 + |x|;
    assert s[..2] == Bold;
    assert s[j..j + 2] == Bold;
    forall m | 2 <= m < j ensures s[m] != '*' && s[m] != '\n' {
      assert s[m] == x[m - 2];
    }
    CloseScan(s, 2, j);
    assert s[2..j] == x;
    assert s[j + 2..] == rest;
  }

  // ---------------------------------------------------------------------
  // Properties of the paragraph split.

  /** The scan for a separator passes over characters other than newlines. */
  lemma {:induction false} SeparatorScan(s: string, i: nat, j: nat)
    requires i <= j <= |s|
    requires forall m :: i <= m < j ==> s[m] != '\n'
    ensures FirstSeparator(s, i) == FirstSeparator(s, j)
    decreases j - i
  {
    if i < j {
      SeparatorStep(s, i);
      SeparatorScan(s, i + 1, j);
    }
  }

  /** No separator starts at a character other than a newline. */
  lemma SeparatorStep(s: string, i: nat)
    requires i < |s| && s[i] != '\n'
    ensures FirstSeparator(s, i) == FirstSeparator(s, i + 1)
  {
  }

  /** A single line is one paragraph. */
  lemma OneLineOneParagraph(s: string)
    requires '\n' !in s
    ensures Paragraphs(s) == [s]
  {
    SeparatorScan(s, 0, |s|);
  }

  /** A blank line between a line and a text that does not start with
      white space splits them. */
  lemma BlankLineSplits(p: string, q: string)
    requires '\n' !in p
    requires q == [] || !IsSpace(q[0])
    ensures Paragraphs(p + "\n\n" + q) == [p] + Paragraphs(q)
  {
    var s := p + "\n\n" + q;
    var i := |p|;
    assert s[i] == '\n' && s[i + 1] == '\n';
    assert i + 2 == |s| || s[i + 2] == q[0];
    assert SpaceEnd(s, i + 2) == i + 2;
    assert SpaceEnd(s, i + 1) == i + 2;
    assert LastNewline(s, i + 1, i + 2) == Some(i + 1);
    assert SeparatorEnd(s, i) == Some(i + 2);
    forall m | 0 <= m < i ensures s[m] != '\n' {
      assert s[m] == p[m];
    }
    SeparatorScan(s, 0, i);
    assert s[..i] == p && s[i + 2..] == q;
  }

  /** Single lines joined by blank lines split back into those lines, as
      long as none of them starts with white space. */
  lemma {:induction false} ParagraphsOfJoin(lines: seq<string>)
    requires |lines| >= 1
    requires forall l :: l in lines ==> l != [] && !IsSpace(l[0]) && '\n' !in l
    ensures Paragraphs(Join("\n\n", lines)) == lines
    decreases |lines|
  {
    assert lines[0] in lines;
    if |lines| == 1 {
      OneLineOneParagraph(lines[0]);
    } else {
      var rest := lines[1..];
      forall l | l in rest ensures l != [] && !IsSpace(l[0]) && '\n' !in l {
        assert l in lines;
      }
      assert lines[1] in lines;
      JoinStart(rest);
      BlankLineSplits(lines[0], Join("\n\n", rest));
      ParagraphsOfJoin(rest);
      assert [lines[0]] + rest == lines;
    }
  }

  /** A join of lines starts with the first character of the first line. */
  lemma JoinStart(lines: seq<string>)
    requires |lines| >= 1 && lines[0] != []
    ensures var j := Join("\n\n", lines); j != [] && j[0] == lines[0][0]
  {
  }

  // ---------------------------------------------------------------------
  // Properties of the classification.

  /** Removing the tags from `<b>x</b>` gives `x` back when `x` has no `<`. */
  lemma UntagBold(x: string)
    requires '<' !in x
    ensures Untag(OpenTag + x + CloseTag) == x
  {
    var p := OpenTag + x + CloseTag;
    assert p[..3] == OpenTag && p[3..] == x + CloseTag;
    var t := x + CloseTag;
    NoOpenTagBefore(x);
    ReplaceAbsent(t, OpenTag, "");
    assert Replace(p, OpenTag, "") == t;
    NoCloseTagInside(x);
    ReplaceSkip(t, CloseTag, "", |x|);
    assert t[..|x|] == x && t[|x|..] == CloseTag;
  }

  lemma NoOpenTagBefore(x: string)
    requires '<' !in x
    ensures !Contains(x + CloseTag, OpenTag)
  {
    var t := x + CloseTag;
    forall j | 0 <= j && j + 3 <= |t| ensures !OccursAt(t, OpenTag, j) {
      assert t[j..j + 3][0] == t[j] && t[j..j + 3][1] == t[j + 1];
      if j < |x| {
        assert t[j] == x[j];
      } else if j == |x| {
        assert t[j + 1] == '/';
      } else {
        assert t[j] == CloseTag[j - |x|];
      }
    }
  }

  lemma NoCloseTagInside(x: string)
    requires '<' !in x
    ensures forall j :: 0 <= j < |x| ==> !OccursAt(x + CloseTag, CloseTag, j)
  {
    var t := x + CloseTag;
    forall j | 0 <= j < |x| ensures !OccursAt(t, CloseTag, j) {
      assert t[j] == x[j];
    }
  }

  /** Text without markup is body text. */
  lemma PlainParagraphIsBody(p: string)
    requires '<' !in p && p != []
    ensures Classify(p) == Para(Body, p)
  {
    assert p[0] != '<';
    NoAnglePrefix(p, OpenTag);
    NoAnglePrefix(p, "<b>Overall Confidence Score:</b>");
    NoAnglePrefix(p, "<b>Confidence Score:</b>");
    NoAnglePrefix(p, "<b>Relevance Score:</b>");
  }

  lemma NoAnglePrefix(p: string, prefix: string)
    requires p != [] && p[0] != '<'
    requires prefix != [] && prefix[0] == '<'
    ensures !StartsWith(p, prefix)
  {
    if |prefix| <= |p| {
      assert p[..|prefix|][0] == p[0];
    }
  }

  /** `**1. Introduction**` on its own line, after the substitution, is a
      level-two heading whose text is `1. Introduction`. */
  lemma NumberedBoldLineIsHeading(d: string, y: string)
    requires d != [] && AllDigits(d)
    requires '<' !in y && '\n' !in y
    requires |d| + |y| + 9 < MaxHeadingLength
    ensures var x := d + ". " + y;
      Classify(OpenTag + x + CloseTag) == Para(Heading2, x)
  {
    var x := d + ". " + y;
    var p := OpenTag + x + CloseTag;
    assert p[..3] == OpenTag;
    assert p[|p| - 4..] == CloseTag;
    forall m | 0 <= m < |p| ensures p[m] != '\n' {
      if 3 <= m < 3 + |d| {
        assert p[m] == d[m - 3];
      } else if 3 + |d| + 2 <= m < 3 + |x| {
        assert p[m] == y[m - 3 - |d| - 2];
      }
    }
    assert IsBoldLine(p);
    DigitsOfHeading(p, d, 3);
    assert p[3 + |d|] == '.' && p[3 + |d| + 1] == ' ';
    assert p[3 + |d| + 2..] == y + CloseTag;
    assert OccursAt(y + CloseTag, CloseTag, |y|);
    assert NumberedHeading(p);
    forall m | 0 <= m < |x| ensures x[m] != '<' {
      if m < |d| {
        assert x[m] == d[m];
      } else if m >= |d| + 2 {
        assert x[m] == y[m - |d| - 2];
      }
    }
    UntagBold(x);
  }

  lemma {:induction false} DigitsOfHeading(p: string, d: string, i: nat)
    requires i + |d| < |p| && p[i..i + |d|] == d && AllDigits(d) && !IsDigit(p[i + |d|])
    ensures DigitRun(p, i) == |d|
    decreases |d|
  {
    if d != [] {
      assert p[i] == d[0];
      assert p[i + 1..i + |d|] == d[1..];
      DigitsOfHeading(p, d[1..], i + 1);
    }
  }

  /** A bold line that is not numbered is a level-two heading when it holds
      exactly one `:` and a level-three heading otherwise. */
  lemma BoldLineHeadingLevel(x: string)
    requires '<' !in x && '\n' !in x
    requires x == [] || !IsDigit(x[0])
    requires |x| + 7 < MaxHeadingLength
    ensures Classify(OpenTag + x + CloseTag)
            == Para(if CountChar(x, ':') == 1 then Heading2 else Heading3, x)
  {
    var p := OpenTag + x + CloseTag;
    BoldLineOf(x);
    UnnumberedLine(x);
    TagsHaveNoColon(x);
    UntagBold(x);
  }

  lemma BoldLineOf(x: string)
    requires '\n' !in x && |x| + 7 < MaxHeadingLength
    ensures IsBoldLine(OpenTag + x + CloseTag)
  {
    var p := OpenTag + x + CloseTag;
    assert p[..3] == OpenTag;
    assert p[|p| - 4..] == CloseTag;
    forall m | 0 <= m < |p| ensures p[m] != '\n' {
      if 3 <= m < 3 + |x| {
        assert p[m] == x[m - 3];
      }
    }
  }

  lemma UnnumberedLine(x: string)
    requires x == [] || !IsDigit(x[0])
    ensures !NumberedHeading(OpenTag + x + CloseTag)
  {
    var p := OpenTag + x + CloseTag;
    assert p[3] == (if x == [] then '<' else x[0]);
    assert DigitRun(p, 3) == 0;
  }

  lemma TagsHaveNoColon(x: string)
    ensures CountChar(OpenTag + x + CloseTag, ':') == CountChar(x, ':')
  {
    CountCharAppend(OpenTag, x, ':');
    CountCharAppend(OpenTag + x, CloseTag, ':');
  }

  /** A score marker followed by more text is set in the bold body style. */
  lemma ScoreLineIsBoldBody(marker: string, rest: string)
    requires marker in {"<b>Overall Confidence Score:</b>", "<b>Confidence Score:</b>", "<b>Relevance Score:</b>"}
    requires rest != [] && rest[|rest| - 1] != '>'
    ensures Classify(marker + rest) == Para(BoldBody, marker + rest)
  {
    var p := marker + rest;
    assert p[|p| - 1] == rest[|rest| - 1];
    assert p[..|marker|] == marker;
  }
}
