/** `parse_markdown_table`: the literature survey, a Markdown table written
    by the model, turned into rows of table cells. Regular expressions are
    read with ASCII `\s` and Python's `str.isspace` for stripping. */
module MarkdownTable {
  import opened Text
  import opened Values
  import opened ReportItems

  const Tag: string := "markdown\n"

  /** `re.sub(r'^markdown\n|$', '', t)` on a stripped text: the `$`
      alternative only ever matches the empty string, so the one effect is
      to drop a single `markdown\n` at the very start. */
  function DropTag(t: string): (r: string)
    ensures StartsWith(t, Tag) ==> t == Tag + r
    ensures !StartsWith(t, Tag) ==> r == t
  {
    if StartsWith(t, Tag) then t[|Tag|..] else t
  }

  /** The text the table is read from (line 45). */
  function TableText(text: string): string {
    Strip(DropTag(Strip(text)))
  }

  /** Its lines (line 46). */
  function TableLines(text: string): seq<string> {
    Split(TableText(text), "\n")
  }

  predicate DashOrColon(c: char) {
    c == '-' || c == ':'
  }

  /** The stripped line matches `^\s*\|?([-:]+\|)+[-:]+\|?\s*$`: after one
      optional leading and one optional trailing `|`, at least two non-empty
      runs of `-` and `:` separated by single `|`. */
  predicate IsSeparator(s: string) {
    DashRuns(Split(Unframed(s), "|"))
  }

  /** The line without one leading and one trailing `|`. */
  function Unframed(s: string): string {
    var t := if |s| > 0 && s[0] == '|' then s[1..] else s;
    if |t| > 0 && t[|t| - 1] == '|' then t[..|t| - 1] else t
  }

  predicate DashRuns(runs: seq<string>) {
    |runs| >= 2 && forall i :: 0 <= i < |runs| ==> |runs[i]| >= 1 && forall k :: 0 <= k < |runs[i]| ==> DashOrColon(runs[i][k])
  }

  /** The condition of the comprehension at line 48. */
  predicate IsTableLine(line: string) {
    Strip(line) != "" && '|' in line && !IsSeparator(Strip(line))
  }

  /** `valid_lines`: the table lines, in order. */
  function ValidLines(lines: seq<string>): (r: seq<string>)
    ensures |r| <= |lines|
    decreases |lines|
  {
    if lines == [] then []
    else if IsTableLine(lines[0]) then [lines[0]] + ValidLines(lines[1..])
    else ValidLines(lines[1..])
  }

  /** `[c.strip() for c in line.strip('|').split('|')]`. */
  function Cells(line: string): (r: seq<string>)
    ensures |r| >= 1
  {
    StripEach(Split(StripBars(line), "|"))
  }

  /** Each piece with its surrounding white space removed. */
  function StripEach(raw: seq<string>): (r: seq<string>)
    ensures |r| == |raw|
    ensures forall i :: 0 <= i < |raw| ==> r[i] == Strip(raw[i])
  {
    seq(|raw|, i requires 0 <= i < |raw| => Strip(raw[i]))
  }

  /** The data rows kept for a header of `width` cells: the lines with
      exactly that many cells, in order. Defined on the last line so that
      the loop that builds them extends it line by line. */
  function KeptRows(width: nat, lines: seq<string>): seq<seq<Item>>
    decreases |lines|
  {
    if lines == [] then []
    else
      var last := lines[|lines| - 1];
      var before := KeptRows(width, lines[..|lines| - 1]);
      if |Cells(last)| == width then before + [RowOf(Cells(last), Body)] else before
  }

  /** Every cell of the row is a paragraph in the given style. */
  predicate Styled(row: seq<Item>, style: Style) {
    forall j :: 0 <= j < |row| ==> row[j].Para? && row[j].style == style
  }

  /** `parse_markdown_table(markdown_text)`: `[[]]` when there is no text or
      no table line, otherwise the header row and the kept data rows. */
  function ParsedTable(text: Option<string>): seq<seq<Item>> {
    if text.None? || text.value == "" then [[]]
    else
      var valid := ValidLines(TableLines(text.value));
      if valid == [] then [[]]
      else
        var header := Cells(valid[0]);
        [RowOf(header, HeaderCell)] + KeptRows(|header|, valid[1..])
  }

  method ParseMarkdownTable(text: Option<string>) returns (table: seq<seq<Item>>)
    ensures table == ParsedTable(text)
  {
    if text.None? || text.value == "" {
      return [[]];
    }
    var valid := ValidLines(TableLines(text.value));
    if valid == [] {
      return [[]];
    }
    var header := Cells(valid[0]);
    var data := KeepRows(|header|, valid[1..]);
    if data == [] {
      return [RowOf(header, HeaderCell)];
    }
    return [RowOf(header, HeaderCell)] + data;
  }

  /** The loop over the data lines that appends each row of the header's
      width. */
  method KeepRows(width: nat, dataLines: seq<string>) returns (data: seq<seq<Item>>)
    ensures data == KeptRows(width, dataLines)
  {
    data := [];
    var i := 0;
    while i < |dataLines|
      invariant 0 <= i <= |dataLines|
      invariant data == KeptRows(width, dataLines[..i])
    {
      var cells := Cells(dataLines[i]);
      assert dataLines[..i + 1][..i] == dataLines[..i];
      if |cells| == width {
        data := data + [RowOf(cells, Body)];
      }
      i := i + 1;
    }
    assert dataLines[..i] == dataLines;
  }

  // ---------------------------------------------------------------------
  // Properties.

  /** Every kept row has exactly `width` cells, all in the body style. */
  lemma {:induction false} KeptRowsWidth(width: nat, lines: seq<string>)
    ensures forall r: seq<Item> :: r in KeptRows(width, lines) ==>
              |r| == width && Styled(r, Body)
    decreases |lines|
  {
    if lines != [] {
      var init, last := lines[..|lines| - 1], lines[|lines| - 1];
      KeptRowsWidth(width, init);
      var cells := Cells(last);
      if |cells| == width {
        assert KeptRows(width, lines) == KeptRows(width, init) + [RowOf(cells, Body)];
        assert Styled(RowOf(cells, Body), Body);
      } else {
        assert KeptRows(width, lines) == KeptRows(width, init);
      }
    }
  }

  /** A single line gives its row exactly when it has `width` cells, and
      the rows of two blocks of lines are the rows of the first block
      followed by the rows of the second: input order is kept. */
  lemma {:induction false} KeptRowsAppend(width: nat, a: seq<string>, b: seq<string>)
    ensures |b| == 1 ==> KeptRows(width, b) == (if |Cells(b[0])| == width then [RowOf(Cells(b[0]), Body)] else [])
    ensures KeptRows(width, a + b) == KeptRows(width, a) + KeptRows(width, b)
    decreases |b|
  {
    if b == [] {
      assert a + b == a;
    } else {
      var init := b[..|b| - 1];
      assert (a + b)[..|a + b| - 1] == a + init;
      assert (a + b)[|a + b| - 1] == b[|b| - 1];
      KeptRowsAppend(width, a, init);
      if |b| == 1 {
        assert init == [];
      }
    }
  }

  /** A line is among the table lines exactly when it is one of the lines
      and passes the filter. */
  lemma {:induction false} ValidLinesExact(lines: seq<string>)
    ensures forall l :: l in ValidLines(lines) <==> l in lines && IsTableLine(l)
    decreases |lines|
  {
    if lines != [] {
      ValidLinesExact(lines[1..]);
      assert lines == [lines[0]] + lines[1..];
    }
  }

  /** Table lines of two blocks of lines are those of the first block
      followed by those of the second. */
  lemma {:induction false} ValidLinesAppend(a: seq<string>, b: seq<string>)
    ensures ValidLines(a + b) == ValidLines(a) + ValidLines(b)
    decreases |a|
  {
    if a == [] {
      assert a + b == b;
    } else {
      assert (a + b)[0] == a[0];
      assert (a + b)[1..] == a[1..] + b;
      ValidLinesAppend(a[1..], b);
    }
  }

  /** The shape of the result: `[[]]` exactly when there is no text or no
      table line; otherwise a non-empty header, then rows of exactly as many
      cells, the header in the header style and the rows in the body style. */
  lemma TableShape(text: Option<string>)
    ensures var t := ParsedTable(text);
      && |t| >= 1
      && (t == [[]] <==> text.None? || text.value == "" || ValidLines(TableLines(text.value)) == [])
      && (t != [[]] ==>
            && |t[0]| >= 1
            && Styled(t[0], HeaderCell)
            && (forall i :: 1 <= i < |t| ==>
                  |t[i]| == |t[0]| && Styled(t[i], Body)))
  {
    if text.Some? && text.value != "" {
      var valid := ValidLines(TableLines(text.value));
      if valid != [] {
        var header := Cells(valid[0]);
        KeptRowsWidth(|header|, valid[1..]);
        HeaderThenRows(header, KeptRows(|header|, valid[1..]));
      }
    }
  }

  lemma HeaderThenRows(header: seq<string>, rows: seq<seq<Item>>)
    requires |header| >= 1
    requires forall r: seq<Item> :: r in rows ==>
               |r| == |header| && Styled(r, Body)
    ensures var t := [RowOf(header, HeaderCell)] + rows;
      && t != [[]]
      && |t[0]| >= 1
      && Styled(t[0], HeaderCell)
      && (forall i :: 1 <= i < |t| ==>
            |t[i]| == |t[0]| && Styled(t[i], Body))
  {
    var t := [RowOf(header, HeaderCell)] + rows;
    assert |t[0]| == |header|;
    forall i | 1 <= i < |t|
      ensures |t[i]| == |t[0]| && Styled(t[i], Body)
    {
      assert t[i] == rows[i - 1] && rows[i - 1] in rows;
    }
  }

  /** A single leading `markdown` line is dropped before the lines are read:
      the table is read from the same text with or without it. */
  lemma TagLineDropped(body: string)
    requires body != [] && !IsSpace(body[0]) && !IsSpace(body[|body| - 1])
    requires !StartsWith(body, Tag)
    ensures TableText(Tag + body) == body
    ensures TableText(body) == body
  {
    TaggedTableText(body);
    UntaggedTableText(body);
  }

  lemma TaggedTableText(body: string)
    requires body != [] && !IsSpace(body[0]) && !IsSpace(body[|body| - 1])
    ensures TableText(Tag + body) == body
  {
    TaggedTextStripped(body);
    TagDropped(body);
    StripUnchanged(body);
  }

  lemma UntaggedTableText(body: string)
    requires body != [] && !IsSpace(body[0]) && !IsSpace(body[|body| - 1])
    requires !StartsWith(body, Tag)
    ensures TableText(body) == body
  {
    StripUnchanged(body);
  }

  lemma TaggedTextStripped(body: string)
    requires body != [] && !IsSpace(body[0]) && !IsSpace(body[|body| - 1])
    ensures Strip(Tag + body) == Tag + body
  {
    var t := Tag + body;
    assert t[0] == 'm' && t[|t| - 1] == body[|body| - 1];
    StripUnchanged(t);
  }

  lemma TagDropped(body: string)
    ensures DropTag(Tag + body) == body
  {
    var t := Tag + body;
    assert t[..|Tag|] == Tag && t[|Tag|..] == body;
  }

  /** A row written as `|c1|c2|...|ck|` reads back as its cells when each
      cell is non-empty, has no `|` and no surrounding white space. */
  lemma CellsRoundTrip(cells: seq<string>)
    requires |cells| >= 1
    requires forall c :: c in cells ==> c != [] && '|' !in c && Strip(c) == c
    ensures Cells("|" + Join("|", cells) + "|") == cells
  {
    var inner := Join("|", cells);
    FramedJoinStrips(cells);
    SplitJoinChar(cells, '|');
    assert Split(StripBars("|" + inner + "|"), "|") == cells;
    StripEachClean(cells);
  }

  /** Stripping the bars off a framed join gives back the join. */
  lemma FramedJoinStrips(cells: seq<string>)
    requires |cells| >= 1
    requires forall c :: c in cells ==> c != [] && '|' !in c
    ensures StripBars("|" + Join("|", cells) + "|") == Join("|", cells)
  {
    JoinEnds(cells);
    StripBarsOfFramed(Join("|", cells));
  }

  lemma StripEachClean(cells: seq<string>)
    requires forall c :: c in cells ==> Strip(c) == c
    ensures StripEach(cells) == cells
  {
    forall i | 0 <= i < |cells| ensures StripEach(cells)[i] == cells[i] {
      assert cells[i] in cells;
    }
  }

  /** A join of non-empty pieces without `|` neither starts nor ends
      with `|`. */
  lemma {:induction false} JoinEnds(cells: seq<string>)
    requires |cells| >= 1
    requires forall c :: c in cells ==> c != [] && '|' !in c
    ensures var j := Join("|", cells); j != [] && j[0] != '|' && j[|j| - 1] != '|'
    decreases |cells|
  {
    assert cells[0] in cells;
    if |cells| > 1 {
      forall c | c in cells[1..] ensures c != [] && '|' !in c {
        assert c in cells;
      }
      JoinEnds(cells[1..]);
    }
  }

  lemma StripBarsOfFramed(inner: string)
    requires inner != [] && inner[0] != '|' && inner[|inner| - 1] != '|'
    ensures StripBars("|" + inner + "|") == inner
  {
    var s := "|" + inner + "|";
    var bar := (c: char) => c == '|';
    assert s[1..] == inner + "|";
    assert TrimLeft(inner + "|", bar) == inner + "|";
    assert TrimLeft(s, bar) == inner + "|";
    assert (inner + "|")[..|inner|] == inner;
    assert TrimRight(inner, bar) == inner;
  }

  /** The usual separator under a header is not a table line. */
  lemma SeparatorDropped(k: nat)
    requires k >= 2
    ensures !IsTableLine(SeparatorLine(k))
  {
    var s := SeparatorLine(k);
    SeparatorLineFramed(k);
    StripUnchanged(s);
    SeparatorRuns(k);
  }

  function Dashes(k: nat): seq<string> {
    seq(k, i => "---")
  }

  /** `|---|---|...|---|` with `k` columns. */
  function SeparatorLine(k: nat): string {
    "|" + Join("|", Dashes(k)) + "|"
  }

  lemma SeparatorLineFramed(k: nat)
    ensures var s := SeparatorLine(k);
      |s| >= 2 && s[0] == '|' && s[|s| - 1] == '|' && Unframed(s) == Join("|", Dashes(k))
  {
    var s := SeparatorLine(k);
    var inner := Join("|", Dashes(k));
    assert s[1..] == inner + "|";
    assert (inner + "|")[..|inner|] == inner;
  }

  lemma SeparatorRuns(k: nat)
    requires k >= 2
    ensures Split(Join("|", Dashes(k)), "|") == Dashes(k)
    ensures DashRuns(Dashes(k))
  {
    var dashes := Dashes(k);
    forall p | p in dashes ensures '|' !in p {
    }
    SplitJoinChar(dashes, '|');
  }
}
