/** `retrieve_papers_from_arxiv`: one Atom feed of `int(1.5 n)` entries,
    each turned into a PDF download and a saved record until `n` papers are
    processed. The feed arrives already parsed. */
module Arxiv {
  import opened Text
  import opened Values
  import opened Filenames
  import opened PaperRecords
  import opened Harvest

  const LimitArxiv: nat := 50
  const TitlePartLength: nat := 50

  /** The text of a child element: the element is missing (`find` gives
      `None`, so `.text` raises `AttributeError`), has no text (`.text` is
      `None`), or has text. */
  datatype XmlText = Absent | NoText | Text(s: string)

  /** One `<entry>` of the feed: its `<id>`, `<title>`, the `<name>` of each
      `<author>`, `<summary>` and `<published>`. */
  datatype ArxivEntry = ArxivEntry(
    id: XmlText,
    title: XmlText,
    authorNames: seq<XmlText>,
    summary: XmlText,
    published: XmlText)

  /** The answer to the query: the request or the XML parse failed (both
      are caught by the adapter), or the parsed entries. */
  datatype ArxivReply = Unavailable | Feed(entries: seq<ArxivEntry>)

  /** `int(total_results * 1.5)`. */
  function BatchSize(total: nat): (n: nat)
    ensures total <= n && 2 * n <= 3 * total && 3 * total <= 2 * n + 1
  {
    total * 3 / 2
  }

  /** The PDF link: every `/abs/` of the id becomes `/pdf/`, then `.pdf`. */
  function PdfUrl(id: string): string {
    Replace(id, "/abs/", "/pdf/") + ".pdf"
  }

  /** The text after the last `/abs/` of the id, with `/` turned into `_`. */
  function RecordIdPart(id: string): (r: string)
    ensures '/' !in r
  {
    var pieces := Split(id, "/abs/");
    var r := Replace(pieces[|pieces| - 1], "/", "_");
    ReplaceCharPointwise(pieces[|pieces| - 1], '/', '_');
    r
  }

  /** `sanitize_filename(title)[:50]`. */
  function TitlePart(title: string): (r: string)
    ensures |r| <= TitlePartLength
    ensures forall i :: 0 <= i < |r| ==> !Unsafe(r[i])
  {
    Prefix(SanitizeFilename(title), TitlePartLength)
  }

  /** `f"arXiv_{record_id_part}_{title_part}.pdf"`. */
  function ArxivFilename(id: string, title: string): string {
    "arXiv_" + RecordIdPart(id) + "_" + TitlePart(Strip(title)) + ".pdf"
  }

  /** The name of one author, or the `AttributeError` of a missing `<name>`. */
  function AuthorOf(name: XmlText): Result<AuthorItem> {
    match name
    case Absent => Failure(AttributeError)
    case NoText => Success(NoneName)
    case Text(s) => Success(AuthorName(s))
  }

  /** The list comprehension over the authors. */
  function AuthorsOf(names: seq<XmlText>): (r: Result<seq<AuthorItem>>)
    ensures r.Success? <==> forall i :: 0 <= i < |names| ==> !names[i].Absent?
    ensures r.Success? ==> |r.value| == |names|
                           && forall i :: 0 <= i < |names| ==> Success(r.value[i]) == AuthorOf(names[i])
    decreases |names|
  {
    if names == [] then Success([])
    else
      var rest := AuthorsOf(names[1..]);
      if names[0].Absent? then Failure(AttributeError)
      else if rest.Failure? then
        assert exists i :: 1 <= i < |names| && names[i].Absent? by {
          var i :| 0 <= i < |names[1..]| && names[1..][i].Absent?;
          assert names[i + 1].Absent?;
        }
        Failure(AttributeError)
      else Success([AuthorOf(names[0]).value] + rest.value)
  }

  /** `paper_details` for a downloaded entry (lines 162-170); every missing
      element or missing text that is dereferenced raises `AttributeError`. */
  function ArxivDetails(e: ArxivEntry, path: string): (r: Result<PaperDetails>)
    requires e.id.Text? && e.title.Text?
    ensures r.Success? <==> AuthorsOf(e.authorNames).Success? && e.summary.Text? && !e.published.Absent?
    ensures r.Failure? ==> r.fault == AttributeError
    ensures r.Success? ==>
      var d := r.value;
      && d.title == Some(Strip(e.title.s))
      && d.url == Some(e.id.s)
      && d.authors == AuthorList(AuthorsOf(e.authorNames).value)
      && d.abstractText == Some(Strip(e.summary.s))
      && d.year == (if e.published.Text? then SafeToInt(YearText(e.published.s)) else None)
      && d.source == ArXiv
      && d.filePath == path
  {
    var authors := AuthorsOf(e.authorNames);
    if authors.Failure? || !e.summary.Text? || e.published.Absent? then Failure(AttributeError)
    else
      var year := if e.published.Text? then SafeToInt(YearText(e.published.s)) else SafeToInt(NoYear);
      Success(PaperDetails(Some(Strip(e.title.s)), Some(e.id.s), AuthorList(authors.value),
                           Some(Strip(e.summary.s)), year, ArXiv, path))
  }

  /** Lines 155-161 for one entry: every entry with an id and a title is
      downloaded; reading a missing id or title raises `AttributeError`. */
  function ArxivCandidate(e: ArxivEntry): (c: Candidate)
    ensures c.Broken? <==> !e.id.Text? || !e.title.Text?
    ensures c.Broken? ==> c.fault == AttributeError
    ensures !c.Broken? ==> c.Eligible? && c.url == Some(PdfUrl(e.id.s))
                           && c.filename == ArxivFilename(e.id.s, e.title.s)
  {
    if !e.id.Text? || !e.title.Text? then Broken(AttributeError)
    else Eligible(Some(PdfUrl(e.id.s)), ArxivFilename(e.id.s, e.title.s),
                  (path: string) requires true => ArxivDetails(e, path))
  }

  function Admit(e: ArxivEntry, k: nat): Candidate {
    ArxivCandidate(e)
  }

  /** How the adapter ended: the feed could not be had (caught and logged),
      an exception escaped to the caller, or the loop finished. */
  datatype ArxivEnd = FeedUnavailable | Escaped(fault: Fault) | Done

  datatype ArxivRun = ArxivRun(requested: nat, world: World, processed: nat, end: ArxivEnd)

  /** `retrieve_papers_from_arxiv(db_conn, query, total)`. `feed(m)` is the
      parsed answer to a query for `m` results. */
  function ArxivSpec(o: Oracles, feed: nat -> ArxivReply, total: nat, w: World): ArxivRun {
    var requested := BatchSize(total);
    match feed(requested)
    case Unavailable => ArxivRun(requested, w, 0, FeedUnavailable)
    case Feed(entries) =>
      var b := RunBatch(o, Admit, total, entries, w, 0);
      ArxivRun(requested, b.world, b.count, if b.end.Raised? then Escaped(b.end.fault) else Done)
  }

  method RetrieveArxiv(o: Oracles, feed: nat -> ArxivReply, total: nat, w: World) returns (r: ArxivRun)
    ensures r == ArxivSpec(o, feed, total, w)
  {
    var requested := total * 3 / 2;
    var reply := feed(requested);
    if reply.Unavailable? {
      return ArxivRun(requested, w, 0, FeedUnavailable);
    }
    var b := HarvestBatch(o, Admit, total, reply.entries, w, 0);
    var end := if b.end.Raised? then Escaped(b.end.fault) else Done;
    return ArxivRun(requested, b.world, b.count, end);
  }

  // ---------------------------------------------------------------------
  // Properties.

  /** The query asks for half as many again as the quota; at most `total`
      papers are processed, each with its own successful download and saved
      row; a successful download goes uncounted only when an exception
      escapes; the files added are exactly the downloaded paths. */
  lemma ArxivAccounting(o: Oracles, feed: nat -> ArxivReply, total: nat, w: World)
    ensures var r := ArxivSpec(o, feed, total, w);
      && r.requested == BatchSize(total)
      && r.processed <= total
      && Grown(w, r.world)
      && |r.world.rows| - |w.rows| >= r.processed
      && r.processed <= NewSuccesses(w, r.world)
      && NewSuccesses(w, r.world) <= r.processed + (if r.end.Escaped? then 1 else 0)
  {
    if feed(BatchSize(total)).Feed? {
      BatchAccounting(o, Admit, total, feed(BatchSize(total)).entries, w, 0);
    } else {
      GrownRefl(w);
    }
  }

  /** For an id with a single `/abs/` at `k`, the PDF link is the same
      address under `/pdf/` with `.pdf` appended, and the record part of the
      file name is the rest of the id with every `/` turned into `_`. */
  lemma ArxivLinks(id: string, k: nat)
    requires OccursAt(id, "/abs/", k)
    requires forall j :: OccursAt(id, "/abs/", j) ==> j == k
    ensures PdfUrl(id) == id[..k] + "/pdf/" + id[k + 5..] + ".pdf"
    ensures var rest := id[k + 5..];
      |RecordIdPart(id)| == |rest|
      && forall i :: 0 <= i < |rest| ==> RecordIdPart(id)[i] == (if rest[i] == '/' then '_' else rest[i])
  {
    ReplaceSingle(id, "/abs/", "/pdf/", k);
    SplitSingle(id, "/abs/", k);
    ReplaceCharPointwise(id[k + 5..], '/', '_');
  }

  /** The file name is `arXiv_`, a record part without `/`, `_`, at most 50
      sanitised title characters, and `.pdf`. */
  lemma ArxivFilenameShape(id: string, title: string)
    ensures var f := ArxivFilename(id, title);
      && StartsWith(f, "arXiv_")
      && EndsWith(f, ".pdf")
      && f == "arXiv_" + RecordIdPart(id) + "_" + TitlePart(Strip(title)) + ".pdf"
      && '/' !in RecordIdPart(id)
      && |TitlePart(Strip(title))| <= TitlePartLength
  {
    var f := ArxivFilename(id, title);
    assert f[..6] == "arXiv_";
    assert f[|f| - 4..] == ".pdf";
  }

  /** An entry whose `<summary>` has no text is downloaded, but building its
      record raises `AttributeError`, which ends the adapter with the paper
      uncounted and no row saved. */
  lemma MissingSummaryEscapes(o: Oracles, feed: nat -> ArxivReply, total: nat, w: World)
    requires 0 < total
    requires feed(BatchSize(total)).Feed? && |feed(BatchSize(total)).entries| >= 1
    requires var e := feed(BatchSize(total)).entries[0];
      e.id.Text? && e.title.Text? && e.summary.NoText?
    requires DownloadIn(o, w, ArxivCandidate(feed(BatchSize(total)).entries[0]).url,
                        ArxivCandidate(feed(BatchSize(total)).entries[0]).filename).path.Some?
    ensures var r := ArxivSpec(o, feed, total, w);
      r.end == Escaped(AttributeError) && r.processed == 0 && r.world.rows == w.rows
  {
    var entries := feed(BatchSize(total)).entries;
    var c := ArxivCandidate(entries[0]);
    var d := DownloadIn(o, w, c.url, c.filename);
    assert c.details(d.path.value) == ArxivDetails(entries[0], d.path.value);
    DetailsFaultStops(o, Admit, total, entries, w, 0);
  }
}
