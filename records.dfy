/** The paper record each adapter hands to `save_paper_to_db`, and the row
    that function writes to the `papers1` table. */
module PaperRecords {
  import opened Text
  import opened Values

  datatype Source = ArXiv | SemanticScholar | Core

  /** The value written to the `source` column. */
  function SourceName(s: Source): string {
    match s
    case ArXiv => "arXiv"
    case SemanticScholar => "Semantic Scholar"
    case Core => "CORE"
  }

  /** One element of an author list: a name, a `None` (an arXiv `<name>`
      element without text) or a JSON object (a CORE author). */
  datatype AuthorItem = AuthorName(name: string) | NoneName | AuthorObject

  /** The `authors` value of a record: a list, or a JSON `null`. */
  datatype Authors = AuthorList(items: seq<AuthorItem>) | NullAuthors

  /** The `paper_details` dictionary built by the adapters. */
  datatype PaperDetails = PaperDetails(
    title: Option<string>,
    url: Option<string>,
    authors: Authors,
    abstractText: Option<string>,
    year: Option<int>,
    source: Source,
    filePath: string)

  /** The values bound to the `INSERT` parameters. */
  datatype PaperRow = PaperRow(
    title: Option<string>,
    authors: Option<string>,
    year: Option<int>,
    source: string,
    sourceUrl: Option<string>,
    abstractText: string,
    filePath: string)

  /** What a call to `save_paper_to_db` leaves behind: the row it committed,
      if any, and the exception that escapes it, if any. */
  datatype SaveOutcome = SaveOutcome(row: Option<PaperRow>, fault: Option<Fault>)

  const MaxAbstractLength: nat := 65530

  /** The names of an author list, or `None` when `', '.join` would raise
      because some element is not a string. */
  function AuthorNames(items: seq<AuthorItem>): (r: Option<seq<string>>)
    ensures r.Some? <==> forall i :: 0 <= i < |items| ==> items[i].AuthorName?
    ensures r.Some? ==> |r.value| == |items|
                        && forall i :: 0 <= i < |items| ==> r.value[i] == items[i].name
    decreases |items|
  {
    if items == [] then Some([])
    else
      var rest := AuthorNames(items[1..]);
      if !items[0].AuthorName? || rest.None? then
        assert rest.None? ==> exists i :: 1 <= i < |items| && !items[i].AuthorName? by {
          if rest.None? {
            var i :| 0 <= i < |items[1..]| && !items[1..][i].AuthorName?;
            assert !items[i + 1].AuthorName?;
          }
        }
        None
      else Some([items[0].name] + rest.value)
  }

  /** `save_paper_to_db(connection, paper_details)` (Retrieval_agent.py:111-136),
      taking the `INSERT` itself to succeed. The authors column is the list
      joined with `", "`, or `NULL` for a non-list; the abstract is cut to
      65530 characters. A non-string author or a `None` abstract raises
      `TypeError` before the insert; a `None` title raises it after the
      commit, in the log line. */
  function SavePaper(d: PaperDetails): (o: SaveOutcome)
    ensures o.row.Some? <==> d.abstractText.Some?
                             && (d.authors.AuthorList? ==> AuthorNames(d.authors.items).Some?)
    ensures o.row.None? ==> o.fault == Some(TypeError)
    ensures o.row.Some? ==> (o.fault.None? <==> d.title.Some?)
    ensures o.fault.Some? ==> o.fault == Some(TypeError)
    ensures o.row.Some? ==>
      var row := o.row.value;
      && row.title == d.title
      && row.sourceUrl == d.url
      && row.year == d.year
      && row.source == SourceName(d.source)
      && row.filePath == d.filePath
      && |row.abstractText| <= MaxAbstractLength
      && StartsWith(d.abstractText.value, row.abstractText)
      && (|d.abstractText.value| <= MaxAbstractLength ==> row.abstractText == d.abstractText.value)
      && (|d.abstractText.value| > MaxAbstractLength ==> |row.abstractText| == MaxAbstractLength)
      && (d.authors.NullAuthors? ==> row.authors.None?)
      && (d.authors.AuthorList? ==> row.authors == Some(Join(", ", AuthorNames(d.authors.items).value)))
  {
    var authors: Option<Option<string>> :=
      match d.authors
      case NullAuthors => Some(None)
      case AuthorList(items) =>
        var names := AuthorNames(items);
        if names.None? then None else Some(Some(Join(", ", names.value)));
    if authors.None? || d.abstractText.None? then SaveOutcome(None, Some(TypeError))
    else
      var row := PaperRow(d.title, authors.value, d.year, SourceName(d.source), d.url,
                          Prefix(d.abstractText.value, MaxAbstractLength), d.filePath);
      SaveOutcome(Some(row), if d.title.None? then Some(TypeError) else None)
  }

  /** An empty author list is saved as the empty string, not as `NULL`. */
  lemma EmptyAuthorsColumn(d: PaperDetails)
    requires d.authors == AuthorList([]) && d.abstractText.Some?
    ensures SavePaper(d).row.Some? && SavePaper(d).row.value.authors == Some("")
  {
    assert AuthorNames([]) == Some([]);
  }

  /** The authors column of a saved list splits back on `", "` into the
      author names, as long as no name itself contains `", "`. */
  lemma AuthorsColumnRoundTrip(d: PaperDetails)
    requires d.authors.AuthorList? && |d.authors.items| >= 1
    requires SavePaper(d).row.Some?
    requires forall i :: 0 <= i < |d.authors.items| ==>
               d.authors.items[i].AuthorName? && !Contains(d.authors.items[i].name, ", ")
    ensures SavePaper(d).row.value.authors.Some?
    ensures var names := SavePaper(d).row.value.authors.value;
            var parts := Split(names, ", ");
            |parts| == |d.authors.items|
            && forall i :: 0 <= i < |parts| ==> parts[i] == d.authors.items[i].name
  {
    var names := AuthorNames(d.authors.items).value;
    forall p | p in names ensures !Contains(p, ", ") {
      var i :| 0 <= i < |names| && names[i] == p;
    }
    SplitJoinCommaSpace(names);
  }
}
