/** `retrieve_papers_from_core`: one search of `3 n` works, of which those
    with a download link are fetched until `n` papers are processed. The
    JSON arrives decoded; the random id drawn for a work without one is a
    parameter, `pick(k)` for the `k`-th download call. */
module CoreCatalog {
  import opened Text
  import opened Values
  import opened Filenames
  import opened PaperRecords
  import opened Harvest

  const LimitCore: nat := 25
  const TitlePartLength: nat := 50

  /** The values `random.randint(100000, 999999)` can return. */
  type SixDigits = n: nat | 100000 <= n <= 999999 witness 100000

  /** One element of `results`, with the fields the adapter reads. CORE
      returns authors as objects; the model allows names too. */
  datatype Work = Work(
    id: Field<int>,
    title: Field<string>,
    downloadUrl: Field<string>,
    authors: Field<seq<AuthorItem>>,
    abstractText: Field<string>,
    yearPublished: Field<int>,
    publishedDate: Field<string>,
    doiUrl: Field<string>)

  /** The answer to the POST: a `RequestException`, any other exception
      while reading it, or the decoded `results` field. */
  datatype CoreReply = RequestFailed | Unreadable | Results(results: Field<seq<Work>>)

  /** `work.get('id')` is not `None`. */
  predicate HasId(w: Work) {
    w.id.Present?
  }

  /** `str(core_id_val)`, or the random six-digit id. */
  function CoreId(w: Work, drawn: SixDigits): string {
    if HasId(w) then IntToString(w.id.value) else NatToString(drawn)
  }

  /** `safe_to_int(work.get('yearPublished') or work.get('publishedDate'))`:
      a year of 0 or none falls through to the publication date. */
  function CoreYear(w: Work): Option<int> {
    if w.yearPublished.Present? && w.yearPublished.value != 0 then SafeToInt(YearNumber(w.yearPublished.value))
    else if w.publishedDate.Present? then SafeToInt(YearText(w.publishedDate.value))
    else SafeToInt(NoYear)
  }

  /** Line 307: the CORE page of the work when it has an id, else its DOI
      link, else `""` (or `None` for a `null` DOI link). */
  function CoreSourceUrl(w: Work, coreId: string): (r: Option<string>)
    ensures HasId(w) ==> r == Some("https://core.ac.uk/work/" + coreId)
    ensures !HasId(w) ==> r == GetOr(w.doiUrl, "")
  {
    if HasId(w) then Some("https://core.ac.uk/work/" + coreId) else GetOr(w.doiUrl, "")
  }

  /** `work.get('authors', [])` as `save_paper_to_db` sees it. */
  function CoreAuthors(f: Field<seq<AuthorItem>>): Authors {
    match f
    case Missing => AuthorList([])
    case Null => NullAuthors
    case Present(items) => AuthorList(items)
  }

  /** `paper_details` for a downloaded work (lines 303-317). */
  function CoreDetails(w: Work, title: string, coreId: string, path: string): PaperDetails {
    PaperDetails(Some(title), CoreSourceUrl(w, coreId), CoreAuthors(w.authors),
                 GetOr(w.abstractText, "No Abstract Available"), CoreYear(w), Core, path)
  }

  /** `f"CORE_{core_id}_{title_part}.pdf"`. */
  function CoreFilename(coreId: string, title: string): string {
    "CORE_" + coreId + "_" + Prefix(SanitizeFilename(title), TitlePartLength) + ".pdf"
  }

  /** Lines 290-301 for one work: works without a download link are passed
      over; a `null` title raises `TypeError` when the file name is built. */
  function CoreCandidate(w: Work, drawn: SixDigits): (c: Candidate)
    ensures c.Skipped? <==> !TruthyText(Get(w.downloadUrl))
    ensures c.Broken? <==> TruthyText(Get(w.downloadUrl)) && w.title.Null?
    ensures c.Broken? ==> c.fault == TypeError
    ensures c.Eligible? ==>
      && c.url == Get(w.downloadUrl)
      && c.filename == CoreFilename(CoreId(w, drawn), GetOr(w.title, "No Title Available").value)
  {
    if !TruthyText(Get(w.downloadUrl)) then Skipped
    else if w.title.Null? then Broken(TypeError)
    else
      var title := GetOr(w.title, "No Title Available").value;
      var coreId := CoreId(w, drawn);
      Eligible(Get(w.downloadUrl), CoreFilename(coreId, title),
               (path: string) requires true => Success(CoreDetails(w, title, coreId, path)))
  }

  /** Why the adapter stopped: the request failed, reading the answer
      raised, there were no results, the loop finished, or an exception in
      the loop was caught. */
  datatype CoreEnd = RequestError | ReadError | NoResults | Done | Stopped(fault: Fault)

  datatype CoreRun = CoreRun(requested: nat, world: World, processed: nat, end: CoreEnd)

  /** `retrieve_papers_from_core(db_conn, query, total)`. `reply(m)` is the
      answer to a search for `m` works. */
  function CoreSpec(o: Oracles, pick: nat -> SixDigits, reply: nat -> CoreReply, total: nat, w: World): CoreRun {
    var requested := 3 * total;
    match reply(requested)
    case RequestFailed => CoreRun(requested, w, 0, RequestError)
    case Unreadable => CoreRun(requested, w, 0, ReadError)
    case Results(results) =>
      // a `null` list fails in `len(results)`, caught like any other error
      if results.Null? then CoreRun(requested, w, 0, ReadError)
      else if results.Missing? || results.value == [] then CoreRun(requested, w, 0, NoResults)
      else
        var b := RunBatch(o, (work: Work, k: nat) => CoreCandidate(work, pick(k)), total, results.value, w, 0);
        CoreRun(requested, b.world, b.count, if b.end.Raised? then Stopped(b.end.fault) else Done)
  }

  method RetrieveCore(o: Oracles, pick: nat -> SixDigits, reply: nat -> CoreReply, total: nat, w: World)
    returns (r: CoreRun)
    ensures r == CoreSpec(o, pick, reply, total, w)
  {
    var requested := 3 * total;
    var answer := reply(requested);
    if answer.RequestFailed? {
      return CoreRun(requested, w, 0, RequestError);
    } else if answer.Unreadable? || answer.results.Null? {
      return CoreRun(requested, w, 0, ReadError);
    } else if answer.results.Missing? || answer.results.value == [] {
      return CoreRun(requested, w, 0, NoResults);
    }
    var b := HarvestBatch(o, (work: Work, k: nat) => CoreCandidate(work, pick(k)), total,
                          answer.results.value, w, 0);
    var end := if b.end.Raised? then Stopped(b.end.fault) else Done;
    return CoreRun(requested, b.world, b.count, end);
  }

  // ---------------------------------------------------------------------
  // Properties.

  /** The search asks for three times the quota; at most `total` papers are
      processed, each with its own successful download and saved row; a
      successful download goes uncounted only when an exception stopped the
      loop. */
  lemma CoreAccounting(o: Oracles, pick: nat -> SixDigits, reply: nat -> CoreReply, total: nat, w: World)
    ensures var r := CoreSpec(o, pick, reply, total, w);
      && r.requested == 3 * total
      && r.processed <= total
      && Grown(w, r.world)
      && |r.world.rows| - |w.rows| >= r.processed
      && r.processed <= NewSuccesses(w, r.world)
      && NewSuccesses(w, r.world) <= r.processed + (if r.end.Stopped? then 1 else 0)
  {
    var answer := reply(3 * total);
    if answer.Results? && answer.results.Present? && answer.results.value != [] {
      BatchAccounting(o, (work: Work, k: nat) => CoreCandidate(work, pick(k)), total, answer.results.value, w, 0);
    } else {
      GrownRefl(w);
    }
  }

  /** A downloaded work is recorded under its CORE page when it has an id,
      and under its DOI link (or `""`) when it has none. */
  lemma CoreRecordUrl(w: Work, drawn: SixDigits, path: string)
    requires CoreCandidate(w, drawn).Eligible?
    ensures var d := CoreCandidate(w, drawn).details(path);
      && d.Success?
      && (HasId(w) ==> d.value.url == Some("https://core.ac.uk/work/" + IntToString(w.id.value)))
      && (!HasId(w) && !w.doiUrl.Null? ==> d.value.url == Some(if w.doiUrl.Present? then w.doiUrl.value else ""))
      && d.value.title == GetOr(w.title, "No Title Available")
      && d.value.abstractText == GetOr(w.abstractText, "No Abstract Available")
  {
  }

  /** A work without an id is filed under the drawn six-digit number. */
  lemma DrawnIdNamesFile(w: Work, drawn: SixDigits)
    requires !HasId(w)
    ensures var id := CoreId(w, drawn); |id| == 6 && AllDigits(id) && DigitsValue(id) == drawn
  {
    NatToStringRoundTrip(drawn);
    SixDigitsLength(drawn);
  }

  lemma SixDigitsLength(n: SixDigits)
    ensures |NatToString(n)| == 6
  {
    var s := NatToString(n);
    DigitsValueBound(s);
    NatToStringRoundTrip(n);
    assert Pow10(5) == 100000;
    if |s| <= 5 {
      Pow10Monotone(|s|, 5);
    }
    NatToStringShort(n, 6);
  }

  lemma {:induction false} Pow10Monotone(a: nat, b: nat)
    requires a <= b
    ensures Pow10(a) <= Pow10(b)
    decreases b
  {
    if a < b {
      Pow10Monotone(a, b - 1);
    }
  }

  /** CORE's author objects cannot be joined into a string: a downloaded
      work with any such author raises `TypeError` in the save, which ends
      the adapter with the paper uncounted and no row saved. */
  lemma AuthorObjectsStop(o: Oracles, w: World, work: Work, drawn: SixDigits)
    requires CoreCandidate(work, drawn).Eligible?
    requires work.authors.Present? && AuthorObject in work.authors.value
    requires DownloadIn(o, w, CoreCandidate(work, drawn).url, CoreCandidate(work, drawn).filename).path.Some?
    ensures var out := Attempt(o, w, CoreCandidate(work, drawn));
      out.fault == Some(TypeError) && !out.counted && out.world.rows == w.rows
  {
    var c := CoreCandidate(work, drawn);
    var d := DownloadIn(o, w, c.url, c.filename);
    var title := GetOr(work.title, "No Title Available").value;
    var p := CoreDetails(work, title, CoreId(work, drawn), d.path.value);
    assert c.details(d.path.value) == Success(p);
    assert p.authors == AuthorList(work.authors.value);
    assert AuthorNames(work.authors.value).None?;
    var saved := SavePaper(p);
    assert saved.row.None? && saved.fault == Some(TypeError);
    assert Attempt(o, w, c) == Outcome(AfterDownload(w, d), false, Some(TypeError));
  }

  /** Works without a download link are passed over without a request. */
  lemma NoLinkNoDownload(o: Oracles, w: World, work: Work, drawn: SixDigits)
    requires !TruthyText(Get(work.downloadUrl))
    ensures Attempt(o, w, CoreCandidate(work, drawn)) == Outcome(w, false, None)
  {
  }
}
