/** `retrieve_papers_from_semantic_scholar`: pages of ten search results at
    offsets 0, 10, ..., 90; only open-access papers with a PDF link are
    downloaded, until `n` papers are processed. The JSON arrives decoded. */
module SemanticScholar {
  import opened Text
  import opened Values
  import opened Filenames
  import opened PaperRecords
  import opened Harvest

  const LimitSemantic: nat := 25
  const PageSize: nat := 10
  const MaxOffset: nat := 100
  const TitlePartLength: nat := 50
  const PaperIdLength: nat := 10

  datatype OpenAccessPdf = OpenAccessPdf(url: Field<string>)

  /** An element of `authors`: `null`, or an object with a `name`. */
  datatype ScholarAuthor = NullAuthor | AuthorEntry(name: Field<string>)

  /** One element of `data`, with the fields the adapter asks for. */
  datatype ScholarPaper = ScholarPaper(
    paperId: Field<string>,
    title: Field<string>,
    authors: Field<seq<ScholarAuthor>>,
    year: Field<int>,
    abstractText: Field<string>,
    url: Field<string>,
    isOpenAccess: Field<bool>,
    openAccessPdf: Field<OpenAccessPdf>)

  /** The answer at one offset: a `RequestException` (with the HTTP status
      when there was a response), a body that is not JSON, any other
      exception while reading it, or the decoded `data` field. */
  datatype Page =
    | RequestFailed(status: Option<int>)
    | NotJson
    | Unreadable
    | Results(data: Field<seq<ScholarPaper>>)

  /** Line 207: open access, with a non-empty `openAccessPdf.url`. */
  predicate Downloadable(p: ScholarPaper) {
    p.isOpenAccess == Present(true)
    && p.openAccessPdf.Present? && p.openAccessPdf.value.url.Present?
    && p.openAccessPdf.value.url.value != ""
  }

  /** The filter of the comprehension at lines 216-220: a truthy author
      with a non-empty name. */
  predicate Kept(a: ScholarAuthor) {
    a.AuthorEntry? && a.name.Present? && a.name.value != ""
  }

  /** The names kept from the author list: truthy authors with a non-empty
      name, in order. */
  function KeptNames(authors: seq<ScholarAuthor>): (r: seq<string>)
    ensures forall i :: 0 <= i < |r| ==> r[i] != ""
    ensures |r| <= |authors|
    ensures forall a :: a in authors && Kept(a) ==> a.name.value in r
    decreases |authors|
  {
    if authors == [] then []
    else
      var a := authors[0];
      var rest := KeptNames(authors[1..]);
      assert forall b :: b in authors ==> b == a || b in authors[1..];
      if Kept(a) then [a.name.value] + rest else rest
  }

  /** One author gives its name exactly when it passes the filter, and the
      names of two lists are the names of the first followed by those of
      the second: nothing is reordered and nothing is invented. */
  lemma {:induction false} KeptNamesAppend(a: seq<ScholarAuthor>, b: seq<ScholarAuthor>)
    ensures |b| == 1 ==> KeptNames(b) == (if Kept(b[0]) then [b[0].name.value] else [])
    ensures KeptNames(a + b) == KeptNames(a) + KeptNames(b)
    decreases |a|
  {
    if |b| == 1 {
      assert b[1..] == [];
    }
    if a == [] {
      assert a + b == b;
    } else {
      assert (a + b)[0] == a[0];
      assert (a + b)[1..] == a[1..] + b;
      KeptNamesAppend(a[1..], b);
    }
  }

  /** Lines 216-222: the kept names, or `['Unknown Author']` when none is
      left; a `null` author list cannot be iterated (`TypeError`). */
  function ScholarAuthors(authors: Field<seq<ScholarAuthor>>): (r: Result<seq<string>>)
    ensures r.Failure? <==> authors.Null?
    ensures r.Success? ==> |r.value| >= 1 && forall i :: 0 <= i < |r.value| ==> r.value[i] != ""
    ensures r.Success? && authors.Present? && KeptNames(authors.value) != [] ==> r.value == KeptNames(authors.value)
    ensures r.Success? && (authors.Missing? || KeptNames(authors.value) == []) ==> r.value == ["Unknown Author"]
  {
    match authors
    case Null => Failure(TypeError)
    case Missing => Success(["Unknown Author"])
    case Present(list) =>
      var names := KeptNames(list);
      Success(if names == [] then ["Unknown Author"] else names)
  }

  function AsAuthorItems(names: seq<string>): (r: seq<AuthorItem>)
    ensures |r| == |names| && forall i :: 0 <= i < |names| ==> r[i] == AuthorName(names[i])
  {
    seq(|names|, i requires 0 <= i < |names| => AuthorName(names[i]))
  }

  /** `paper_details` for a downloaded paper (lines 216-228). */
  function ScholarDetails(p: ScholarPaper, path: string): (r: Result<PaperDetails>)
    ensures r.Failure? <==> p.authors.Null?
    ensures r.Success? ==>
      r.value == PaperDetails(Get(p.title), Get(p.url), AuthorList(AsAuthorItems(ScholarAuthors(p.authors).value)),
                              Get(p.abstractText), Get(p.year), SemanticScholar, path)
  {
    var authors := ScholarAuthors(p.authors);
    if authors.Failure? then Failure(authors.fault)
    else Success(PaperDetails(Get(p.title), Get(p.url), AuthorList(AsAuthorItems(authors.value)),
                              Get(p.abstractText), Get(p.year), SemanticScholar, path))
  }

  /** `f"SemanticScholar_{paper_id[:10]}_{title_part}.pdf"`. */
  function ScholarFilename(paperId: string, title: string): string {
    "SemanticScholar_" + Prefix(paperId, PaperIdLength) + "_"
    + Prefix(SanitizeFilename(title), TitlePartLength) + ".pdf"
  }

  /** Lines 205-213 for one paper: papers that are not downloadable are
      passed over; a `null` id or title raises `TypeError` when the file
      name is built; missing ones fall back to `unknown_id` and `NoTitle`. */
  function ScholarCandidate(p: ScholarPaper): (c: Candidate)
    ensures c.Skipped? <==> !Downloadable(p)
    ensures c.Broken? <==> Downloadable(p) && (p.paperId.Null? || p.title.Null?)
    ensures c.Broken? ==> c.fault == TypeError
    ensures c.Eligible? ==>
      && c.url == Some(p.openAccessPdf.value.url.value)
      && c.filename == ScholarFilename(GetOr(p.paperId, "unknown_id").value, GetOr(p.title, "NoTitle").value)
  {
    if !Downloadable(p) then Skipped
    else if p.paperId.Null? || p.title.Null? then Broken(TypeError)
    else
      var paperId := GetOr(p.paperId, "unknown_id").value;
      var title := GetOr(p.title, "NoTitle").value;
      Eligible(Some(p.openAccessPdf.value.url.value), ScholarFilename(paperId, title),
               (path: string) requires true => ScholarDetails(p, path))
  }

  function Admit(p: ScholarPaper, k: nat): Candidate {
    ScholarCandidate(p)
  }

  /** Why the `while` loop stopped: the quota was met, the offset reached
      100, a page came back empty, or an exception other than a request or
      JSON error broke the loop. */
  datatype ScholarEnd = QuotaReached | OffsetLimit | NoMoreResults | Broke

  /** The offsets requested, the number of 429 cool-downs, the world and
      the number of papers found. */
  datatype ScholarRun = ScholarRun(offsets: seq<nat>, cooldowns: nat, world: World, found: nat, end: ScholarEnd)

  /** What the page at `offset` makes of the run once the offset is
      recorded: the run the loop goes on with, or the run it ends with. */
  datatype Step = Continue(next: ScholarRun) | Stop(last: ScholarRun)

  /** One pass of the loop body (lines 188-246): a failed request or a bad
      body moves on to the next offset, after a cool-down for a 429. */
  function PageStep(o: Oracles, pages: nat -> Page, total: nat, offset: nat, asked: ScholarRun): Step {
    match pages(offset)
    case RequestFailed(status) =>
      Continue(asked.(cooldowns := if status == Some(429) then asked.cooldowns + 1 else asked.cooldowns))
    case NotJson => Continue(asked)
    case Unreadable => Stop(asked.(end := Broke))
    case Results(data) =>
      if !data.Present? || data.value == [] then Stop(asked.(end := NoMoreResults))
      else
        var b := RunBatch(o, Admit, total, data.value, asked.world, asked.found);
        var next := asked.(world := b.world, found := b.count);
        if b.end.Raised? then Stop(next.(end := Broke)) else Continue(next)
  }

  /** The `while` loop from `offset` on. `pages(k)` is the answer at offset
      `k`. */
  function ScholarLoop(o: Oracles, pages: nat -> Page, total: nat, offset: nat,
                       run: ScholarRun): ScholarRun
    decreases MaxOffset - offset
  {
    if run.found >= total then run.(end := QuotaReached)
    else if offset >= MaxOffset then run.(end := OffsetLimit)
    else
      match PageStep(o, pages, total, offset, run.(offsets := run.offsets + [offset]))
      case Continue(next) => ScholarLoop(o, pages, total, offset + PageSize, next)
      case Stop(last) => last
  }

  /** `retrieve_papers_from_semantic_scholar(db_conn, query, total)`. */
  function ScholarSpec(o: Oracles, pages: nat -> Page, total: nat, w: World): ScholarRun {
    ScholarLoop(o, pages, total, 0, ScholarRun([], 0, w, 0, QuotaReached))
  }

  method RetrieveSemanticScholar(o: Oracles, pages: nat -> Page, total: nat, w: World)
    returns (r: ScholarRun)
    ensures r == ScholarSpec(o, pages, total, w)
  {
    var offset: nat := 0;
    r := ScholarRun([], 0, w, 0, QuotaReached);
    while r.found < total && offset < MaxOffset
      invariant ScholarSpec(o, pages, total, w) == ScholarLoop(o, pages, total, offset, r)
      decreases MaxOffset - offset
    {
      r := r.(offsets := r.offsets + [offset]);
      ghost var step := PageStep(o, pages, total, offset, r);
      var page := pages(offset);
      if page.RequestFailed? {
        if page.status == Some(429) {
          r := r.(cooldowns := r.cooldowns + 1);
        }
      } else if page.Unreadable? {
        return r.(end := Broke);
      } else if page.Results? {
        if !page.data.Present? || page.data.value == [] {
          return r.(end := NoMoreResults);
        }
        var b := HarvestBatch(o, Admit, total, page.data.value, r.world, r.found);
        r := r.(world := b.world, found := b.count);
        if b.end.Raised? {
          return r.(end := Broke);
        }
      }
      assert step == Continue(r);
      offset := offset + PageSize;
    }
    r := r.(end := if r.found >= total then QuotaReached else OffsetLimit);
  }

  // ---------------------------------------------------------------------
  // Properties.

  /** The loop from `offset = 10 * |run.offsets|` on asks each later offset
      once, in steps of ten and below 100. */
  lemma {:induction false} LoopOffsets(o: Oracles, pages: nat -> Page, total: nat, offset: nat,
                                       run: ScholarRun)
    requires offset == PageSize * |run.offsets| && offset <= MaxOffset
    requires forall i :: 0 <= i < |run.offsets| ==> run.offsets[i] == PageSize * i
    requires run.cooldowns <= |run.offsets|
    ensures var r := ScholarLoop(o, pages, total, offset, run);
      && |r.offsets| <= MaxOffset / PageSize
      && (forall i :: 0 <= i < |r.offsets| ==> r.offsets[i] == PageSize * i)
      && r.cooldowns <= |r.offsets|
    decreases MaxOffset - offset
  {
    if run.found < total && offset < MaxOffset {
      var asked := run.(offsets := run.offsets + [offset]);
      assert forall i :: 0 <= i < |asked.offsets| ==> asked.offsets[i] == PageSize * i;
      var step := PageStep(o, pages, total, offset, asked);
      StepKeepsOffsets(o, pages, total, offset, asked);
      if step.Continue? {
        LoopOffsets(o, pages, total, offset + PageSize, step.next);
      }
    }
  }


  /** Requests go to offsets 0, 10, ..., 90 only, each at most once, so a
      rate-limited offset is never asked again; at most one cool-down per
      request. */
  lemma ScholarOffsets(o: Oracles, pages: nat -> Page, total: nat, w: World)
    ensures var r := ScholarSpec(o, pages, total, w);
      && |r.offsets| <= 10
      && (forall i :: 0 <= i < |r.offsets| ==> r.offsets[i] == 10 * i)
      && r.cooldowns <= |r.offsets|
  {
    LoopOffsets(o, pages, total, 0, ScholarRun([], 0, w, 0, QuotaReached));
  }

  /** The quota bounds the papers found across all pages; each has its own
      successful download and saved row; a successful download goes
      uncounted only when the loop broke on an exception. */
  lemma {:induction false} LoopAccounting(o: Oracles, pages: nat -> Page, total: nat, offset: nat,
                                          w: World, run: ScholarRun)
    requires run.found <= total
    requires Grown(w, run.world)
    requires |run.world.rows| - |w.rows| >= run.found
    requires run.found <= NewSuccesses(w, run.world) <= run.found
    ensures var r := ScholarLoop(o, pages, total, offset, run);
      && r.found <= total
      && Grown(w, r.world)
      && |r.world.rows| - |w.rows| >= r.found
      && r.found <= NewSuccesses(w, r.world)
      && NewSuccesses(w, r.world) <= r.found + (if r.end.Broke? then 1 else 0)
      && (r.end.QuotaReached? ==> r.found == total)
    decreases MaxOffset - offset
  {
    if run.found < total && offset < MaxOffset {
      var asked := run.(offsets := run.offsets + [offset]);
      var step := PageStep(o, pages, total, offset, asked);
      StepAccounting(o, pages, total, offset, w, asked);
      if step.Continue? {
        LoopAccounting(o, pages, total, offset + PageSize, w, step.next);
      }
    }
  }


  lemma ScholarAccounting(o: Oracles, pages: nat -> Page, total: nat, w: World)
    ensures var r := ScholarSpec(o, pages, total, w);
      && r.found <= total
      && Grown(w, r.world)
      && |r.world.rows| - |w.rows| >= r.found
      && r.found <= NewSuccesses(w, r.world)
      && NewSuccesses(w, r.world) <= r.found + (if r.end.Broke? then 1 else 0)
  {
    GrownRefl(w);
    LoopAccounting(o, pages, total, 0, w, ScholarRun([], 0, w, 0, QuotaReached));
  }

  /** A rate-limited first page is followed by a request at offset 10: the
      same offset is not retried. */
  lemma RateLimitMovesOn(o: Oracles, pages: nat -> Page, total: nat, w: World)
    requires total > 0
    requires pages(0) == RequestFailed(Some(429))
    ensures var r := ScholarSpec(o, pages, total, w);
      |r.offsets| >= 2 && r.offsets[..2] == [0, 10] && r.cooldowns >= 1
  {
    var r1 := ScholarRun([0], 1, w, 0, QuotaReached);
    assert ScholarRun([], 0, w, 0, QuotaReached).(offsets := [] + [0]).(cooldowns := 0 + 1) == r1;
    assert ScholarSpec(o, pages, total, w) == ScholarLoop(o, pages, total, 10, r1);
    LoopKeepsPrefix(o, pages, total, 10, r1);
  }

  lemma {:induction false} LoopKeepsPrefix(o: Oracles, pages: nat -> Page, total: nat, offset: nat,
                                           run: ScholarRun)
    ensures var r := ScholarLoop(o, pages, total, offset, run);
      && |run.offsets| <= |r.offsets| && r.offsets[..|run.offsets|] == run.offsets
      && run.cooldowns <= r.cooldowns
      && (run.found < total && offset < MaxOffset ==> |r.offsets| > |run.offsets| && r.offsets[|run.offsets|] == offset)
    decreases MaxOffset - offset
  {
    if run.found < total && offset < MaxOffset {
      var asked := run.(offsets := run.offsets + [offset]);
      var step := PageStep(o, pages, total, offset, asked);
      StepKeepsOffsets(o, pages, total, offset, asked);
      if step.Continue? {
        LoopKeepsPrefix(o, pages, total, offset + PageSize, step.next);
        assert asked.offsets[..|run.offsets|] == run.offsets;
      }
    }
  }

  /** A step keeps the offsets asked and adds at most one cool-down. */
  lemma StepKeepsOffsets(o: Oracles, pages: nat -> Page, total: nat, offset: nat, asked: ScholarRun)
    ensures var st := PageStep(o, pages, total, offset, asked);
      var r := if st.Continue? then st.next else st.last;
      r.offsets == asked.offsets && asked.cooldowns <= r.cooldowns <= asked.cooldowns + 1
  {
  }

  /** A step keeps the accounting of `LoopAccounting`; only a step that
      broke on an exception may leave one successful download uncounted. */
  lemma StepAccounting(o: Oracles, pages: nat -> Page, total: nat, offset: nat, w: World, asked: ScholarRun)
    requires asked.found <= total
    requires Grown(w, asked.world)
    requires |asked.world.rows| - |w.rows| >= asked.found
    requires asked.found <= NewSuccesses(w, asked.world) <= asked.found
    ensures var st := PageStep(o, pages, total, offset, asked);
      var r := if st.Continue? then st.next else st.last;
      && r.found <= total
      && Grown(w, r.world)
      && |r.world.rows| - |w.rows| >= r.found
      && r.found <= NewSuccesses(w, r.world)
      && NewSuccesses(w, r.world) <= r.found + (if r.end.Broke? then 1 else 0)
      && (st.Continue? ==> NewSuccesses(w, r.world) <= r.found)
  {
    var page := pages(offset);
    if page.Results? && page.data.Present? && page.data.value != [] {
      var b := RunBatch(o, Admit, total, page.data.value, asked.world, asked.found);
      BatchAccounting(o, Admit, total, page.data.value, asked.world, asked.found);
      GrownTrans(w, asked.world, b.world);
    }
  }


  /** A downloaded paper with a `null` abstract raises `TypeError` in the
      save, which breaks the loop: the paper is not counted. */
  lemma NullAbstractBreaks(o: Oracles, w: World, p: ScholarPaper)
    requires ScholarCandidate(p).Eligible?
    requires p.abstractText.Null? && !p.authors.Null?
    requires DownloadIn(o, w, ScholarCandidate(p).url, ScholarCandidate(p).filename).path.Some?
    ensures Attempt(o, w, ScholarCandidate(p)).fault == Some(TypeError)
    ensures !Attempt(o, w, ScholarCandidate(p)).counted
  {
  }
}
