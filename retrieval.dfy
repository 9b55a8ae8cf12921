/** `run_retrieval(search_topic)`: the three adapters one after another on a
    shared connection and downloads directory, each shielded from the
    others' exceptions. */
module Retrieval {
  import opened Values
  import opened Harvest
  import opened Arxiv
  import opened SemanticScholar
  import opened CoreCatalog

  /** What happens before the adapters run: no database connection (the
      agent returns at once), `os.makedirs` raises (the general handler
      logs it and no adapter runs), or everything is ready. */
  datatype Setup = NoConnection | DirectoryFailed | Ready

  /** The answers of the three services. */
  datatype Services = Services(
    feed: nat -> ArxivReply,
    pages: nat -> Page,
    pick: nat -> SixDigits,
    coreReply: nat -> CoreReply)

  datatype RetrievalRun =
    | NotStarted(world: World)
    | Completed(arxiv: ArxivRun, scholar: ScholarRun, core: CoreRun)

  /** The world after a run. */
  function FinalWorld(r: RetrievalRun): World {
    if r.NotStarted? then r.world else r.core.world
  }

  /** Papers processed over the three sources. */
  function Processed(r: RetrievalRun): nat {
    if r.NotStarted? then 0 else r.arxiv.processed + r.scholar.found + r.core.processed
  }

  function RetrievalSpec(setup: Setup, o: Oracles, s: Services, w: World): RetrievalRun {
    if !setup.Ready? then NotStarted(w)
    else
      var a := ArxivSpec(o, s.feed, LimitArxiv, w);
      var b := ScholarSpec(o, s.pages, LimitSemantic, a.world);
      var c := CoreSpec(o, s.pick, s.coreReply, LimitCore, b.world);
      Completed(a, b, c)
  }

  method RunRetrieval(setup: Setup, o: Oracles, s: Services, w: World) returns (r: RetrievalRun)
    ensures r == RetrievalSpec(setup, o, s, w)
  {
    if setup != Ready {
      return NotStarted(w);
    }
    // an exception escaping an adapter is logged and the next one runs
    var a := RetrieveArxiv(o, s.feed, LimitArxiv, w);
    var b := RetrieveSemanticScholar(o, s.pages, LimitSemantic, a.world);
    var c := RetrieveCore(o, s.pick, s.coreReply, LimitCore, b.world);
    return Completed(a, b, c);
  }

  // ---------------------------------------------------------------------
  // Properties.

  /** A run processes at most 50 + 25 + 25 papers; every one of them has
      its own successful download and saved row; the world only grows, by
      the files downloaded; and at most one successful download per source
      goes uncounted, only for a source an exception stopped. */
  lemma RetrievalAccounting(setup: Setup, o: Oracles, s: Services, w: World)
    ensures var r := RetrievalSpec(setup, o, s, w);
      var w2 := FinalWorld(r);
      && Processed(r) <= LimitArxiv + LimitSemantic + LimitCore
      && Grown(w, w2)
      && |w2.rows| - |w.rows| >= Processed(r)
      && Processed(r) <= NewSuccesses(w, w2)
      && NewSuccesses(w, w2) <= Processed(r) + 3
  {
    if setup.Ready? {
      var a := ArxivSpec(o, s.feed, LimitArxiv, w);
      var b := ScholarSpec(o, s.pages, LimitSemantic, a.world);
      var c := CoreSpec(o, s.pick, s.coreReply, LimitCore, b.world);
      ArxivAccounting(o, s.feed, LimitArxiv, w);
      ScholarAccounting(o, s.pages, LimitSemantic, a.world);
      CoreAccounting(o, s.pick, s.coreReply, LimitCore, b.world);
      GrownTrans(w, a.world, b.world);
      GrownTrans(w, b.world, c.world);
    } else {
      GrownRefl(w);
    }
  }

  /** When there is no database connection, or creating `downloads/`
      raises, nothing is requested, downloaded or saved. A missing directory
      that can be created does not stop the run. */
  lemma NothingWithoutSetup(setup: Setup, o: Oracles, s: Services, w: World)
    requires !setup.Ready?
    ensures FinalWorld(RetrievalSpec(setup, o, s, w)) == w
    ensures Processed(RetrievalSpec(setup, o, s, w)) == 0
  {
  }

  /** An unreachable arXiv does not keep the other two sources from being
      searched: Semantic Scholar starts from the untouched world. */
  lemma FailuresAreIsolated(o: Oracles, s: Services, w: World)
    requires s.feed(BatchSize(LimitArxiv)).Unavailable?
    ensures var r := RetrievalSpec(Ready, o, s, w);
      && r.arxiv.processed == 0
      && r.scholar == ScholarSpec(o, s.pages, LimitSemantic, w)
      && r.core == CoreSpec(o, s.pick, s.coreReply, LimitCore, r.scholar.world)
  {
  }

  /** However arXiv ends, an exception escaping it included, Semantic
      Scholar runs on the world arXiv left and CORE on the world Semantic
      Scholar left; downloads and rows saved before an exception are kept
      to the end of the run. */
  lemma EscapesAreIsolated(o: Oracles, s: Services, w: World)
    ensures var r := RetrievalSpec(Ready, o, s, w);
      && r.scholar == ScholarSpec(o, s.pages, LimitSemantic, r.arxiv.world)
      && r.core == CoreSpec(o, s.pick, s.coreReply, LimitCore, r.scholar.world)
      && Grown(w, r.arxiv.world)
      && Grown(r.arxiv.world, r.scholar.world)
      && Grown(r.scholar.world, FinalWorld(r))
      && Grown(r.arxiv.world, FinalWorld(r))
  {
    var a := ArxivSpec(o, s.feed, LimitArxiv, w);
    var b := ScholarSpec(o, s.pages, LimitSemantic, a.world);
    var c := CoreSpec(o, s.pick, s.coreReply, LimitCore, b.world);
    ArxivAccounting(o, s.feed, LimitArxiv, w);
    ScholarAccounting(o, s.pages, LimitSemantic, a.world);
    CoreAccounting(o, s.pick, s.coreReply, LimitCore, b.world);
    GrownTrans(a.world, b.world, c.world);
  }
}
