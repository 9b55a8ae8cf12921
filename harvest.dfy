/** What every adapter does with one search result: decide whether it is a
    candidate, download its PDF, build the record and save it, counting
    the paper only when all of that went through; and the
    `for entry in results: if processed >= total: break` loop around it.

    The outside world is threaded through as a `World`: the files under
    `downloads/`, the rows written to the database and the log of
    `download_pdf` calls. Call number `k` of `download_pdf` meets the
    network `net(k)` and the clock `clock(k)`. */
module Harvest {
  import opened Values
  import opened Download
  import opened PaperRecords

  datatype Oracles = Oracles(net: nat -> nat -> Fetch, clock: nat -> nat)

  datatype World = World(files: set<string>, rows: seq<PaperRow>, downloads: seq<Download>)

  /** What an adapter makes of one search result before any download. */
  datatype Candidate =
    | Skipped
      // not eligible: no download is attempted (`continue`, or the `if` fails)
    | Broken(fault: Fault)
      // building the URL or the file name raised
    | Eligible(url: Option<string>, filename: string, details: string -> Result<PaperDetails>)
      // download `url` as `filename`; `details(path)` builds the record

  /** The effect of one search result on the world, whether it counts
      towards the quota, and the exception it raised, if any. */
  datatype Outcome = Outcome(world: World, counted: bool, fault: Option<Fault>)

  /** Number of calls in the log that returned a path. */
  function Successes(ds: seq<Download>): (n: nat)
    ensures n <= |ds|
  {
    if ds == [] then 0 else Successes(ds[..|ds| - 1]) + (if ds[|ds| - 1].path.Some? then 1 else 0)
  }

  /** The paths of the calls in the log that returned one. */
  function WrittenPaths(ds: seq<Download>): set<string> {
    set i | 0 <= i < |ds| && ds[i].path.Some? :: ds[i].path.value
  }

  lemma {:induction false} SuccessesAppend(a: seq<Download>, b: seq<Download>)
    ensures Successes(a + b) == Successes(a) + Successes(b)
    decreases |b|
  {
    if b != [] {
      assert (a + b)[..|a + b| - 1] == a + b[..|b| - 1];
      assert (a + b)[|a + b| - 1] == b[|b| - 1];
      SuccessesAppend(a, b[..|b| - 1]);
    } else {
      assert a + b == a;
    }
  }

  /** The call to `download_pdf` numbered `|w.downloads|`. */
  function DownloadIn(o: Oracles, w: World, url: Option<string>, filename: string): Download {
    var k := |w.downloads|;
    DownloadSpec(url, filename, w.files, o.clock(k), o.net(k))
  }

  /** `w` after a download: the call is logged and its file now exists. */
  function AfterDownload(w: World, d: Download): World {
    w.(files := if d.path.Some? then w.files + {d.path.value} else w.files,
       downloads := w.downloads + [d])
  }

  /** One search result, from the candidate check to the saved row: the
      paper counts exactly when the download returned a path and neither
      the record nor the save raised. */
  function Attempt(o: Oracles, w: World, c: Candidate): (out: Outcome)
    ensures out.counted ==> out.fault.None?
    ensures c.Skipped? ==> out == Outcome(w, false, None)
    ensures c.Broken? ==> out == Outcome(w, false, Some(c.fault))
    ensures c.Eligible? ==>
      && out.world.downloads == w.downloads + [DownloadIn(o, w, c.url, c.filename)]
      && (out.counted <==> DownloadIn(o, w, c.url, c.filename).path.Some? && out.fault.None?)
  {
    match c
    case Skipped => Outcome(w, false, None)
    case Broken(f) => Outcome(w, false, Some(f))
    case Eligible(url, filename, details) =>
      var d := DownloadIn(o, w, url, filename);
      var w1 := AfterDownload(w, d);
      if d.path.None? then Outcome(w1, false, None)
      else
        match details(d.path.value)
        case Failure(f) => Outcome(w1, false, Some(f))
        case Success(p) =>
          var s := SavePaper(p);
          var w2 := if s.row.Some? then w1.(rows := w1.rows + [s.row.value]) else w1;
          Outcome(w2, s.fault.None?, s.fault)
  }

  /** `Attempt`, calling `download_pdf` as the method it is. */
  method AttemptCandidate(o: Oracles, w: World, c: Candidate) returns (out: Outcome)
    ensures out == Attempt(o, w, c)
  {
    match c
    case Skipped =>
      return Outcome(w, false, None);
    case Broken(f) =>
      return Outcome(w, false, Some(f));
    case Eligible(url, filename, details) =>
      var k := |w.downloads|;
      var d := DownloadPdf(url, filename, w.files, o.clock(k), o.net(k));
      var world := AfterDownload(w, d);
      if d.path.None? {
        return Outcome(world, false, None);
      }
      var built := details(d.path.value);
      if built.Failure? {
        return Outcome(world, false, Some(built.fault));
      }
      var saved := SavePaper(built.value);
      if saved.row.Some? {
        world := world.(rows := world.rows + [saved.row.value]);
      }
      return Outcome(world, saved.fault.None?, saved.fault);
  }

  /** How the loop over one batch of results ended. */
  datatype BatchEnd = QuotaMet | Exhausted | Raised(fault: Fault)

  datatype Batch = Batch(world: World, count: nat, end: BatchEnd)

  /** The loop over `entries` with `count` papers already processed: stop
      at the quota, before looking at the next entry; stop at the first
      exception. `admit(e, k)` is the candidate that entry `e` makes when
      `k` downloads have been made so far. */
  function RunBatch<E>(o: Oracles, admit: (E, nat) -> Candidate, total: nat,
                       entries: seq<E>, w: World, count: nat): Batch
    decreases |entries|
  {
    if entries == [] then Batch(w, count, Exhausted)
    else if count >= total then Batch(w, count, QuotaMet)
    else
      var out := Attempt(o, w, admit(entries[0], |w.downloads|));
      var next := if out.counted then count + 1 else count;
      if out.fault.Some? then Batch(out.world, next, Raised(out.fault.value))
      else RunBatch(o, admit, total, entries[1..], out.world, next)
  }

  /** The loop itself. */
  method HarvestBatch<E>(o: Oracles, admit: (E, nat) -> Candidate, total: nat,
                         entries: seq<E>, w: World, count: nat) returns (b: Batch)
    ensures b == RunBatch(o, admit, total, entries, w, count)
  {
    var world := w;
    var processed: nat := count;
    var i := 0;
    while i < |entries|
      invariant 0 <= i <= |entries|
      invariant RunBatch(o, admit, total, entries, w, count)
             == RunBatch(o, admit, total, entries[i..], world, processed)
    {
      if processed >= total {
        return Batch(world, processed, QuotaMet);
      }
      var out := AttemptCandidate(o, world, admit(entries[i], |world.downloads|));
      assert entries[i..][1..] == entries[i + 1..];
      if out.counted {
        processed := processed + 1;
      }
      world := out.world;
      if out.fault.Some? {
        return Batch(world, processed, Raised(out.fault.value));
      }
      i := i + 1;
    }
    return Batch(world, processed, Exhausted);
  }

  /** `w2` is `w` with more downloads logged, more rows saved, and exactly
      the files those downloads returned added. */
  predicate Grown(w: World, w2: World) {
    && |w.downloads| <= |w2.downloads| && w2.downloads[..|w.downloads|] == w.downloads
    && |w.rows| <= |w2.rows| && w2.rows[..|w.rows|] == w.rows
    && w2.files == w.files + WrittenPaths(w2.downloads[|w.downloads|..])
  }

  /** Downloads made between `w` and `w2` that returned a path. */
  function NewSuccesses(w: World, w2: World): nat
    requires |w.downloads| <= |w2.downloads|
  {
    Successes(w2.downloads[|w.downloads|..])
  }

  lemma GrownRefl(w: World)
    ensures Grown(w, w) && NewSuccesses(w, w) == 0
  {
    assert w.downloads[|w.downloads|..] == [];
  }

  lemma GrownTrans(w1: World, w2: World, w3: World)
    requires Grown(w1, w2) && Grown(w2, w3)
    ensures Grown(w1, w3)
    ensures NewSuccesses(w1, w3) == NewSuccesses(w1, w2) + NewSuccesses(w2, w3)
  {
    var a := w2.downloads[|w1.downloads|..];
    var b := w3.downloads[|w2.downloads|..];
    assert w3.downloads[|w1.downloads|..] == a + b;
    SuccessesAppend(a, b);
    WrittenPathsAppend(a, b);
  }

  lemma AfterDownloadGrows(w: World, d: Download)
    ensures Grown(w, AfterDownload(w, d))
    ensures NewSuccesses(w, AfterDownload(w, d)) == if d.path.Some? then 1 else 0
    ensures AfterDownload(w, d).rows == w.rows
  {
    var w1 := AfterDownload(w, d);
    assert w1.downloads[|w.downloads|..] == [d];
    assert [d][..0] == [];
    if d.path.Some? {
      assert [d][0].path.value in WrittenPaths([d]);
    }
    assert WrittenPaths([d]) == if d.path.Some? then {d.path.value} else {};
  }

  /** One search result grows the world by at most one download and one
      row; a counted paper has its row and its successful download, and a
      successful download goes uncounted only when an exception follows. */
  lemma AttemptGrows(o: Oracles, w: World, c: Candidate)
    ensures var out := Attempt(o, w, c);
      && Grown(w, out.world)
      && |out.world.rows| <= |w.rows| + 1
      && (out.counted ==> |out.world.rows| == |w.rows| + 1)
      && (if out.counted then 1 else 0) <= NewSuccesses(w, out.world)
      && NewSuccesses(w, out.world) <= (if out.counted || out.fault.Some? then 1 else 0)
  {
    if c.Eligible? {
      var d := DownloadIn(o, w, c.url, c.filename);
      var w1 := AfterDownload(w, d);
      AfterDownloadGrows(w, d);
      var out := Attempt(o, w, c);
      assert out.world.downloads == w1.downloads && out.world.files == w1.files;
      assert out.world.rows[..|w.rows|] == w.rows;
    } else {
      GrownRefl(w);
    }
  }

  /** What one batch does to the world and the count: the count never passes
      the quota and reaches it when the quota stops the loop; downloads,
      files and rows only grow, and the files added are exactly the paths the
      new downloads returned; every counted paper has its own successful
      download and saved row; at most one more download succeeded without
      being counted, and only when an exception ended the loop. */
  lemma {:induction false} BatchAccounting<E>(o: Oracles, admit: (E, nat) -> Candidate, total: nat,
                                              entries: seq<E>, w: World, count: nat)
    requires count <= total
    ensures var b := RunBatch(o, admit, total, entries, w, count);
      && count <= b.count <= total
      && (b.end.QuotaMet? ==> b.count == total)
      && Grown(w, b.world)
      && |b.world.rows| - |w.rows| >= b.count - count
      && b.count - count <= NewSuccesses(w, b.world)
      && NewSuccesses(w, b.world) <= b.count - count + (if b.end.Raised? then 1 else 0)
    decreases |entries|
  {
    if entries == [] || count >= total {
      GrownRefl(w);
    } else {
      var out := Attempt(o, w, admit(entries[0], |w.downloads|));
      var next := if out.counted then count + 1 else count;
      AttemptGrows(o, w, admit(entries[0], |w.downloads|));
      if out.fault.None? {
        BatchAccounting(o, admit, total, entries[1..], out.world, next);
        var b := RunBatch(o, admit, total, entries[1..], out.world, next);
        GrownTrans(w, out.world, b.world);
      }
    }
  }

  lemma WrittenPathsAppend(a: seq<Download>, b: seq<Download>)
    ensures WrittenPaths(a + b) == WrittenPaths(a) + WrittenPaths(b)
  {
    forall p | p in WrittenPaths(a + b) ensures p in WrittenPaths(a) + WrittenPaths(b) {
      var i :| 0 <= i < |a + b| && (a + b)[i].path.Some? && (a + b)[i].path.value == p;
      if i >= |a| {
        assert b[i - |a|] == (a + b)[i];
      } else {
        assert a[i] == (a + b)[i];
      }
    }
    forall p | p in WrittenPaths(a) ensures p in WrittenPaths(a + b) {
      var i :| 0 <= i < |a| && a[i].path.Some? && a[i].path.value == p;
      assert (a + b)[i] == a[i];
    }
    forall p | p in WrittenPaths(b) ensures p in WrittenPaths(a + b) {
      var i :| 0 <= i < |b| && b[i].path.Some? && b[i].path.value == p;
      assert (a + b)[i + |a|] == b[i];
    }
  }

  /** A candidate that is skipped costs nothing: no download, no row. */
  lemma SkippedEntryMakesNoCall<E>(o: Oracles, admit: (E, nat) -> Candidate, total: nat,
                                   entries: seq<E>, w: World, count: nat)
    requires entries != [] && count < total
    requires admit(entries[0], |w.downloads|).Skipped?
    ensures RunBatch(o, admit, total, entries, w, count)
         == RunBatch(o, admit, total, entries[1..], w, count)
  {
  }

  /** A record that cannot be built for a downloaded file ends the loop:
      the download is logged, the paper is not counted and nothing is
      saved. */
  lemma DetailsFaultStops<E>(o: Oracles, admit: (E, nat) -> Candidate, total: nat,
                             entries: seq<E>, w: World, count: nat)
    requires entries != [] && count < total
    requires var c := admit(entries[0], |w.downloads|);
      && c.Eligible?
      && DownloadIn(o, w, c.url, c.filename).path.Some?
      && c.details(DownloadIn(o, w, c.url, c.filename).path.value).Failure?
    ensures var c := admit(entries[0], |w.downloads|);
      var d := DownloadIn(o, w, c.url, c.filename);
      RunBatch(o, admit, total, entries, w, count)
      == Batch(AfterDownload(w, d), count, Raised(c.details(d.path.value).fault))
  {
  }
}
