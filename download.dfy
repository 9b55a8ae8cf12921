/** `download_pdf`: choosing the file to write under `downloads/` and the
    three-attempt fetch with exponential back-off. The network and the clock
    are parameters: `net(k)` is what attempt `k` of this call runs into and
    `now` is what `time.time()` reads if the name collides. */
module Download {
  import opened Text
  import opened Values
  import opened Filenames

  const DownloadsDir: string := "downloads"
  const MaxAttempts: nat := 3
  const FirstDelay: nat := 5
  const SmallFileBytes: nat := 1024

  /** What one `requests` GET runs into. `Responded` carries the final
      status after redirects, the `Content-Type` header (`""` when absent)
      and the number of bytes streamed to the file. */
  datatype Fetch =
    | TimedOut
    | ConnectionFailed
    | Responded(status: int, contentType: string, size: nat)

  /** What the attempt loop does with one fetch. */
  datatype Verdict = Retry | Accept | Reject

  /** `filename.lower().endswith('.pdf')`. */
  predicate IsPdfName(filename: string) {
    EndsWith(Lower(filename), ".pdf")
  }

  /** `raise_for_status()` raises `HTTPError` for 4xx and 5xx answers. */
  predicate IsHttpError(status: int) {
    400 <= status < 600
  }

  const PdfType: string := "application/pdf"
  const OctetStreamType: string := "application/octet-stream"

  /** The body of one attempt: transport failures and HTTP errors are
      retried, a PDF (or an octet stream under a `.pdf` name) is kept, any
      other content type ends the download. */
  function Classify(f: Fetch, filename: string): Verdict {
    if !f.Responded? || IsHttpError(f.status) then Retry
    else
      var contentType := Lower(f.contentType);
      if Contains(contentType, PdfType)
         || (Contains(contentType, OctetStreamType) && IsPdfName(filename))
      then Accept
      else Reject
  }

  /** The file name with `.pdf` appended unless it already ends so. */
  function WithPdfSuffix(filename: string): (r: string)
    ensures IsPdfName(r)
    ensures IsPdfName(filename) ==> r == filename
    ensures !IsPdfName(filename) ==> r == filename + ".pdf"
  {
    if IsPdfName(filename) then filename
    else
      var r := filename + ".pdf";
      assert Lower(r)[|r| - 4..] == ".pdf";
      r
  }

  /** `os.path.join(DOWNLOADS_DIR, sanitize_filename(name))`. */
  function PathFor(name: string): string {
    DownloadsDir + "/" + SanitizeFilename(name)
  }

  /** Index of the last `c` in `s`, or -1 (`str.rfind`). */
  function LastIndex(s: string, c: char): (r: int)
    ensures -1 <= r < |s|
    ensures r >= 0 ==> s[r] == c
    ensures forall i :: r < i < |s| ==> s[i] != c
  {
    if s == [] then -1
    else if s[|s| - 1] == c then |s| - 1
    else LastIndex(s[..|s| - 1], c)
  }

  /** `os.path.splitext(p)` (POSIX): the extension starts at the last dot
      of the last path component, unless that component is dots up to it. */
  function SplitExt(p: string): (r: (string, string))
    ensures r.0 + r.1 == p
    ensures r.1 == [] || (r.1[0] == '.' && forall i :: 1 <= i < |r.1| ==> r.1[i] != '.' && r.1[i] != '/')
  {
    var sep := LastIndex(p, '/');
    var dot := LastIndex(p, '.');
    if dot > sep && exists i :: sep + 1 <= i < dot && p[i] != '.' then
      assert p[..dot] + p[dot..] == p;
      (p[..dot], p[dot..])
    else (p, [])
  }

  /** The name and path the download is written to. */
  datatype Target = Target(filename: string, path: string, renamed: bool)

  /** Lines 57-64: append `.pdf`, and if the sanitised path already exists
      insert `_<seconds>` before the extension, once. The renamed path is
      not checked again. */
  function PrepareTarget(filename: string, existing: set<string>, now: nat): (t: Target)
    ensures t.path == PathFor(t.filename)
    ensures !t.renamed ==> t.filename == WithPdfSuffix(filename)
    ensures t.renamed <==> PathFor(WithPdfSuffix(filename)) in existing
    ensures t.renamed ==>
      var (base, ext) := SplitExt(WithPdfSuffix(filename));
      t.filename == base + "_" + NatToString(now) + ext
  {
    var named := WithPdfSuffix(filename);
    if PathFor(named) !in existing then Target(named, PathFor(named), false)
    else
      var (base, ext) := SplitExt(named);
      var renamed := base + "_" + NatToString(now) + ext;
      Target(renamed, PathFor(renamed), true)
  }

  /** What a call to `download_pdf` amounts to: the path it returns, how
      many GETs it made, the back-off sleeps between them, and whether it
      warned about a file under 1 KiB. */
  datatype Download = Download(path: Option<string>, attempts: nat, backoff: seq<nat>, warnedSmall: bool)

  /** The back-off after failed attempt `k`: 5, 10, 20, ... seconds. */
  function Backoff(k: nat): nat {
    FirstDelay * Pow2(k)
  }

  /** Attempts `attempt`, `attempt + 1`, ... of the loop at lines 69-107. */
  function AttemptsFrom(net: nat -> Fetch, t: Target, attempt: nat): Download
    requires attempt < MaxAttempts
    decreases MaxAttempts - attempt
  {
    var f := net(attempt);
    match Classify(f, t.filename)
    case Accept => Download(Some(t.path), attempt + 1, [], f.size < SmallFileBytes)
    case Reject => Download(None, attempt + 1, [], false)
    case Retry =>
      if attempt + 1 < MaxAttempts then
        var rest := AttemptsFrom(net, t, attempt + 1);
        rest.(backoff := [Backoff(attempt)] + rest.backoff)
      else Download(None, attempt + 1, [], false)
  }

  /** `download_pdf(pdf_url, filename, source)`. */
  function DownloadSpec(url: Option<string>, filename: string, existing: set<string>,
                        now: nat, net: nat -> Fetch): Download
  {
    if !TruthyText(url) then Download(None, 0, [], false)
    else AttemptsFrom(net, PrepareTarget(filename, existing, now), 0)
  }

  /** `d` with the sleeps `slept` taken before it. */
  function AfterSleeps(slept: seq<nat>, d: Download): Download {
    d.(backoff := slept + d.backoff)
  }

  lemma RetryStep(net: nat -> Fetch, t: Target, attempt: nat, slept: seq<nat>)
    requires attempt + 1 < MaxAttempts
    requires Classify(net(attempt), t.filename) == Retry
    ensures AfterSleeps(slept, AttemptsFrom(net, t, attempt))
         == AfterSleeps(slept + [Backoff(attempt)], AttemptsFrom(net, t, attempt + 1))
  {
    var rest := AttemptsFrom(net, t, attempt + 1);
    assert slept + ([Backoff(attempt)] + rest.backoff) == (slept + [Backoff(attempt)]) + rest.backoff;
  }

  /** `download_pdf` as the loop it is. */
  method DownloadPdf(url: Option<string>, filename: string, existing: set<string>,
                     now: nat, net: nat -> Fetch) returns (d: Download)
    ensures d == DownloadSpec(url, filename, existing, now, net)
  {
    if !TruthyText(url) {
      return Download(None, 0, [], false);
    }
    var t := PrepareTarget(filename, existing, now);
    var delay := FirstDelay;
    var slept: seq<nat> := [];
    var attempt := 0;
    while true
      invariant attempt < MaxAttempts
      invariant delay == Backoff(attempt)
      invariant DownloadSpec(url, filename, existing, now, net)
             == AfterSleeps(slept, AttemptsFrom(net, t, attempt))
      decreases MaxAttempts - attempt
    {
      var f := net(attempt);
      var verdict := Classify(f, t.filename);
      if verdict == Accept {
        return Download(Some(t.path), attempt + 1, slept, f.size < SmallFileBytes);
      } else if verdict == Reject {
        return Download(None, attempt + 1, slept, false);
      }
      if attempt < MaxAttempts - 1 {
        RetryStep(net, t, attempt, slept);
        slept := slept + [delay];
        delay := delay * 2;
        attempt := attempt + 1;
      } else {
        return Download(None, attempt + 1, slept, false);
      }
    }
  }

  // ---------------------------------------------------------------------
  // Properties of a download.

  /** The fetch at attempt `k` was accepted after `k` retried ones. */
  predicate AcceptedAt(net: nat -> Fetch, filename: string, k: nat) {
    k < MaxAttempts && Classify(net(k), filename) == Accept
    && forall j :: 0 <= j < k ==> Classify(net(j), filename) == Retry
  }

  /** At most three GETs; one back-off sleep of 5, 10 seconds between
      consecutive ones; a path comes back exactly when some attempt found
      a PDF after only retried failures, and it is the target path. */
  lemma AttemptsShape(net: nat -> Fetch, t: Target, attempt: nat)
    requires attempt < MaxAttempts
    ensures var d := AttemptsFrom(net, t, attempt);
      && attempt < d.attempts <= MaxAttempts
      && |d.backoff| == d.attempts - attempt - 1
      && (forall i :: 0 <= i < |d.backoff| ==> d.backoff[i] == Backoff(attempt + i))
      && (forall j :: attempt <= j < d.attempts - 1 ==> Classify(net(j), t.filename) == Retry)
      && (d.path.Some? <==> Classify(net(d.attempts - 1), t.filename) == Accept)
      && (d.path.Some? ==> d.path.value == t.path)
      && (d.path.None? ==> Classify(net(d.attempts - 1), t.filename) == Reject
                           || (d.attempts == MaxAttempts && Classify(net(d.attempts - 1), t.filename) == Retry))
  {
    AttemptsBackoff(net, t, attempt);
    AttemptsVerdicts(net, t, attempt);
  }

  /** The count of attempts and the sleeps between them. */
  lemma {:induction false} AttemptsBackoff(net: nat -> Fetch, t: Target, attempt: nat)
    requires attempt < MaxAttempts
    ensures var d := AttemptsFrom(net, t, attempt);
      && attempt < d.attempts <= MaxAttempts
      && |d.backoff| == d.attempts - attempt - 1
      && (forall i :: 0 <= i < |d.backoff| ==> d.backoff[i] == Backoff(attempt + i))
    decreases MaxAttempts - attempt
  {
    var d := AttemptsFrom(net, t, attempt);
    if Classify(net(attempt), t.filename) == Retry && attempt + 1 < MaxAttempts {
      var rest := AttemptsFrom(net, t, attempt + 1);
      AttemptsBackoff(net, t, attempt + 1);
      assert d == rest.(backoff := [Backoff(attempt)] + rest.backoff);
      forall i | 0 <= i < |d.backoff| ensures d.backoff[i] == Backoff(attempt + i) {
        if i > 0 {
          assert d.backoff[i] == rest.backoff[i - 1];
        }
      }
    }
  }

  /** What each attempt's answer was: retried ones, then the last one. */
  lemma {:induction false} AttemptsVerdicts(net: nat -> Fetch, t: Target, attempt: nat)
    requires attempt < MaxAttempts
    ensures var d := AttemptsFrom(net, t, attempt);
      && attempt < d.attempts <= MaxAttempts
      && (forall j :: attempt <= j < d.attempts - 1 ==> Classify(net(j), t.filename) == Retry)
      && (d.path.Some? <==> Classify(net(d.attempts - 1), t.filename) == Accept)
      && (d.path.Some? ==> d.path.value == t.path)
      && (d.path.None? ==> Classify(net(d.attempts - 1), t.filename) == Reject
                           || (d.attempts == MaxAttempts && Classify(net(d.attempts - 1), t.filename) == Retry))
    decreases MaxAttempts - attempt
  {
    if Classify(net(attempt), t.filename) == Retry && attempt + 1 < MaxAttempts {
      var rest := AttemptsFrom(net, t, attempt + 1);
      AttemptsVerdicts(net, t, attempt + 1);
      assert AttemptsFrom(net, t, attempt) == rest.(backoff := [Backoff(attempt)] + rest.backoff);
    }
  }

  /** A call without a URL makes no request; with one it makes one to three,
      sleeping 5 and then 10 seconds between them. */
  lemma DownloadAttempts(url: Option<string>, filename: string, existing: set<string>,
                         now: nat, net: nat -> Fetch)
    ensures var d := DownloadSpec(url, filename, existing, now, net);
      && (d.attempts == 0 <==> !TruthyText(url))
      && d.attempts <= MaxAttempts
      && |d.backoff| == (if d.attempts == 0 then 0 else d.attempts - 1)
      && (forall i :: 0 <= i < |d.backoff| ==> d.backoff[i] == Backoff(i))
  {
    if TruthyText(url) {
      AttemptsShape(net, PrepareTarget(filename, existing, now), 0);
    }
  }

  /** The download yields a path exactly when some attempt was accepted
      after only retried ones; the path is the prepared target. */
  lemma DownloadSucceedsIff(url: Option<string>, filename: string, existing: set<string>,
                            now: nat, net: nat -> Fetch)
    ensures var d := DownloadSpec(url, filename, existing, now, net);
      var t := PrepareTarget(filename, existing, now);
      && (d.path.Some? <==> TruthyText(url) && exists k :: AcceptedAt(net, t.filename, k))
      && (d.path.Some? ==> d.path.value == t.path)
  {
    var d := DownloadSpec(url, filename, existing, now, net);
    var t := PrepareTarget(filename, existing, now);
    if TruthyText(url) {
      AttemptsShape(net, t, 0);
      if d.path.Some? {
        assert AcceptedAt(net, t.filename, d.attempts - 1);
      } else {
        forall k: nat ensures !AcceptedAt(net, t.filename, k) {
          NeverAccepted(net, t, k);
        }
      }
    }
  }

  /** A download that came back without a path had no accepted attempt. */
  lemma NeverAccepted(net: nat -> Fetch, t: Target, k: nat)
    requires AttemptsFrom(net, t, 0).path.None?
    ensures !AcceptedAt(net, t.filename, k)
  {
    var d := AttemptsFrom(net, t, 0);
    AttemptsVerdicts(net, t, 0);
    var last := d.attempts - 1;
    if k < last {
      assert Classify(net(k), t.filename) == Retry;
    } else if last < k && Classify(net(last), t.filename) == Retry {
      assert d.attempts == MaxAttempts;
    }
  }

  /** Three failed transports give up with nothing after sleeping 5 and 10
      seconds; a fourth answer is never asked for. */
  lemma ThreeFailuresGiveUp(url: Option<string>, filename: string, existing: set<string>,
                            now: nat, net: nat -> Fetch)
    requires TruthyText(url)
    requires net(0).TimedOut? || net(0).ConnectionFailed?
    requires net(1).TimedOut? || net(1).ConnectionFailed?
    requires net(2).TimedOut? || net(2).ConnectionFailed?
    ensures DownloadSpec(url, filename, existing, now, net) == Download(None, 3, [5, 10], false)
  {
    var t := PrepareTarget(filename, existing, now);
    assert Classify(net(2), t.filename) == Retry;
    var third := AttemptsFrom(net, t, 2);
    assert third == Download(None, 3, [], false);
    assert Classify(net(1), t.filename) == Retry;
    var second := AttemptsFrom(net, t, 1);
    assert Backoff(1) == 10 by { assert Pow2(1) == 2; }
    assert second == third.(backoff := [10]);
    assert Classify(net(0), t.filename) == Retry;
    assert Backoff(0) == 5;
    assert AttemptsFrom(net, t, 0) == second.(backoff := [5, 10]);
  }

  /** An answer that is neither a PDF nor an octet stream ends the download
      at once: it is not retried. */
  lemma NotPdfStops(url: Option<string>, filename: string, existing: set<string>,
                    now: nat, net: nat -> Fetch)
    requires TruthyText(url)
    requires net(0).Responded? && !IsHttpError(net(0).status)
    requires !Contains(Lower(net(0).contentType), PdfType)
    requires !Contains(Lower(net(0).contentType), OctetStreamType)
    ensures DownloadSpec(url, filename, existing, now, net) == Download(None, 1, [], false)
  {
  }

  /** Every file is written directly inside `downloads/`, under a name of at
      most 150 characters free of the characters that sanitising removes. */
  lemma DownloadStaysInDirectory(url: Option<string>, filename: string, existing: set<string>,
                                 now: nat, net: nat -> Fetch)
    ensures var d := DownloadSpec(url, filename, existing, now, net);
      d.path.Some? ==>
        && StartsWith(d.path.value, "downloads/")
        && |d.path.value| <= |"downloads/"| + MaxFileNameLength
        && forall i :: |"downloads/"| <= i < |d.path.value| ==> !Unsafe(d.path.value[i])
  {
    DownloadSucceedsIff(url, filename, existing, now, net);
  }

  /** A name whose sanitised path is free is used as it is. */
  lemma FreshNameKept(filename: string, existing: set<string>, now: nat)
    requires PathFor(WithPdfSuffix(filename)) !in existing
    ensures PrepareTarget(filename, existing, now).path == PathFor(WithPdfSuffix(filename))
    ensures PrepareTarget(filename, existing, now).path !in existing
  {
  }

  lemma SanitizeSharedPrefix(a: string, b: string)
    requires |a| >= MaxFileNameLength && |b| >= MaxFileNameLength
    requires a[..MaxFileNameLength] == b[..MaxFileNameLength]
    ensures SanitizeFilename(a) == SanitizeFilename(b)
  {
    assert forall i :: 0 <= i < MaxFileNameLength ==> a[i] == a[..MaxFileNameLength][i];
    assert forall i :: 0 <= i < MaxFileNameLength ==> b[i] == b[..MaxFileNameLength][i];
  }

  /** The collision rename does not protect long names: when the part
      before the extension already fills the 150 characters kept by
      sanitising, the timestamp is cut off, the renamed path is the
      existing one, and the download overwrites that file. */
  lemma LongNameOverwrites(filename: string, existing: set<string>, now: nat)
    requires PathFor(WithPdfSuffix(filename)) in existing
    requires |SplitExt(WithPdfSuffix(filename)).0| >= MaxFileNameLength
    ensures PrepareTarget(filename, existing, now).renamed
    ensures PrepareTarget(filename, existing, now).path in existing
  {
    var named := WithPdfSuffix(filename);
    var (base, ext) := SplitExt(named);
    var renamed := base + "_" + NatToString(now) + ext;
    assert renamed[..MaxFileNameLength] == base[..MaxFileNameLength];
    assert named[..MaxFileNameLength] == base[..MaxFileNameLength];
    SanitizeSharedPrefix(renamed, named);
  }

  /** When the renamed name still fits in the 150 characters kept by
      sanitising, the timestamp survives and the download goes to a path
      other than the one that collided. */
  lemma ShortNameAvoidsCollision(filename: string, existing: set<string>, now: nat)
    requires PathFor(WithPdfSuffix(filename)) in existing
    requires |WithPdfSuffix(filename)| + 1 + |NatToString(now)| <= MaxFileNameLength
    ensures PrepareTarget(filename, existing, now).renamed
    ensures PrepareTarget(filename, existing, now).path != PathFor(WithPdfSuffix(filename))
  {
    var named := WithPdfSuffix(filename);
    var t := PrepareTarget(filename, existing, now);
    assert |t.filename| == |named| + 1 + |NatToString(now)|;
    assert |SanitizeFilename(t.filename)| != |SanitizeFilename(named)|;
    assert |t.path| != |PathFor(named)|;
  }

  lemma PdfNameKeptUnderPrefix(prefix: string, name: string)
    requires IsPdfName(name)
    ensures IsPdfName(prefix + name[|name| - 4..])
  {
    var r := prefix + name[|name| - 4..];
    forall k | 0 <= k < 4 ensures Lower(r)[|r| - 4 + k] == ".pdf"[k] {
      assert r[|r| - 4 + k] == name[|name| - 4 + k];
      assert Lower(name)[|name| - 4 + k] == Lower(name)[|name| - 4..][k];
    }
  }

  /** The character positions of the `.pdf` ending of a PDF name. */
  lemma PdfNameEnding(named: string)
    requires IsPdfName(named)
    ensures |named| >= 4
    ensures named[|named| - 4] == '.'
    ensures named[|named| - 3] != '.' && named[|named| - 2] != '.' && named[|named| - 1] != '.'
    ensures named[|named| - 3] != '/' && named[|named| - 2] != '/' && named[|named| - 1] != '/'
  {
    var n := |named|;
    var low := Lower(named);
    assert low[n - 4] == low[n - 4..][0] == '.';
    assert low[n - 3] == low[n - 4..][1] == 'p';
    assert low[n - 2] == low[n - 4..][2] == 'd';
    assert low[n - 1] == low[n - 4..][3] == 'f';
  }

  lemma LastDotOfPdfName(named: string)
    requires IsPdfName(named)
    ensures LastIndex(named, '.') == |named| - 4
  {
    PdfNameEnding(named);
    var n := |named|;
    var a := named[..n - 1];
    var b := a[..n - 2];
    var c := b[..n - 3];
    assert LastIndex(named, '.') == LastIndex(a, '.');
    assert LastIndex(a, '.') == LastIndex(b, '.');
    assert LastIndex(b, '.') == LastIndex(c, '.');
    assert c[n - 4] == '.';
  }

  /** A plain PDF name with something other than dots before the suffix
      splits into its stem and `.pdf`. */
  lemma SplitExtOfPdfName(named: string)
    requires IsPdfName(named) && '/' !in named
    requires exists i :: 0 <= i < |named| - 4 && named[i] != '.'
    ensures SplitExt(named) == (named[..|named| - 4], named[|named| - 4..])
  {
    LastDotOfPdfName(named);
    assert LastIndex(named, '/') == -1;
  }

  /** Whether renamed or not, a plain file name with something other than
      dots before its `.pdf` ending keeps that ending. */
  lemma TargetKeepsPdfName(filename: string, existing: set<string>, now: nat)
    requires '/' !in filename
    requires exists i :: 0 <= i < |WithPdfSuffix(filename)| - 4 && WithPdfSuffix(filename)[i] != '.'
    ensures IsPdfName(PrepareTarget(filename, existing, now).filename)
    ensures var named := WithPdfSuffix(filename);
      PrepareTarget(filename, existing, now).renamed ==>
        PrepareTarget(filename, existing, now).filename
          == named[..|named| - 4] + "_" + NatToString(now) + named[|named| - 4..]
  {
    var named := WithPdfSuffix(filename);
    if PathFor(named) in existing {
      assert '/' !in named by {
        if !IsPdfName(filename) {
          assert named == filename + ".pdf";
        }
      }
      SplitExtOfPdfName(named);
      var prefix := named[..|named| - 4] + "_" + NatToString(now);
      PdfNameKeptUnderPrefix(prefix, named);
      assert PrepareTarget(filename, existing, now).filename == prefix + named[|named| - 4..];
    }
  }

  /** So an `application/octet-stream` answer to such a name is accepted
      like a PDF. */
  lemma OctetStreamAccepted(filename: string, existing: set<string>, now: nat, f: Fetch)
    requires '/' !in filename
    requires exists i :: 0 <= i < |WithPdfSuffix(filename)| - 4 && WithPdfSuffix(filename)[i] != '.'
    requires f.Responded? && !IsHttpError(f.status)
    requires Contains(Lower(f.contentType), OctetStreamType)
    ensures Classify(f, PrepareTarget(filename, existing, now).filename) == Accept
  {
    TargetKeepsPdfName(filename, existing, now);
  }
}
