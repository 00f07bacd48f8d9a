/**
 * `DownloadWorker` of wis2downloader/downloader: the per-job gate sequence
 * of `process_job` (date partition, link choice, filename, directory,
 * deduplication, transfer, hash verification, write) and the `start`
 * loop that takes jobs off the queue until the shutdown sentinel.
 *
 * The clock, the HTTP GET and the digest functions are parameters: the
 * date of each job, the response body of each request (None when the
 * request raises) and a function from algorithm and data to digest.
 */
module Downloader {
  import opened Wrappers
  import PosixPath
  import Base64
  import UrlSplit
  import Storage
  import Jobs
  import JobQueue

  type Bytes = seq<Base64.byte>
  type Path = PosixPath.Path

  // ---------------------------------------------------------------------
  // get_todays_date
  // ---------------------------------------------------------------------

  datatype Date = Date(year: int, month: int, day: int)

  /** The dates Python's `datetime` can hold. */
  type CalendarDate = d: Date | 1 <= d.year <= 9999 && 1 <= d.month <= 12 && 1 <= d.day <= 31
    witness Date(1, 1, 1)

  function Pow10(n: nat): (p: nat)
    ensures p >= 1
  {
    if n == 0 then 1 else 10 * Pow10(n - 1)
  }

  predicate IsDigit(c: char)
  {
    '0' <= c <= '9'
  }

  function DigitChar(d: nat): (c: char)
    requires d < 10
    ensures IsDigit(c)
  {
    ('0' as int + d) as char
  }

  /** The number a string of decimal digits denotes. */
  function DecimalValue(s: string): nat
    requires forall i :: 0 <= i < |s| ==> IsDigit(s[i])
  {
    if s == [] then 0
    else
      var last := s[|s| - 1];
      assert IsDigit(last);
      10 * DecimalValue(s[..|s| - 1]) + (last as int - '0' as int)
  }

  /** `f"{n:0<width>}"` for a number with at most `width` digits. */
  function ZeroPad(n: nat, width: nat): (s: string)
    requires n < Pow10(width)
    ensures |s| == width
    ensures forall i :: 0 <= i < |s| ==> IsDigit(s[i])
  {
    if width == 0 then []
    else ZeroPad(n / 10, width - 1) + [DigitChar(n % 10)]
  }

  /** Reading the padded digits back gives the number. */
  lemma {:induction false} ZeroPadValue(n: nat, width: nat)
    requires n < Pow10(width)
    ensures DecimalValue(ZeroPad(n, width)) == n
  {
    if width > 0 {
      var s := ZeroPad(n, width);
      ZeroPadValue(n / 10, width - 1);
      assert s[..|s| - 1] == ZeroPad(n / 10, width - 1);
    }
  }

  /** `get_todays_date`: year, month and day as 4, 2 and 2 digits. */
  function TodaysDate(d: CalendarDate): (string, string, string)
  {
    (ZeroPad(d.year, 4), ZeroPad(d.month, 2), ZeroPad(d.day, 2))
  }

  /** The date strings have the fixed widths and read back as the date. */
  lemma TodaysDateDigits(d: CalendarDate)
    ensures var (y, m, dd) := TodaysDate(d);
            && |y| == 4 && |m| == 2 && |dd| == 2
            && (forall i :: 0 <= i < 4 ==> IsDigit(y[i]))
            && (forall i :: 0 <= i < 2 ==> IsDigit(m[i]) && IsDigit(dd[i]))
            && DecimalValue(y) == d.year && DecimalValue(m) == d.month && DecimalValue(dd) == d.day
  {
    ZeroPadValue(d.year, 4);
    ZeroPadValue(d.month, 2);
    ZeroPadValue(d.day, 2);
  }

  // ---------------------------------------------------------------------
  // get_hash_info and validate_hash
  // ---------------------------------------------------------------------

  /** The digest constructors `hashlib` always provides. */
  datatype HashAlgorithm =
    | Md5 | Sha1 | Sha224 | Sha256 | Sha384 | Sha512
    | Sha3_224 | Sha3_256 | Sha3_384 | Sha3_512 | Blake2b | Blake2s

  /**
   * What `getattr(hashlib, method, None)` yields: a digest constructor, or
   * another public attribute that raises when used as one (the variable
   * length `shake_*`, `new`, `file_digest`, the key-derivation functions
   * and the name sets).
   */
  datatype HashFunction = Digest(alg: HashAlgorithm) | NotADigest

  function AlgorithmName(a: HashAlgorithm): string
  {
    match a
    case Md5 => "md5"
    case Sha1 => "sha1"
    case Sha224 => "sha224"
    case Sha256 => "sha256"
    case Sha384 => "sha384"
    case Sha512 => "sha512"
    case Sha3_224 => "sha3_224"
    case Sha3_256 => "sha3_256"
    case Sha3_384 => "sha3_384"
    case Sha3_512 => "sha3_512"
    case Blake2b => "blake2b"
    case Blake2s => "blake2s"
  }

  const OtherHashlibNames: set<string> :=
    {"shake_128", "shake_256", "new", "file_digest", "pbkdf2_hmac", "scrypt",
     "algorithms_available", "algorithms_guaranteed"}

  /** `getattr(hashlib, name, None)`. */
  function HashFunctionByName(name: string): Option<HashFunction>
  {
    match name
    case "md5" => Some(Digest(Md5))
    case "sha1" => Some(Digest(Sha1))
    case "sha224" => Some(Digest(Sha224))
    case "sha256" => Some(Digest(Sha256))
    case "sha384" => Some(Digest(Sha384))
    case "sha512" => Some(Digest(Sha512))
    case "sha3_224" => Some(Digest(Sha3_224))
    case "sha3_256" => Some(Digest(Sha3_256))
    case "sha3_384" => Some(Digest(Sha3_384))
    case "sha3_512" => Some(Digest(Sha3_512))
    case "blake2b" => Some(Digest(Blake2b))
    case "blake2s" => Some(Digest(Blake2s))
    case _ => if name in OtherHashlibNames then Some(NotADigest) else None
  }

  /** Each algorithm is found under its own name, and only there. */
  lemma HashFunctionByNameSound(name: string, a: HashAlgorithm)
    ensures HashFunctionByName(AlgorithmName(a)) == Some(Digest(a))
    ensures HashFunctionByName(name) == Some(Digest(a)) <==> name == AlgorithmName(a)
  {
  }

  /** `get_hash_info`: the expected hash and, for a known method, its function. */
  function HashInfo(payload: Jobs.Notification): (Option<string>, Option<HashFunction>)
  {
    (payload.integrityHash,
     match payload.integrityMethod
     case None => None
     case Some(m) => HashFunctionByName(m))
  }

  /** The outcome of `validate_hash`, or the exception it raises. */
  datatype Verdict = Accept | Reject | Raises

  /** `validate_hash`: accepts unless both hash and function are present and disagree. */
  function ValidateHash(data: Bytes, expected: Option<string>, fn: Option<HashFunction>,
                        digest: (HashAlgorithm, Bytes) -> Bytes): Verdict
  {
    if expected.None? || fn.None? then Accept
    else match fn.value
      case NotADigest => Raises
      case Digest(a) => if Base64.Encode(digest(a, data)) == expected.value then Accept else Reject
  }

  /**
   * When both a hash and a digest algorithm are given, data is accepted
   * exactly when the hash decodes to its digest; data that matches is
   * always accepted.
   */
  lemma ValidateHashDecodes(data: Bytes, expected: string, a: HashAlgorithm,
                            digest: (HashAlgorithm, Bytes) -> Bytes)
    ensures (ValidateHash(data, Some(expected), Some(Digest(a)), digest) == Accept)
              <==> (Base64.Decode(expected) == Some(digest(a, data)) && Base64.Encode(digest(a, data)) == expected)
    ensures ValidateHash(data, Some(Base64.Encode(digest(a, data))), Some(Digest(a)), digest) == Accept
  {
    Base64.DecodeEncode(digest(a, data));
  }

  /** Two payloads accepted against the same hash have the same digest. */
  lemma ValidateHashSameDigest(d1: Bytes, d2: Bytes, expected: string, a: HashAlgorithm,
                               digest: (HashAlgorithm, Bytes) -> Bytes)
    requires ValidateHash(d1, Some(expected), Some(Digest(a)), digest) == Accept
    requires ValidateHash(d2, Some(expected), Some(Digest(a)), digest) == Accept
    ensures digest(a, d1) == digest(a, d2)
  {
    Base64.EncodeInjective(digest(a, d1), digest(a, d2));
  }

  /** A missing hash, a missing method or an unknown method accepts every payload. */
  lemma ValidateHashUnchecked(data: Bytes, payload: Jobs.Notification, digest: (HashAlgorithm, Bytes) -> Bytes)
    requires payload.integrityHash.None? || payload.integrityMethod.None?
             || HashFunctionByName(payload.integrityMethod.value).None?
    ensures ValidateHash(data, HashInfo(payload).0, HashInfo(payload).1, digest) == Accept
  {
  }

  // ---------------------------------------------------------------------
  // get_download_link and extract_filename
  // ---------------------------------------------------------------------

  predicate Eligible(l: Jobs.Link)
  {
    l.rel == Some("update") || l.rel == Some("canonical")
  }

  /** `get_download_link`: the href of the first update or canonical link, and whether it is an update. */
  function DownloadLink(links: seq<Jobs.Link>): (r: (Option<string>, bool))
    ensures r.1 ==> exists i :: 0 <= i < |links| && links[i].rel == Some("update")
  {
    if links == [] then (None, false)
    else if links[0].rel == Some("update") then (links[0].href, true)
    else if links[0].rel == Some("canonical") then (links[0].href, false)
    else
      var r := DownloadLink(links[1..]);
      assert r.1 ==> exists i :: 1 <= i < |links| && links[i].rel == Some("update") by {
        if r.1 {
          var i :| 0 <= i < |links[1..]| && links[1..][i].rel == Some("update");
          assert links[i + 1].rel == Some("update");
        }
      }
      r
  }

  /**
   * The first eligible link decides: its href, and `update` exactly when
   * its rel is "update" (so a canonical link listed first wins).
   */
  lemma {:induction false} DownloadLinkFirstEligible(links: seq<Jobs.Link>, i: nat)
    requires i < |links| && Eligible(links[i])
    requires forall j :: 0 <= j < i ==> !Eligible(links[j])
    ensures DownloadLink(links) == (links[i].href, links[i].rel == Some("update"))
  {
    if i > 0 {
      assert !Eligible(links[0]);
      DownloadLinkFirstEligible(links[1..], i - 1);
    }
  }

  /** With no update or canonical link there is no URL and no update. */
  lemma {:induction false} DownloadLinkNone(links: seq<Jobs.Link>)
    requires forall j :: 0 <= j < |links| ==> !Eligible(links[j])
    ensures DownloadLink(links) == (None, false)
  {
    if links != [] {
      assert !Eligible(links[0]);
      DownloadLinkNone(links[1..]);
    }
  }

  // ---------------------------------------------------------------------
  // process_job
  // ---------------------------------------------------------------------

  /** `basepath / yyyy / mm / dd / target`. */
  function OutputDir(basepath: Path, today: CalendarDate, target: string): Path
  {
    var (y, m, d) := TodaysDate(today);
    PosixPath.JoinOne(PosixPath.JoinOne(PosixPath.JoinOne(PosixPath.JoinOne(basepath, y), m), d), target)
  }

  /** How `process_job` ended. */
  datatype Outcome =
    | NoFilename          // no usable link: nothing happens
    | Skipped             // the file exists and the link is not an update
    | TransferFailed      // the request raised
    | VerificationFailed  // the hash did not match
    | WriteFailed         // write_bytes raised, caught and logged
    | Saved               // the response body was written
    | Crashed             // an exception escaped process_job

  datatype JobEffect = JobEffect(outcome: Outcome, fs: Storage.FsState)

  /** Where a job's file goes: no link, a URL `urlsplit` rejects, or a path. */
  datatype Destination = NoLink | BadUrl | File(path: Path)

  /** `output_dir / filename` for the link `get_download_link` chose. */
  function JobDestination(basepath: Path, today: CalendarDate, job: Jobs.Job): Destination
    requires job.Download?
  {
    match UrlSplit.ExtractFilename(DownloadLink(job.payload.links).0)
    case None => NoLink
    case Some(InvalidUrl) => BadUrl
    case Some(UrlPath(name)) => File(PosixPath.JoinOne(OutputDir(basepath, today, job.target), name))
  }

  /**
   * The gates after the filename is known: create the parent directory,
   * skip an existing file unless the link is an update, fetch, verify,
   * write.
   */
  function SaveSpec(st: Storage.FsState, target: Path, update: bool, response: Option<Bytes>,
                    expected: Option<string>, fn: Option<HashFunction>,
                    digest: (HashAlgorithm, Bytes) -> Bytes): JobEffect
  {
    match Storage.MkdirResult(st, PosixPath.Parent(target))
    case None => JobEffect(Crashed, st)
    case Some(st1) =>
      if Storage.IsFile(st1, target) && !update then JobEffect(Skipped, st1)
      else match response
        case None => JobEffect(TransferFailed, st1)
        case Some(data) =>
          match ValidateHash(data, expected, fn, digest)
          case Raises => JobEffect(Crashed, st1)
          case Reject => JobEffect(VerificationFailed, st1)
          case Accept =>
            JobEffect(if Storage.Writable(st1, target) then Saved else WriteFailed,
                      Storage.WriteResult(st1, target, data))
  }

  /**
   * `process_job` on a filesystem state, with the date of the job, the
   * body the request would return (None when it raises) and the digests.
   */
  function ProcessJobSpec(st: Storage.FsState, basepath: Path, today: CalendarDate, job: Jobs.Job,
                          response: Option<Bytes>, digest: (HashAlgorithm, Bytes) -> Bytes): JobEffect
    requires job.Download?
  {
    match JobDestination(basepath, today, job)
    case NoLink => JobEffect(NoFilename, st)
    case BadUrl => JobEffect(Crashed, st)
    case File(target) =>
      SaveSpec(st, target, DownloadLink(job.payload.links).1, response,
               HashInfo(job.payload).0, HashInfo(job.payload).1, digest)
  }

  /** Without an update or canonical link with an href, nothing is created and no request is made. */
  lemma NoLinkNoEffect(st: Storage.FsState, basepath: Path, today: CalendarDate, job: Jobs.Job,
                       response: Option<Bytes>, digest: (HashAlgorithm, Bytes) -> Bytes)
    requires job.Download? && DownloadLink(job.payload.links).0.None?
    ensures ProcessJobSpec(st, basepath, today, job, response, digest) == JobEffect(NoFilename, st)
  {
  }

  lemma SaveFiles(st: Storage.FsState, target: Path, update: bool, response: Option<Bytes>,
                  expected: Option<string>, fn: Option<HashFunction>, digest: (HashAlgorithm, Bytes) -> Bytes)
    ensures var e := SaveSpec(st, target, update, response, expected, fn, digest);
            && (e.outcome != Saved ==> e.fs.files == st.files)
            && (e.outcome == Saved ==>
                  response.Some? && ValidateHash(response.value, expected, fn, digest) == Accept &&
                  e.fs.files == st.files[target := response.value])
            && st.dirs <= e.fs.dirs
  {
  }

  /**
   * Only a saved job changes a file, and then only its target, which holds
   * exactly the response body that passed verification; every other
   * outcome leaves every file as it was.
   */
  lemma ProcessJobFiles(st: Storage.FsState, basepath: Path, today: CalendarDate, job: Jobs.Job,
                        response: Option<Bytes>, digest: (HashAlgorithm, Bytes) -> Bytes)
    requires job.Download?
    ensures var e := ProcessJobSpec(st, basepath, today, job, response, digest);
            && (e.outcome != Saved ==> e.fs.files == st.files)
            && (e.outcome == Saved ==>
                  && JobDestination(basepath, today, job).File?
                  && response.Some?
                  && ValidateHash(response.value, HashInfo(job.payload).0, HashInfo(job.payload).1, digest) == Accept
                  && e.fs.files == st.files[JobDestination(basepath, today, job).path := response.value])
            && st.dirs <= e.fs.dirs
  {
    var d := JobDestination(basepath, today, job);
    if d.File? {
      SaveFiles(st, d.path, DownloadLink(job.payload.links).1, response,
                HashInfo(job.payload).0, HashInfo(job.payload).1, digest);
    }
  }

  lemma SaveSkip(st: Storage.FsState, target: Path, r1: Option<Bytes>, r2: Option<Bytes>,
                 expected: Option<string>, fn: Option<HashFunction>, digest: (HashAlgorithm, Bytes) -> Bytes)
    requires Storage.IsFile(st, target)
    ensures var e := SaveSpec(st, target, false, r1, expected, fn, digest);
            && (e.outcome == Skipped || e.outcome == Crashed)
            && e == SaveSpec(st, target, false, r2, expected, fn, digest)
            && e.fs.files == st.files
  {
  }

  /**
   * A job whose target file already exists and whose link is not an update
   * is skipped before any request: the outcome does not depend on the
   * response, and no file changes.
   */
  lemma DedupSkip(st: Storage.FsState, basepath: Path, today: CalendarDate, job: Jobs.Job,
                  r1: Option<Bytes>, r2: Option<Bytes>, digest: (HashAlgorithm, Bytes) -> Bytes)
    requires job.Download? && JobDestination(basepath, today, job).File?
    requires Storage.IsFile(st, JobDestination(basepath, today, job).path)
    requires !DownloadLink(job.payload.links).1
    ensures var e := ProcessJobSpec(st, basepath, today, job, r1, digest);
            && (e.outcome == Skipped || e.outcome == Crashed)
            && e == ProcessJobSpec(st, basepath, today, job, r2, digest)
            && e.fs.files == st.files
  {
    SaveSkip(st, JobDestination(basepath, today, job).path, r1, r2,
             HashInfo(job.payload).0, HashInfo(job.payload).1, digest);
  }

  lemma SaveUpdate(st: Storage.FsState, target: Path, data: Bytes,
                   expected: Option<string>, fn: Option<HashFunction>, digest: (HashAlgorithm, Bytes) -> Bytes)
    requires Storage.IsFile(st, target) && Storage.Consistent(st)
    requires ValidateHash(data, expected, fn, digest) == Accept
    ensures var e := SaveSpec(st, target, true, Some(data), expected, fn, digest);
            (e.outcome == Saved || e.outcome == Crashed) &&
            (e.outcome == Saved ==> e.fs.files == st.files[target := data])
  {
    var m := Storage.MkdirResult(st, PosixPath.Parent(target));
    if m.Some? {
      ParentAncestryExcludes(target);
      assert target !in m.value.dirs;
    }
  }

  /**
   * An update link is fetched even when the file exists: an accepted
   * response replaces the file.
   */
  lemma UpdateOverwrites(st: Storage.FsState, basepath: Path, today: CalendarDate, job: Jobs.Job,
                         data: Bytes, digest: (HashAlgorithm, Bytes) -> Bytes)
    requires job.Download? && JobDestination(basepath, today, job).File?
    requires Storage.IsFile(st, JobDestination(basepath, today, job).path)
    requires Storage.Consistent(st)
    requires DownloadLink(job.payload.links).1
    requires ValidateHash(data, HashInfo(job.payload).0, HashInfo(job.payload).1, digest) == Accept
    ensures var e := ProcessJobSpec(st, basepath, today, job, Some(data), digest);
            (e.outcome == Saved || e.outcome == Crashed) &&
            (e.outcome == Saved ==> e.fs.files == st.files[JobDestination(basepath, today, job).path := data])
  {
    SaveUpdate(st, JobDestination(basepath, today, job).path, data,
               HashInfo(job.payload).0, HashInfo(job.payload).1, digest);
  }

  lemma SaveRepeated(st: Storage.FsState, target: Path, r1: Option<Bytes>, r2: Option<Bytes>,
                     expected: Option<string>, fn: Option<HashFunction>, digest: (HashAlgorithm, Bytes) -> Bytes)
    requires SaveSpec(st, target, false, r1, expected, fn, digest).outcome == Saved
    ensures var st1 := SaveSpec(st, target, false, r1, expected, fn, digest).fs;
            SaveSpec(st1, target, false, r2, expected, fn, digest) == JobEffect(Skipped, st1)
  {
    var parent := PosixPath.Parent(target);
    var m := Storage.MkdirResult(st, parent).value;
    var st1 := SaveSpec(st, target, false, r1, expected, fn, digest).fs;
    assert Storage.Writable(m, target);
    assert st1 == Storage.FsState(m.files[target := r1.value], m.dirs);
    ParentAncestryExcludes(target);
    Storage.MakeDirsIdempotent(st, parent);
    assert Storage.MkdirResult(st1, parent) == Some(st1);
  }

  /**
   * Deduplication makes a repeated job harmless: once a non-update job has
   * saved its file, the same job on the same day is skipped and changes
   * nothing, whatever the new response would be.
   */
  lemma RepeatedJobSkipped(st: Storage.FsState, basepath: Path, today: CalendarDate, job: Jobs.Job,
                           r1: Option<Bytes>, r2: Option<Bytes>, digest: (HashAlgorithm, Bytes) -> Bytes)
    requires job.Download? && !DownloadLink(job.payload.links).1
    requires ProcessJobSpec(st, basepath, today, job, r1, digest).outcome == Saved
    ensures var st1 := ProcessJobSpec(st, basepath, today, job, r1, digest).fs;
            ProcessJobSpec(st1, basepath, today, job, r2, digest) == JobEffect(Skipped, st1)
  {
    SaveRepeated(st, JobDestination(basepath, today, job).path, r1, r2,
                 HashInfo(job.payload).0, HashInfo(job.payload).1, digest);
  }

  /** The ancestry of a path's parent never contains the path. */
  lemma ParentAncestryExcludes(p: Path)
    ensures p.parts != [] ==> p !in Storage.Ancestry(PosixPath.Parent(p))
  {
  }

  lemma SaveConsistent(st: Storage.FsState, target: Path, update: bool, response: Option<Bytes>,
                       expected: Option<string>, fn: Option<HashFunction>, digest: (HashAlgorithm, Bytes) -> Bytes)
    requires Storage.Consistent(st)
    ensures Storage.Consistent(SaveSpec(st, target, update, response, expected, fn, digest).fs)
  {
    Storage.MakeDirsConsistent(st, PosixPath.Parent(target));
    var m := Storage.MkdirResult(st, PosixPath.Parent(target));
    if m.Some? && response.Some? {
      Storage.WriteBytesConsistent(m.value, target, response.value);
    }
  }

  /** The filesystem stays consistent whatever a job does. */
  lemma ProcessJobConsistent(st: Storage.FsState, basepath: Path, today: CalendarDate, job: Jobs.Job,
                             response: Option<Bytes>, digest: (HashAlgorithm, Bytes) -> Bytes)
    requires job.Download? && Storage.Consistent(st)
    ensures Storage.Consistent(ProcessJobSpec(st, basepath, today, job, response, digest).fs)
  {
    var d := JobDestination(basepath, today, job);
    if d.File? {
      SaveConsistent(st, d.path, DownloadLink(job.payload.links).1, response,
                     HashInfo(job.payload).0, HashInfo(job.payload).1, digest);
    }
  }

  // ---------------------------------------------------------------------
  // start
  // ---------------------------------------------------------------------

  /** The outside world the worker loop depends on, indexed by job number. */
  datatype Oracles = Oracles(
    clock: nat -> CalendarDate,
    responses: nat -> Option<Bytes>,
    stopFlag: nat -> bool,
    digest: (HashAlgorithm, Bytes) -> Bytes)

  /** How the loop ended; `Blocked` is a worker waiting forever on the empty queue. */
  datatype RunEnd = FlagSet | SentinelSeen | WorkerCrashed | Blocked

  /** How the loop ended, how many jobs it completed, and the filesystem it left. */
  datatype RunResult = RunResult(end: RunEnd, completed: nat, fs: Storage.FsState)

  /** The loop stops by iteration `i` or later: the flag is seen set, or a sentinel is reached. */
  predicate StopsFrom(items: seq<Jobs.Job>, i: nat, env: Oracles)
  {
    exists n :: i <= n <= |items| && (env.stopFlag(n) || (n < |items| && items[n].ShutdownSentinel?))
  }

  lemma StopsFromNext(items: seq<Jobs.Job>, i: nat, env: Oracles)
    requires StopsFrom(items, i, env)
    ensures !env.stopFlag(i) ==> i < |items|
    ensures !env.stopFlag(i) && i < |items| && !items[i].ShutdownSentinel? ==> StopsFrom(items, i + 1, env)
  {
    var n :| i <= n <= |items| && (env.stopFlag(n) || (n < |items| && items[n].ShutdownSentinel?));
  }

  /**
   * The `start` loop from iteration `i` on, over the jobs that were queued:
   * the flag is tested, then a job is taken (the wait never ends once the
   * queued jobs are used up), then it is processed.
   */
  function Run(items: seq<Jobs.Job>, i: nat, st: Storage.FsState, basepath: Path, env: Oracles): (r: RunResult)
    requires i <= |items|
    ensures i <= r.completed <= |items|
    ensures r.end == FlagSet ==> env.stopFlag(r.completed)
    ensures r.end == Blocked ==> r.completed == |items| && !env.stopFlag(r.completed)
    ensures r.end == SentinelSeen ==> r.completed < |items| && items[r.completed].ShutdownSentinel?
    ensures r.end == WorkerCrashed ==> r.completed < |items| && items[r.completed].Download?
    ensures forall j :: i <= j < r.completed ==> items[j].Download? && !env.stopFlag(j)
    decreases |items| - i, 1
  {
    if env.stopFlag(i) then RunResult(FlagSet, i, st)
    else if i == |items| then RunResult(Blocked, i, st)
    else if items[i].ShutdownSentinel? then RunResult(SentinelSeen, i, st)
    else RunAfter(items, i, ProcessJobSpec(st, basepath, env.clock(i), items[i], env.responses(i), env.digest), basepath, env)
  }

  /** The loop once job `i` has had effect `e`: a crash ends it, otherwise the next iteration follows. */
  function RunAfter(items: seq<Jobs.Job>, i: nat, e: JobEffect, basepath: Path, env: Oracles): (r: RunResult)
    requires i < |items| && items[i].Download? && !env.stopFlag(i)
    ensures i <= r.completed <= |items|
    ensures r.end == FlagSet ==> env.stopFlag(r.completed)
    ensures r.end == Blocked ==> r.completed == |items| && !env.stopFlag(r.completed)
    ensures r.end == SentinelSeen ==> r.completed < |items| && items[r.completed].ShutdownSentinel?
    ensures r.end == WorkerCrashed ==> r.completed < |items| && items[r.completed].Download?
    ensures forall j :: i <= j < r.completed ==> items[j].Download? && !env.stopFlag(j)
    decreases |items| - i, 0
  {
    if e.outcome == Crashed then RunResult(WorkerCrashed, i, e.fs)
    else Run(items, i + 1, e.fs, basepath, env)
  }

  /** An iteration that sees the flag set ends the loop there. */
  lemma RunFlagSet(items: seq<Jobs.Job>, i: nat, st: Storage.FsState, basepath: Path, env: Oracles)
    requires i <= |items| && env.stopFlag(i)
    ensures Run(items, i, st, basepath, env) == RunResult(FlagSet, i, st)
  {
  }

  /** An iteration that takes a sentinel ends the loop there. */
  lemma RunSentinel(items: seq<Jobs.Job>, i: nat, st: Storage.FsState, basepath: Path, env: Oracles)
    requires i < |items| && !env.stopFlag(i) && items[i].ShutdownSentinel?
    ensures Run(items, i, st, basepath, env) == RunResult(SentinelSeen, i, st)
  {
  }

  /**
   * An iteration that processes a job: a crash ends the loop, otherwise
   * the next iteration starts from the filesystem the job left.
   */
  lemma RunStep(items: seq<Jobs.Job>, i: nat, st: Storage.FsState, basepath: Path, env: Oracles, e: JobEffect)
    requires i < |items| && items[i].Download? && !env.stopFlag(i)
    requires e == ProcessJobSpec(st, basepath, env.clock(i), items[i], env.responses(i), env.digest)
    ensures e.outcome == Crashed ==> Run(items, i, st, basepath, env) == RunResult(WorkerCrashed, i, e.fs)
    ensures e.outcome != Crashed ==> Run(items, i, st, basepath, env) == Run(items, i + 1, e.fs, basepath, env)
  {
    assert Run(items, i, st, basepath, env) == RunAfter(items, i, e, basepath, env);
  }

  /** When the flag is set or a sentinel is queued at some later iteration, the worker never blocks. */
  lemma {:induction false} RunNeverBlocks(items: seq<Jobs.Job>, i: nat, st: Storage.FsState,
                                          basepath: Path, env: Oracles)
    requires i <= |items| && StopsFrom(items, i, env)
    ensures Run(items, i, st, basepath, env).end != Blocked
    decreases |items| - i
  {
    StopsFromNext(items, i, env);
    if !env.stopFlag(i) && !items[i].ShutdownSentinel? {
      var e := ProcessJobSpec(st, basepath, env.clock(i), items[i], env.responses(i), env.digest);
      if e.outcome != Crashed {
        RunNeverBlocks(items, i + 1, e.fs, basepath, env);
      }
    }
  }

  /**
   * With the flag never set and no job crashing, the loop stops at the
   * first sentinel, having completed every job before it exactly once.
   */
  lemma {:induction false} RunStopsAtFirstSentinel(items: seq<Jobs.Job>, i: nat, st: Storage.FsState,
                                                   basepath: Path, env: Oracles, n: nat)
    requires i <= n < |items| && items[n].ShutdownSentinel?
    requires forall j :: i <= j < n ==> items[j].Download?
    requires forall j :: i <= j <= n ==> !env.stopFlag(j)
    ensures var r := Run(items, i, st, basepath, env);
            r.end == SentinelSeen <==> r.completed == n
    ensures Run(items, i, st, basepath, env).end in {SentinelSeen, WorkerCrashed}
    decreases n - i
  {
    if i < n && !env.stopFlag(i) {
      var e := ProcessJobSpec(st, basepath, env.clock(i), items[i], env.responses(i), env.digest);
      if e.outcome != Crashed {
        RunStopsAtFirstSentinel(items, i + 1, e.fs, basepath, env, n);
      }
    }
  }

  /** The loop keeps the filesystem consistent and never removes a directory or a file. */
  lemma {:induction false} RunKeepsConsistent(items: seq<Jobs.Job>, i: nat, st: Storage.FsState,
                                              basepath: Path, env: Oracles)
    requires i <= |items| && Storage.Consistent(st)
    ensures Storage.Consistent(Run(items, i, st, basepath, env).fs)
    ensures st.dirs <= Run(items, i, st, basepath, env).fs.dirs
    ensures st.files.Keys <= Run(items, i, st, basepath, env).fs.files.Keys
    decreases |items| - i
  {
    if !env.stopFlag(i) && i < |items| && items[i].Download? {
      var e := ProcessJobSpec(st, basepath, env.clock(i), items[i], env.responses(i), env.digest);
      ProcessJobConsistent(st, basepath, env.clock(i), items[i], env.responses(i), env.digest);
      ProcessJobFiles(st, basepath, env.clock(i), items[i], env.responses(i), env.digest);
      if e.outcome != Crashed {
        RunKeepsConsistent(items, i + 1, e.fs, basepath, env);
      }
    }
  }

  class DownloadWorker {
    const queue: JobQueue.SimpleQueue<Jobs.Job>
    const fs: Storage.FileSystem
    const basepath: Path

    constructor (queue: JobQueue.SimpleQueue<Jobs.Job>, fs: Storage.FileSystem, basepath: string)
      ensures this.queue == queue && this.fs == fs
      ensures this.basepath == PosixPath.Parse(basepath)
    {
      this.queue := queue;
      this.fs := fs;
      this.basepath := PosixPath.Parse(basepath);
    }

    /** `process_job`: the gates in source order, acting on the filesystem. */
    method ProcessJob(job: Jobs.Job, today: CalendarDate, response: Option<Bytes>,
                      digest: (HashAlgorithm, Bytes) -> Bytes) returns (outcome: Outcome)
      requires job.Download? && fs.Valid()
      modifies fs
      ensures fs.Valid()
      ensures JobEffect(outcome, fs.State()) == ProcessJobSpec(old(fs.State()), basepath, today, job, response, digest)
    {
      var (expected, fn) := HashInfo(job.payload);
      var (url, update) := DownloadLink(job.payload.links);
      var destination := JobDestination(basepath, today, job);
      match destination
      case NoLink =>
        outcome := NoFilename;
      case BadUrl =>
        outcome := Crashed;
      case File(target) =>
        outcome := Save(target, update, response, expected, fn, digest);
    }

    /** The part of `process_job` after the filename is known, through `save_file`. */
    method Save(target: Path, update: bool, response: Option<Bytes>, expected: Option<string>,
                fn: Option<HashFunction>, digest: (HashAlgorithm, Bytes) -> Bytes) returns (outcome: Outcome)
      requires fs.Valid()
      modifies fs
      ensures fs.Valid()
      ensures JobEffect(outcome, fs.State()) == SaveSpec(old(fs.State()), target, update, response, expected, fn, digest)
    {
      var made := fs.MakeDirs(PosixPath.Parent(target));
      if !made {
        return Crashed;
      }
      var present := fs.IsFile(target);
      if present && !update {
        return Skipped;
      }
      if response.None? {
        return TransferFailed;
      }
      var data := response.value;
      var verdict := ValidateHash(data, expected, fn, digest);
      if verdict == Raises {
        return Crashed;
      }
      if verdict == Reject {
        return VerificationFailed;
      }
      var written := fs.WriteBytes(target, data);
      outcome := if written then Saved else WriteFailed;
    }

    /**
     * `start`: takes jobs off the queue until the shutdown flag is seen or
     * a sentinel arrives, processing each job and marking it done; an
     * exception from a job ends the loop.  Every job was counted as an
     * unfinished task when it was put on the queue.
     */
    method Start(env: Oracles) returns (end: RunEnd)
      requires fs.Valid() && StopsFrom(queue.items, 0, env)
      requires queue.unfinished >= |queue.items|
      modifies fs, queue
      ensures fs.Valid()
      ensures var r := Run(old(queue.items), 0, old(fs.State()), basepath, env);
              && end == r.end
              && fs.State() == r.fs
              && queue.items == old(queue.items)[if r.end == FlagSet then r.completed else r.completed + 1..]
              && queue.unfinished == old(queue.unfinished) - r.completed
              && queue.active == old(queue.active)
    {
      ghost var items := queue.items;
      ghost var r := Run(items, 0, fs.State(), basepath, env);
      var i := 0;
      while true
        invariant 0 <= i <= |items| && queue.items == items[i..]
        invariant fs.Valid() && StopsFrom(items, i, env)
        invariant Run(items, i, fs.State(), basepath, env) == r
        invariant queue.unfinished == old(queue.unfinished) - i >= |items| - i
        invariant queue.active == old(queue.active)
        decreases |items| - i
      {
        StopsFromNext(items, i, env);
        if env.stopFlag(i) {
          RunFlagSet(items, i, fs.State(), basepath, env);
          return FlagSet;
        }
        var job := queue.Dequeue();
        assert job == items[i];
        if job.ShutdownSentinel? {
          RunSentinel(items, i, fs.State(), basepath, env);
          return SentinelSeen;
        }
        ghost var before := fs.State();
        var outcome := ProcessJob(job, env.clock(i), env.responses(i), env.digest);
        RunStep(items, i, before, basepath, env, JobEffect(outcome, fs.State()));
        if outcome == Crashed {
          return WorkerCrashed;
        }
        var done := queue.TaskDone();
        assert items[i..][1..] == items[i + 1..];
        i := i + 1;
      }
    }
  }
}
