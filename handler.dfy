/**
 * The `/match` handler `matchFingerprints` (sample/main.go): validate the
 * request, stage the probe and then the candidate image, sanitize both, register
 * their deletion, compare them and turn the score into a verdict.
 *
 * The file system is the only state; the fingerprint comparison, the clock and
 * the outcomes of every external step are supplied by the environment.
 */
module Handler {
  import opened Basics
  import opened Files
  import opened Staging
  import Text

  const StatusOK := 200

  /** Scores strictly above this are reported as a match. */
  const MatchThreshold: real := 0.5

  const MissingImages := "Both probe_image and candidate_image are required"

  /** The two images of a `/match` request body. */
  datatype MatchRequest = MatchRequest(probeImage: string, candidateImage: string)

  datatype Verdict = MatchFound | NoMatchFound {
    /** The start of the response's message; the score follows as `%.2f`. */
    function Prefix(): string {
      match this
      case MatchFound => "Match found with score: "
      case NoMatchFound => "No match found, score: "
    }
  }

  /**
   * The handler's JSON reply: an error status with a message, or status 200 with
   * the score, the elapsed time and the verdict.
   */
  datatype Reply =
    | Rejected(status: int, error: string)
    | Scored(score: real, elapsedNanos: nat, verdict: Verdict)
  {
    function Status(): int {
      if Rejected? then status else StatusOK
    }
  }

  /**
   * `compareFingerprint` on the bytes of the two staged files as they are when it
   * reads them: a score, or the error of loading or matching them.
   */
  type Comparison = (seq<byte>, seq<byte>) -> Result<real, string>

  /** Everything outside the handler that decides how one request goes. */
  datatype Environment = Environment(
    decode: Base64Decoder,
    probeStage: StageEnv,
    candidateStage: StageEnv,
    probeConvert: Option<seq<byte>>,      // what `convert` writes over the probe file, None when it fails
    candidateConvert: Option<seq<byte>>,  // the same for the candidate file
    compare: Comparison,
    probeRemoveFault: Option<string>,     // failure of os.Remove on the probe file, if any
    candidateRemoveFault: Option<string>, // the same for the candidate file
    elapsedNanos: nat)                    // time.Since(start)

  /** The verdict for a comparison score. */
  function Judge(score: real): (v: Verdict)
    ensures v == MatchFound <==> score > MatchThreshold
  {
    if score > MatchThreshold then MatchFound else NoMatchFound
  }

  /** A score of exactly 0.5 is not a match. */
  lemma ThresholdIsNotAMatch()
    ensures Judge(0.5) == NoMatchFound
  {
  }

  /**
   * The reply once the comparison has run: a 500 carrying its error, or status
   * 200 with the score, the elapsed time and the verdict.
   */
  function ReplyFor(outcome: Result<real, string>, elapsedNanos: nat): (r: Reply)
    ensures r.Status() == StatusInternalServerError <==> outcome.Err?
    ensures outcome.Err? ==> r.error == "Failed to compare fingerprints: " + outcome.error
    ensures outcome.Ok? ==> r.Scored? && r.score == outcome.value && r.elapsedNanos == elapsedNanos
    ensures outcome.Ok? ==> (r.verdict == MatchFound <==> outcome.value > MatchThreshold)
  {
    match outcome
    case Err(e) => Rejected(StatusInternalServerError, "Failed to compare fingerprints: " + e)
    case Ok(score) => Scored(score, elapsedNanos, Judge(score))
  }

  /** A deferred `deleteFile` call, with the failure `os.Remove` will report, if any. */
  datatype Deferral = Deletion(path: string, fault: Option<string>)

  /** The paths a sequence of deferred deletions removes: those whose removal does not fail. */
  function Deleted(deferred: seq<Deferral>): set<string> {
    if deferred == [] then {}
    else (if deferred[0].fault.None? then {deferred[0].path} else {}) + Deleted(deferred[1..])
  }

  /** A path is removed exactly when some deferred deletion of it does not fail. */
  lemma {:induction false} DeletedMembers(deferred: seq<Deferral>, p: string)
    ensures p in Deleted(deferred) <==> exists d :: d in deferred && d.path == p && d.fault.None?
  {
    if deferred != [] {
      DeletedMembers(deferred[1..], p);
      assert deferred == [deferred[0]] + deferred[1..];
      if p !in Deleted(deferred) {
        forall d | d in deferred && d.path == p
          ensures d.fault.Some?
        {
          if d != deferred[0] {
            assert d in deferred[1..];
          }
        }
      }
    }
  }

  /** The cleanup of one request removes each staged path unless its `os.Remove` fails. */
  lemma CleanupDeletes(probeFile: string, candidateFile: string, env: Environment)
    ensures Deleted(Cleanup(probeFile, candidateFile, env))
         == (if env.probeRemoveFault.None? then {probeFile} else {})
            + (if env.candidateRemoveFault.None? then {candidateFile} else {})
  {
    var cleanup := Cleanup(probeFile, candidateFile, env);
    assert cleanup[1..][1..] == [];
    assert Deleted(cleanup[1..]) == if env.candidateRemoveFault.None? then {candidateFile} else {};
  }

  /**
   * Go runs deferred calls last-in first-out when the function returns; here the
   * deferred calls are all `deleteFile`, and afterwards every path whose removal
   * did not fail is gone.
   */
  method RunDeferred(fs: FileSystem, deferred: seq<Deferral>)
    modifies fs
    ensures fs.files == old(fs.files) - Deleted(deferred)
    ensures fs.dirs == old(fs.dirs)
  {
    var i := |deferred|;
    while i > 0
      invariant 0 <= i <= |deferred|
      invariant fs.files == old(fs.files) - Deleted(deferred[i..])
      invariant fs.dirs == old(fs.dirs)
    {
      i := i - 1;
      assert deferred[i..][1..] == deferred[i + 1..];
      assert Deleted(deferred[i..])
          == (if deferred[i].fault.None? then {deferred[i].path} else {}) + Deleted(deferred[i + 1..]);
      DeleteFile(fs, deferred[i].path, deferred[i].fault);
    }
    assert deferred[0..] == deferred;
  }

  /** The files once the probe and then the candidate have been written. */
  function WithStaged(before: map<string, seq<byte>>, probe: Written, candidate: Written): (r: map<string, seq<byte>>)
    ensures r.Keys == before.Keys + {probe.path, candidate.path}
    ensures r[candidate.path] == candidate.data
    ensures probe.path != candidate.path ==> r[probe.path] == probe.data
    ensures forall k :: k in before && k != probe.path && k != candidate.path ==> r[k] == before[k]
  {
    before[probe.path := probe.data][candidate.path := candidate.data]
  }

  /** The files after `sanitizeImage` has run on the probe and then on the candidate. */
  function AfterSanitize(files: map<string, seq<byte>>, probeFile: string, candidateFile: string, env: Environment)
    : (r: map<string, seq<byte>>)
    ensures r.Keys == files.Keys
    ensures forall k :: k in files && k != probeFile && k != candidateFile ==> r[k] == files[k]
  {
    Sanitized(Sanitized(files, probeFile, env.probeConvert), candidateFile, env.candidateConvert)
  }

  /** The two deletions `matchFingerprints` defers, in the order it defers them. */
  function Cleanup(probeFile: string, candidateFile: string, env: Environment): seq<Deferral> {
    [Deletion(probeFile, env.probeRemoveFault), Deletion(candidateFile, env.candidateRemoveFault)]
  }

  /**
   * The reply for two staged files: `compareFingerprint` reads both files after
   * `sanitizeImage` has rewritten them.
   */
  function StagedReply(files: map<string, seq<byte>>, probeFile: string, candidateFile: string, env: Environment): Reply
    requires probeFile in files && candidateFile in files
  {
    var sanitized := AfterSanitize(files, probeFile, candidateFile, env);
    ReplyFor(env.compare(sanitized[probeFile], sanitized[candidateFile]), env.elapsedNanos)
  }

  /** The deferred deletions run after the reply is fixed: their failures do not change it. */
  lemma ReplyIgnoresRemoval(files: map<string, seq<byte>>, probeFile: string, candidateFile: string, env: Environment,
                            probeFault: Option<string>, candidateFault: Option<string>)
    requires probeFile in files && candidateFile in files
    ensures StagedReply(files, probeFile, candidateFile, env)
         == StagedReply(files, probeFile, candidateFile,
                        env.(probeRemoveFault := probeFault, candidateRemoveFault := candidateFault))
  {
  }

  /**
   * What is left after the request's cleanup: every file the request did not
   * stage, untouched, and a staged path only when each deletion of it failed.
   */
  lemma CleanupLeavesOnlyFailedRemovals(before: map<string, seq<byte>>, probe: Written, candidate: Written, env: Environment)
    ensures var after := AfterSanitize(WithStaged(before, probe, candidate), probe.path, candidate.path, env)
                         - Deleted(Cleanup(probe.path, candidate.path, env));
      && (probe.path in after <==>
            env.probeRemoveFault.Some? && (probe.path != candidate.path || env.candidateRemoveFault.Some?))
      && (candidate.path in after <==>
            env.candidateRemoveFault.Some? && (probe.path != candidate.path || env.probeRemoveFault.Some?))
      && forall k :: k in before && k != probe.path && k != candidate.path ==> k in after && after[k] == before[k]
  {
    CleanupDeletes(probe.path, candidate.path, env);
  }

  /**
   * When both removals succeed, the request leaves every other file exactly as
   * it was, whatever `convert` did.
   */
  lemma {:induction false} CleanupRemovesStaged(before: map<string, seq<byte>>, probe: Written, candidate: Written, env: Environment)
    requires env.probeRemoveFault.None? && env.candidateRemoveFault.None?
    ensures AfterSanitize(WithStaged(before, probe, candidate), probe.path, candidate.path, env)
            - Deleted(Cleanup(probe.path, candidate.path, env))
         == before - {probe.path, candidate.path}
  {
    CleanupDeletes(probe.path, candidate.path, env);
  }

  /**
   * Equal time stamps and extensions give the candidate the probe's path, so the
   * candidate overwrites the probe and is compared with itself.
   */
  lemma CollisionComparesCandidateTwice(before: map<string, seq<byte>>, probe: Written, candidate: Written, env: Environment)
    requires probe.path == candidate.path
    ensures var compared :=
              if env.candidateConvert.Some? then env.candidateConvert.value
              else if env.probeConvert.Some? then env.probeConvert.value
              else candidate.data;
      StagedReply(WithStaged(before, probe, candidate), probe.path, candidate.path, env)
        == ReplyFor(env.compare(compared, compared), env.elapsedNanos)
  {
  }

  /**
   * `matchFingerprints`. Exits before both images are staged leave the probe file
   * behind when only the candidate failed; after both are staged the reply is
   * the comparison of the sanitized files, and both deletions are attempted.
   */
  method MatchFingerprints(fs: FileSystem, body: Result<MatchRequest, string>, env: Environment)
    returns (reply: Reply)
    modifies fs
    ensures old(fs.dirs) <= fs.dirs <= old(fs.dirs) + {TempDir}
    ensures body.Err? ==>
      reply == Rejected(StatusBadRequest, "Invalid request body: " + body.error)
      && fs.files == old(fs.files) && fs.dirs == old(fs.dirs)
    ensures body.Ok? && (body.value.probeImage == "" || body.value.candidateImage == "") ==>
      reply == Rejected(StatusBadRequest, MissingImages)
      && fs.files == old(fs.files) && fs.dirs == old(fs.dirs)
    ensures body.Ok? && body.value.probeImage != "" && body.value.candidateImage != "" ==>
      var probe := StoreOutcome(old(fs.dirs), body.value.probeImage, env.decode, env.probeStage);
      var candidate := StoreOutcome(old(fs.dirs) + {TempDir}, body.value.candidateImage, env.decode, env.candidateStage);
      && (probe.Err? ==>
            reply == Rejected(StatusBadRequest, "Failed to store probe image: " + probe.error.Message())
            && fs.files == old(fs.files))
      && (probe.Ok? && candidate.Err? ==>
            reply == Rejected(StatusBadRequest, "Failed to store candidate image: " + candidate.error.Message())
            && fs.files == old(fs.files)[probe.value.path := probe.value.data])
      && (probe.Ok? && candidate.Ok? ==>
            var staged := WithStaged(old(fs.files), probe.value, candidate.value);
            && reply == StagedReply(staged, probe.value.path, candidate.value.path, env)
            && fs.files == AfterSanitize(staged, probe.value.path, candidate.value.path, env)
                           - Deleted(Cleanup(probe.value.path, candidate.value.path, env)))
  {
    if body.Err? {
      return Rejected(StatusBadRequest, "Invalid request body: " + body.error);
    }
    var req := body.value;

    if req.probeImage == "" || req.candidateImage == "" {
      return Rejected(StatusBadRequest, MissingImages);
    }

    reply := StageAndCompare(fs, req, env);
  }

  /**
   * The part of `matchFingerprints` after validation: stage the probe, then the
   * candidate, and compare. A failed candidate leaves the probe file on disk.
   */
  method StageAndCompare(fs: FileSystem, req: MatchRequest, env: Environment) returns (reply: Reply)
    requires req.probeImage != "" && req.candidateImage != ""
    modifies fs
    ensures old(fs.dirs) <= fs.dirs <= old(fs.dirs) + {TempDir}
    ensures var probe := StoreOutcome(old(fs.dirs), req.probeImage, env.decode, env.probeStage);
      var candidate := StoreOutcome(old(fs.dirs) + {TempDir}, req.candidateImage, env.decode, env.candidateStage);
      && (probe.Err? ==>
            reply == Rejected(StatusBadRequest, "Failed to store probe image: " + probe.error.Message())
            && fs.files == old(fs.files))
      && (probe.Ok? && candidate.Err? ==>
            reply == Rejected(StatusBadRequest, "Failed to store candidate image: " + candidate.error.Message())
            && fs.files == old(fs.files)[probe.value.path := probe.value.data])
      && (probe.Ok? && candidate.Ok? ==>
            var staged := WithStaged(old(fs.files), probe.value, candidate.value);
            && reply == StagedReply(staged, probe.value.path, candidate.value.path, env)
            && fs.files == AfterSanitize(staged, probe.value.path, candidate.value.path, env)
                           - Deleted(Cleanup(probe.value.path, candidate.value.path, env)))
  {
    ghost var files0, dirs0 := fs.files, fs.dirs;
    ghost var probe := StoreOutcome(dirs0, req.probeImage, env.decode, env.probeStage);
    var probeFile := StoreImage(fs, req.probeImage, env.decode, env.probeStage);
    if probeFile.Err? {
      return Rejected(StatusBadRequest, "Failed to store probe image: " + probeFile.error.Message());
    }
    assert probe.Ok? && probeFile.value == probe.value.path;
    assert fs.dirs == dirs0 + {TempDir};
    ghost var candidate := StoreOutcome(dirs0 + {TempDir}, req.candidateImage, env.decode, env.candidateStage);
    var candidateFile := StoreImage(fs, req.candidateImage, env.decode, env.candidateStage);
    if candidateFile.Err? {
      assert candidate.Err? && candidateFile.error == candidate.error;
      // The probe file is already on disk and no deletion has been deferred yet.
      return Rejected(StatusBadRequest, "Failed to store candidate image: " + candidateFile.error.Message());
    }
    assert candidate.Ok? && candidateFile.value == candidate.value.path;
    assert fs.files == WithStaged(files0, probe.value, candidate.value);
    reply := CompareStaged(fs, probeFile.value, candidateFile.value, env);
  }

  /**
   * The tail of `matchFingerprints` once both files are staged: sanitize both,
   * defer their deletion, compare and pick the verdict. The comparison reads the
   * sanitized files; the deletions run after the reply is fixed.
   */
  method CompareStaged(fs: FileSystem, probeFile: string, candidateFile: string, env: Environment)
    returns (reply: Reply)
    requires probeFile in fs.files && candidateFile in fs.files
    modifies fs
    ensures reply == StagedReply(old(fs.files), probeFile, candidateFile, env)
    ensures fs.files == AfterSanitize(old(fs.files), probeFile, candidateFile, env)
                        - Deleted(Cleanup(probeFile, candidateFile, env))
    ensures fs.dirs == old(fs.dirs)
  {
    SanitizeImage(fs, probeFile, env.probeConvert);
    SanitizeImage(fs, candidateFile, env.candidateConvert);

    var deferred := Cleanup(probeFile, candidateFile, env);

    var outcome := env.compare(fs.files[probeFile], fs.files[candidateFile]);
    if outcome.Err? {
      reply := Rejected(StatusInternalServerError, "Failed to compare fingerprints: " + outcome.error);
    } else {
      reply := Scored(outcome.value, env.elapsedNanos, Judge(outcome.value));
    }
    RunDeferred(fs, deferred);
  }

  /** Writing a path that did not exist and then removing it restores the files. */
  lemma WriteThenRemoveRestores(before: map<string, seq<byte>>, p: string, data: seq<byte>)
    requires p !in before
    ensures before[p := data] - {p} == before
  {
  }

  /**
   * `matchFingerprints` with the probe's deletion deferred as soon as the probe
   * is stored, and with each image created exclusively so that a request never
   * overwrites a file already in `./temp`.
   */
  method MatchFingerprintsWithCleanup(fs: FileSystem, body: Result<MatchRequest, string>, env: Environment)
    returns (reply: Reply)
    modifies fs
    ensures old(fs.dirs) <= fs.dirs <= old(fs.dirs) + {TempDir}
    ensures body.Err? ==>
      reply == Rejected(StatusBadRequest, "Invalid request body: " + body.error)
      && fs.files == old(fs.files) && fs.dirs == old(fs.dirs)
    ensures body.Ok? && (body.value.probeImage == "" || body.value.candidateImage == "") ==>
      reply == Rejected(StatusBadRequest, MissingImages)
      && fs.files == old(fs.files) && fs.dirs == old(fs.dirs)
    ensures body.Ok? && body.value.probeImage != "" && body.value.candidateImage != "" ==>
      var probe := ExclusiveStoreOutcome(old(fs.dirs), old(fs.files), body.value.probeImage, env.decode, env.probeStage);
      && (probe.Err? ==>
            reply == Rejected(StatusBadRequest, "Failed to store probe image: " + probe.error.Message())
            && fs.files == old(fs.files))
      && (probe.Ok? ==>
            var stored := old(fs.files)[probe.value.path := probe.value.data];
            var candidate := ExclusiveStoreOutcome(old(fs.dirs) + {TempDir}, stored, body.value.candidateImage,
                                                   env.decode, env.candidateStage);
            && (candidate.Err? ==>
                  reply == Rejected(StatusBadRequest, "Failed to store candidate image: " + candidate.error.Message())
                  && fs.files == if env.probeRemoveFault.None? then old(fs.files) else stored)
            && (candidate.Ok? ==>
                  var staged := WithStaged(old(fs.files), probe.value, candidate.value);
                  && probe.value.path != candidate.value.path
                  && reply == StagedReply(staged, probe.value.path, candidate.value.path, env)
                  && fs.files == AfterSanitize(staged, probe.value.path, candidate.value.path, env)
                                 - Deleted(Cleanup(probe.value.path, candidate.value.path, env))))
  {
    if body.Err? {
      return Rejected(StatusBadRequest, "Invalid request body: " + body.error);
    }
    var req := body.value;

    if req.probeImage == "" || req.candidateImage == "" {
      return Rejected(StatusBadRequest, MissingImages);
    }

    reply := StageAndCompareWithCleanup(fs, req, env);
  }

  /**
   * `StageAndCompare` with exclusive stores and the probe's deletion deferred as
   * soon as it is stored. The deletions deferred at both points run on return in
   * the same last-in first-out order as in `CompareStaged`.
   */
  method StageAndCompareWithCleanup(fs: FileSystem, req: MatchRequest, env: Environment) returns (reply: Reply)
    requires req.probeImage != "" && req.candidateImage != ""
    modifies fs
    ensures old(fs.dirs) <= fs.dirs <= old(fs.dirs) + {TempDir}
    ensures var probe := ExclusiveStoreOutcome(old(fs.dirs), old(fs.files), req.probeImage, env.decode, env.probeStage);
      && (probe.Err? ==>
            reply == Rejected(StatusBadRequest, "Failed to store probe image: " + probe.error.Message())
            && fs.files == old(fs.files))
      && (probe.Ok? ==>
            var stored := old(fs.files)[probe.value.path := probe.value.data];
            var candidate := ExclusiveStoreOutcome(old(fs.dirs) + {TempDir}, stored, req.candidateImage,
                                                   env.decode, env.candidateStage);
            && (candidate.Err? ==>
                  reply == Rejected(StatusBadRequest, "Failed to store candidate image: " + candidate.error.Message())
                  && fs.files == if env.probeRemoveFault.None? then old(fs.files) else stored)
            && (candidate.Ok? ==>
                  var staged := WithStaged(old(fs.files), probe.value, candidate.value);
                  && probe.value.path != candidate.value.path
                  && reply == StagedReply(staged, probe.value.path, candidate.value.path, env)
                  && fs.files == AfterSanitize(staged, probe.value.path, candidate.value.path, env)
                                 - Deleted(Cleanup(probe.value.path, candidate.value.path, env))))
  {
    ghost var files0, dirs0 := fs.files, fs.dirs;
    ghost var probe := ExclusiveStoreOutcome(dirs0, files0, req.probeImage, env.decode, env.probeStage);
    var probeFile := StoreImageExclusive(fs, req.probeImage, env.decode, env.probeStage);
    if probeFile.Err? {
      assert probe.Err? && probeFile.error == probe.error;
      return Rejected(StatusBadRequest, "Failed to store probe image: " + probeFile.error.Message());
    }
    assert probe.Ok? && probeFile.value == probe.value.path;
    ExclusiveStoreIsFresh(dirs0, files0, req.probeImage, env.decode, env.probeStage);
    assert fs.dirs == dirs0 + {TempDir};
    reply := CompareWithCandidate(fs, probeFile.value, files0, probe.value.data, req.candidateImage, env);
  }

  /**
   * The corrected handler once the probe is stored over `before` and its
   * deletion deferred: stage the candidate exclusively and compare. A failed
   * candidate store still runs the probe's deletion.
   */
  method CompareWithCandidate(fs: FileSystem, probeFile: string, ghost before: map<string, seq<byte>>,
                              ghost probeData: seq<byte>, candidateImage: string, env: Environment)
    returns (reply: Reply)
    requires probeFile !in before && fs.files == before[probeFile := probeData] && TempDir in fs.dirs
    modifies fs
    ensures fs.dirs == old(fs.dirs)
    ensures var candidate := ExclusiveStoreOutcome(old(fs.dirs), old(fs.files), candidateImage, env.decode, env.candidateStage);
      && (candidate.Err? ==>
            reply == Rejected(StatusBadRequest, "Failed to store candidate image: " + candidate.error.Message())
            && fs.files == if env.probeRemoveFault.None? then before else old(fs.files))
      && (candidate.Ok? ==>
            var staged := WithStaged(before, Written(probeFile, probeData), candidate.value);
            && probeFile != candidate.value.path
            && reply == StagedReply(staged, probeFile, candidate.value.path, env)
            && fs.files == AfterSanitize(staged, probeFile, candidate.value.path, env)
                           - Deleted(Cleanup(probeFile, candidate.value.path, env)))
  {
    var deferred := [Deletion(probeFile, env.probeRemoveFault)];
    ghost var candidate := ExclusiveStoreOutcome(fs.dirs, fs.files, candidateImage, env.decode, env.candidateStage);
    var candidateFile := StoreImageExclusive(fs, candidateImage, env.decode, env.candidateStage);
    if candidateFile.Err? {
      assert candidate.Err? && candidateFile.error == candidate.error;
      reply := Rejected(StatusBadRequest, "Failed to store candidate image: " + candidateFile.error.Message());
      assert deferred[1..] == [];
      WriteThenRemoveRestores(before, probeFile, probeData);
      RunDeferred(fs, deferred);
      return;
    }
    assert candidate.Ok? && candidateFile.value == candidate.value.path;
    ExclusiveStoreIsFresh(old(fs.dirs), old(fs.files), candidateImage, env.decode, env.candidateStage);
    assert fs.files == WithStaged(before, Written(probeFile, probeData), candidate.value);
    reply := CompareStaged(fs, probeFile, candidateFile.value, env);
  }

  /** Go's `base64.CorruptInputError` text for the second character of `b@d!`. */
  const IllegalByte1 := "illegal base64 data at input byte 1"

  /**
   * Standard base64 (RFC 4648, section 4) on the strings the requests below
   * use: `QUJD` is "ABC", `REVG` is "DEF", and `b@d!` is rejected at its `@`.
   */
  function SampleDecode(s: string): Result<seq<byte>, string> {
    if s == "QUJD" then Ok([65, 66, 67])
    else if s == "REVG" then Ok([68, 69, 70])
    else Err(IllegalByte1)
  }

  /** A matcher that scores identical images 1 and any two different images 0. */
  function SampleCompare(probe: seq<byte>, candidate: seq<byte>): Result<real, string> {
    if probe == candidate then Ok(1.0) else Ok(0.0)
  }

  /** A request environment with no failures other than what the images cause. */
  function SampleEnv(probeStamp: nat, candidateStamp: nat): Environment {
    Environment(SampleDecode, StageEnv(probeStamp, None, None), StageEnv(candidateStamp, None, None),
                None, None, SampleCompare, None, None, 0)
  }

  /**
   * A request that leaves a file behind: the probe `QUJD` is stored as
   * `./temp/image_1.png`, then the candidate fails base64 decoding before any
   * deletion has been deferred.
   */
  method ProbeLeakDemo() returns (reply: Reply, left: map<string, seq<byte>>)
    ensures reply == Rejected(StatusBadRequest, "Failed to store candidate image: " + DecodeFailed(IllegalByte1).Message())
    ensures left == map["./temp/image_1.png" := [65, 66, 67]]
  {
    var fs := new FileSystem({}, map[]);
    var env := SampleEnv(1, 2);
    assert Text.Decimal(1) == "1";
    assert StagedPath(1, Png) == "./temp/image_1.png";
    assert Prepare("QUJD", SampleDecode) == Ok(Staged(Png, [65, 66, 67]));
    assert Prepare("b@d!", SampleDecode) == Err(DecodeFailed(IllegalByte1));
    assert StoreOutcome({}, "QUJD", env.decode, env.probeStage) == Ok(Written("./temp/image_1.png", [65, 66, 67]));
    reply := MatchFingerprints(fs, Ok(MatchRequest("QUJD", "b@d!")), env);
    left := fs.files;
  }

  /** The same request with the corrected handler leaves no file behind. */
  method ProbeLeakFixedDemo() returns (reply: Reply, left: map<string, seq<byte>>)
    ensures reply == Rejected(StatusBadRequest, "Failed to store candidate image: " + DecodeFailed(IllegalByte1).Message())
    ensures left == map[]
  {
    var fs := new FileSystem({}, map[]);
    var env := SampleEnv(1, 2);
    assert Prepare("QUJD", SampleDecode) == Ok(Staged(Png, [65, 66, 67]));
    assert Prepare("b@d!", SampleDecode) == Err(DecodeFailed(IllegalByte1));
    reply := MatchFingerprintsWithCleanup(fs, Ok(MatchRequest("QUJD", "b@d!")), env);
    left := fs.files;
  }

  /**
   * Two different images staged at the same time stamp: the candidate `REVG`
   * overwrites the probe `QUJD` at `./temp/image_7.png`, so the matcher
   * compares "DEF" with itself and reports a match.
   */
  method StampCollisionDemo() returns (reply: Reply)
    ensures reply == Scored(1.0, 0, MatchFound)
  {
    var fs := new FileSystem({}, map[]);
    assert StagedPath(7, Png) == "./temp/image_7.png";
    assert ParseDataUri("QUJD") == Ok(Payload(Png, "QUJD"));
    assert ParseDataUri("REVG") == Ok(Payload(Png, "REVG"));
    reply := MatchFingerprints(fs, Ok(MatchRequest("QUJD", "REVG")), SampleEnv(7, 7));
  }

  /** With exclusive creation the colliding candidate is refused and nothing is left behind. */
  method StampCollisionFixedDemo() returns (reply: Reply, left: map<string, seq<byte>>)
    ensures reply == Rejected(StatusBadRequest,
      "Failed to store candidate image: " + WriteFailed(ExistsError("./temp/image_7.png")).Message())
    ensures left == map[]
  {
    var fs := new FileSystem({}, map[]);
    var env := SampleEnv(7, 7);
    var path := "./temp/image_7.png";
    assert Text.Decimal(7) == "7";
    assert StagedPath(7, Png) == path;
    assert Prepare("QUJD", SampleDecode) == Ok(Staged(Png, [65, 66, 67]));
    assert Prepare("REVG", SampleDecode) == Ok(Staged(Png, [68, 69, 70]));
    assert ExclusiveStoreOutcome({}, map[], "QUJD", env.decode, env.probeStage) == Ok(Written(path, [65, 66, 67]));
    assert ExclusiveStoreOutcome({TempDir}, map[path := [65, 66, 67]], "REVG", env.decode, env.candidateStage)
        == Err(WriteFailed(ExistsError(path)));
    reply := MatchFingerprintsWithCleanup(fs, Ok(MatchRequest("QUJD", "REVG")), env);
    left := fs.files;
  }
}
