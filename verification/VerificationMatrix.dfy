/** Running all verification checks against a workspace that must not change meanwhile, in an
    environment that may answer anything at every call. */
module VerificationMatrix {
  import opened CanonicalJson
  import opened Text

  const MAX_CHECKS := 16

  datatype Check = Check(name: string, command: string)

  datatype Problem = NoProblem | NoTestsCollected | OtherProblem(text: string)

  datatype Evidence = Evidence(name: string, returncode: int, problem: Problem, blocked: bool, approved: bool)

  datatype Failure = Passed | ChecksFailed | FingerprintError | WorkspaceChanged | ExecutionError | NotAuthorized
    | Stopped

  datatype Result = Result(evidence: seq<Evidence>, returncode: int, failure: Failure, fingerprint: string)

  datatype Call = Capture | Execute(check: Check)

  /** Whoever takes fingerprints and executes checks.  The answer to a call depends on how many
      calls were made before, in any way whatever; no answer stands for an exception. */
  class Environment {
    const captured: nat -> Option<string>
    const executed: nat -> Option<Evidence>
    var calls: seq<Call>

    constructor (captured: nat -> Option<string>, executed: nat -> Option<Evidence>)
      ensures calls == [] && this.captured == captured && this.executed == executed
    {
      this.captured, this.executed, calls := captured, executed, [];
    }

    method CaptureFingerprint() returns (r: Option<string>)
      modifies this
      ensures calls == old(calls) + [Capture] && r == captured(|old(calls)|)
    {
      r := captured(|calls|);
      calls := calls + [Capture];
    }

    method ExecuteCheck(check: Check) returns (r: Option<Evidence>)
      modifies this
      ensures calls == old(calls) + [Execute(check)] && r == executed(|old(calls)|)
    {
      r := executed(|calls|);
      calls := calls + [Execute(check)];
    }
  }

  /** The calls of a complete run of the first n checks: a fingerprint, and around each check two more. */
  function Script(checks: seq<Check>, n: nat): (calls: seq<Call>)
    requires n <= |checks|
    ensures |calls| == 1 + 3 * n
  {
    if n == 0 then [Capture] else Script(checks, n - 1) + [Capture, Execute(checks[n - 1]), Capture]
  }

  predicate Permitted(e: Evidence) { !e.blocked && e.approved && !e.problem.OtherProblem? }

  /** The answer to the execution of check i in a complete run. */
  function Answer(env: Environment, i: nat): Option<Evidence> { env.executed(2 + 3 * i) }

  /** Around check i of a fresh environment the fingerprint stays and the check is not stopped. */
  predicate Undisturbed(env: Environment, fingerprint: string, i: nat) {
    && env.captured(1 + 3 * i) == Some(fingerprint)
    && Answer(env, i).Some? && Permitted(Answer(env, i).value)
    && env.captured(3 + 3 * i) == Some(fingerprint)
  }

  /** What goes wrong first around check i. */
  function Trouble(env: Environment, fingerprint: string, i: nat): Failure {
    if env.captured(1 + 3 * i).None? then FingerprintError
    else if env.captured(1 + 3 * i).value != fingerprint then WorkspaceChanged
    else if Answer(env, i).None? then ExecutionError
    else if env.captured(3 + 3 * i).None? then FingerprintError
    else if env.captured(3 + 3 * i).value != fingerprint then WorkspaceChanged
    else if Answer(env, i).value.blocked || !Answer(env, i).value.approved then NotAuthorized
    else Stopped
  }

  /** The first check not left undisturbed, and why. */
  ghost predicate FirstDisturbed(env: Environment, n: nat, failure: Failure) {
    && env.captured(0).Some? && failure == Trouble(env, env.captured(0).value, n)
    && !Undisturbed(env, env.captured(0).value, n) && forall i :: 0 <= i < n ==>
                                                        Undisturbed(env, env.captured(0).value, i)
  }

  /** How many of its three calls a turn makes: it ends with the first that goes wrong. */
  function CallsMade(env: Environment, fingerprint: string, i: nat): nat {
    if env.captured(1 + 3 * i) != Some(fingerprint) then 1 else if Answer(env, i).None? then 2 else 3
  }

  function Turn(check: Check): seq<Call> { [Capture, Execute(check), Capture] }

  /** A run that ends within turn n: the calls of the turns before and those made in this one, and the evidence of every
      check that was executed. */
  ghost predicate EndsWithin(env: Environment, fingerprint: string, checks: seq<Check>, n: nat, calls: seq<Call>,
                             evidence: seq<Evidence>) {
    && n < |checks| && calls == Script(checks, n) + Turn(checks[n])[..CallsMade(env, fingerprint, n)]
    && |evidence| == (if CallsMade(env, fingerprint, n) == 3 then n + 1 else n)
    && forall i :: 0 <= i < |evidence| ==> Answer(env, i) == Some(evidence[i])
  }

  /** All 1 + 2n fingerprints are taken and equal, and no check is stopped. */
  predicate Completes(env: Environment, checks: seq<Check>) {
    env.captured(0).Some? && forall i :: 0 <= i < |checks| ==> Undisturbed(env, env.captured(0).value, i)
  }

  /** Every check is executed, undisturbed, and returns 0. */
  predicate Succeeds(env: Environment, checks: seq<Check>) {
    Completes(env, checks) && forall i :: 0 <= i < |checks| ==>
                                Answer(env, i).Some? && Answer(env, i).value.returncode == 0
  }

  lemma {:induction false} ScriptPrefix(checks: seq<Check>, m: nat, n: nat)
    requires m <= n <= |checks|
    ensures Script(checks, m) <= Script(checks, n)
  {
    if m < n { ScriptPrefix(checks, m, n - 1); }
  }

  /** Stopping at any point within check n leaves a prefix of the complete script. */
  lemma StoppedWithin(checks: seq<Check>, n: nat, calls: seq<Call>)
    requires n < |checks| && Script(checks, n) <= calls <= Script(checks, n + 1)
    ensures calls <= Script(checks, |checks|)
  {
    ScriptPrefix(checks, n + 1, |checks|);
  }

  datatype Round = Round(evidence: seq<Evidence>, failure: Failure)

  /** One turn of the loop: the fingerprint before, the check, the fingerprint after. */
  method RunCheck(checks: seq<Check>, n: nat, env: Environment, baseline: string, before: seq<Evidence>)
    returns (r: Round)
    requires n < |checks| && env.calls == Script(checks, n)
    modifies env
    ensures r.failure.Passed? <==> Undisturbed(env, baseline, n)
    ensures r.failure.Passed? ==> env.calls == Script(checks, n + 1) && r.evidence == before + [Answer(env, n).value]
    ensures Script(checks, n) <= env.calls <= Script(checks, n + 1)
    ensures !r.failure.Passed? ==> r.failure == Trouble(env, baseline, n)
    ensures env.calls == Script(checks, n) + Turn(checks[n])[..CallsMade(env, baseline, n)]
    ensures r.evidence == before + if CallsMade(env, baseline, n) == 3 then [Answer(env, n).value] else []
  {
    var start := env.CaptureFingerprint();
    if start.None? { return Round(before, FingerprintError); }
    if start.value != baseline { return Round(before, WorkspaceChanged); }
    var execution := env.ExecuteCheck(checks[n]);
    if execution.None? { return Round(before, ExecutionError); }
    var evidence := before + [execution.value];
    var after := env.CaptureFingerprint();
    if after.None? { return Round(evidence, FingerprintError); }
    if after.value != baseline { return Round(evidence, WorkspaceChanged); }
    if execution.value.blocked || !execution.value.approved { return Round(evidence, NotAuthorized); }
    if execution.value.problem.OtherProblem? { return Round(evidence, Stopped); }
    return Round(evidence, Passed);
  }

  method AllPassed(evidence: seq<Evidence>) returns (passed: bool)
    ensures passed <==> forall i :: 0 <= i < |evidence| ==> evidence[i].returncode == 0
  {
    for i := 0 to |evidence|
      invariant forall k :: 0 <= k < i ==> evidence[k].returncode == 0
    {
      if evidence[i].returncode != 0 { return false; }
    }
    return true;
  }

  /** run_verification_matrix: success is reported exactly if every check ran, once and in order,
      undisturbed and with return code 0; only then is a fingerprint attached, and it is the one
      that all captures agree on. */
  method RunVerificationMatrix(checks: seq<Check>, env: Environment) returns (r: Result)
    requires env.calls == []
    modifies env
    ensures env.calls <= Script(checks, |checks|)
    ensures Completes(env, checks) ==> env.calls == Script(checks, |checks|) && |r.evidence| == |checks|
    ensures Completes(env, checks) ==> forall i :: 0 <= i < |checks| ==> Answer(env, i) == Some(r.evidence[i])
    ensures env.captured(0).Some? && !Completes(env, checks) ==>
              exists n: nat :: n < |checks| && FirstDisturbed(env, n, r.failure)
                               && EndsWithin(env, env.captured(0).value, checks, n, env.calls, r.evidence)
    ensures env.captured(0).None? ==> r.failure == FingerprintError && env.calls == [Capture] && r.evidence == []
    ensures r.failure.ChecksFailed? <==> r.returncode == 1
    ensures r.returncode == 0 <==> Succeeds(env, checks)
    ensures r.returncode in {0, 1, -1} && (r.returncode == -1 <==> !Completes(env, checks))
    ensures r.returncode == 0 ==> Some(r.fingerprint) == env.captured(0) && r.failure.Passed?
    ensures r.returncode != 0 ==> r.fingerprint == "" && !r.failure.Passed?
  {
    ScriptPrefix(checks, 0, |checks|);
    var baseline := env.CaptureFingerprint();
    if baseline.None? { return Result([], -1, FingerprintError, ""); }
    var evidence := [];
    for n := 0 to |checks|
      invariant env.calls == Script(checks, n)
      invariant forall i :: 0 <= i < n ==> Undisturbed(env, baseline.value, i)
      invariant |evidence| == n && forall i :: 0 <= i < n ==> Answer(env, i) == Some(evidence[i])
    {
      var round := RunCheck(checks, n, env, baseline.value, evidence);
      if !round.failure.Passed? {
        StoppedWithin(checks, n, env.calls);
        assert FirstDisturbed(env, n, round.failure);
        assert EndsWithin(env, baseline.value, checks, n, env.calls, round.evidence);
        return Result(round.evidence, -1, round.failure, "");
      }
      evidence := round.evidence;
    }
    var passed := AllPassed(evidence);
    return Result(evidence, if passed then 0 else 1, if passed then Passed
                                                     else ChecksFailed, if passed then baseline.value else "");
  }

  // ---- which checks there are ----

  datatype Refusal = BadCommand | TooMany | DuplicateName

  predicate DistinctNames(checks: seq<Check>) {
    forall i, j :: 0 <= i < j < |checks| ==> checks[i].name != checks[j].name
  }

  /** The default command, if any, becomes the first check, without the white space around it. */
  function Configured(command: Option<string>, explicit: seq<Check>): seq<Check> {
    (if command.None? then [] else [Check("tests", Strip(command.value))]) + explicit
  }

  /** normalize_verification_checks */
  method NormalizeChecks(command: Option<string>, explicit: seq<Check>)
    returns (refusal: Option<Refusal>, checks: seq<Check>)
    ensures refusal == if command.Some? && !NotBlank(command.value) then Some(BadCommand)
                       else if |Configured(command, explicit)| > MAX_CHECKS then Some(TooMany)
                       else if !DistinctNames(Configured(command, explicit)) then Some(DuplicateName) else None
    ensures refusal.None? ==> checks == Configured(command, explicit)
  {
    checks := [];
    if command.Some? {
      StrippedIsEmpty(command.value);
      if Strip(command.value) == "" { return Some(BadCommand), []; }
      checks := [Check("tests", Strip(command.value))];
    }
    checks := checks + explicit;
    if |checks| > MAX_CHECKS { return Some(TooMany), []; }
    var distinct := NamesDiffer(checks);
    if !distinct { return Some(DuplicateName), []; }
    return None, checks;
  }

  method NamesDiffer(checks: seq<Check>) returns (r: bool)
    ensures r <==> DistinctNames(checks)
  {
    var seen: set<string> := {};
    for i := 0 to |checks|
      invariant forall k, m :: 0 <= k < m < i ==> checks[k].name != checks[m].name
      invariant forall x :: x in seen <==> exists k :: 0 <= k < i && checks[k].name == x
    {
      if checks[i].name in seen { return false; }
      seen := seen + {checks[i].name};
    }
    return true;
  }
}
