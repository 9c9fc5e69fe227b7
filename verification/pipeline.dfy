/** The `main` routine of IBeamFix as a pure function.

    Everything the program learns from the operating system is an input: the
    argument count, the contents of signature.bin, whether the module loads,
    the cursor entries the enumeration reports (with their bytes and their
    languages), and whether the three update-session calls succeed. The
    result is the exit code together with the trace of resource calls the
    program makes, in order; a call that fails is still in the trace, and
    the exit code says which one failed.
 */
module Pipeline {
  import opened Types
  import opened Scan
  import opened Hotspot

  const EXIT_OK := 0
  const EXIT_LOAD_FAILED := 1
  const EXIT_BEGIN_FAILED := 2
  const EXIT_UNEXPECTED_SIGNATURE := 3
  const EXIT_UPDATE_FAILED := 4
  const EXIT_END_FAILED := 5
  const EXIT_NOT_FOUND := 6
  const EXIT_NO_LANGUAGE := 7

  /** What the program sees of the outside world in one run. */
  datatype Environment = Environment(
    argCount: nat,
    signature: seq<Byte>,
    loadSucceeds: bool,
    cursors: seq<Entry>,
    beginSucceeds: bool,
    updateSucceeds: bool,
    endSucceeds: bool)

  /** The resource calls of one run. The first four work on the module
      loaded read-only; the last three form the update session on the file. */
  datatype Call =
    | LoadLibrary
    | EnumerateCursors
    | EnumerateLanguages(id: ResId)
    | FreeLibrary
    | BeginUpdate
    | UpdateResource(id: ResId, language: Word, data: seq<Byte>)
    | EndUpdate

  datatype Outcome = Outcome(exitCode: int, calls: seq<Call>)

  /** A call that belongs to the update session, which can change the file. */
  predicate IsWrite(c: Call) {
    c.BeginUpdate? || c.UpdateResource? || c.EndUpdate?
  }

  /** The run gets past argument checking and loads the module. */
  predicate Loaded(env: Environment) {
    env.argCount >= 2 && env.loadSucceeds
  }

  /** The result of the cursor scan of this run. */
  function MatchOf(env: Environment): ScanResult {
    FindMatch(env.cursors, env.signature)
  }

  /** The language recorded for the matched cursor; 0 when nothing matched. */
  function LanguageOf(env: Environment): Word {
    match MatchOf(env)
    case NotFound => 0
    case Found(k, _) => ResolveLanguage(env.cursors[k].languages)
  }

  /** The run reaches the byte-0 check: the update session has begun. */
  predicate ReachesHotspotCheck(env: Environment) {
    Loaded(env) && MatchOf(env).Found? && LanguageOf(env) != 0 && env.beginSucceeds
  }

  /** One run of the program. */
  function Run(env: Environment): (o: Outcome)
    ensures EXIT_OK <= o.exitCode <= EXIT_NO_LANGUAGE
    ensures env.argCount < 2 ==> o == Outcome(EXIT_OK, [])
  {
    if env.argCount < 2 then Outcome(EXIT_OK, [])
    else if !env.loadSucceeds then Outcome(EXIT_LOAD_FAILED, [LoadLibrary])
    else
      var scanned := [LoadLibrary, EnumerateCursors];
      match MatchOf(env)
      case NotFound => Outcome(EXIT_NOT_FOUND, scanned)
      case Found(_, id) =>
        var resolved := scanned + [EnumerateLanguages(id)];
        var language := LanguageOf(env);
        if language == 0 then Outcome(EXIT_NO_LANGUAGE, resolved)
        else
          var begun := resolved + [FreeLibrary, BeginUpdate];
          if !env.beginSucceeds then Outcome(EXIT_BEGIN_FAILED, begun)
          else
            match ApplyFix(env.signature)
            case None => Outcome(EXIT_UNEXPECTED_SIGNATURE, begun)
            case Some(patched) =>
              var staged := begun + [UpdateResource(id, language, patched)];
              if !env.updateSucceeds then Outcome(EXIT_UPDATE_FAILED, staged)
              else
                var committed := staged + [EndUpdate];
                if !env.endSucceeds then Outcome(EXIT_END_FAILED, committed)
                else Outcome(EXIT_OK, committed)
  }

  // ---------------------------------------------------------------------
  // Exit-code precedence, against an independent table of checks

  /** One check of the run, in program order, and the exit code it fails with. */
  datatype Check = Check(passes: bool, failure: int)

  /** The exit code of the first failing check, or success when all pass. */
  function FirstFailure(checks: seq<Check>): int {
    if |checks| == 0 then EXIT_OK
    else if !checks[0].passes then checks[0].failure
    else FirstFailure(checks[1..])
  }

  /** One step of the first-failure search, taken at position `n`. */
  lemma FirstFailureStep(checks: seq<Check>, n: nat)
    requires n < |checks|
    ensures FirstFailure(checks[n..]) ==
      if !checks[n].passes then checks[n].failure else FirstFailure(checks[n + 1..])
  {
    assert checks[n..][1..] == checks[n + 1..];
  }

  /** The checks of `main` in the order the program makes them. A missing
      argument ends the run with the usage text and success. */
  function Checks(env: Environment): seq<Check> {
    [ Check(env.argCount >= 2, EXIT_OK),
      Check(env.loadSucceeds, EXIT_LOAD_FAILED),
      Check(MatchOf(env).Found?, EXIT_NOT_FOUND),
      Check(LanguageOf(env) != 0, EXIT_NO_LANGUAGE),
      Check(env.beginSucceeds, EXIT_BEGIN_FAILED),
      Check(ApplyFix(env.signature).Some?, EXIT_UNEXPECTED_SIGNATURE),
      Check(env.updateSucceeds, EXIT_UPDATE_FAILED),
      Check(env.endSucceeds, EXIT_END_FAILED) ]
  }

  /** The exit code is that of the first check that fails, in program order. */
  lemma {:induction false} ExitCodeFollowsProgramOrder(env: Environment)
    ensures Run(env).exitCode == FirstFailure(Checks(env))
  {
    var c := Checks(env);
    assert c[0..] == c;
    FirstFailureStep(c, 0); FirstFailureStep(c, 1); FirstFailureStep(c, 2); FirstFailureStep(c, 3);
    FirstFailureStep(c, 4); FirstFailureStep(c, 5); FirstFailureStep(c, 6); FirstFailureStep(c, 7);
    assert c[|c|..] == [];
  }

  /** Exit 0 after doing real work means every step succeeded. */
  lemma SuccessMeansEveryStepSucceeded(env: Environment)
    requires env.argCount >= 2
    ensures Run(env).exitCode == EXIT_OK <==>
      Loaded(env) && MatchOf(env).Found? && LanguageOf(env) != 0 &&
      env.beginSucceeds && ApplyFix(env.signature).Some? &&
      env.updateSucceeds && env.endSucceeds
    ensures Run(env).exitCode == EXIT_OK ==>
      Run(env).calls[|Run(env).calls| - 1] == EndUpdate
  {
  }

  // ---------------------------------------------------------------------
  // Which calls each outcome implies

  /** No match: exit 6, and the update session is never begun, so no
      update call and no end call is made either. */
  lemma NoMatchNoUpdateSession(env: Environment)
    requires Loaded(env) && MatchOf(env).NotFound?
    ensures Run(env).exitCode == EXIT_NOT_FOUND
    ensures forall i :: 0 <= i < |Run(env).calls| ==> !IsWrite(Run(env).calls[i])
  {
  }

  /** Every write call in any run is preceded by a successful match with a
      non-zero language. */
  lemma WritesNeedMatchAndLanguage(env: Environment)
    requires exists i :: 0 <= i < |Run(env).calls| && IsWrite(Run(env).calls[i])
    ensures Loaded(env) && MatchOf(env).Found? && LanguageOf(env) != 0
  {
  }

  /** A zero or absent language stops the run with 7 while the module is
      still loaded: neither the release nor any write call happens. */
  lemma NoLanguageStopsBeforeRelease(env: Environment)
    requires Loaded(env) && MatchOf(env).Found?
    ensures Run(env).exitCode == EXIT_NO_LANGUAGE <==> LanguageOf(env) == 0
    ensures LanguageOf(env) == 0 ==>
      forall i :: 0 <= i < |Run(env).calls| ==>
        Run(env).calls[i] != FreeLibrary && !IsWrite(Run(env).calls[i])
  {
  }

  /** The read-only module is released before the update session begins. */
  lemma ReleaseBeforeBegin(env: Environment)
    ensures forall i :: 0 <= i < |Run(env).calls| && Run(env).calls[i] == BeginUpdate ==>
      exists j :: 0 <= j < i && Run(env).calls[j] == FreeLibrary
  {
    var calls := Run(env).calls;
    if BeginUpdate in calls {
      assert calls[3] == FreeLibrary;
    }
  }

  /** A failed begin gives 2, whatever byte 0 of the signature holds: the
      byte-0 check comes after the begin. */
  lemma BeginFailureComesFirst(env: Environment)
    requires Loaded(env) && MatchOf(env).Found? && LanguageOf(env) != 0
    requires !env.beginSucceeds
    ensures Run(env).exitCode == EXIT_BEGIN_FAILED
    ensures forall i :: 0 <= i < |Run(env).calls| ==>
      !Run(env).calls[i].UpdateResource? && !Run(env).calls[i].EndUpdate?
  {
  }

  /** Exit 3 happens exactly when the session has begun and the fix refuses
      the signature; the session is then left begun, never updated, never
      ended. */
  lemma UnexpectedSignatureLeavesSessionOpen(env: Environment)
    ensures Run(env).exitCode == EXIT_UNEXPECTED_SIGNATURE <==>
      ReachesHotspotCheck(env) && ApplyFix(env.signature).None?
    ensures Run(env).exitCode == EXIT_UNEXPECTED_SIGNATURE ==>
      var calls := Run(env).calls;
      |calls| > 0 && calls[|calls| - 1] == BeginUpdate &&
      forall i :: 0 <= i < |calls| ==> !calls[i].UpdateResource? && !calls[i].EndUpdate?
  {
  }

  /** What an update call writes: the matched identity, its first reported
      language, and the signature with byte 0 moved from 8 to 10 and every
      other byte unchanged. */
  lemma UpdateWritesFixedSignature(env: Environment, i: int)
    requires 0 <= i < |Run(env).calls| && Run(env).calls[i].UpdateResource?
    ensures MatchOf(env).Found?
    ensures Run(env).calls[i].id == env.cursors[MatchOf(env).index].id
    ensures Run(env).calls[i].language == LanguageOf(env) != 0
    ensures env.signature[0] == ORIGINAL_HOTSPOT_X
    ensures |Run(env).calls[i].data| == |env.signature|
    ensures Run(env).calls[i].data[0] == CORRECTED_HOTSPOT_X
    ensures forall k :: 0 < k < |env.signature| ==> Run(env).calls[i].data[k] == env.signature[k]
  {
  }

  // ---------------------------------------------------------------------
  // The empty signature

  /** A run that reaches the byte-0 check with an empty signature: an empty
      signature.bin and one zero-length cursor. The program as written reads
      byte 0 of the empty buffer here, outside the precondition of
      ApplyFixAsWritten. */
  lemma EmptySignatureReachesHotspotRead()
    ensures var env := Environment(2, [], true, [Entry(NumericId(1), Some([]), [0x409])], true, true, true);
      ReachesHotspotCheck(env) && |env.signature| == 0
  {
  }

  /** With the corrected fix an empty signature is refused with exit 3 and
      nothing is written. */
  lemma EmptySignatureRefused(env: Environment)
    requires ReachesHotspotCheck(env) && |env.signature| == 0
    ensures Run(env).exitCode == EXIT_UNEXPECTED_SIGNATURE
    ensures forall i :: 0 <= i < |Run(env).calls| ==> !Run(env).calls[i].UpdateResource?
  {
  }
}
