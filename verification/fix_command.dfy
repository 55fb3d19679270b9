/** The `fix` command's loop over the validator's errors. For each error, in
    the order the validator reports them, the registered fixers are asked in
    turn whether they detect it; the first that does is used, and the rest
    are not asked. In a dry run the fix is skipped; otherwise it is applied,
    and a failure is reported without stopping the loop. A Go panic inside a
    fix ends the whole run. The command itself never returns an error. */
module FixCommand {
  import opened Files
  import opened Fixers
  import ReleaseFixer
  import LicenseFixer

  /** What the command reports for one error. */
  datatype Outcome =
    | Fixed(fixerType: string)
    | FixFailed(fixerType: string, err: FixError)
    | Skipped(fixerType: string)
    | NoFixer

  /** The state the loop threads from error to error: the outcomes so far,
      the fixers with their stored context, the file store, and whether a
      panic has ended the run. */
  datatype Run = Run(outcomes: seq<Outcome>, fixers: seq<Fixer>, store: Store, panicked: bool)

  /** The fixers the command registers, in priority order: license, then
      release. The duplicate-field fixer is not registered. */
  function RegisteredFixers(): seq<Fixer>
  {
    [License(""), Release("")]
  }

  /** The fixer list has the registered kinds in the registered order. */
  predicate HasRegisteredKinds(fixers: seq<Fixer>)
  {
    |fixers| == 2 && fixers[0].License? && fixers[1].Release?
  }

  /** The position of the first fixer whose `Detect` matches `e`. */
  function FirstMatch(fixers: seq<Fixer>, e: string, pats: Patterns): (r: Option<nat>)
    ensures r.Some? ==> r.value < |fixers| && Matches(fixers[r.value], e, pats)
    ensures r.Some? ==> forall j :: 0 <= j < r.value ==> !Matches(fixers[j], e, pats)
    ensures r.None? <==> forall j :: 0 <= j < |fixers| ==> !Matches(fixers[j], e, pats)
  {
    if |fixers| == 0 then None
    else if Matches(fixers[0], e, pats) then Some(0)
    else match FirstMatch(fixers[1..], e, pats)
      case None => None
      case Some(i) => Some(i + 1)
  }

  /** The first registered fixer that detects `e`, with what it captured:
      the license fixer whenever its pattern matches, the release fixer only
      when the license pattern does not, and none when neither does. */
  function Handler(e: string, pats: Patterns): (h: Option<Fixer>)
    ensures h.None? <==> !Matches(License(""), e, pats) && !Matches(Release(""), e, pats)
    ensures Matches(License(""), e, pats) ==> h == Some(License(pats.license(e).value))
    ensures !Matches(License(""), e, pats) && Matches(Release(""), e, pats) ==>
      h == Some(Release(pats.release(e).value))
  {
    var fs := RegisteredFixers();
    match FirstMatch(fs, e, pats)
    case None =>
      assert !Matches(fs[0], e, pats) && !Matches(fs[1], e, pats);
      None
    case Some(i) => Some(Detect(fs[i], e, pats).fixer)
  }

  /** Handle one error: one outcome is appended, unless the fix panics, in
      which case nothing is appended, nothing is written and the run is
      marked as ended. A dry run writes nothing. */
  function Step(run: Run, e: string, dryRun: bool, codec: Codec, pats: Patterns): (r: Run)
    requires !run.panicked
    ensures !r.panicked ==> |r.outcomes| == |run.outcomes| + 1 && r.outcomes[..|run.outcomes|] == run.outcomes
    ensures r.panicked ==> !dryRun && r.outcomes == run.outcomes && r.store == run.store
    ensures dryRun ==> r.store == run.store
    ensures |r.fixers| == |run.fixers|
  {
    match FirstMatch(run.fixers, e, pats)
    case None => run.(outcomes := run.outcomes + [NoFixer])
    case Some(i) =>
      var f := Detect(run.fixers[i], e, pats).fixer;
      if dryRun then
        run.(outcomes := run.outcomes + [Skipped(Type(f))], fixers := run.fixers[i := f])
      else
        var s := Fix(f, run.store, codec);
        match s.status
        case Done => Run(run.outcomes + [Fixed(Type(f))], run.fixers[i := s.fixer], s.store, false)
        case Failed(err) => Run(run.outcomes + [FixFailed(Type(f), err)], run.fixers[i := s.fixer], s.store, false)
        case Panicked => Run(run.outcomes, run.fixers[i := s.fixer], s.store, true)
  }

  /** Handle the errors in order, until they run out or a fix panics. The
      outcomes given are kept as a prefix; one outcome is appended per error
      when no fix panics, fewer when one does. A fix failure does not stop
      the loop. */
  function Process(errors: seq<string>, run: Run, dryRun: bool, codec: Codec, pats: Patterns): (r: Run)
    ensures run.panicked ==> r == run
    ensures |r.outcomes| >= |run.outcomes| && r.outcomes[..|run.outcomes|] == run.outcomes
    ensures !run.panicked && !r.panicked ==> |r.outcomes| == |run.outcomes| + |errors|
    ensures !run.panicked && r.panicked ==> |r.outcomes| < |run.outcomes| + |errors|
    decreases |errors|
  {
    if |errors| == 0 || run.panicked then run
    else
      var mid := Step(run, errors[0], dryRun, codec, pats);
      var r := Process(errors[1..], mid, dryRun, codec, pats);
      assert r.outcomes[..|run.outcomes|] == r.outcomes[..|mid.outcomes|][..|run.outcomes|];
      r
  }

  /** Whether a fixer matches depends only on its kind. */
  lemma MatchesByKind(fixers: seq<Fixer>, e: string, pats: Patterns)
    requires HasRegisteredKinds(fixers)
    ensures FirstMatch(fixers, e, pats) == FirstMatch(RegisteredFixers(), e, pats)
    ensures FirstMatch(fixers, e, pats).Some? ==>
      var i := FirstMatch(fixers, e, pats).value;
      Handler(e, pats) == Some(Detect(fixers[i], e, pats).fixer)
  {
    var r := RegisteredFixers();
    assert Matches(fixers[0], e, pats) == Matches(r[0], e, pats);
    assert Matches(fixers[1], e, pats) == Matches(r[1], e, pats);
    assert fixers[1..][0] == fixers[1] && r[1..][0] == r[1];
  }

  /** The outcome reported for error `e`: "no fixer" exactly when no
      registered fixer detects it; otherwise the type of the first fixer that
      does, skipped in a dry run and fixed or failed otherwise. */
  ghost predicate Reports(o: Outcome, e: string, dryRun: bool, pats: Patterns)
  {
    match Handler(e, pats)
    case None => o == NoFixer
    case Some(f) =>
      if dryRun then o == Skipped(Type(f))
      else o == Fixed(Type(f)) || (o.FixFailed? && o.fixerType == Type(f))
  }

  /** A fix can panic only when the error goes to the license fixer, or to
      the release fixer for a manifest file. */
  ghost predicate CanPanic(e: string, pats: Patterns)
  {
    Handler(e, pats).Some? &&
    (Handler(e, pats).value.License? || ReleaseFixer.IsManifestFile(Target(Handler(e, pats).value)))
  }

  /** What handling error `e` does, taking the store from `before` to
      `after` and reporting `o`. With no registered fixer detecting it: "no
      fixer", nothing written. In a dry run: skipped, nothing written.
      Otherwise the handler's fix runs on `before`, and `after` is the store
      it leaves: a success is reported as fixed, and a returned error as a
      failure carrying that very error, with the store untouched. A fix that
      panics has no outcome, since the run ends there. */
  ghost predicate Effect(before: Store, after: Store, o: Outcome, e: string, dryRun: bool, codec: Codec, pats: Patterns)
  {
    match Handler(e, pats)
    case None => o == NoFixer && after == before
    case Some(f) =>
      if dryRun then o == Skipped(Type(f)) && after == before
      else
        var s := Fix(f, before, codec);
        && after == s.store
        && !s.status.Panicked?
        && (s.status.Done? ==> o == Fixed(Type(f)))
        && (s.status.Failed? ==> o == FixFailed(Type(f), s.status.err) && after == before)
  }

  /** `Effect` as a relation, for one choice of mode, codec and patterns. */
  ghost function EffectOf(dryRun: bool, codec: Codec, pats: Patterns): (Store, Store, Outcome, string) -> bool
  {
    (b, a, o, e) => Effect(b, a, o, e, dryRun, codec, pats)
  }

  /** The handler of `e`, run on store `st`, panics. */
  ghost predicate FixPanics(e: string, st: Store, codec: Codec, pats: Patterns)
  {
    Handler(e, pats).Some? && Fix(Handler(e, pats).value, st, codec).status.Panicked?
  }

  /** No error in `errors` is handled by a fixer targeting `p`. */
  ghost predicate NotTargeted(p: Path, errors: seq<string>, pats: Patterns)
  {
    forall i :: 0 <= i < |errors| ==> Handler(errors[i], pats).None? || Target(Handler(errors[i], pats).value) != p
  }

  /** A step keeps the fixer list's kinds: only the context a fixer
      captured changes. */
  lemma StepKeepsKinds(run: Run, e: string, dryRun: bool, codec: Codec, pats: Patterns)
    requires !run.panicked && HasRegisteredKinds(run.fixers)
    ensures HasRegisteredKinds(Step(run, e, dryRun, codec, pats).fixers)
  {
  }

  /** The outcome one step appends is the one its error calls for. */
  lemma StepReports(run: Run, e: string, dryRun: bool, codec: Codec, pats: Patterns)
    requires !run.panicked && HasRegisteredKinds(run.fixers)
    ensures var r := Step(run, e, dryRun, codec, pats);
      !r.panicked ==> |r.outcomes| > |run.outcomes| && Reports(r.outcomes[|run.outcomes|], e, dryRun, pats)
  {
    MatchesByKind(run.fixers, e, pats);
    match FirstMatch(run.fixers, e, pats)
    case None =>
    case Some(i) =>
      var f := Detect(run.fixers[i], e, pats).fixer;
      assert Handler(e, pats) == Some(f);
  }

  /** The outcome and the store one step leaves are those its handler's fix
      calls for. */
  lemma StepEffect(run: Run, e: string, dryRun: bool, codec: Codec, pats: Patterns, r: Run)
    requires !run.panicked && HasRegisteredKinds(run.fixers)
    requires r == Step(run, e, dryRun, codec, pats) && !r.panicked
    ensures Effect(run.store, r.store, r.outcomes[|run.outcomes|], e, dryRun, codec, pats)
  {
    MatchesByKind(run.fixers, e, pats);
    match FirstMatch(run.fixers, e, pats)
    case None =>
    case Some(i) =>
      var f := Detect(run.fixers[i], e, pats).fixer;
      assert Handler(e, pats) == Some(f);
  }

  /** A step panics exactly when it is not a dry run and its handler's fix
      panics. */
  lemma StepPanics(run: Run, e: string, dryRun: bool, codec: Codec, pats: Patterns)
    requires !run.panicked && HasRegisteredKinds(run.fixers)
    ensures var r := Step(run, e, dryRun, codec, pats);
      r.panicked <==> !dryRun && FixPanics(e, run.store, codec, pats)
  {
    MatchesByKind(run.fixers, e, pats);
    match FirstMatch(run.fixers, e, pats)
    case None =>
    case Some(i) =>
      var f := Detect(run.fixers[i], e, pats).fixer;
      assert Handler(e, pats) == Some(f);
  }

  /** One step writes nothing in a dry run and otherwise touches no file but
      the target of the error's handler. */
  lemma StepStore(run: Run, e: string, dryRun: bool, codec: Codec, pats: Patterns)
    requires !run.panicked && HasRegisteredKinds(run.fixers)
    ensures var r := Step(run, e, dryRun, codec, pats);
      && (dryRun ==> !r.panicked && r.store == run.store)
      && r.store.readOnly == run.store.readOnly
      && r.store.files.Keys == run.store.files.Keys
      && (forall p :: p in run.store.files && (Handler(e, pats).None? || Target(Handler(e, pats).value) != p) ==>
            r.store.files[p] == run.store.files[p])
  {
    MatchesByKind(run.fixers, e, pats);
    match FirstMatch(run.fixers, e, pats)
    case None =>
    case Some(i) =>
      var f := Detect(run.fixers[i], e, pats).fixer;
      assert Handler(e, pats) == Some(f);
  }

  /** `P` holds of each outcome in `outs` and the error at the same position
      in `errs`. */
  ghost predicate Pointwise(outs: seq<Outcome>, errs: seq<string>, P: (Outcome, string) -> bool)
    decreases |outs|
  {
    && |outs| <= |errs|
    && (|outs| == 0 || (P(outs[0], errs[0]) && Pointwise(outs[1..], errs[1..], P)))
  }

  /** `Pointwise` read position by position. */
  lemma {:induction false} PointwiseAt(outs: seq<Outcome>, errs: seq<string>, P: (Outcome, string) -> bool, i: nat)
    requires Pointwise(outs, errs, P) && i < |outs|
    ensures i < |errs| && P(outs[i], errs[i])
    decreases i
  {
    if i > 0 {
      PointwiseAt(outs[1..], errs[1..], P, i - 1);
      assert outs[1..][i - 1] == outs[i] && errs[1..][i - 1] == errs[i];
    }
  }

  /** Extending a pointwise-checked suffix by the outcome just before it. */
  lemma PointwiseExtend(n: nat, mid: seq<Outcome>, outs: seq<Outcome>, errs: seq<string>, P: (Outcome, string) -> bool)
    requires |errs| > 0 && |mid| == n + 1 && |outs| >= n + 1 && outs[..n + 1] == mid
    requires P(mid[n], errs[0]) && Pointwise(outs[n + 1..], errs[1..], P)
    ensures Pointwise(outs[n..], errs, P)
  {
    assert outs[n] == outs[..n + 1][n];
    assert outs[n..][1..] == outs[n + 1..];
  }

  /** `trace` lists the stores a run goes through, and `P` relates each
      store to the next together with the outcome and the error at that
      position in `outs` and `errs`. */
  ghost predicate Replays(trace: seq<Store>, outs: seq<Outcome>, errs: seq<string>, P: (Store, Store, Outcome, string) -> bool)
    decreases |outs|
  {
    && |trace| == |outs| + 1 && |outs| <= |errs|
    && (|outs| == 0 ||
        (P(trace[0], trace[1], outs[0], errs[0]) && Replays(trace[1..], outs[1..], errs[1..], P)))
  }

  /** `Replays` read position by position. */
  lemma {:induction false} ReplaysAt(trace: seq<Store>, outs: seq<Outcome>, errs: seq<string>,
                                     P: (Store, Store, Outcome, string) -> bool, i: nat)
    requires Replays(trace, outs, errs, P) && i < |outs|
    ensures i < |errs| && i + 1 < |trace| && P(trace[i], trace[i + 1], outs[i], errs[i])
    decreases i
  {
    if i > 0 {
      ReplaysAt(trace[1..], outs[1..], errs[1..], P, i - 1);
      assert outs[1..][i - 1] == outs[i] && errs[1..][i - 1] == errs[i];
      assert trace[1..][i - 1] == trace[i] && trace[1..][i] == trace[i + 1];
    }
  }

  /** `Replays` read at every position at once. */
  lemma ReplaysPointwise(trace: seq<Store>, outs: seq<Outcome>, errs: seq<string>, P: (Store, Store, Outcome, string) -> bool)
    requires Replays(trace, outs, errs, P)
    ensures |trace| == |outs| + 1 && |outs| <= |errs|
    ensures forall i :: 0 <= i < |outs| ==> P(trace[i], trace[i + 1], outs[i], errs[i])
  {
    forall i | 0 <= i < |outs|
      ensures P(trace[i], trace[i + 1], outs[i], errs[i])
    {
      ReplaysAt(trace, outs, errs, P, i);
    }
  }

  /** A replay extended by the step just before it: if the outcome at
      position `n` takes `before` to `mid`, and the outcomes after it replay
      from `mid` to `last`, the outcomes from `n` on replay from `before` to
      `last`. */
  lemma ReplaysExtend(n: nat, before: Store, mid: Store, last: Store, outs: seq<Outcome>, errs: seq<string>,
                      P: (Store, Store, Outcome, string) -> bool)
    requires |errs| > 0 && |outs| > n
    requires P(before, mid, outs[n], errs[0])
    requires exists t :: Replays(t, outs[n + 1..], errs[1..], P) && t[0] == mid && t[|t| - 1] == last
    ensures exists trace :: Replays(trace, outs[n..], errs, P) && trace[0] == before && trace[|trace| - 1] == last
  {
    var t :| Replays(t, outs[n + 1..], errs[1..], P) && t[0] == mid && t[|t| - 1] == last;
    ReplaysCons(before, t, outs[n..], errs, P);
    assert ([before] + t)[|t|] == last;
  }

  /** One more store in front of a replay, for the outcome and error in
      front of it. */
  lemma ReplaysCons(before: Store, t: seq<Store>, outs: seq<Outcome>, errs: seq<string>,
                    P: (Store, Store, Outcome, string) -> bool)
    requires |outs| > 0 && |errs| > 0 && |t| > 0
    requires P(before, t[0], outs[0], errs[0]) && Replays(t, outs[1..], errs[1..], P)
    ensures Replays([before] + t, outs, errs, P) && ([before] + t)[0] == before
  {
    assert ([before] + t)[1..] == t;
  }

  /** The replay of the rest of the loop, from the store the first step
      reached, extended by that first step. */
  lemma TraceCons(errors: seq<string>, run: Run, mid: Run, r: Run, dryRun: bool, codec: Codec, pats: Patterns)
    requires !run.panicked && HasRegisteredKinds(run.fixers) && |errors| > 0
    requires mid == Step(run, errors[0], dryRun, codec, pats) && !mid.panicked
    requires r == Process(errors[1..], mid, dryRun, codec, pats)
    requires exists t :: Replays(t, r.outcomes[|mid.outcomes|..], errors[1..], EffectOf(dryRun, codec, pats))
                         && t[0] == mid.store && t[|t| - 1] == r.store
    ensures exists trace :: Replays(trace, r.outcomes[|run.outcomes|..], errors, EffectOf(dryRun, codec, pats))
                            && trace[0] == run.store && trace[|trace| - 1] == r.store
  {
    var n := |run.outcomes|;
    var P := EffectOf(dryRun, codec, pats);
    assert P(run.store, mid.store, r.outcomes[n], errors[0]) by {
      StepEffect(run, errors[0], dryRun, codec, pats, mid);
      assert r.outcomes[n] == r.outcomes[..n + 1][n];
    }
    ReplaysExtend(n, run.store, mid.store, r.store, r.outcomes, errors, P);
  }

  /** The loop goes through a sequence of stores, from the one it is given
      to the one it ends with, each outcome it appends being the `Effect` of
      its error from one store to the next. */
  lemma {:induction false} ProcessTrace(errors: seq<string>, run: Run, dryRun: bool, codec: Codec, pats: Patterns)
    requires !run.panicked && HasRegisteredKinds(run.fixers)
    ensures var r := Process(errors, run, dryRun, codec, pats);
      exists trace :: Replays(trace, r.outcomes[|run.outcomes|..], errors, EffectOf(dryRun, codec, pats))
                      && trace[0] == run.store && trace[|trace| - 1] == r.store
    decreases |errors|
  {
    var n := |run.outcomes|;
    var P := EffectOf(dryRun, codec, pats);
    var r := Process(errors, run, dryRun, codec, pats);
    if |errors| == 0 {
      assert r.outcomes[n..] == [];
      assert Replays([run.store], r.outcomes[n..], errors, P);
    } else {
      var mid := Step(run, errors[0], dryRun, codec, pats);
      assert r == Process(errors[1..], mid, dryRun, codec, pats);
      if !mid.panicked {
        StepKeepsKinds(run, errors[0], dryRun, codec, pats);
        ProcessTrace(errors[1..], mid, dryRun, codec, pats);
        TraceCons(errors, run, mid, r, dryRun, codec, pats);
      } else {
        assert r == mid && r.store == run.store;
        assert r.outcomes[n..] == [];
        assert Replays([run.store], r.outcomes[n..], errors, P);
      }
    }
  }

  /** Only an error that can panic has a handler whose fix panics. */
  lemma FixPanicsCanPanic(e: string, st: Store, codec: Codec, pats: Patterns)
    requires FixPanics(e, st, codec, pats)
    ensures CanPanic(e, pats)
  {
  }

  /** A panic later in the loop, seen from before its first step. */
  lemma PanicsCons(errors: seq<string>, run: Run, mid: Run, r: Run, dryRun: bool, codec: Codec, pats: Patterns)
    requires |errors| > 0 && |mid.outcomes| == |run.outcomes| + 1
    requires r.panicked ==> |mid.outcomes| <= |r.outcomes| < |mid.outcomes| + |errors[1..]|
                            && !dryRun && FixPanics(errors[1..][|r.outcomes| - |mid.outcomes|], r.store, codec, pats)
    ensures r.panicked ==> |run.outcomes| <= |r.outcomes| < |run.outcomes| + |errors|
                           && !dryRun && FixPanics(errors[|r.outcomes| - |run.outcomes|], r.store, codec, pats)
  {
    if r.panicked {
      assert errors[|r.outcomes| - |run.outcomes|] == errors[1..][|r.outcomes| - |mid.outcomes|];
    }
  }

  /** The run stops early only outside a dry run, where an error's handler
      panics on the store reached by then. */
  lemma {:induction false} ProcessPanics(errors: seq<string>, run: Run, dryRun: bool, codec: Codec, pats: Patterns)
    requires !run.panicked && HasRegisteredKinds(run.fixers)
    ensures var r := Process(errors, run, dryRun, codec, pats);
      r.panicked ==> |run.outcomes| <= |r.outcomes| < |run.outcomes| + |errors|
                     && !dryRun && FixPanics(errors[|r.outcomes| - |run.outcomes|], r.store, codec, pats)
    decreases |errors|
  {
    var n := |run.outcomes|;
    if |errors| > 0 {
      var mid := Step(run, errors[0], dryRun, codec, pats);
      var r := Process(errors, run, dryRun, codec, pats);
      assert r == Process(errors[1..], mid, dryRun, codec, pats);
      if !mid.panicked {
        StepKeepsKinds(run, errors[0], dryRun, codec, pats);
        ProcessPanics(errors[1..], mid, dryRun, codec, pats);
        PanicsCons(errors, run, mid, r, dryRun, codec, pats);
      } else {
        assert r == mid && |r.outcomes| == n;
        StepPanics(run, errors[0], dryRun, codec, pats);
      }
    }
  }

  /** `Reports` as a relation, for one mode and one set of patterns. */
  ghost function ReportsOf(dryRun: bool, pats: Patterns): (Outcome, string) -> bool
  {
    (o, e) => Reports(o, e, dryRun, pats)
  }

  /** The outcomes of the rest of the loop, checked against their errors,
      extended by the outcome of the first step. */
  lemma ReportsCons(errors: seq<string>, run: Run, mid: Run, r: Run, dryRun: bool, codec: Codec, pats: Patterns)
    requires !run.panicked && HasRegisteredKinds(run.fixers) && |errors| > 0
    requires mid == Step(run, errors[0], dryRun, codec, pats) && !mid.panicked
    requires r == Process(errors[1..], mid, dryRun, codec, pats)
    requires |r.outcomes| >= |mid.outcomes| && Pointwise(r.outcomes[|mid.outcomes|..], errors[1..], ReportsOf(dryRun, pats))
    ensures Pointwise(r.outcomes[|run.outcomes|..], errors, ReportsOf(dryRun, pats))
  {
    var n := |run.outcomes|;
    var P := ReportsOf(dryRun, pats);
    assert P(mid.outcomes[n], errors[0]) by {
      StepReports(run, errors[0], dryRun, codec, pats);
    }
    PointwiseExtend(n, mid.outcomes, r.outcomes, errors, P);
  }

  /** Each outcome the loop appends is the one its error calls for, in the
      order of the errors. */
  lemma {:induction false} ProcessReports(errors: seq<string>, run: Run, dryRun: bool, codec: Codec, pats: Patterns)
    requires !run.panicked && HasRegisteredKinds(run.fixers)
    ensures var r := Process(errors, run, dryRun, codec, pats);
      |r.outcomes| >= |run.outcomes|
      && Pointwise(r.outcomes[|run.outcomes|..], errors, ReportsOf(dryRun, pats))
    decreases |errors|
  {
    var n := |run.outcomes|;
    var P := ReportsOf(dryRun, pats);
    if |errors| > 0 {
      var mid := Step(run, errors[0], dryRun, codec, pats);
      assert Process(errors, run, dryRun, codec, pats) == Process(errors[1..], mid, dryRun, codec, pats);
      if !mid.panicked {
        StepKeepsKinds(run, errors[0], dryRun, codec, pats);
        ProcessReports(errors[1..], mid, dryRun, codec, pats);
        ReportsCons(errors, run, mid, Process(errors[1..], mid, dryRun, codec, pats), dryRun, codec, pats);
      } else {
        assert Process(errors[1..], mid, dryRun, codec, pats) == mid;
        assert mid.outcomes[n..] == [];
      }
    } else {
      assert run.outcomes[n..] == [];
    }
  }

  /** Across the loop the set of files and the unwritable paths stay the
      same, a dry run writes nothing, and a file no error's handler targets
      keeps its contents. */
  lemma {:induction false} ProcessStore(errors: seq<string>, run: Run, dryRun: bool, codec: Codec, pats: Patterns)
    requires !run.panicked && HasRegisteredKinds(run.fixers)
    ensures var r := Process(errors, run, dryRun, codec, pats);
      && (dryRun ==> !r.panicked && r.store == run.store)
      && r.store.readOnly == run.store.readOnly
      && r.store.files.Keys == run.store.files.Keys
      && (forall p :: p in run.store.files && NotTargeted(p, errors, pats) ==> r.store.files[p] == run.store.files[p])
    decreases |errors|
  {
    if |errors| > 0 {
      var mid := Step(run, errors[0], dryRun, codec, pats);
      StepStore(run, errors[0], dryRun, codec, pats);
      if !mid.panicked {
        StepKeepsKinds(run, errors[0], dryRun, codec, pats);
        ProcessStore(errors[1..], mid, dryRun, codec, pats);
        var r := Process(errors[1..], mid, dryRun, codec, pats);
        forall p | p in run.store.files && NotTargeted(p, errors, pats)
          ensures r.store.files[p] == run.store.files[p]
        {
          assert NotTargeted(p, errors[1..], pats) by {
            forall i | 0 <= i < |errors| - 1
              ensures Handler(errors[1..][i], pats).None? || Target(Handler(errors[1..][i], pats).value) != p
            {
              assert errors[1..][i] == errors[i + 1];
            }
          }
          assert Handler(errors[0], pats).None? || Target(Handler(errors[0], pats).value) != p;
        }
      }
    }
  }

  /** `fix` over the errors validation returned (none when validation
      passed): one outcome per error, in order, each the one its error calls
      for, until a fix panics. The stores the run goes through replay the
      fixes one by one: each outcome is what its handler's fix returned on
      the store left by the fixes before it, and the run ends on the store
      the last of them left. A dry run writes nothing and cannot panic; the
      set of files never changes, and a file no error's handler targets keeps
      its contents. With no errors, no fixer is consulted. */
  function FixPackage(errors: seq<string>, dryRun: bool, st: Store, codec: Codec, pats: Patterns): (r: Run)
    ensures !r.panicked ==> |r.outcomes| == |errors|
    ensures r.panicked ==> |r.outcomes| < |errors| && !dryRun && CanPanic(errors[|r.outcomes|], pats)
    ensures r.panicked ==> FixPanics(errors[|r.outcomes|], r.store, codec, pats)
    ensures forall i :: 0 <= i < |r.outcomes| ==> Reports(r.outcomes[i], errors[i], dryRun, pats)
    ensures exists trace :: Replays(trace, r.outcomes, errors, EffectOf(dryRun, codec, pats))
                            && trace[0] == st && trace[|trace| - 1] == r.store
    ensures dryRun ==> !r.panicked && r.store == st
    ensures dryRun ==> forall i :: 0 <= i < |r.outcomes| ==> r.outcomes[i].Skipped? || r.outcomes[i].NoFixer?
    ensures r.store.readOnly == st.readOnly && r.store.files.Keys == st.files.Keys
    ensures forall p :: p in st.files && NotTargeted(p, errors, pats) ==> r.store.files[p] == st.files[p]
    ensures |errors| == 0 ==> r.outcomes == [] && r.store == st && r.fixers == RegisteredFixers()
  {
    var run := Run([], RegisteredFixers(), st, false);
    PanicsFromStart(errors, dryRun, st, codec, pats);
    ProcessStore(errors, run, dryRun, codec, pats);
    var r := Process(errors, run, dryRun, codec, pats);
    assert r.outcomes[0..] == r.outcomes;
    ReportsFromStart(errors, dryRun, st, codec, pats);
    ProcessTrace(errors, run, dryRun, codec, pats);
    r
  }

  /** `ProcessPanics` for a run that starts with no outcomes. */
  lemma PanicsFromStart(errors: seq<string>, dryRun: bool, st: Store, codec: Codec, pats: Patterns)
    ensures var r := Process(errors, Run([], RegisteredFixers(), st, false), dryRun, codec, pats);
      && (!r.panicked ==> |r.outcomes| == |errors|)
      && (r.panicked ==> && |r.outcomes| < |errors| && !dryRun
                         && FixPanics(errors[|r.outcomes|], r.store, codec, pats)
                         && CanPanic(errors[|r.outcomes|], pats))
  {
    var run := Run([], RegisteredFixers(), st, false);
    var r := Process(errors, run, dryRun, codec, pats);
    ProcessPanics(errors, run, dryRun, codec, pats);
    if r.panicked {
      FixPanicsCanPanic(errors[|r.outcomes|], r.store, codec, pats);
    }
  }

  /** `ProcessReports` for a run that starts with no outcomes. */
  lemma ReportsFromStart(errors: seq<string>, dryRun: bool, st: Store, codec: Codec, pats: Patterns)
    ensures var r := Process(errors, Run([], RegisteredFixers(), st, false), dryRun, codec, pats);
      && |r.outcomes| <= |errors|
      && (forall i :: 0 <= i < |r.outcomes| ==> Reports(r.outcomes[i], errors[i], dryRun, pats))
  {
    var run := Run([], RegisteredFixers(), st, false);
    var r := Process(errors, run, dryRun, codec, pats);
    ProcessReports(errors, run, dryRun, codec, pats);
    assert r.outcomes[0..] == r.outcomes;
    forall i | 0 <= i < |r.outcomes|
      ensures i < |errors| && Reports(r.outcomes[i], errors[i], dryRun, pats)
    {
      PointwiseAt(r.outcomes, errors, ReportsOf(dryRun, pats), i);
    }
  }
}
