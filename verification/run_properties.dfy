/**
 * What `run_filter` promises about a whole run: how it ends (exit code 0,
 * exit code 1, or a panic), which effects it has on the repository and in
 * which order, and what the default input without `--file` amounts to.
 */
module RunProperties {
  import opened Wrappers
  import Text
  import FileRegex
  import opened Views
  import opened JoshFilter

  /** The effects of the entries from `lo` up to, not including, `hi`, in order. */
  function EffectsBetween(steps: seq<Step>, lo: nat, hi: nat): seq<Effect>
    requires lo <= hi <= |steps|
    decreases hi - lo
  {
    if lo == hi then [] else steps[lo].effects + EffectsBetween(steps, lo + 1, hi)
  }

  /** The first entry at or after `k` that ends the run, or `|steps|` when none does. */
  function FirstStop(steps: seq<Step>, k: nat): (j: nat)
    requires k <= |steps|
    ensures k <= j <= |steps|
    ensures j < |steps| ==> steps[j].Stop?
    ensures forall i :: k <= i < j ==> steps[i].Continue?
    decreases |steps| - k
  {
    if k == |steps| || steps[k].Stop? then k else FirstStop(steps, k + 1)
  }

  /** Entry `k`'s source resolves to a reference whose name is UTF-8. */
  predicate Resolves(k: nat, a: Action, repo: Repo)
  {
    repo.revparseExt(k, a.src).Reference? && repo.revparseExt(k, a.src).name.Some?
  }

  /** The name of the reference entry `k`'s source resolves to. */
  function SourceRef(k: nat, a: Action, repo: Repo): string
    requires Resolves(k, a, repo)
  {
    repo.revparseExt(k, a.src).name.value
  }

  /**
   * In reverse mode, every lookup of entry `k` before `unapply_view`
   * succeeds: the source resolves, and so do the edited target and the
   * temporary revision.
   */
  predicate ReachesUnapply(k: nat, a: Action, repo: Repo)
  {
    && Resolves(k, a, repo)
    && repo.revparseSingle(k, a.target).Some?
    && repo.revparseSingle(k, TmpRevision).Some?
  }

  /** What `unapply_view` reports for entry `k`, from the temporary commit to the edited one. */
  function Unapplied(k: nat, a: Action, repo: Repo): UnapplyOutcome
    requires ReachesUnapply(k, a, repo)
  {
    repo.unapply(k, repo.revparseSingle(k, TmpRevision).value, repo.revparseSingle(k, a.target).value)
  }

  /** In reverse mode, entry `k` gets through: `unapply_view` is `Done` and its source ref is moved. */
  predicate UnapplySucceeds(k: nat, a: Action, repo: Repo)
  {
    && ReachesUnapply(k, a, repo)
    && Unapplied(k, a, repo).Done?
    && repo.reference(k, SourceRef(k, a, repo), Unapplied(k, a, repo).rewritten)
  }

  /**
   * The run from entry `k`: the effects of every entry up to and including
   * the first one that stops are applied, in order, and the run ends with
   * that entry's status, or with exit code 0 when every entry goes on.
   */
  lemma {:induction false} RunFromFirstStop(steps: seq<Step>, k: nat)
    requires k <= |steps|
    ensures var j := FirstStop(steps, k);
      RunFrom(steps, k)
      == if j == |steps| then (Exited(0), EffectsBetween(steps, k, j))
         else (steps[j].status, EffectsBetween(steps, k, j + 1))
    decreases |steps| - k
  {
    if k < |steps| {
      if steps[k].Continue? {
        RunFromFirstStop(steps, k + 1);
      } else {
        assert FirstStop(steps, k) == k;
        assert RunFrom(steps, k) == (steps[k].status, steps[k].effects);
        assert EffectsBetween(steps, k + 1, k + 1) == [];
        assert EffectsBetween(steps, k, k + 1) == steps[k].effects + [] == steps[k].effects;
      }
    }
  }

  /**
   * How one entry can end the run: a planning error or a failed lookup
   * panics, and the only exit code an entry returns is 1, in reverse mode,
   * when every lookup succeeded and `unapply_view` did not report `Done` —
   * after the view was applied once and before any ref is rewritten.
   */
  lemma StepExitCode(k: nat, planned: Result<Action, Panic>, reverse: bool, repo: Repo)
    ensures var st := StepEntry(k, planned, reverse, repo);
      st.Stop? && st.status.Exited? ==>
        && st.status.code == 1
        && reverse
        && planned.Ok?
        && ReachesUnapply(k, planned.value, repo)
        && Unapplied(k, planned.value, repo) == NotDone
        && st.effects == [Applied(planned.value.view, SourceRef(k, planned.value, repo), planned.value.targetRef)]
  {
  }

  /** `StepExitCode`, the converse: in reverse mode an `unapply_view` that is not `Done` ends the run with exit code 1. */
  lemma UnapplyNotDoneExitsOne(k: nat, a: Action, repo: Repo, name: string, edited: Oid, staged: Oid)
    requires repo.revparseExt(k, a.src) == Reference(Some(name))
    requires repo.revparseSingle(k, a.target) == Some(edited)
    requires repo.revparseSingle(k, TmpRevision) == Some(staged)
    requires repo.unapply(k, staged, edited) == NotDone
    ensures StepEntry(k, Ok(a), true, repo) == Stop(Exited(1), [Applied(a.view, name, a.targetRef)])
  {
  }

  /**
   * Without `--reverse` an entry goes on exactly when its source resolves to
   * a reference with a UTF-8 name; it then applies its view from that ref to
   * its ref, and otherwise panics before applying anything.
   */
  lemma ForwardStep(k: nat, a: Action, repo: Repo)
    ensures var st := Execute(k, a, false, repo);
      var found := repo.revparseExt(k, a.src);
      && (st.Continue? <==> found.Reference? && found.name.Some?)
      && (st.Continue? ==> st.effects == [Applied(a.view, found.name.value, a.targetRef)])
      && (st.Stop? ==> st.status.Panicked? && st.effects == [])
  {
  }

  /**
   * With `--reverse` an entry that goes on has applied its view to its
   * target ref (`refs/JOSH_TMP` for an entry `PlanEntry` planned with
   * `--reverse`) and then moved the very ref it read from to the commit
   * `unapply_view` rewrote.
   */
  lemma ReverseStep(k: nat, a: Action, repo: Repo)
    ensures var st := Execute(k, a, true, repo);
      st.Continue? ==>
        && repo.revparseExt(k, a.src).Reference?
        && repo.revparseExt(k, a.src).name.Some?
        && var name := repo.revparseExt(k, a.src).name.value;
           && repo.revparseSingle(k, a.target).Some?
           && repo.revparseSingle(k, TmpRevision).Some?
           && var outcome := repo.unapply(k, repo.revparseSingle(k, TmpRevision).value, repo.revparseSingle(k, a.target).value);
              && outcome.Done?
              && repo.reference(k, name, outcome.rewritten)
              && st.effects == [Applied(a.view, name, a.targetRef), Rewrote(name, outcome.rewritten)]
  {
  }

  /**
   * `ReverseStep`, the converse: in reverse mode an entry whose lookups
   * succeed, whose `unapply_view` is `Done` and whose ref update succeeds
   * goes on, having applied its view and moved its source ref.
   */
  lemma UnapplyDoneContinues(k: nat, a: Action, repo: Repo)
    requires UnapplySucceeds(k, a, repo)
    ensures Execute(k, a, true, repo)
         == Continue([Applied(a.view, SourceRef(k, a, repo), a.targetRef),
                      Rewrote(SourceRef(k, a, repo), Unapplied(k, a, repo).rewritten)])
  {
  }

  /**
   * Entry `j` ends the run with exit code 1: in reverse mode, it is well
   * planned, its lookups succeed, and `unapply_view` is not `Done`.
   */
  predicate FailsToUnapply(plan: seq<Result<Action, Panic>>, reverse: bool, repo: Repo, j: nat)
  {
    && reverse
    && j < |plan|
    && plan[j].Ok?
    && ReachesUnapply(j, plan[j].value, repo)
    && Unapplied(j, plan[j].value, repo) == NotDone
  }

  /**
   * The exit codes of a run: 0 exactly when every entry goes on; 1 exactly
   * when, in reverse mode, the first entry that stops is one whose
   * `unapply_view` is not `Done`; every other way to end is a panic.
   */
  lemma {:induction false} PlanExitCode(plan: seq<Result<Action, Panic>>, reverse: bool, repo: Repo)
    ensures var steps := Steps(plan, reverse, repo);
      var status := RunFrom(steps, 0).0;
      && (status == Exited(0) <==> forall k :: 0 <= k < |steps| ==> steps[k].Continue?)
      && (status == Exited(1) <==> FailsToUnapply(plan, reverse, repo, FirstStop(steps, 0)))
      && (status.Exited? ==> status.code == 0 || status.code == 1)
  {
    var steps := Steps(plan, reverse, repo);
    RunFromFirstStop(steps, 0);
    var j := FirstStop(steps, 0);
    if j < |steps| {
      assert steps[j] == StepEntry(j, plan[j], reverse, repo);
      StepExitCode(j, plan[j], reverse, repo);
      if FailsToUnapply(plan, reverse, repo, j) {
        var a := plan[j].value;
        UnapplyNotDoneExitsOne(j, a, repo, SourceRef(j, a, repo),
          repo.revparseSingle(j, a.target).value, repo.revparseSingle(j, TmpRevision).value);
      }
    }
  }

  /** Effects of entries that each have exactly one: one per entry, in entry order. */
  lemma {:induction false} SingleEffects(steps: seq<Step>, lo: nat, hi: nat)
    requires lo <= hi <= |steps|
    requires forall i :: lo <= i < hi ==> |steps[i].effects| == 1
    ensures |EffectsBetween(steps, lo, hi)| == hi - lo
    ensures forall i :: lo <= i < hi ==> EffectsBetween(steps, lo, hi)[i - lo] == steps[i].effects[0]
    decreases hi - lo
  {
    if lo < hi {
      SingleEffects(steps, lo + 1, hi);
      var rest := EffectsBetween(steps, lo + 1, hi);
      var all := EffectsBetween(steps, lo, hi);
      assert all == steps[lo].effects + rest;
      forall i | lo < i < hi
        ensures all[i - lo] == steps[i].effects[0]
      {
        assert all[i - lo] == rest[i - (lo + 1)];
      }
    }
  }

  /**
   * A forward run that exits 0 applies exactly one view per entry, in entry
   * order: entry `k`'s composed view, from the ref its source resolved to,
   * to its target ref.
   */
  lemma {:induction false} ForwardRunAppliesEachEntry(plan: seq<Result<Action, Panic>>, repo: Repo)
    requires RunFrom(Steps(plan, false, repo), 0).0 == Exited(0)
    ensures var log := RunFrom(Steps(plan, false, repo), 0).1;
      && |log| == |plan|
      && forall k :: 0 <= k < |plan| ==>
           && plan[k].Ok?
           && repo.revparseExt(k, plan[k].value.src).Reference?
           && repo.revparseExt(k, plan[k].value.src).name.Some?
           && log[k] == Applied(plan[k].value.view, repo.revparseExt(k, plan[k].value.src).name.value, plan[k].value.targetRef)
  {
    var steps := Steps(plan, false, repo);
    RunFromFirstStop(steps, 0);
    PlanExitCode(plan, false, repo);
    forall k | 0 <= k < |plan|
      ensures plan[k].Ok?
      ensures repo.revparseExt(k, plan[k].value.src).Reference?
      ensures repo.revparseExt(k, plan[k].value.src).name.Some?
      ensures steps[k].effects == [Applied(plan[k].value.view, repo.revparseExt(k, plan[k].value.src).name.value, plan[k].value.targetRef)]
    {
      assert steps[k].Continue?;
      ForwardStep(k, plan[k].value, repo);
    }
    SingleEffects(steps, 0, |steps|);
  }

  /** Effects of entries that each have exactly two: two per entry, in entry order. */
  lemma {:induction false} PairEffects(steps: seq<Step>, lo: nat, hi: nat)
    requires lo <= hi <= |steps|
    requires forall i :: lo <= i < hi ==> |steps[i].effects| == 2
    ensures |EffectsBetween(steps, lo, hi)| == 2 * (hi - lo)
    ensures forall i :: lo <= i < hi ==>
      && EffectsBetween(steps, lo, hi)[2 * (i - lo)] == steps[i].effects[0]
      && EffectsBetween(steps, lo, hi)[2 * (i - lo) + 1] == steps[i].effects[1]
    decreases hi - lo
  {
    if lo < hi {
      PairEffects(steps, lo + 1, hi);
      var rest := EffectsBetween(steps, lo + 1, hi);
      var all := EffectsBetween(steps, lo, hi);
      assert all == steps[lo].effects + rest;
      forall i | lo < i < hi
        ensures all[2 * (i - lo)] == steps[i].effects[0]
        ensures all[2 * (i - lo) + 1] == steps[i].effects[1]
      {
        assert all[2 * (i - lo)] == rest[2 * (i - (lo + 1))];
        assert all[2 * (i - lo) + 1] == rest[2 * (i - (lo + 1)) + 1];
      }
    }
  }

  /**
   * A reverse run in which every entry is well planned and gets through
   * `unapply_view` exits 0, having applied each entry's view and then moved
   * its source ref to the rewritten commit, entry by entry.
   */
  lemma {:induction false} ReverseRunAllDone(plan: seq<Result<Action, Panic>>, repo: Repo)
    requires forall k: nat :: k < |plan| ==> plan[k].Ok? && UnapplySucceeds(k, plan[k].value, repo)
    ensures var run := RunFrom(Steps(plan, true, repo), 0);
      && run.0 == Exited(0)
      && |run.1| == 2 * |plan|
      && forall k: nat :: k < |plan| ==>
           && plan[k].Ok? && UnapplySucceeds(k, plan[k].value, repo)
           && run.1[2 * k] == Applied(plan[k].value.view, SourceRef(k, plan[k].value, repo), plan[k].value.targetRef)
           && run.1[2 * k + 1] == Rewrote(SourceRef(k, plan[k].value, repo), Unapplied(k, plan[k].value, repo).rewritten)
  {
    var steps := Steps(plan, true, repo);
    forall k | 0 <= k < |plan|
      ensures steps[k] == Continue([Applied(plan[k].value.view, SourceRef(k, plan[k].value, repo), plan[k].value.targetRef),
                                    Rewrote(SourceRef(k, plan[k].value, repo), Unapplied(k, plan[k].value, repo).rewritten)])
    {
      UnapplyDoneContinues(k, plan[k].value, repo);
    }
    assert FirstStop(steps, 0) == |steps|;
    RunFromFirstStop(steps, 0);
    assert RunFrom(steps, 0) == (Exited(0), EffectsBetween(steps, 0, |steps|));
    PairEffects(steps, 0, |steps|);
  }

  /** A forward run never returns exit code 1. */
  lemma ForwardRunNeverExitsOne(args: Args, fileContents: Option<string>, prefixes: View -> seq<Prefix>, repo: Repo)
    requires !args.reverse
    ensures Run(args, fileContents, prefixes, repo).0 != Exited(1)
  {
    PlanExitCode(Plan(InputText(fileContents, args), args, prefixes), args.reverse, repo);
  }

  /**
   * The exit codes of `run_filter`: 0 exactly when every entry goes on; 1
   * exactly when, with `--reverse`, the first entry that stops is one whose
   * `unapply_view` is not `Done`.
   */
  lemma RunExitCode(args: Args, fileContents: Option<string>, prefixes: View -> seq<Prefix>, repo: Repo)
    ensures var plan := Plan(InputText(fileContents, args), args, prefixes);
      var steps := Steps(plan, args.reverse, repo);
      var status := Run(args, fileContents, prefixes, repo).0;
      && (status == Exited(0) <==> forall k :: 0 <= k < |steps| ==> steps[k].Continue?)
      && (status == Exited(1) <==> FailsToUnapply(plan, args.reverse, repo, FirstStop(steps, 0)))
      && (status.Exited? ==> status.code == 0 || status.code == 1)
  {
    PlanExitCode(Plan(InputText(fileContents, args), args, prefixes), args.reverse, repo);
  }

  /** A text with no `[` holds no entry: the run does nothing and exits 0. */
  lemma NoEntryExitsZero(args: Args, fileContents: Option<string>, prefixes: View -> seq<Prefix>, repo: Repo)
    requires '[' !in InputText(fileContents, args)
    ensures Run(args, fileContents, prefixes, repo) == (Exited(0), [])
  {
    FileRegex.NoBracketNoCaptures(InputText(fileContents, args));
  }

  /**
   * Without `--file`, a `from_to` on one line and a `spec` without brackets
   * make exactly one entry, with those two texts as its groups.
   */
  lemma DefaultInputOneEntry(args: Args, prefixes: View -> seq<Prefix>)
    requires '\n' !in args.fromTo.GetOr("")
    requires '[' !in args.spec.GetOr("") && ']' !in args.spec.GetOr("")
    ensures Plan(InputText(None, args), args, prefixes)
         == [PlanEntry(FileRegex.Capture(args.fromTo.GetOr(""), args.spec.GetOr("")), args, prefixes)]
  {
    FileRegex.SingleBlock(args.fromTo.GetOr(""), args.spec.GetOr(""));
  }

  /**
   * Without `--file`, a `from_to` with no `:` (an absent one included) panics
   * on the first entry, before anything is applied.
   */
  lemma DefaultInputWithoutColon(args: Args, prefixes: View -> seq<Prefix>, repo: Repo)
    requires '\n' !in args.fromTo.GetOr("") && ':' !in args.fromTo.GetOr("")
    requires '[' !in args.spec.GetOr("") && ']' !in args.spec.GetOr("")
    ensures Run(args, None, prefixes, repo) == (Panicked(MissingColon), [])
  {
    var src := args.fromTo.GetOr("");
    DefaultInputOneEntry(args, prefixes);
    Text.TrimKeepsNonWhitespace(src, ':');
    var plan := Plan(InputText(None, args), args, prefixes);
    assert plan[0] == Err(MissingColon);
  }
}
