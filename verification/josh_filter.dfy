/**
 * `run_filter` of the `josh-filter` command: it cuts the input text into
 * `[src:target]spec` entries, builds one filter term per entry, applies it,
 * and in reverse mode pushes the edited filtered branch back through the
 * filter. Everything the object store and the engine answer is an oracle
 * (`Repo`, `prefixes`); everything the driver decides itself is modelled.
 */
module JoshFilter {
  import opened Wrappers
  import Text
  import FileRegex
  import opened Views

  /** The parsed command line: positional `from_to` and `spec`, and the three flags. */
  datatype Args = Args(fromTo: Option<string>, spec: Option<string>, squash: bool, reverse: bool, infofile: bool)

  /** The ref the forward pass writes in reverse mode, and the revision read back from it. */
  const TmpRef: string := "refs/JOSH_TMP"
  const TmpRevision: string := "JOSH_TMP"

  /** An object id; its contents are the object store's business. */
  datatype Oid = Oid(hex: string)

  /**
   * `repo.revparse_ext(src)`: an error, an object that no reference names,
   * or a reference whose `name()` is UTF-8 (`Some`) or not (`None`).
   */
  datatype RefLookup = RevNotFound | NoReference | Reference(name: Option<string>)

  /** `josh::unapply_view`: `Done` with the rewritten commit, or any other outcome. */
  datatype UnapplyOutcome = Done(rewritten: Oid) | NotDone

  /**
   * The object store's and the engine's answers. Each takes the entry's
   * position, because earlier entries change the refs they read.
   */
  datatype Repo = Repo(
    revparseExt: (nat, string) -> RefLookup,
    revparseSingle: (nat, string) -> Option<Oid>,
    unapply: (nat, Oid, Oid) -> UnapplyOutcome,
    reference: (nat, string, Oid) -> bool)

  /** The `expect`/`unwrap` calls of `run_filter` that can panic. */
  datatype Panic =
    | MissingColon            // "from_to must contain \":\""
    | RefNotFound1            // "reference not found 1"
    | RefNotFound             // "reference not found"
    | RefNameNotUtf8          // `name().unwrap()`
    | TargetUnresolved        // `revparse_single(&target).unwrap()`
    | TmpUnresolved           // `revparse_single("JOSH_TMP").unwrap()`
    | CannotCreateReference   // "can't create reference"

  /** How `run_filter` ends: it returns an exit code, or it panics. */
  datatype Status = Exited(code: int) | Panicked(reason: Panic)

  /** What the driver does to the repository: an `apply_view_to_refs` call, or a `repo.reference` update. */
  datatype Effect =
    | Applied(view: View, srcRef: string, targetRef: string)
    | Rewrote(refName: string, commit: Oid)

  /** One planned entry: the source and target names, the ref to write, and the composed view. */
  datatype Action = Action(src: string, target: string, targetRef: string, view: View)

  /** What one loop iteration does: go on to the next entry, or end the run. */
  datatype Step = Continue(effects: seq<Effect>) | Stop(status: Status, effects: seq<Effect>)

  /**
   * The text the driver scans: the contents of `--file` when it was given
   * and could be read (`fileContents`), otherwise `"[" + from_to + "]" + spec`
   * with absent arguments read as empty.
   */
  function InputText(fileContents: Option<string>, args: Args): string
  {
    fileContents.GetOr("[" + args.fromTo.GetOr("") + "]" + args.spec.GetOr(""))
  }

  /**
   * One entry, planned from its capture groups: `from_to` is trimmed and cut
   * at its first `:`, the view text is trimmed, the view is composed with
   * the flags, and the ref to write is chosen.
   */
  function PlanEntry(c: FileRegex.Capture, args: Args, prefixes: View -> seq<Prefix>): (r: Result<Action, Panic>)
    ensures r.Ok? <==> ':' in Text.Trim(c.src)
    ensures r.Err? ==> r.error == MissingColon
    ensures r.Ok? ==> ':' !in r.value.src && r.value.src + ":" + r.value.target == Text.Trim(c.src)
    ensures r.Ok? && args.reverse ==> r.value.targetRef == TmpRef
    ensures r.Ok? && !args.reverse ==> r.value.targetRef == r.value.target
    ensures r.Ok? ==>
      var viewText := Text.Trim(c.spec);
      r.value.view == Compose(viewText, r.value.src, prefixes(Spec(viewText)), args.infofile, args.squash)
  {
    var fromTo := Text.Trim(c.src);
    match Text.SplitOnce(fromTo, ':')
    case None => Err(MissingColon)
    case Some(parts) =>
      var viewText := Text.Trim(c.spec);
      var view := Compose(viewText, parts.0, prefixes(Spec(viewText)), args.infofile, args.squash);
      Ok(Action(parts.0, parts.1, if args.reverse then TmpRef else parts.1, view))
  }

  /** The plan for a list of captures: one planned entry per capture, in order. */
  function PlanCaptures(caps: seq<FileRegex.Capture>, args: Args, prefixes: View -> seq<Prefix>): (plan: seq<Result<Action, Panic>>)
    ensures |plan| == |caps|
  {
    seq(|caps|, k requires 0 <= k < |caps| => PlanEntry(caps[k], args, prefixes))
  }

  /** The plan of a text: one planned entry per match of `FILE_REGEX`, in text order. */
  function Plan(text: string, args: Args, prefixes: View -> seq<Prefix>): seq<Result<Action, Panic>>
  {
    PlanCaptures(FileRegex.Captures(text), args, prefixes)
  }

  /** Entry `k` of the steps of a plan is the step of its `k`-th capture. */
  lemma StepOfCapture(caps: seq<FileRegex.Capture>, args: Args, prefixes: View -> seq<Prefix>, repo: Repo, k: nat)
    requires k < |caps|
    ensures Steps(PlanCaptures(caps, args, prefixes), args.reverse, repo)[k]
         == StepEntry(k, PlanEntry(caps[k], args, prefixes), args.reverse, repo)
  {
  }

  /** Running planned entry `k` against the repository's answers. */
  function Execute(k: nat, a: Action, reverse: bool, repo: Repo): Step
  {
    match repo.revparseExt(k, a.src)
    case RevNotFound => Stop(Panicked(RefNotFound1), [])
    case NoReference => Stop(Panicked(RefNotFound), [])
    case Reference(None) => Stop(Panicked(RefNameNotUtf8), [])
    case Reference(Some(name)) =>
      var applied := [Applied(a.view, name, a.targetRef)];
      if !reverse then Continue(applied)
      else
        match repo.revparseSingle(k, a.target)
        case None => Stop(Panicked(TargetUnresolved), applied)
        case Some(edited) =>
          match repo.revparseSingle(k, TmpRevision)
          case None => Stop(Panicked(TmpUnresolved), applied)
          case Some(staged) =>
            match repo.unapply(k, staged, edited)
            case NotDone => Stop(Exited(1), applied)
            case Done(rewritten) =>
              if repo.reference(k, name, rewritten) then Continue(applied + [Rewrote(name, rewritten)])
              else Stop(Panicked(CannotCreateReference), applied)
  }

  /** One iteration of the entry loop: a planning error panics before anything is applied. */
  function StepEntry(k: nat, planned: Result<Action, Panic>, reverse: bool, repo: Repo): Step
  {
    match planned
    case Err(p) => Stop(Panicked(p), [])
    case Ok(a) => Execute(k, a, reverse, repo)
  }

  /** What each entry of the plan would do if the loop reached it. */
  function Steps(plan: seq<Result<Action, Panic>>, reverse: bool, repo: Repo): (steps: seq<Step>)
    ensures |steps| == |plan|
  {
    seq(|plan|, k requires 0 <= k < |plan| => StepEntry(k, plan[k], reverse, repo))
  }

  /** The run from entry `k` on: entries run in order until one stops the run. */
  function RunFrom(steps: seq<Step>, k: nat): (r: (Status, seq<Effect>))
    requires k <= |steps|
    decreases |steps| - k
  {
    if k == |steps| then (Exited(0), [])
    else
      match steps[k]
      case Stop(status, effects) => (status, effects)
      case Continue(effects) =>
        var rest := RunFrom(steps, k + 1);
        (rest.0, effects + rest.1)
  }

  /**
   * One turn of the entry loop, for a run that has logged `log` so far: an
   * entry that stops the run decides its status and its last effects; an
   * entry that lets it go on adds its effects and hands over to the next.
   */
  lemma RunFromAt(steps: seq<Step>, k: nat, log: seq<Effect>, total: (Status, seq<Effect>))
    requires k < |steps|
    requires total.0 == RunFrom(steps, k).0 && total.1 == log + RunFrom(steps, k).1
    ensures steps[k].Stop? ==> total == (steps[k].status, log + steps[k].effects)
    ensures steps[k].Continue? ==>
      total.0 == RunFrom(steps, k + 1).0 && total.1 == (log + steps[k].effects) + RunFrom(steps, k + 1).1
  {
    if steps[k].Continue? {
      assert log + (steps[k].effects + RunFrom(steps, k + 1).1) == (log + steps[k].effects) + RunFrom(steps, k + 1).1;
    }
  }

  /** `run_filter`: its status and the effects it has on the repository, in order. */
  function Run(args: Args, fileContents: Option<string>, prefixes: View -> seq<Prefix>, repo: Repo): (Status, seq<Effect>)
  {
    var plan := Plan(InputText(fileContents, args), args, prefixes);
    RunFrom(Steps(plan, args.reverse, repo), 0)
  }

  /**
   * Lines 69-97 of `run_filter`: `build_view` on the entry's text, then with
   * `--infofile` one `build_chain` per prefix reassigning the view, then with
   * `--squash` the cutoff step chained in front.
   */
  method ComposeView(viewstr: string, src: string, pres: seq<Prefix>, infofile: bool, squash: bool)
    returns (viewobj: View)
    ensures viewobj == Compose(viewstr, src, pres, infofile, squash)
  {
    viewobj := Spec(viewstr);
    if infofile {
      var i := 0;
      while i < |pres|
        invariant i <= |pres|
        invariant viewobj == WithInfo(Spec(viewstr), pres[..i], src)
      {
        assert pres[..i + 1][..i] == pres[..i];
        viewobj := Chain(viewobj, Spec(InfoText(pres[i], src)));
        i := i + 1;
      }
      assert pres[..i] == pres;
    }
    if squash {
      viewobj := Chain(Spec(":cutoff=" + src), viewobj);
    }
  }

  /** One iteration of the entry loop of `run_filter`, for the `k`-th capture. */
  method RunEntry(k: nat, cap: FileRegex.Capture, args: Args, prefixes: View -> seq<Prefix>, repo: Repo)
    returns (step: Step)
    ensures step == StepEntry(k, PlanEntry(cap, args, prefixes), args.reverse, repo)
  {
    var fromTo := Text.Trim(cap.src);
    var splitted := Text.SplitOnce(fromTo, ':');
    if splitted.None? {
      return Stop(Panicked(MissingColon), []);
    }
    var src, target := splitted.value.0, splitted.value.1;
    var viewstr := Text.Trim(cap.spec);
    var viewobj := ComposeView(viewstr, src, prefixes(Spec(viewstr)), args.infofile, args.squash);
    var t := if args.reverse then TmpRef else target;
    assert PlanEntry(cap, args, prefixes) == Ok(Action(src, target, t, viewobj));
    var found := repo.revparseExt(k, src);
    if found == RevNotFound {
      return Stop(Panicked(RefNotFound1), []);
    } else if found == NoReference {
      return Stop(Panicked(RefNotFound), []);
    } else if found.name.None? {
      return Stop(Panicked(RefNameNotUtf8), []);
    }
    var srcRef := found.name.value;
    var applied := [Applied(viewobj, srcRef, t)];
    if !args.reverse {
      return Continue(applied);
    }
    var edited := repo.revparseSingle(k, target);
    if edited.None? {
      return Stop(Panicked(TargetUnresolved), applied);
    }
    var staged := repo.revparseSingle(k, TmpRevision);
    if staged.None? {
      return Stop(Panicked(TmpUnresolved), applied);
    }
    match repo.unapply(k, staged.value, edited.value)
    case Done(rewritten) =>
      if !repo.reference(k, srcRef, rewritten) {
        return Stop(Panicked(CannotCreateReference), applied);
      }
      step := Continue(applied + [Rewrote(srcRef, rewritten)]);
    case NotDone =>
      step := Stop(Exited(1), applied);
  }

  /**
   * The loop of `run_filter` over the captures of `FILE_REGEX`, with a log of
   * what was applied standing for the growing `fm`/`bm` maps, and an early
   * return on the first entry that ends the run.
   */
  method RunEntries(caps: seq<FileRegex.Capture>, args: Args, prefixes: View -> seq<Prefix>, repo: Repo)
    returns (status: Status, log: seq<Effect>)
    ensures (status, log) == RunFrom(Steps(PlanCaptures(caps, args, prefixes), args.reverse, repo), 0)
  {
    ghost var steps := Steps(PlanCaptures(caps, args, prefixes), args.reverse, repo);
    ghost var total := RunFrom(steps, 0);
    log := [];
    assert total.1 == log + total.1;
    var k := 0;
    while k < |caps|
      invariant k <= |caps| == |steps|
      invariant total.0 == RunFrom(steps, k).0
      invariant total.1 == log + RunFrom(steps, k).1
    {
      var step := RunEntry(k, caps[k], args, prefixes, repo);
      StepOfCapture(caps, args, prefixes, repo, k);
      RunFromAt(steps, k, log, total);
      if step.Stop? {
        return step.status, log + step.effects;
      }
      log := log + step.effects;
      k := k + 1;
    }
    assert log + [] == log;
    status := Exited(0);
  }

  /** `run_filter`: builds the text, cuts it into entries and runs them. */
  method RunFilter(args: Args, fileContents: Option<string>, prefixes: View -> seq<Prefix>, repo: Repo)
    returns (status: Status, log: seq<Effect>)
    ensures (status, log) == Run(args, fileContents, prefixes, repo)
  {
    var filestr := InputText(fileContents, args);
    var caps := FileRegex.Captures(filestr);
    status, log := RunEntries(caps, args, prefixes, repo);
  }
}
