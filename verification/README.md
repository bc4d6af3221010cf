# josh-filter's `run_filter`, modelled in Dafny

`josh-filter` applies josh filters ("views") to git refs from the command
line. Its driver `run_filter` (`src/bin/josh-filter.rs`) does the following:

- It builds the text to scan. This is the contents of `--file`, or
  otherwise `"[" + from_to + "]" + spec`.
- It cuts the text into entries with `FILE_REGEX`.
- Each entry is planned:
  - the `src` group is trimmed and split at its first `:` into a source
    and a target;
  - the `spec` group is trimmed and built into a view;
  - with `--infofile`, one `:info=` step per prefix of that view is chained
    after it;
  - with `--squash`, a `:cutoff=` step is put in front;
  - the ref to write is the target, or `refs/JOSH_TMP` with `--reverse`.
- Each entry is then run:
  - the source is resolved to a reference and the view is applied from it;
  - with `--reverse`, the edited target is pushed back through the view
    with `unapply_view`, and the source ref is moved to the rewritten
    commit.
- How the run ends:
  - a missing `:`, a failed lookup or a failed ref update panics;
  - an `unapply_view` result other than `Done` returns exit code 1;
  - otherwise the run returns 0.

The project has these modules:

- `Text` (`text.dfy`) covers the string operations the driver uses:
  - Rust's `str::trim` over Unicode White_Space;
  - `splitn(2, ":")` as a split at the first separator;
  - `str::replace` with a one-character pattern.
- `FileRegex` (`file_regex.dfy`) specifies `FILE_REGEX` and
  `captures_iter` as a scan of the text:
  - a match opens at `[`;
  - `src` runs to the last `]` before the next newline, because `.*` is
    greedy and does not cross `\n`;
  - `spec` runs to the next `[` or the end of the text;
  - the next search starts where the match ended.
- `Views` (`views.dfy`) holds the filter terms the driver composes. The
  engine is opaque:
  - `build_view(t)` is the term `Spec(t)`;
  - `build_chain(a, b)` is `Chain(a, b)`.
- `JoshFilter` (`josh_filter.dfy`) holds the driver:
  - a pure plan for each entry (`PlanEntry`);
  - the run as a fold over the entries (`Run`);
  - the imperative methods `ComposeView`, `RunEntry`, `RunEntries` and
    `RunFilter`, each proved equal to those functions.
- `RunProperties` (`run_properties.dfy`) proves what the run promises:
  exit codes, the effects in order, and the default input.

Panics (`expect`, `unwrap`) are the outcome `Panicked(reason)`, not a
crash. What `apply_view_to_refs` and `repo.reference` do to the repository
is recorded as a log of `Effect`s, in order.

## Model

| member | source | states |
|---|---|---|
| Text.IsWhitespace | src/bin/josh-filter.rs:55 | defines the characters `trim` removes: the 25 characters of the Unicode White_Space property, as Rust's `char::is_whitespace` |
| Text.Trim | src/bin/josh-filter.rs:55 | the trimmed text, when not empty, neither starts nor ends with whitespace (`TrimIsInfix` adds that only whitespace was cut) |
| Text.TrimIsInfix | src/bin/josh-filter.rs:55 | trimming returns a contiguous piece of the text |
| Text.TrimKeepsNonWhitespace | src/bin/josh-filter.rs:55 | a non-whitespace character such as `:` is in the trimmed text exactly when it is in the text |
| Text.SplitOnce | src/bin/josh-filter.rs:56-65 | there are two parts exactly when the separator occurs; the first part has no separator, and first + separator + rest rebuilds the text |
| Text.SplitOnceUnique | src/bin/josh-filter.rs:56-65 | any decomposition head + `:` + tail with no `:` in head is the split that is returned |
| Text.ReplaceChar | src/bin/josh-filter.rs:83 | replacing `c` by a text without `c` leaves no `c`; a text without `c` is unchanged |
| Text.ReplaceCharNoNewChar | src/bin/josh-filter.rs:83 | replacement introduces no character that was in neither the text nor the replacement |
| Text.ReplaceCharAppend | src/bin/josh-filter.rs:83 | replacement distributes over concatenation |
| Views.Escape | src/bin/josh-filter.rs:83 | the escaped view text contains neither `:` nor `,`; a text with neither is unchanged |
| Views.EscapeIsPerCharacter | src/bin/josh-filter.rs:83 | the two chained replacements equal escaping each character on its own (`:` to `<colon>`, `,` to `<comma>`) |
| Views.InfoText | src/bin/josh-filter.rs:79-84 | defines the text of the `:info=` step for one prefix: its path, the fixed `commit=#sha1,tree=#tree` fields, the unresolved source and the escaped nested view, in the order of the format string; `Views.Escape` states what the escaping guarantees |
| Views.InfoSteps | src/bin/josh-filter.rs:74-87 | there is one info step per prefix |
| Views.InfoStepsAt | src/bin/josh-filter.rs:74-87 | the i-th info step is the `:info=` view for the i-th prefix, naming the unresolved source |
| Views.WithInfo | src/bin/josh-filter.rs:73-88 | defines the view after the `--infofile` loop: each prefix's info step chained after the view so far, in prefix order; `Views.InfoLayers` proves its layers |
| Views.CutoffStep | src/bin/josh-filter.rs:94 | defines the `:cutoff=` step of `--squash` for the unresolved source name |
| Views.Compose | src/bin/josh-filter.rs:69-97 | defines an entry's view: built from its text, then the info layers with `--infofile`, then the cutoff step in front with `--squash`; `Views.ComposeShape` proves its shape |
| Views.InfoLayers | src/bin/josh-filter.rs:73-88 | the info loop wraps the base view in exactly one chain layer per prefix, in prefix order, with the new step as the second argument |
| Views.ComposeShape | src/bin/josh-filter.rs:69-97 | with `--squash` the outermost term chains `:cutoff=src` before the rest; below it are one info layer per prefix with `--infofile` and none without; at the bottom is the view built from the trimmed spec |
| FileRegex.MatchAt | src/bin/josh-filter.rs:21-22 | defines a match of the regex starting at a given `[`: `src` reaches, on one line, the last `]` on that line, and `spec` holds no `[` and stops at a `[` or at the end of the text |
| FileRegex.NextMatch | src/bin/josh-filter.rs:21-22 | it returns the leftmost match at or after the search start, with the greedy `src` and `spec` extents, or reports that no match starts anywhere after the start |
| FileRegex.Matches | src/bin/josh-filter.rs:54 | `captures_iter` gives the successive leftmost matches, each search resuming where the previous match ended |
| FileRegex.MatchSequenceSpans | src/bin/josh-filter.rs:54 | every reported match is a regex match, and the matches do not overlap and are in text order |
| FileRegex.CaptureOf | src/bin/josh-filter.rs:21-22 | `"[" + src + "]" + spec` is exactly the matched text; `src` has no newline and `spec` no `[`; the split is the greedy one: any `]` left in `spec` comes after a newline in `spec`, so `src` runs to the last `]` of its line |
| FileRegex.CaptureSplitUnique | src/bin/josh-filter.rs:21-22 | these conditions fix the split point: two captures that rebuild the same text, each with a one-line `src` and the greedy split, are equal |
| FileRegex.Captures | src/bin/josh-filter.rs:21-22 | in every capture, `src` holds no newline, `spec` holds no `[`, and the split is the greedy one (`src` runs to the last `]` of its line) |
| FileRegex.NoBracketNoCaptures | src/bin/josh-filter.rs:21-22 | a text without `[` has no match |
| FileRegex.SingleBlock | src/bin/josh-filter.rs:52 | `"[" + from_to + "]" + spec` with a one-line `from_to` and a `spec` without `[` has exactly one match, which rebuilds the text; if `spec` has no `]`, its groups are `from_to` and `spec` |
| JoshFilter.InputText | src/bin/josh-filter.rs:46-52 | defines the scanned text: the file contents when `--file` was read, otherwise `"[" + from_to + "]" + spec` with absent arguments read as empty; `RunProperties.DefaultInputOneEntry` states what the default text plans to |
| JoshFilter.PlanEntry | src/bin/josh-filter.rs:55-103 | an entry plans successfully exactly when its trimmed `src` holds a `:`, and otherwise fails with the missing-colon panic; the source has no `:`, and source + `:` + target is the trimmed `src`; the ref written is `refs/JOSH_TMP` with `--reverse` and the target without it; the view is `Compose` of the trimmed `spec` group, with the unresolved source and the prefixes of the view built from that text |
| JoshFilter.PlanCaptures | src/bin/josh-filter.rs:54-67 | one planned entry per capture |
| JoshFilter.Plan | src/bin/josh-filter.rs:54-67 | defines the plan of a text: one planned entry per capture of `FILE_REGEX`, in text order |
| JoshFilter.Execute | src/bin/josh-filter.rs:99-129 | defines one planned entry's run against the repository's answers: the three lookup panics, the apply, then in reverse mode the two revision panics, the `return 1` on a non-`Done` unapply, the ref update or its panic; `RunProperties.ForwardStep`, `ReverseStep`, `StepExitCode` and their converses state its outcomes |
| JoshFilter.StepEntry | src/bin/josh-filter.rs:55-65 | defines one loop iteration: a planning error panics before anything is applied, otherwise the entry runs |
| JoshFilter.RunFrom | src/bin/josh-filter.rs:54-132 | defines the loop as a fold: entries run in order until one stops the run; after the last entry the result is 0; `RunProperties.RunFromFirstStop` states its result |
| JoshFilter.Run | src/bin/josh-filter.rs:46-132 | defines `run_filter`'s status and effects: the fold over the steps of the plan of the input text; `RunProperties.RunExitCode` states its exit codes |
| JoshFilter.ComposeView | src/bin/josh-filter.rs:69-97 | the view the loop builds by reassignment is the composed view `Compose` |
| JoshFilter.RunEntry | src/bin/josh-filter.rs:55-129 | one iteration of the entry loop does what `StepEntry` says for that entry's plan |
| JoshFilter.RunEntries | src/bin/josh-filter.rs:54-132 | the loop with its early `return 1` and the panics ends with the status and effect log of the fold `RunFrom` over the entries |
| JoshFilter.RunFilter | src/bin/josh-filter.rs:46-132 | the whole driver gives the status and effects `Run` defines for its arguments, input text and repository answers |
| RunProperties.FirstStop | src/bin/josh-filter.rs:54-130 | the first entry that ends the run: every entry before it continues |
| RunProperties.RunFromFirstStop | src/bin/josh-filter.rs:54-132 | the run applies the effects of every entry up to and including the first that stops, in order, and ends with that entry's status, or with 0 when no entry stops |
| RunProperties.StepExitCode | src/bin/josh-filter.rs:104-128 | an entry that stops with an exit code returns 1, and only in reverse mode, for a well-planned entry whose three lookups succeeded and whose `unapply_view` was not `Done`, after applying its view exactly once from its source ref to the ref it writes |
| RunProperties.UnapplyNotDoneExitsOne | src/bin/josh-filter.rs:119-127 | in reverse mode, an `unapply_view` that is not `Done` ends the run with exit code 1 after exactly one apply |
| RunProperties.ForwardStep | src/bin/josh-filter.rs:104-113 | without `--reverse`, an entry continues exactly when its source resolves to a reference with a UTF-8 name; it then applies its view from that ref to its target; otherwise it panics having applied nothing |
| RunProperties.UnapplyDoneContinues | src/bin/josh-filter.rs:113-123 | in reverse mode, an entry whose lookups succeed, whose `unapply_view` is `Done` and whose ref update succeeds goes on, having applied its view and then moved its source ref to the rewritten commit |
| RunProperties.ReverseStep | src/bin/josh-filter.rs:113-123 | with `--reverse`, an entry that continues has applied its view to its target ref (`refs/JOSH_TMP` for an entry planned with `--reverse`, by `PlanEntry`); its `unapply_view` returned `Done`; and the same ref it read from was moved to the rewritten commit |
| RunProperties.PlanExitCode | src/bin/josh-filter.rs:115-132 | a run exits 0 exactly when every entry continues; it exits 1 exactly when, in reverse mode, the first entry that stops is well planned, its lookups succeeded and its `unapply_view` was not `Done`; it never returns another code |
| RunProperties.SingleEffects | src/bin/josh-filter.rs:113 | entries with one effect each contribute one effect per entry, in entry order |
| RunProperties.ForwardRunAppliesEachEntry | src/bin/josh-filter.rs:54-113 | a forward run that exits 0 applies exactly one view per entry, in entry order: entry k's view, from the ref its source resolved to, to its target |
| RunProperties.PairEffects | src/bin/josh-filter.rs:113-123 | entries with two effects each contribute both, entry by entry, in entry order |
| RunProperties.ReverseRunAllDone | src/bin/josh-filter.rs:54-132 | a reverse run in which every entry is well planned and gets through `unapply_view` and the ref update exits 0; for each entry, in order, it applies the view and then moves the source ref to the rewritten commit |
| RunProperties.ForwardRunNeverExitsOne | src/bin/josh-filter.rs:115-128 | without `--reverse` the driver never returns 1 |
| RunProperties.RunExitCode | src/bin/josh-filter.rs:115-132 | `run_filter` returns 0 exactly when every entry continues; it returns 1 exactly when, with `--reverse`, the first entry that stops has a non-`Done` `unapply_view` after successful lookups; no other code |
| RunProperties.NoEntryExitsZero | src/bin/josh-filter.rs:54-132 | an input without `[` has no entry: nothing is applied and the exit code is 0 |
| RunProperties.DefaultInputOneEntry | src/bin/josh-filter.rs:46-52 | without `--file`, a one-line `from_to` and a bracket-free `spec` make exactly one entry, with those texts as its groups |
| RunProperties.DefaultInputWithoutColon | src/bin/josh-filter.rs:46-65 | without `--file`, a one-line `from_to` without `:` (a missing one included) and a `spec` with neither `[` nor `]` panic with the missing-colon message before anything is applied |

## Left out

- Command-line parsing with `clap` (lines 28-40) is not modelled. The parsed
  arguments are the `Args` value. `--trace` is parsed but not used by
  `run_filter`, so it is not modelled either.
- `main` (lines 135-145) is not modelled. It only collects `env::args` and
  exits with `run_filter`'s result.
- Opening the repository (line 42) is not modelled. A failure there panics
  before the loop, and the repository is a parameter (`Repo`).
- Reading `--file` (lines 49-51) is I/O. What was read is the parameter
  `fileContents`, and `None` stands for "no `--file`, or it could not be
  read".
- `STR_REGEX` (lines 23-24) is declared but never used.
- The josh engine is not part of this model: `build_view`, `build_chain`,
  `View::prefixes`, `apply_view_to_refs`, `unapply_view`, and the
  `ViewMaps` `fm`/`bm` they fill.
  - Views are terms.
  - `prefixes` is a function from the built view to its prefix list, taken
    in the order it returns them.
  - The maps are stood for by the log of applied effects.
  - Errors raised inside the engine are not modelled.
- The git lookups are oracles: `revparse_ext`, `revparse_single`,
  `reference`, and the outcome of `unapply_view`.
  - Each lookup takes the entry's position, so answers may change as
    earlier entries write refs.
  - How a ref's value follows from earlier writes is not modelled.
- A panic is the outcome `Panicked(reason)`. The process exit status a panic
  produces (101) is not modelled as an integer.
- Tracing (`rs_tracing`) and logging are left out.
- JoshFilter.PlanCaptures: its contract gives only the length. Entry k's plan
  is tied to capture k by `StepOfCapture` and the `RunEntries` contract.
- FileRegex.Captures: its own contract states the contents and the greedy
  split of each capture. It does not state which matches are captured; that
  is stated by `NextMatch`, `Matches` and `MatchSequenceSpans`.
