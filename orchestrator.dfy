/**
 * `main`: on one connection, every pipeline whose `emit_to` names a
 * dimension table runs first, in policy order, and then every pipeline whose
 * `emit_to` names a fact table, in policy order. A failing pipeline ends the
 * run; what the pipelines before it committed stays.
 */
module Orchestrator {
  import opened Dicts
  import opened Values
  import opened Policy
  import opened Warehouse
  import opened Substitution
  import opened Runners

  /** The parsed policy file; `pipelines` is `None` when the document lacks it. */
  datatype PolicyDoc = PolicyDoc(pipelines: Option<seq<Pipeline>>)

  /** Python's `part in text` on strings. */
  predicate Contains(text: string, part: string) {
    exists i | 0 <= i <= |text| - |part| :: OccursAt(text, part, i)
  }

  /** `p.get("emit_to", "")`. */
  function EmitText(p: Pipeline): string {
    if p.emitTo.Some? then p.emitTo.value else ""
  }

  predicate IsDim(p: Pipeline) {
    Contains(EmitText(p), ".dim_")
  }

  predicate IsFact(p: Pipeline) {
    Contains(EmitText(p), ".fact_")
  }

  // ---- the two phases ----

  /** The pipelines that `keep` selects, in policy order. */
  function Selected(ps: seq<Pipeline>, keep: Pipeline -> bool): (r: seq<Pipeline>)
    ensures |r| <= |ps|
    ensures forall k | 0 <= k < |r| :: r[k] in ps
    ensures forall k | 0 <= k < |r| :: keep(r[k])
  {
    if ps == [] then []
    else Selected(ps[..|ps| - 1], keep) + (if keep(ps[|ps| - 1]) then [ps[|ps| - 1]] else [])
  }

  /** Where the selected pipelines stand in the policy. */
  function Positions(ps: seq<Pipeline>, keep: Pipeline -> bool): (r: seq<nat>)
    ensures forall k | 0 <= k < |r| :: r[k] < |ps|
  {
    if ps == [] then [] else Positions(ps[..|ps| - 1], keep) + (if keep(ps[|ps| - 1]) then [|ps| - 1] else [])
  }

  /** The `k`-th pipeline of a phase is the policy's entry at the `k`-th position. */
  lemma {:induction false} PositionsSelect(ps: seq<Pipeline>, keep: Pipeline -> bool)
    ensures |Positions(ps, keep)| == |Selected(ps, keep)|
    ensures forall k | 0 <= k < |Positions(ps, keep)| :: Selected(ps, keep)[k] == ps[Positions(ps, keep)[k]]
  {
    if ps != [] {
      var n := |ps| - 1;
      PositionsSelect(ps[..n], keep);
      var front, sel := Positions(ps[..n], keep), Selected(ps[..n], keep);
      forall k | 0 <= k < |front| ensures Selected(ps, keep)[k] == ps[Positions(ps, keep)[k]] {
        assert Positions(ps, keep)[k] == front[k] && Selected(ps, keep)[k] == sel[k];
        assert ps[..n][front[k]] == ps[front[k]];
      }
    }
  }

  /** The positions increase: a phase runs its pipelines in policy order. */
  lemma {:induction false} PositionsIncrease(ps: seq<Pipeline>, keep: Pipeline -> bool)
    ensures forall k, l | 0 <= k < l < |Positions(ps, keep)| :: Positions(ps, keep)[k] < Positions(ps, keep)[l]
  {
    if ps != [] {
      var n := |ps| - 1;
      PositionsIncrease(ps[..n], keep);
      var front := Positions(ps[..n], keep);
      assert forall k | 0 <= k < |front| :: Positions(ps, keep)[k] == front[k];
    }
  }

  /** The positions are exactly those of the pipelines the phase selects: each entry runs once. */
  lemma {:induction false} PositionsCover(ps: seq<Pipeline>, keep: Pipeline -> bool)
    ensures forall i | 0 <= i < |ps| :: keep(ps[i]) <==> i in Positions(ps, keep)
  {
    if ps != [] {
      var n := |ps| - 1;
      PositionsCover(ps[..n], keep);
      var front := Positions(ps[..n], keep);
      assert n !in front;
      forall i | 0 <= i < n ensures keep(ps[i]) <==> i in Positions(ps, keep) {
        assert ps[..n][i] == ps[i];
      }
    }
  }

  /** A pipeline runs in a phase as often as it is listed if the phase selects it, and never otherwise. */
  lemma {:induction false} SelectedCount(ps: seq<Pipeline>, keep: Pipeline -> bool, p: Pipeline)
    ensures multiset(Selected(ps, keep))[p] == if keep(p) then multiset(ps)[p] else 0
  {
    if ps != [] {
      var n := |ps| - 1;
      SelectedCount(ps[..n], keep, p);
      assert ps == ps[..n] + [ps[n]];
      assert multiset(ps) == multiset(ps[..n]) + multiset{ps[n]};
    }
  }

  /** A pipeline whose `emit_to` names neither kind of table never runs. */
  lemma UnmarkedNeverRuns(ps: seq<Pipeline>, p: Pipeline)
    requires !IsDim(p) && !IsFact(p)
    ensures p !in Selected(ps, IsDim) && p !in Selected(ps, IsFact)
  {
    SelectedCount(ps, IsDim, p);
    SelectedCount(ps, IsFact, p);
  }

  /** A pipeline whose `emit_to` contains both markers runs once in each phase. */
  lemma BothMarkersRunTwice(ps: seq<Pipeline>, p: Pipeline)
    requires IsDim(p) && IsFact(p) && multiset(ps)[p] == 1
    ensures multiset(Selected(ps, IsDim))[p] == 1 && multiset(Selected(ps, IsFact))[p] == 1
  {
    SelectedCount(ps, IsDim, p);
    SelectedCount(ps, IsFact, p);
  }

  /** Selecting from one more pipeline adds it at the end when `keep` selects it. */
  lemma SelectedSnoc(ps: seq<Pipeline>, i: nat, keep: Pipeline -> bool)
    requires i < |ps|
    ensures Selected(ps[..i + 1], keep) == Selected(ps[..i], keep) + (if keep(ps[i]) then [ps[i]] else [])
  {
    assert ps[..i + 1][..i] == ps[..i];
  }

  /** Selection distributes over concatenation. */
  lemma {:induction false} SelectedAppend(a: seq<Pipeline>, b: seq<Pipeline>, keep: Pipeline -> bool)
    ensures Selected(a + b, keep) == Selected(a, keep) + Selected(b, keep)
  {
    if b != [] {
      var n := |b| - 1;
      assert (a + b)[..|a + b| - 1] == a + b[..n];
      assert (a + b)[|a + b| - 1] == b[n];
      SelectedAppend(a, b[..n], keep);
      var tail := if keep(b[n]) then [b[n]] else [];
      AppendAssoc(Selected(a, keep), Selected(b[..n], keep), tail);
    } else {
      assert a + b == a;
    }
  }

  // ---- running ----

  /** Running one pipeline: its outcome and the tables afterwards. */
  type Runner = (Pipeline, Tables) -> (Outcome, Tables)

  datatype Kind = DimKind | FactKind

  /** The marker a phase looks for in `emit_to`. */
  function Marker(kind: Kind): Pipeline -> bool {
    if kind == DimKind then IsDim else IsFact
  }

  /** `run_dim` or `run_fact`. */
  function RunnerOf(kind: Kind, env: Env): Runner {
    if kind == DimKind then (p: Pipeline, ts: Tables) => RunDimSpec(p, env, ts)
    else (p: Pipeline, ts: Tables) => RunFactSpec(p, env, ts)
  }

  /** A runner whose failures leave the tables as they were. */
  ghost predicate FailsCleanly(run: Runner) {
    forall p, ts :: run(p, ts).0.Failed? ==> run(p, ts).1 == ts
  }

  /** A runner that keeps every table's unique index. */
  ghost predicate KeepsIndexes(run: Runner) {
    forall p, ts | TablesWf(ts) :: TablesWf(run(p, ts).1)
  }

  /** Both runners fail without committing and keep the unique indexes. */
  lemma RunnersBehave(kind: Kind, env: Env)
    ensures FailsCleanly(RunnerOf(kind, env))
    ensures KeepsIndexes(RunnerOf(kind, env))
  {
    var run := RunnerOf(kind, env);
    forall p, ts ensures run(p, ts).0.Failed? ==> run(p, ts).1 == ts {
      RunDimFailureChangesNothing(p, env, ts);
      RunFactFailureChangesNothing(p, env, ts);
    }
    forall p, ts | TablesWf(ts) ensures TablesWf(run(p, ts).1) {
      RunDimKeepsIndexes(p, env, ts);
      RunFactKeepsIndexes(p, env, ts);
    }
  }

  /** How far the run got and the tables as committed so far. */
  datatype RunState = RunState(outcome: Outcome, tables: Tables)

  /** One pipeline after the earlier ones; nothing runs after a failure. */
  function RunOne(st: RunState, p: Pipeline, run: Runner): RunState {
    if st.outcome.Failed? then st else RunState(run(p, st.tables).0, run(p, st.tables).1)
  }

  /** The pipelines of one phase, in order. */
  function RunPhase(st: RunState, ps: seq<Pipeline>, run: Runner): RunState {
    if ps == [] then st else RunOne(RunPhase(st, ps[..|ps| - 1], run), ps[|ps| - 1], run)
  }

  /** `main()`: the dimension phase, then the fact phase on the tables it left. */
  function MainSpec(doc: PolicyDoc, env: Env, tables: Tables): (r: RunState)
    ensures doc.pipelines.None? ==> r.outcome == Failed(MissingKey("pipelines")) && r.tables == tables
    ensures doc.pipelines.Some? && (forall p | p in doc.pipelines.value :: !IsDim(p) && !IsFact(p)) ==>
              r == RunState(Done, tables)
  {
    match doc.pipelines
    case None => RunState(Failed(MissingKey("pipelines")), tables)
    case Some(ps) =>
      var dims := RunPhase(RunState(Done, tables), Selected(ps, IsDim), RunnerOf(DimKind, env));
      RunPhase(dims, Selected(ps, IsFact), RunnerOf(FactKind, env))
  }

  /** After a failure, no later pipeline runs. */
  lemma {:induction false} FailedRunStays(st: RunState, ps: seq<Pipeline>, run: Runner)
    requires st.outcome.Failed?
    ensures RunPhase(st, ps, run) == st
  {
    if ps != [] {
      FailedRunStays(st, ps[..|ps| - 1], run);
    }
  }

  /** Running `a + b` is running `a`, then `b` from where `a` left off. */
  lemma {:induction false} RunPhaseAppend(st: RunState, a: seq<Pipeline>, b: seq<Pipeline>, run: Runner)
    ensures RunPhase(st, a + b, run) == RunPhase(RunPhase(st, a, run), b, run)
  {
    if b != [] {
      var n := |b| - 1;
      assert (a + b)[..|a + b| - 1] == a + b[..n];
      assert (a + b)[|a + b| - 1] == b[n];
      RunPhaseAppend(st, a, b[..n], run);
    } else {
      assert a + b == a;
    }
  }

  lemma RunPhaseSnoc(st: RunState, ps: seq<Pipeline>, p: Pipeline, run: Runner)
    ensures RunPhase(st, ps + [p], run) == RunOne(RunPhase(st, ps, run), p, run)
  {
    assert (ps + [p])[..|ps|] == ps;
  }

  /**
   * When the pipeline at position `i` of a phase fails, the run stops with
   * its error, and the tables are those the pipelines before it committed.
   */
  lemma FailureKeepsEarlierWork(st: RunState, ps: seq<Pipeline>, i: nat, run: Runner)
    requires FailsCleanly(run)
    requires i < |ps|
    requires RunPhase(st, ps[..i], run).outcome.Done?
    requires run(ps[i], RunPhase(st, ps[..i], run).tables).0.Failed?
    ensures RunPhase(st, ps, run).outcome == run(ps[i], RunPhase(st, ps[..i], run).tables).0
    ensures RunPhase(st, ps, run).tables == RunPhase(st, ps[..i], run).tables
  {
    var failed := RunOne(RunPhase(st, ps[..i], run), ps[i], run);
    assert ps[..i + 1] == ps[..i] + [ps[i]];
    RunPhaseSnoc(st, ps[..i], ps[i], run);
    assert ps[..i + 1] + ps[i + 1..] == ps;
    RunPhaseAppend(st, ps[..i + 1], ps[i + 1..], run);
    FailedRunStays(failed, ps[i + 1..], run);
  }

  /** A failure in the dimension phase ends the run before any fact pipeline. */
  lemma DimFailureSkipsFacts(doc: PolicyDoc, env: Env, tables: Tables)
    requires doc.pipelines.Some?
    requires RunPhase(RunState(Done, tables), Selected(doc.pipelines.value, IsDim), RunnerOf(DimKind, env)).outcome.Failed?
    ensures MainSpec(doc, env, tables) ==
              RunPhase(RunState(Done, tables), Selected(doc.pipelines.value, IsDim), RunnerOf(DimKind, env))
  {
    var dims := RunPhase(RunState(Done, tables), Selected(doc.pipelines.value, IsDim), RunnerOf(DimKind, env));
    FailedRunStays(dims, Selected(doc.pipelines.value, IsFact), RunnerOf(FactKind, env));
  }

  lemma {:induction false} RunPhaseKeepsIndexes(st: RunState, ps: seq<Pipeline>, run: Runner)
    requires KeepsIndexes(run)
    requires TablesWf(st.tables)
    ensures TablesWf(RunPhase(st, ps, run).tables)
  {
    if ps != [] {
      RunPhaseKeepsIndexes(st, ps[..|ps| - 1], run);
    }
  }

  /** The whole run keeps every table's unique index. */
  lemma MainKeepsIndexes(doc: PolicyDoc, env: Env, tables: Tables)
    requires TablesWf(tables)
    ensures TablesWf(MainSpec(doc, env, tables).tables)
  {
    if doc.pipelines.Some? {
      var ps := doc.pipelines.value;
      RunnersBehave(DimKind, env);
      RunnersBehave(FactKind, env);
      RunPhaseKeepsIndexes(RunState(Done, tables), Selected(ps, IsDim), RunnerOf(DimKind, env));
      var dims := RunPhase(RunState(Done, tables), Selected(ps, IsDim), RunnerOf(DimKind, env));
      RunPhaseKeepsIndexes(dims, Selected(ps, IsFact), RunnerOf(FactKind, env));
    }
  }

  /** A failure among the first `i` pipelines is the outcome of the whole phase. */
  lemma StopsAtFailure(start: RunState, ps: seq<Pipeline>, i: nat, keep: Pipeline -> bool, run: Runner)
    requires i <= |ps|
    requires RunPhase(start, Selected(ps[..i], keep), run).outcome.Failed?
    ensures RunPhase(start, Selected(ps, keep), run) == RunPhase(start, Selected(ps[..i], keep), run)
  {
    assert ps[..i] + ps[i..] == ps;
    SelectedAppend(ps[..i], ps[i..], keep);
    RunPhaseAppend(start, Selected(ps[..i], keep), Selected(ps[i..], keep), run);
    FailedRunStays(RunPhase(start, Selected(ps[..i], keep), run), Selected(ps[i..], keep), run);
  }

  /** One more pipeline of the policy runs when the phase selects it and is skipped otherwise. */
  lemma PhaseStep(start: RunState, ps: seq<Pipeline>, i: nat, keep: Pipeline -> bool, run: Runner)
    requires i < |ps|
    ensures RunPhase(start, Selected(ps[..i + 1], keep), run) ==
              if keep(ps[i]) then RunOne(RunPhase(start, Selected(ps[..i], keep), run), ps[i], run)
              else RunPhase(start, Selected(ps[..i], keep), run)
  {
    SelectedSnoc(ps, i, keep);
    if keep(ps[i]) {
      RunPhaseSnoc(start, Selected(ps[..i], keep), ps[i], run);
    } else {
      assert Selected(ps[..i + 1], keep) == Selected(ps[..i], keep) + [];
      assert Selected(ps[..i], keep) + [] == Selected(ps[..i], keep);
    }
  }

  /** `run_dim(conn, p)` or `run_fact(conn, p)`. */
  method RunPipeline(p: Pipeline, kind: Kind, env: Env, store: Store) returns (r: Outcome)
    modifies store
    ensures (r, store.tables) == RunnerOf(kind, env)(p, old(store.tables))
  {
    if kind == DimKind {
      r := RunDim(p, env, store);
    } else {
      r := RunFact(p, env, store);
    }
  }

  /** `for p in POLICY["pipelines"]: if marker in p.get("emit_to", ""): run(conn, p)`. */
  method RunPhaseLoop(ps: seq<Pipeline>, kind: Kind, env: Env, store: Store) returns (r: Outcome)
    modifies store
    ensures RunState(r, store.tables) == RunPhase(RunState(Done, old(store.tables)), Selected(ps, Marker(kind)), RunnerOf(kind, env))
  {
    var keep := Marker(kind);
    ghost var run := RunnerOf(kind, env);
    ghost var start := RunState(Done, store.tables);
    r := Done;
    var i := 0;
    while i < |ps| && r.Done?
      invariant 0 <= i <= |ps|
      invariant RunState(r, store.tables) == RunPhase(start, Selected(ps[..i], keep), run)
    {
      PhaseStep(start, ps, i, keep, run);
      if keep(ps[i]) {
        r := RunPipeline(ps[i], kind, env, store);
      }
      i := i + 1;
    }
    if i < |ps| {
      StopsAtFailure(start, ps, i, keep, run);
    } else {
      assert ps[..i] == ps;
    }
  }

  /** `main()`. */
  method Run(doc: PolicyDoc, env: Env, store: Store) returns (r: Outcome)
    modifies store
    ensures RunState(r, store.tables) == MainSpec(doc, env, old(store.tables))
  {
    if doc.pipelines.None? {
      return Failed(MissingKey("pipelines"));
    }
    var ps := doc.pipelines.value;
    r := RunPhaseLoop(ps, DimKind, env, store);
    if r.Failed? {
      FailedRunStays(RunState(r, store.tables), Selected(ps, IsFact), RunnerOf(FactKind, env));
      return;
    }
    r := RunPhaseLoop(ps, FactKind, env, store);
  }
}
