/**
 * _callable_workflow and validate_graph of scripts/workflow_contracts.py: the walk over workflows that call each
 * other.
 */
module WorkflowGraph {
  import opened Prelude

  /** A job that calls a local workflow by file name, or one that runs by itself. */
  datatype Job = Job(calls: Option<string>, runsOn: bool, timeout: bool)

  datatype Triggers = NotAMapping | Triggers(names: set<string>)

  datatype Workflow = Workflow(triggers: Triggers, jobs: seq<Job>)

  type Workflows = map<string, Workflow>

  predicate Startable(workflow: Workflow) {
    && workflow.triggers.Triggers? && "workflow_call" in workflow.triggers.names
    && workflow.triggers.names <= {"workflow_call", "workflow_dispatch"}
  }

  predicate Timed(job: Job) {
    job.calls.Some? || !job.runsOn || job.timeout
  }

  /** A workflow that exists, can only be called, and bounds every job of its own. */
  predicate WellFormed(w: Workflows, f: string) {
    f in w && Startable(w[f]) && forall i | 0 <= i < |w[f].jobs| :: Timed(w[f].jobs[i])
  }

  predicate Calls(w: Workflows, f: string, g: string) {
    f in w && exists i | 0 <= i < |w[f].jobs| :: w[f].jobs[i].calls == Some(g)
  }

  /**
   * Callable by other workflows, and startable in no other way than by hand; every job on a runner has a time limit.
   */
  lemma WellFormedExactly(w: Workflows, f: string)
    ensures WellFormed(w, f)
       <==> && f in w && w[f].triggers.Triggers?
            && "workflow_call" in w[f].triggers.names
            && (forall name | name in w[f].triggers.names :: name == "workflow_call" || name == "workflow_dispatch")
            && (forall i | 0 <= i < |w[f].jobs| ::
                  w[f].jobs[i].calls.None? && w[f].jobs[i].runsOn ==> w[f].jobs[i].timeout)
  {
  }

  /** A workflow calls another when one of its jobs does. */
  lemma CallsExactly(w: Workflows, f: string, g: string)
    ensures Calls(w, f, g) <==> f in w && exists job :: job in w[f].jobs && job.calls == Some(g)
  {
    if f in w && exists job :: job in w[f].jobs && job.calls == Some(g) {
      var job :| job in w[f].jobs && job.calls == Some(g);
      var i :| 0 <= i < |w[f].jobs| && w[f].jobs[i] == job;
    }
  }

  // ---- Paths and cycles -------------------------------------------------------------------------------------

  ghost predicate IsPath(w: Workflows, p: seq<string>) {
    |p| >= 1 && forall i | 0 <= i < |p| - 1 :: Calls(w, p[i], p[i + 1])
  }

  ghost predicate Leads(w: Workflows, p: seq<string>, f: string, g: string) {
    IsPath(w, p) && p[0] == f && p[|p| - 1] == g
  }

  ghost predicate Reachable(w: Workflows, roots: seq<string>, g: string) {
    exists f, p :: f in roots && Leads(w, p, f, g)
  }

  ghost predicate OnCycle(w: Workflows, f: string) {
    exists p :: Leads(w, p, f, f) && |p| >= 2
  }

  /** Everything the validators can call is well formed and calls itself on no path. */
  ghost predicate Acceptable(w: Workflows, roots: seq<string>) {
    forall f | Reachable(w, roots, f) :: WellFormed(w, f) && !OnCycle(w, f)
  }

  lemma RootsAreReachable(w: Workflows, roots: seq<string>, f: string)
    requires f in roots
    ensures Reachable(w, roots, f)
  {
    assert Leads(w, [f], f, f);
  }

  lemma CalledIsReachable(w: Workflows, roots: seq<string>, f: string, g: string)
    requires Reachable(w, roots, f) && Calls(w, f, g)
    ensures Reachable(w, roots, g)
  {
    var r, p :| r in roots && Leads(w, p, r, f);
    assert Leads(w, p + [g], r, g);
  }

  /** A set that holds the start of a path and everything its members call holds the whole path. */
  lemma {:induction false} PathStaysInside(w: Workflows, p: seq<string>, inside: set<string>, k: nat)
    requires IsPath(w, p) && p[0] in inside && k < |p|
    requires forall f, g | f in inside && Calls(w, f, g) :: g in inside
    ensures p[k] in inside
  {
    if k > 0 {
      PathStaysInside(w, p, inside, k - 1);
      assert Calls(w, p[k - 1], p[k]);
    }
  }

  // ---- Finished workflows -------------------------------------------------------------------------------------

  /** Each finished workflow calls only workflows that finished before it. */
  ghost predicate InOrder(w: Workflows, finished: seq<string>) {
    forall i, g | 0 <= i < |finished| && Calls(w, finished[i], g) :: g in finished[..i]
  }

  /** Along a path among finished workflows the finishing order falls. */
  lemma {:induction false} PathsFall(w: Workflows, finished: seq<string>, p: seq<string>, i: nat) returns (j: nat)
    requires InOrder(w, finished) && IsPath(w, p) && i < |finished| && finished[i] == p[0]
    ensures j <= i && finished[j] == p[|p| - 1] && (|p| >= 2 ==> j < i)
    decreases |p|
  {
    if |p| == 1 {
      j := i;
    } else {
      assert Calls(w, p[0], p[1]);
      assert p[1] in finished[..i];
      var k :| 0 <= k < i && finished[..i][k] == p[1];
      assert IsPath(w, p[1..]) by {
        forall n | 0 <= n < |p[1..]| - 1 ensures Calls(w, p[1..][n], p[1..][n + 1]) {
          assert Calls(w, p[n + 1], p[n + 2]);
        }
      }
      j := PathsFall(w, finished, p[1..], k);
    }
  }

  ghost predicate Distinct(s: seq<string>) {
    forall i, j | 0 <= i < j < |s| :: s[i] != s[j]
  }

  lemma FinishedIsAcyclic(w: Workflows, finished: seq<string>, f: string)
    requires InOrder(w, finished) && Distinct(finished) && f in finished
    ensures !OnCycle(w, f)
  {
    if OnCycle(w, f) {
      var p :| Leads(w, p, f, f) && |p| >= 2;
      var i :| 0 <= i < |finished| && finished[i] == f;
      var j := PathsFall(w, finished, p, i);
    }
  }

  // ---- The walk -----------------------------------------------------------------------------------------------

  ghost function Members(s: seq<string>): set<string> {
    set f | f in s
  }

  /** The workflows being walked lead from a validator to each other, and none has finished. */
  ghost predicate IsChain(w: Workflows, roots: seq<string>, chain: seq<string>) {
    chain != [] ==> chain[0] in roots && IsPath(w, chain)
  }

  lemma ChainIsReachable(w: Workflows, roots: seq<string>, chain: seq<string>, k: nat)
    requires IsChain(w, roots, chain) && k < |chain|
    ensures Reachable(w, roots, chain[k])
  {
    assert Leads(w, chain[..k + 1], chain[0], chain[k]);
  }

  /** A call back into the chain closes a cycle that the validators can reach. */
  lemma BackCallIsACycle(w: Workflows, roots: seq<string>, chain: seq<string>, f: string)
    requires IsChain(w, roots, chain) && chain != [] && Calls(w, chain[|chain| - 1], f) && f in chain
    ensures !Acceptable(w, roots)
  {
    var k :| 0 <= k < |chain| && chain[k] == f;
    var p := chain[k..] + [f];
    forall n | 0 <= n < |p| - 1 ensures Calls(w, p[n], p[n + 1]) {
      if n < |p| - 2 {
        assert p[n] == chain[k + n] && p[n + 1] == chain[k + n + 1];
      }
    }
    assert Leads(w, p, f, f);
    ChainIsReachable(w, roots, chain, k);
  }

  /** Visited workflows have finished or are on the chain; finished ones are sound and call only earlier ones. */
  ghost predicate Underway(w: Workflows, roots: seq<string>,
      visited: set<string>, finished: seq<string>, chain: seq<string>)
  {
    && visited == Members(finished) + Members(chain) && Members(finished) !! Members(chain)
    && visited <= w.Keys
    && IsChain(w, roots, chain) && Distinct(chain) && InOrder(w, finished) && Distinct(finished)
    && forall f | f in finished :: WellFormed(w, f) && Reachable(w, roots, f)
  }

  ghost predicate Next(w: Workflows, roots: seq<string>, chain: seq<string>, f: string) {
    if chain == [] then f in roots else Calls(w, chain[|chain| - 1], f)
  }

  lemma NextIsReachable(w: Workflows, roots: seq<string>, chain: seq<string>, f: string)
    requires IsChain(w, roots, chain) && Next(w, roots, chain, f)
    ensures Reachable(w, roots, f)
  {
    if chain == [] {
      RootsAreReachable(w, roots, f);
    } else {
      ChainIsReachable(w, roots, chain, |chain| - 1);
      CalledIsReachable(w, roots, chain[|chain| - 1], f);
    }
  }

  lemma LongerChain(w: Workflows, roots: seq<string>, chain: seq<string>, f: string)
    requires IsChain(w, roots, chain) && Next(w, roots, chain, f)
    ensures IsChain(w, roots, chain + [f])
  {
  }

  lemma Enter(w: Workflows, roots: seq<string>,
      visited: set<string>, finished: seq<string>, chain: seq<string>, f: string)
    requires Underway(w, roots, visited, finished, chain) && Next(w, roots, chain, f) && f in w && f !in visited
    ensures Underway(w, roots, visited + {f}, finished, chain + [f])
    ensures |w.Keys - (visited + {f})| < |w.Keys - visited|
  {
    hide WellFormed, Reachable, InOrder, Calls;
    LongerChain(w, roots, chain, f);
    assert forall g | g in chain :: g in Members(chain);
    assert Members(chain + [f]) == Members(chain) + {f};
    assert w.Keys - (visited + {f}) == (w.Keys - visited) - {f};
  }

  lemma OrderGrows(w: Workflows, finished: seq<string>, f: string)
    requires InOrder(w, finished) && forall g | Calls(w, f, g) :: g in finished
    ensures InOrder(w, finished + [f])
  {
    hide Calls;
    var longer := finished + [f];
    forall i, g | 0 <= i < |longer| && Calls(w, longer[i], g) ensures g in longer[..i] {
      assert longer[..i] == finished[..i];
    }
  }

  lemma LastMoves(finished: seq<string>, chain: seq<string>, f: string)
    requires Distinct(chain + [f]) && Distinct(finished) && Members(finished) !! Members(chain + [f])
    ensures Members(finished + [f]) + Members(chain) == Members(finished) + Members(chain + [f])
    ensures Members(finished + [f]) !! Members(chain) && Distinct(finished + [f]) && Distinct(chain)
  {
    var longer := chain + [f];
    assert forall i | 0 <= i < |chain| :: longer[i] == chain[i];
    assert longer[|chain|] == f && f in Members(longer) && f !in chain;
    assert Members(longer) == Members(chain) + {f};
    assert Members(finished + [f]) == Members(finished) + {f};
    assert forall g | g in finished :: g in Members(finished);
  }

  lemma Leave(w: Workflows, roots: seq<string>,
      visited: set<string>, finished: seq<string>, chain: seq<string>, f: string)
    requires Underway(w, roots, visited, finished, chain + [f]) && WellFormed(w, f)
    requires forall g | Calls(w, f, g) :: g in finished
    ensures Underway(w, roots, visited, finished + [f], chain)
  {
    hide WellFormed, Reachable, Calls, IsChain, InOrder, Distinct, Members;
    OrderGrows(w, finished, f);
    LastMoves(finished, chain, f);
    ShorterChain(w, roots, chain, f);
    assert (chain + [f])[|chain|] == f;
    ChainIsReachable(w, roots, chain + [f], |chain|);
  }

  lemma ShorterChain(w: Workflows, roots: seq<string>, chain: seq<string>, f: string)
    requires IsChain(w, roots, chain + [f])
    ensures IsChain(w, roots, chain)
  {
    if chain != [] {
      forall n | 0 <= n < |chain| - 1 ensures Calls(w, chain[n], chain[n + 1]) {
        assert Calls(w, (chain + [f])[n], (chain + [f])[n + 1]);
      }
    }
  }

  class Walk {
    const workflows: Workflows
    var visited: set<string>
    ghost var finished: seq<string>

    ghost predicate Valid(roots: seq<string>, chain: seq<string>)
      reads this
    {
      Underway(workflows, roots, visited, finished, chain)
    }

    constructor (workflows: Workflows)
      ensures this.workflows == workflows && visited == {} && finished == []
    {
      this.workflows := workflows;
      visited := {};
      finished := [];
    }

    /** Walk one workflow: the chain is checked before visited workflows are skipped. */
    method CallableWorkflow(filename: string, chain: seq<string>, ghost roots: seq<string>) returns (ok: bool)
      requires Valid(roots, chain) && Next(workflows, roots, chain, filename)
      modifies this
      ensures ok ==> Valid(roots, chain) && filename in finished && old(finished) <= finished
      ensures !ok ==> !Acceptable(workflows, roots)
      ensures old(visited) <= visited
      decreases |workflows.Keys - visited|, 0
    {
      hide Underway, Next, Acceptable, Startable;
      if filename in chain {
        BackCallFails(workflows, roots, visited, finished, chain, filename);
        return false;
      }
      if filename in visited {
        VisitedIsFinished(workflows, roots, visited, finished, chain, filename);
        return true;
      }
      if filename !in workflows || !Startable(workflows[filename]) {
        IllFormedFails(workflows, roots, visited, finished, chain, filename);
        return false;
      }
      Enter(workflows, roots, visited, finished, chain, filename);
      visited := visited + {filename};
      ok := WalkJobs(filename, chain, roots);
      if ok {
        Leave(workflows, roots, visited, finished, chain, filename);
        finished := finished + [filename];
      }
    }

    method WalkJobs(filename: string, chain: seq<string>, ghost roots: seq<string>) returns (ok: bool)
      requires Valid(roots, chain + [filename]) && filename in workflows && Startable(workflows[filename])
      modifies this
      ensures ok ==> Valid(roots, chain + [filename]) && old(finished) <= finished && WellFormed(workflows, filename)
      ensures ok ==> forall g | Calls(workflows, filename, g) :: g in finished
      ensures !ok ==> !Acceptable(workflows, roots)
      ensures old(visited) <= visited
      decreases |workflows.Keys - visited|, 1
    {
      hide Underway, Acceptable, Startable;
      var jobs := workflows[filename].jobs;
      for n := 0 to |jobs|
        invariant Valid(roots, chain + [filename]) && old(finished) <= finished && old(visited) <= visited
        invariant forall i | 0 <= i < n :: Timed(jobs[i]) && (jobs[i].calls.Some? ==> jobs[i].calls.value in finished)
      {
        if jobs[n].calls.Some? {
          assert Calls(workflows, filename, jobs[n].calls.value);
          assert (chain + [filename])[|chain|] == filename;
          SubsetSize(workflows.Keys - visited, workflows.Keys - old(visited));
          ok := CallableWorkflow(jobs[n].calls.value, chain + [filename], roots);
          if !ok {
            return;
          }
        } else if jobs[n].runsOn && !jobs[n].timeout {
          UntimedFails(workflows, roots, visited, finished, chain, filename, n);
          return false;
        }
      }
      ok := true;
    }
  }

  lemma BackCallFails(w: Workflows, roots: seq<string>,
      visited: set<string>, finished: seq<string>, chain: seq<string>, f: string)
    requires Underway(w, roots, visited, finished, chain) && Next(w, roots, chain, f) && f in chain
    ensures !Acceptable(w, roots)
  {
    hide Acceptable;
    BackCallIsACycle(w, roots, chain, f);
  }

  lemma VisitedIsFinished(w: Workflows, roots: seq<string>,
      visited: set<string>, finished: seq<string>, chain: seq<string>, f: string)
    requires Underway(w, roots, visited, finished, chain) && f in visited && f !in chain
    ensures f in finished
  {
  }

  lemma IllFormedFails(w: Workflows, roots: seq<string>,
      visited: set<string>, finished: seq<string>, chain: seq<string>, f: string)
    requires Underway(w, roots, visited, finished, chain) && Next(w, roots, chain, f) && (f !in w || !Startable(w[f]))
    ensures !Acceptable(w, roots)
  {
    NextIsReachable(w, roots, chain, f);
    assert !WellFormed(w, f);
  }

  lemma UntimedFails(w: Workflows, roots: seq<string>,
      visited: set<string>, finished: seq<string>, chain: seq<string>, f: string, n: nat)
    requires Underway(w, roots, visited, finished, chain + [f]) && f in w && n < |w[f].jobs| && !Timed(w[f].jobs[n])
    ensures !Acceptable(w, roots)
  {
    ChainIsReachable(w, roots, chain + [f], |chain|);
    assert !WellFormed(w, f);
  }

  /** The walk accepts exactly the acceptable graphs, and has then visited exactly what the validators can reach. */
  method ValidateGraph(workflows: Workflows, validators: seq<string>) returns (ok: bool, visited: set<string>)
    ensures ok <==> Acceptable(workflows, validators)
    ensures ok ==> forall f :: f in visited <==> Reachable(workflows, validators, f)
  {
    var walk := new Walk(workflows);
    visited := {};
    for n := 0 to |validators|
      invariant walk.workflows == workflows && Underway(workflows, validators, walk.visited, walk.finished, [])
      invariant forall i | 0 <= i < n :: validators[i] in walk.finished
    {
      ok := walk.CallableWorkflow(validators[n], [], validators);
      if !ok {
        return;
      }
    }
    ok, visited := true, walk.visited;
    FinishedIsEverything(workflows, validators, walk.finished);
    forall f | Reachable(workflows, validators, f) ensures WellFormed(workflows, f) && !OnCycle(workflows, f) {
      FinishedIsAcyclic(workflows, walk.finished, f);
    }
  }

  lemma FinishedIsEverything(w: Workflows, roots: seq<string>, finished: seq<string>)
    requires InOrder(w, finished) && forall i | 0 <= i < |roots| :: roots[i] in finished
    ensures forall f | Reachable(w, roots, f) :: f in finished
  {
    forall f | Reachable(w, roots, f) ensures f in finished {
      var r, p :| r in roots && Leads(w, p, r, f);
      forall a, b | a in Members(finished) && Calls(w, a, b) ensures b in Members(finished) {
        var i :| 0 <= i < |finished| && finished[i] == a;
        assert b in finished[..i];
      }
      PathStaysInside(w, p, Members(finished), |p| - 1);
    }
  }
}
