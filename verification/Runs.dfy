/**
 The two readings of the table of steps.

 `Run` carries a quota, as the evaluator does, and stops with `Budget` when it cannot pay.
 A derivation has no quota: it is a finite tree whose every node follows the table, with
 the number of units it would have spent. The two agree exactly: a run that does not
 exhaust its quota is a derivation, and a derivation whose cost the quota covers is the run.
 */
module Runs {
  import opened Machine
  import opened Lang
  import opened Semantics
  import opened Steps

  datatype Result = Result(o: Out, s: Scope, q: nat)

  /** Evaluates a task under a quota. Total: every call, const item and loop turn pays. */
  function Run(p: Package, c: Ctx, t: Task, s: Scope, q: nat): (r: Result)
    ensures r.q <= q
    decreases q, Major(t), Minor(t), 4
  {
    Drive(p, c, t, s, [], q, q)
  }

  /** A task in mid-run: its last answer was asked for, and a call has paid. */
  ghost predicate Underway(p: Package, c: Ctx, t: Task, s: Scope, h: seq<Answer>, q: nat, q0: nat) {
    Asked(p, c, t, s, h) && q <= q0 && (h != [] && Pays(p, c, t) ==> q < q0)
  }

  /** Goes on with a task that began with quota `q0`, has `q` left and the answers `h`. */
  function Drive(p: Package, c: Ctx, t: Task, s: Scope, h: seq<Answer>, q: nat, q0: nat): (r: Result)
    requires Underway(p, c, t, s, h, q, q0)
    ensures r.q <= q
    decreases q0, Major(t), Minor(t), 3 - |h|
  {
    var step := Resume(p, c, t, s, h);
    StepGuarantees(p, c, t, s, h);
    var cost := if step.tick then 1 else 0;
    if q < cost then Result(Stop(Budget), Resigned(p, c, t, s, h), q)
    else if step.Done? then Result(step.o, step.s, q - cost)
    else
      var sub := Run(p, step.c, step.t, step.s, q - cost);
      assert (h + [Answer(sub.o, sub.s)])[..|h|] == h;
      Drive(p, c, t, s, h + [Answer(sub.o, sub.s)], sub.q, q0)
  }

  /** The scope a task leaves when it cannot pay for its next step. */
  function Resigned(p: Package, c: Ctx, t: Task, s: Scope, h: seq<Answer>): Scope {
    var step := Resume(p, c, t, s, h);
    if step.Done? then step.s else Resume(p, c, t, s, h + [Answer(Stop(Budget), step.s)]).s
  }

  /** What is left of a step that cannot be paid for: the same as when what it asks for runs out. */
  lemma Unpaid(p: Package, c: Ctx, t: Task, s: Scope, h: seq<Answer>)
    requires Asked(p, c, t, s, h) && Resume(p, c, t, s, h).Ask?
    ensures var g := h + [Answer(Stop(Budget), Resume(p, c, t, s, h).s)];
      && |g| <= 3 && Resume(p, c, t, s, g).Done? && Resume(p, c, t, s, g).o == Stop(Budget)
      && Resigned(p, c, t, s, h) == Resume(p, c, t, s, g).s
  {
    hide Resume, Pays, Lower;
    StepGuarantees(p, c, t, s, h);
    var g := h + [Answer(Stop(Budget), Resume(p, c, t, s, h).s)];
    assert g[..|g| - 1] == h;
    StepGuarantees(p, c, t, s, g);
  }

  /** One subtask answered: the history grows and the run goes on from there. */
  lemma DriveAsk(p: Package, c: Ctx, t: Task, s: Scope, h: seq<Answer>, q: nat, q0: nat, sub: Result)
    requires Underway(p, c, t, s, h, q, q0)
    requires var step := Resume(p, c, t, s, h);
             step.Ask? && Tick(step) <= q && sub == Run(p, step.c, step.t, step.s, q - Tick(step))
    ensures Underway(p, c, t, s, h + [Answer(sub.o, sub.s)], sub.q, q0)
    ensures Drive(p, c, t, s, h, q, q0) == Drive(p, c, t, s, h + [Answer(sub.o, sub.s)], sub.q, q0)
  {
    hide Resume, Pays, Major, Minor, Faithful, Resigned;
    StepGuarantees(p, c, t, s, h);
    assert (h + [Answer(sub.o, sub.s)])[..|h|] == h;
  }

  /** No subtask left to ask for: the step's answer is the run's. */
  lemma DriveDone(p: Package, c: Ctx, t: Task, s: Scope, h: seq<Answer>, q: nat, q0: nat)
    requires Underway(p, c, t, s, h, q, q0)
    requires var step := Resume(p, c, t, s, h); step.Done? && Tick(step) <= q
    ensures var step := Resume(p, c, t, s, h); Drive(p, c, t, s, h, q, q0) == Result(step.o, step.s, q - Tick(step))
  {
    hide Resume, Pays;
  }

  function Tick(step: Step): nat { if step.tick then 1 else 0 }

  // ----- derivations ------------------------------------------------------------------------

  /** A Task in its context, the subtasks it asked for in order, its answer, its cost. */
  datatype Deriv = Deriv(c: Ctx, t: Task, s: Scope, subs: seq<Deriv>, ans: Answer, cost: nat)

  function Answers(ds: seq<Deriv>): (r: seq<Answer>)
    ensures |r| == |ds|
  {
    seq(|ds|, i requires 0 <= i < |ds| => ds[i].ans)
  }

  /** What the first `k` subtasks cost, each with the step that asked for it. */
  function Spent(p: Package, d: Deriv, k: nat): nat
    requires k <= |d.subs|
    decreases k
  {
    if k == 0 then 0
    else Spent(p, d, k - 1) + Tick(Resume(p, d.c, d.t, d.s, Answers(d.subs[..k - 1]))) + d.subs[k - 1].cost
  }

  /** The `k`-th subtask is the one the table asks for after the first `k` answers. */
  ghost predicate Follows(p: Package, d: Deriv, k: nat)
    requires k < |d.subs|
  {
    var step := Resume(p, d.c, d.t, d.s, Answers(d.subs[..k]));
    step.Ask? && step.c == d.subs[k].c && step.t == d.subs[k].t && step.s == d.subs[k].s
  }

  ghost predicate Concludes(p: Package, d: Deriv) {
    var step := Resume(p, d.c, d.t, d.s, Answers(d.subs));
    step.Done? && d.ans == Answer(step.o, step.s) && d.cost == Spent(p, d, |d.subs|) + Tick(step)
  }

  ghost predicate Valid(p: Package, d: Deriv)
    decreases d
  {
    && |d.subs| <= 3
    && Concludes(p, d)
    && forall k :: 0 <= k < |d.subs| ==> Follows(p, d, k) && Valid(p, d.subs[k])
  }

  /** A derivation the quota covers is what the run does, and it spends exactly its cost. */
  lemma {:induction false} DerivationRuns(p: Package, d: Deriv, q: nat)
    requires Valid(p, d) && d.cost <= q
    ensures Run(p, d.c, d.t, d.s, q) == Result(d.ans.o, d.ans.s, q - d.cost)
    decreases d, 4
  {
    hide Resume, Pays;
    assert Answers(d.subs[..0]) == [];
    DriveFollows(p, d, 0, q);
  }

  lemma {:induction false} DriveFollows(p: Package, d: Deriv, k: nat, q0: nat)
    requires Valid(p, d) && d.cost <= q0 && k <= |d.subs|
    ensures Spent(p, d, k) <= d.cost
    ensures Underway(p, d.c, d.t, d.s, Answers(d.subs[..k]), q0 - Spent(p, d, k), q0)
    ensures Drive(p, d.c, d.t, d.s, Answers(d.subs[..k]), q0 - Spent(p, d, k), q0)
         == Result(d.ans.o, d.ans.s, q0 - d.cost)
    decreases d, 3 - k
  {
    hide Resume, Pays, Asked, Run, Drive, Valid, Spent;
    var h := Answers(d.subs[..k]);
    ValidNode(p, d, k);
    var q := q0 - Spent(p, d, k);
    if k == |d.subs| {
      DriveDone(p, d.c, d.t, d.s, h, q, q0);
    } else {
      var step := Resume(p, d.c, d.t, d.s, h);
      DerivationRuns(p, d.subs[k], q - Tick(step));
      assert h + [d.subs[k].ans] == Answers(d.subs[..k + 1]);
      DriveAsk(p, d.c, d.t, d.s, h, q, q0, Run(p, step.c, step.t, step.s, q - Tick(step)));
      DriveFollows(p, d, k + 1, q0);
    }
  }

  /** What a node of a derivation says about its first `k` subtasks. */
  lemma {:induction false} ValidNode(p: Package, d: Deriv, k: nat)
    requires Valid(p, d) && k <= |d.subs|
    ensures |d.subs| <= 3
    ensures Asked(p, d.c, d.t, d.s, Answers(d.subs[..k]))
    ensures k > 0 && Pays(p, d.c, d.t) ==> Spent(p, d, k) > 0
    ensures Spent(p, d, k) <= d.cost
    ensures var step := Resume(p, d.c, d.t, d.s, Answers(d.subs[..k]));
            if k == |d.subs| then
              step.Done? && d.ans == Answer(step.o, step.s) && d.cost == Spent(p, d, k) + Tick(step)
            else
              && step.Ask? && Valid(p, d.subs[k])
              && step.c == d.subs[k].c && step.t == d.subs[k].t && step.s == d.subs[k].s
              && Spent(p, d, k + 1) == Spent(p, d, k) + Tick(step) + d.subs[k].cost <= d.cost
  {
    hide Resume, Pays, Asked;
    SpentGrows(p, d, k);
    AskedPrefix(p, d, k);
    if k == |d.subs| {
      assert d.subs[..k] == d.subs;
    } else {
      assert Follows(p, d, k);
      SpentGrows(p, d, k + 1);
    }
  }

  lemma {:induction false} SpentGrows(p: Package, d: Deriv, k: nat)
    requires k <= |d.subs| && Concludes(p, d)
    ensures Spent(p, d, k) <= Spent(p, d, |d.subs|) <= d.cost
    decreases |d.subs| - k
  {
    hide Resume;
    if k < |d.subs| { SpentGrows(p, d, k + 1); }
  }

  lemma {:induction false} AskedPrefix(p: Package, d: Deriv, k: nat)
    requires Valid(p, d) && k <= |d.subs|
    ensures Asked(p, d.c, d.t, d.s, Answers(d.subs[..k]))
    ensures k > 0 && Pays(p, d.c, d.t) ==> Spent(p, d, k) > 0
    decreases k
  {
    hide Resume, Pays;
    if k > 0 {
      assert Follows(p, d, k - 1);
      assert Answers(d.subs[..k])[..k - 1] == Answers(d.subs[..k - 1]);
      AskedPrefix(p, d, k - 1);
      StepGuarantees(p, d.c, d.t, d.s, Answers(d.subs[..k - 1]));
    }
  }

  /** A derivation never ends for want of quota. */
  lemma {:induction false} NeverBudget(p: Package, d: Deriv)
    requires Valid(p, d)
    ensures d.ans.o != Stop(Budget)
  {
    hide Resume, Pays, Asked, Valid, Spent;
    var k := |d.subs|;
    ValidNode(p, d, k);
    assert d.subs[..k] == d.subs;
    StepGuarantees(p, d.c, d.t, d.s, Answers(d.subs));
    if k > 0 {
      ValidNode(p, d, k - 1);
      NeverBudget(p, d.subs[k - 1]);
    }
  }

  /** The node of a derivation still under construction. */
  function Partial(c: Ctx, t: Task, s: Scope, subs: seq<Deriv>): Deriv {
    Deriv(c, t, s, subs, Answer(Stop(NoFailure), s), 0)
  }

  ghost predicate Built(p: Package, c: Ctx, t: Task, s: Scope, subs: seq<Deriv>) {
    |subs| <= 3 && forall k :: 0 <= k < |subs| ==> Follows(p, Partial(c, t, s, subs), k) && Valid(p, subs[k])
  }

  lemma {:induction false} SpentPrefix(p: Package, d: Deriv, e: Deriv, k: nat)
    requires d.c == e.c && d.t == e.t && d.s == e.s && k <= |d.subs| && k <= |e.subs| && d.subs[..k] == e.subs[..k]
    ensures Spent(p, d, k) == Spent(p, e, k)
    decreases k
  {
    hide Resume;
    if k > 0 {
      assert d.subs[..k - 1] == d.subs[..k][..k - 1] == e.subs[..k - 1];
      assert d.subs[k - 1] == d.subs[..k][k - 1] == e.subs[k - 1];
      SpentPrefix(p, d, e, k - 1);
    }
  }

  lemma BuiltGrows(p: Package, c: Ctx, t: Task, s: Scope, subs: seq<Deriv>, sub: Deriv)
    requires Built(p, c, t, s, subs) && |subs| < 3 && Valid(p, sub)
    requires var step := Resume(p, c, t, s, Answers(subs));
             step.Ask? && step.c == sub.c && step.t == sub.t && step.s == sub.s
    ensures Built(p, c, t, s, subs + [sub])
    ensures Answers(subs + [sub]) == Answers(subs) + [sub.ans]
    ensures Spent(p, Partial(c, t, s, subs + [sub]), |subs| + 1)
         == Spent(p, Partial(c, t, s, subs), |subs|) + Tick(Resume(p, c, t, s, Answers(subs))) + sub.cost
  {
    hide Resume, Valid;
    var d, e := Partial(c, t, s, subs), Partial(c, t, s, subs + [sub]);
    var n := |subs|;
    assert e.subs[..n] == subs == d.subs[..n];
    SpentPrefix(p, d, e, n);
    forall k | 0 <= k <= n
      ensures Follows(p, e, k) && Valid(p, e.subs[k])
    {
      if k < n {
        assert Follows(p, d, k);
        assert e.subs[..k] == d.subs[..k];
      }
    }
  }

  /** A run that does not exhaust its quota is a derivation whose cost is what it spent. */
  lemma {:induction false} RunDerives(p: Package, c: Ctx, t: Task, s: Scope, q: nat) returns (d: Deriv)
    requires Run(p, c, t, s, q).o != Stop(Budget)
    ensures Valid(p, d) && d.c == c && d.t == t && d.s == s && d.cost <= q
    ensures Run(p, c, t, s, q) == Result(d.ans.o, d.ans.s, q - d.cost)
    decreases q, Major(t), Minor(t), 4
  {
    hide Resume, Pays, Valid;
    assert Answers([]) == [];
    d := DriveDerives(p, c, t, s, [], q, q);
  }

  lemma {:induction false} DriveDerives(
    p: Package, c: Ctx, t: Task, s: Scope, subs: seq<Deriv>, q: nat, q0: nat
  ) returns (d: Deriv)
    requires Built(p, c, t, s, subs) && Underway(p, c, t, s, Answers(subs), q, q0)
    requires Spent(p, Partial(c, t, s, subs), |subs|) == q0 - q
    requires Drive(p, c, t, s, Answers(subs), q, q0).o != Stop(Budget)
    ensures Valid(p, d) && d.c == c && d.t == t && d.s == s && d.cost <= q0
    ensures Drive(p, c, t, s, Answers(subs), q, q0) == Result(d.ans.o, d.ans.s, q0 - d.cost)
    decreases q0, Major(t), Minor(t), 3 - |subs|
  {
    hide Resume, Pays, Valid, Run, Built, Asked;
    var h := Answers(subs);
    var step := Resume(p, c, t, s, h);
    StepGuarantees(p, c, t, s, h);
    if step.Done? {
      DriveDone(p, c, t, s, h, q, q0);
      d := Deriv(c, t, s, subs, Answer(step.o, step.s), q0 - q + Tick(step));
      BuiltConcludes(p, d);
    } else {
      var r := Run(p, step.c, step.t, step.s, q - Tick(step));
      DriveAsk(p, c, t, s, h, q, q0, r);
      var h' := h + [Answer(r.o, r.s)];
      StepGuarantees(p, c, t, s, h');
      var sub := RunDerives(p, step.c, step.t, step.s, q - Tick(step));
      BuiltGrows(p, c, t, s, subs, sub);
      d := DriveDerives(p, c, t, s, subs + [sub], r.q, q0);
    }
  }

  lemma BuiltConcludes(p: Package, d: Deriv)
    requires Built(p, d.c, d.t, d.s, d.subs)
    requires var step := Resume(p, d.c, d.t, d.s, Answers(d.subs));
             && step.Done? && d.ans == Answer(step.o, step.s)
             && d.cost == Spent(p, Partial(d.c, d.t, d.s, d.subs), |d.subs|) + Tick(step)
    ensures Valid(p, d)
  {
    hide Resume, Spent;
    var e := Partial(d.c, d.t, d.s, d.subs);
    SpentPrefix(p, d, e, |d.subs|);
    assert forall k :: 0 <= k < |d.subs| ==> Follows(p, e, k) ==> Follows(p, d, k);
  }
}
