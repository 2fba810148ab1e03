/**
 The compiler's client in the browser (site/shared/compiler-client.ts, openCompiler and
 runProgram): requests posted to a worker created on demand, and the events that settle them.
 A worker is a number in order of creation; a promise's settlement is an entry in a log.
 */
module Client {
  import opened Lang

  datatype Outcome = Resolved(answer: nat, payload: string) | Rejected(reason: string)

  datatype Settlement = Settlement(id: nat, outcome: Outcome)

  datatype Event =
    | Request
    | Answer(from: nat, id: nat, payload: string)
    | Status(from: nat)
    | Error(from: nat, reason: string)
    | Unreadable(from: nat)
    | Dispose

  /** `pending` keeps the order requests were made in, as a Map does; `postedTo` names each one's worker. */
  datatype State = State(
    worker: Option<nat>,
    created: nat,
    nextId: nat,
    pending: seq<nat>,
    settled: seq<Settlement>,
    postedTo: map<nat, nat>
  )

  const START: State := State(None, 0, 0, [], [], map[])

  const UNREADABLE := "the compiler worker sent an unreadable message"

  function Failing(ids: seq<nat>, reason: string): seq<Settlement> {
    seq(|ids|, i requires 0 <= i < |ids| => Settlement(ids[i], Rejected(reason)))
  }

  function FailAll(s: State, reason: string): State {
    s.(pending := [], settled := s.settled + Failing(s.pending, reason))
  }

  function Without(ids: seq<nat>, id: nat): seq<nat> {
    if ids == [] then [] else if ids[0] == id then ids[1..] else [ids[0]] + Without(ids[1..], id)
  }

  /** What each event does. */
  function Step(s: State, e: Event): State {
    match e
    case Request =>
      var worker := if s.worker.Some? then s.worker.value else s.created;
      var created := if s.worker.Some? then s.created else s.created + 1;
      var id := s.nextId + 1;
      State(Some(worker), created, id, s.pending + [id], s.settled, s.postedTo[id := worker])
    case Answer(_, id, payload) =>
      if id !in s.pending then s
      else s.(pending := Without(s.pending, id), settled := s.settled + [Settlement(id, Resolved(id, payload))])
    case Status(_) => s
    case Error(from, reason) => FailAll(if s.worker == Some(from) then s.(worker := None) else s, reason)
    case Unreadable(_) => FailAll(s, UNREADABLE)
    case Dispose => FailAll(s.(worker := None), "the compiler worker was disposed")
  }

  function Run(s: State, events: seq<Event>): State {
    if events == [] then s else Step(Run(s, events[..|events| - 1]), events[|events| - 1])
  }

  // ----- the client as it is written ---------------------------------------------------------------

  class CompilerClient {
    var worker: Option<nat>
    var created: nat
    var nextId: nat
    var pending: seq<nat>
    var settled: seq<Settlement>
    ghost var postedTo: map<nat, nat>

    ghost function Now(): State reads this { State(worker, created, nextId, pending, settled, postedTo) }

    constructor ()
      ensures Now() == START
    {
      worker, created, nextId, pending, settled, postedTo := None, 0, 0, [], [], map[];
    }

    method RejectAll(reason: string)
      modifies this`pending, this`settled
      ensures Now() == FailAll(old(Now()), reason)
    {
      var i := 0;
      while i < |pending|
        invariant 0 <= i <= |pending| && pending == old(pending)
        invariant settled == old(settled) + Failing(pending[..i], reason)
      {
        assert Failing(pending[..i + 1], reason) ==
          Failing(pending[..i], reason) + [Settlement(pending[i], Rejected(reason))];
        settled := settled + [Settlement(pending[i], Rejected(reason))];
        i := i + 1;
      }
      assert pending[..i] == pending;
      pending := [];
    }

    method Connect() returns (active: nat)
      modifies this`worker, this`created
      ensures worker == Some(active)
      ensures active == if old(worker).Some? then old(worker).value else old(created)
      ensures created == if old(worker).Some? then old(created) else old(created) + 1
    {
      if worker.Some? { return worker.value; }
      active := created;
      created := created + 1;
      worker := Some(active);
    }

    method MakeRequest() returns (id: nat)
      modifies this
      ensures Now() == Step(old(Now()), Request) && id == nextId
    {
      var active := Connect();
      nextId := nextId + 1;
      id := nextId;
      pending := pending + [id];
      postedTo := postedTo[id := active];
    }

    method OnMessage(from: nat, id: nat, payload: string)
      modifies this`pending, this`settled
      ensures Now() == Step(old(Now()), Answer(from, id, payload))
    {
      if id in pending {
        pending := Without(pending, id);
        settled := settled + [Settlement(id, Resolved(id, payload))];
      }
    }

    method OnError(from: nat, reason: string)
      modifies this
      ensures Now() == Step(old(Now()), Error(from, reason))
    {
      if worker == Some(from) { worker := None; }
      RejectAll(reason);
    }

    method OnUnreadable(from: nat)
      modifies this
      ensures Now() == Step(old(Now()), Unreadable(from))
    {
      RejectAll(UNREADABLE);
    }

    method Close()
      modifies this
      ensures Now() == Step(old(Now()), Dispose)
    {
      worker := None;
      RejectAll("the compiler worker was disposed");
    }
  }

  // ----- what every run keeps -----------------------------------------------------------------------

  ghost predicate HasId(settled: seq<Settlement>, id: nat) { exists i :: 0 <= i < |settled| && settled[i].id == id }

  /** Ids are handed out once; each is pending or settled, never both, and settled at most once. */
  ghost predicate Ledger(nextId: nat, pending: seq<nat>, settled: seq<Settlement>) {
    && Rising(pending)
    && (forall id :: id in pending ==> 1 <= id <= nextId && !HasId(settled, id))
    && (forall i :: 0 <= i < |settled| ==> 1 <= settled[i].id <= nextId)
    && (forall i, j :: 0 <= i < j < |settled| ==> settled[i].id != settled[j].id)
    && (forall id :: 1 <= id <= nextId ==> id in pending || HasId(settled, id))
  }

  /** An answer settles only the request whose id it carries. */
  ghost predicate OwnAnswers(settled: seq<Settlement>) {
    forall i :: 0 <= i < |settled| && settled[i].outcome.Resolved? ==> settled[i].outcome.answer == settled[i].id
  }

  ghost predicate Sound(s: State) {
    && Ledger(s.nextId, s.pending, s.settled) && OwnAnswers(s.settled)
    && (s.pending != [] ==> s.worker.Some?)
    && (s.worker.Some? ==> s.worker.value < s.created)
    && (forall id :: 1 <= id <= s.nextId ==> id in s.postedTo)
  }

  ghost predicate Rising(ids: seq<nat>) { forall i, j :: 0 <= i < j < |ids| ==> ids[i] < ids[j] }

  lemma ConsRising(head: nat, tail: seq<nat>)
    requires Rising(tail) && forall k :: k in tail ==> head < k
    ensures Rising([head] + tail)
  {
    var all := [head] + tail;
    forall i, j | 0 <= i < j < |all| ensures all[i] < all[j] {
      assert all[j] == tail[j - 1] && tail[j - 1] in tail;
      if i > 0 { assert all[i] == tail[i - 1]; }
    }
  }

  lemma TailRising(ids: seq<nat>)
    requires Rising(ids) && ids != []
    ensures Rising(ids[1..]) && forall k :: k in ids[1..] ==> ids[0] < k
  {
    var tail := ids[1..];
    forall k | k in tail ensures ids[0] < k {
      var i :| 0 <= i < |tail| && tail[i] == k;
      assert ids[i + 1] == k;
    }
  }

  lemma ConsMember(head: nat, tail: seq<nat>, k: nat)
    ensures k in [head] + tail <==> k == head || k in tail
  {
  }

  lemma {:induction false} WithoutOne(ids: seq<nat>, id: nat)
    requires Rising(ids)
    ensures Rising(Without(ids, id))
    ensures forall k :: k in Without(ids, id) <==> k in ids && k != id
  {
    hide Rising;
    if ids != [] {
      var head, tail := ids[0], ids[1..];
      assert ids == [head] + tail;
      TailRising(ids);
      WithoutOne(tail, id);
      var rest := Without(tail, id);
      if head != id { ConsRising(head, rest); }
      forall k: nat ensures k in Without(ids, id) <==> k in ids && k != id {
        ConsMember(head, tail, k);
        ConsMember(head, rest, k);
      }
    }
  }

  lemma FailAllLedger(nextId: nat, pending: seq<nat>, settled: seq<Settlement>, reason: string)
    requires Ledger(nextId, pending, settled)
    ensures Ledger(nextId, [], settled + Failing(pending, reason))
  {
    var all, n := settled + Failing(pending, reason), |settled|;
    forall i | 0 <= i < |all|
      ensures all[i] == if i < n then settled[i] else Settlement(pending[i - n], Rejected(reason))
    {
    }
    forall i | 0 <= i < |all| ensures 1 <= all[i].id <= nextId {
      if i >= n { assert pending[i - n] in pending; }
    }
    forall id | 1 <= id <= nextId ensures HasId(all, id) {
      if id in pending {
        var k :| 0 <= k < |pending| && pending[k] == id;
        assert all[n + k].id == id;
      } else {
        var k :| 0 <= k < n && settled[k].id == id;
        assert all[k].id == id;
      }
    }
    forall i, j | 0 <= i < j < |all| ensures all[i].id != all[j].id {
      if i < n <= j { assert pending[j - n] in pending; }
    }
  }

  lemma RequestLedger(nextId: nat, pending: seq<nat>, settled: seq<Settlement>)
    requires Ledger(nextId, pending, settled)
    ensures Ledger(nextId + 1, pending + [nextId + 1], settled)
  {
    var more := pending + [nextId + 1];
    forall id ensures id in more <==> id in pending || id == nextId + 1 {}
    forall i | 0 <= i < |pending| ensures pending[i] <= nextId { assert pending[i] in pending; }
  }

  lemma AnswerLedger(nextId: nat, pending: seq<nat>, settled: seq<Settlement>, one: Settlement)
    requires Ledger(nextId, pending, settled) && one.id in pending
    ensures Ledger(nextId, Without(pending, one.id), settled + [one])
  {
    WithoutOne(pending, one.id);
    var all := settled + [one];
    forall id ensures HasId(all, id) <==> HasId(settled, id) || id == one.id {
      if HasId(settled, id) {
        var k :| 0 <= k < |settled| && settled[k].id == id;
        assert all[k].id == id;
      }
      assert all[|settled|].id == one.id;
    }
  }

  lemma StepSound(s: State, e: Event)
    requires Sound(s)
    ensures Sound(Step(s, e))
  {
    hide HasId, Without, Ledger;
    match e
    case Request => RequestLedger(s.nextId, s.pending, s.settled);
    case Answer(_, id, payload) =>
      if id in s.pending {
        AnswerLedger(s.nextId, s.pending, s.settled, Settlement(id, Resolved(id, payload)));
      }
    case Status(_) =>
    case Error(_, reason) => FailAllLedger(s.nextId, s.pending, s.settled, reason);
    case Unreadable(_) => FailAllLedger(s.nextId, s.pending, s.settled, UNREADABLE);
    case Dispose => FailAllLedger(s.nextId, s.pending, s.settled, "the compiler worker was disposed");
  }

  /** Whatever the order of requests, answers, errors, unreadable messages and disposal. */
  lemma {:induction false} EveryRunSound(events: seq<Event>)
    ensures Sound(Run(START, events))
  {
    if events != [] {
      EveryRunSound(events[..|events| - 1]);
      StepSound(Run(START, events[..|events| - 1]), events[|events| - 1]);
    }
  }

  lemma StepAdds(s: State, e: Event)
    ensures s.settled <= Step(s, e).settled && s.nextId <= Step(s, e).nextId
  {
    hide Without, Failing;
  }

  /** What is settled stays settled, and as it was. */
  lemma {:induction false} SettledStays(s: State, events: seq<Event>)
    ensures s.settled <= Run(s, events).settled && s.nextId <= Run(s, events).nextId
  {
    if events != [] {
      SettledStays(s, events[..|events| - 1]);
      StepAdds(Run(s, events[..|events| - 1]), events[|events| - 1]);
    }
  }

  /** An answer to a pending request resolves it with that answer's payload, and leaves the others pending in order. */
  lemma AnswerResolves(events: seq<Event>, from: nat, id: nat, payload: string)
    requires id in Run(START, events).pending
    ensures var s := Run(START, events); var t := Step(s, Answer(from, id, payload));
      && t.settled == s.settled + [Settlement(id, Resolved(id, payload))]
      && (exists i :: 0 <= i < |s.pending| && s.pending[i] == id && t.pending == s.pending[..i] + s.pending[i + 1..])
      && t == s.(settled := t.settled, pending := t.pending)
  {
    TakenOut(Run(START, events).pending, id);
  }

  lemma {:induction false} TakenOut(ids: seq<nat>, id: nat)
    requires id in ids
    ensures exists i :: 0 <= i < |ids| && ids[i] == id && Without(ids, id) == ids[..i] + ids[i + 1..]
    decreases |ids|
  {
    if ids[0] == id {
      assert Without(ids, id) == ids[..0] + ids[1..];
    } else {
      TakenOut(ids[1..], id);
      assert Without(ids, id) == [ids[0]] + Without(ids[1..], id);
      var rest := ids[1..];
      var i :| 0 <= i < |rest| && rest[i] == id && Without(rest, id) == rest[..i] + rest[i + 1..];
      hide Without;
      assert ids[..i + 1] == [ids[0]] + rest[..i] && ids[i + 2..] == rest[i + 1..];
      assert [ids[0]] + (rest[..i] + rest[i + 1..]) == ids[..i + 1] + ids[i + 2..];
      assert ids[i + 1] == id;
    }
  }

  /** The event that can settle a request so: its own answer, or a failure with that reason. */
  predicate Causes(e: Event, one: Settlement) {
    match one.outcome
    case Resolved(answer, payload) => e.Answer? && e.id == one.id && answer == one.id && e.payload == payload
    case Rejected(reason) =>
      || (e.Error? && e.reason == reason)
      || (e.Unreadable? && reason == "the compiler worker sent an unreadable message")
      || (e.Dispose? && reason == "the compiler worker was disposed")
  }

  /** Every settlement has its cause among the events. */
  lemma {:induction false} EverySettlementCaused(events: seq<Event>)
    ensures forall one :: one in Run(START, events).settled ==> exists e :: e in events && Causes(e, one)
  {
    if events != [] {
      var before, e := events[..|events| - 1], events[|events| - 1];
      EverySettlementCaused(before);
      var s := Run(START, before);
      StepCauses(s, e);
      forall one | one in Step(s, e).settled ensures exists e' :: e' in events && Causes(e', one) {
        if one in s.settled {
          var e' :| e' in before && Causes(e', one);
          assert e' in events;
        } else {
          assert e in events;
        }
      }
    }
  }

  lemma StepCauses(s: State, e: Event)
    ensures forall one :: one in Step(s, e).settled && one !in s.settled ==> Causes(e, one)
  {
    hide Without;
  }

  /**
   A late answer changes nothing: once a request is settled, no answer that carries its id
   reaches it again, nor any request made since.
   */
  lemma LateAnswerIgnored(before: seq<Event>, after: seq<Event>, from: nat, id: nat, payload: string)
    requires HasId(Run(START, before).settled, id)
    ensures var s := Run(Run(START, before), after); Step(s, Answer(from, id, payload)) == s
  {
    var s := Run(START, before);
    SettledStays(s, after);
    RunApart(START, before, after);
    EveryRunSound(before + after);
    var i :| 0 <= i < |s.settled| && s.settled[i].id == id;
    assert Run(s, after).settled[i].id == id;
  }

  lemma {:induction false} RunApart(s: State, a: seq<Event>, b: seq<Event>)
    ensures Run(s, a + b) == Run(Run(s, a), b)
    decreases |b|
  {
    if b == [] {
      assert a + b == a;
    } else {
      var n := |b| - 1;
      RunApart(s, a, b[..n]);
      assert (a + b)[..|a + b| - 1] == a + b[..n] && (a + b)[|a + b| - 1] == b[n];
    }
  }

  // ----- which worker a rejection comes from ----------------------------------------------------------

  /** Every pending request was posted to the worker now alive. */
  ghost predicate Current(s: State) {
    forall id :: id in s.pending ==> id in s.postedTo && s.worker == Some(s.postedTo[id])
  }

  lemma StepCurrent(s: State, e: Event)
    requires Sound(s) && Current(s)
    ensures Current(Step(s, e))
  {
    if e.Answer? && e.id in s.pending { WithoutOne(s.pending, e.id); }
  }

  lemma {:induction false} EveryRunCurrent(events: seq<Event>)
    ensures Current(Run(START, events))
  {
    if events != [] {
      EveryRunCurrent(events[..|events| - 1]);
      EveryRunSound(events[..|events| - 1]);
      StepCurrent(Run(START, events[..|events| - 1]), events[|events| - 1]);
    }
  }

  /** The requests an event rejects were all posted to the worker it comes from. */
  ghost predicate OwnFailure(s: State, from: nat) {
    forall id :: id in s.pending ==> id in s.postedTo && s.postedTo[id] == from
  }

  /**
   An error or an unreadable message rejects only requests posted to the worker it comes from,
   exactly when that worker is still the live one or nothing is pending.
   */
  lemma ErrorRejectsItsOwnExactly(events: seq<Event>, from: nat)
    ensures var s := Run(START, events); OwnFailure(s, from) <==> s.pending == [] || s.worker == Some(from)
  {
    EveryRunCurrent(events);
    EveryRunSound(events);
    var s := Run(START, events);
    if s.pending != [] { assert s.pending[0] in s.pending; }
  }

  /** A replaced worker's error, or unreadable message, still rejects the requests of its successor. */
  lemma StaleErrorRejects()
    ensures var s := Run(START, [Request, Dispose, Request]);
      && s.worker == Some(1) && s.postedTo == map[1 := 0, 2 := 1]
      && Step(s, Error(0, "late")).settled == s.settled + [Settlement(2, Rejected("late"))]
      && Step(s, Unreadable(0)).settled == s.settled + [Settlement(2, Rejected(UNREADABLE))]
  {
    var one, two, three := [Request], [Request, Dispose], [Request, Dispose, Request];
    assert one[..0] == [] && two[..1] == one && three[..2] == two;
    var a := Run(START, one);
    assert a == State(Some(0), 1, 1, [1], [], map[1 := 0]);
    var b := Run(START, two);
    assert b.worker.None? && b.created == 1 && b.nextId == 1 && b.pending == [];
    var c := Run(START, three);
    assert c.pending == [2];
    assert Failing([2], "late") == [Settlement(2, Rejected("late"))];
    assert Failing([2], UNREADABLE) == [Settlement(2, Rejected(UNREADABLE))];
  }

  // ----- one run of a program ----------------------------------------------------------------------------

  datatype Finish = Result(stdout: string, stderr: string, exitCode: int, ms: nat) | TimedOut | Failed(reason: string)

  /** `finish` lets the first event decide: it stops the worker and the timer, and later events find it settled. */
  class ProgramRun {
    var settled: bool
    var timerOn: bool
    var alive: bool
    var resolved: seq<Finish>

    ghost predicate Valid() reads this {
      && (settled <==> |resolved| == 1) && (!settled <==> resolved == [])
      && (timerOn <==> !settled) && (alive <==> !settled)
    }

    constructor ()
      ensures Valid() && resolved == []
    {
      settled, timerOn, alive, resolved := false, true, true, [];
    }

    method FinishWith(outcome: Finish)
      requires Valid()
      modifies this
      ensures Valid() && resolved == if old(resolved) == [] then [outcome] else old(resolved)
    {
      if settled { return; }
      settled, timerOn, alive := true, false, false;
      resolved := resolved + [outcome];
    }
  }

  /** A run given events in any number settles once, as the first of them says. */
  method RunEvents(events: seq<Finish>) returns (resolved: seq<Finish>, alive: bool)
    ensures resolved == events[..if events == [] then 0 else 1]
    ensures alive <==> events == []
  {
    var run := new ProgramRun();
    var i := 0;
    while i < |events|
      invariant 0 <= i <= |events| && run.Valid()
      invariant run.resolved == events[..if i == 0 then 0 else 1]
    {
      run.FinishWith(events[i]);
      i := i + 1;
    }
    return run.resolved, run.alive;
  }
}
