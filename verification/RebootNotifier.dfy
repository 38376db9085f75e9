/** `reboot_notifier.c`: notifier calls, any number of them at a time, and one worker that share a
counting completion. A state machine gives the interleavings; `Module` holds the shared state and
changes it in place, one atomic action at a time.
 */
module RebootNotifier {

  const UINT_MAX := 0xffff_ffff

  /** Where a notifier call is: before its `completion_done`, in `wait_for_completion`, or returned
      with NOTIFY_OK, without or after waiting. */
  datatype Call = Checking | Waiting | ReturnedAtOnce | ReturnedAfterWait

  datatype State = State(done: nat, completed: bool, calls: map<nat, Call>)
  {
    /** Calls that waited and got through: each has used up one token. */
    function Woken(): set<nat> {
      set i | i in calls && calls[i] == ReturnedAfterWait
    }

    function Blocked(): set<nat> {
      set i | i in calls && calls[i] == Waiting
    }

    function Undecided(): set<nat> {
      set i | i in calls && calls[i] == Checking
    }

    predicate HasReturned(i: nat) {
      i in calls && (calls[i] == ReturnedAtOnce || calls[i] == ReturnedAfterWait)
    }
  }

  const INIT := State(0, false, map[])

  datatype Step = Enter(id: nat) | CompletionDone(id: nat) | Wake(id: nat) | Complete

  predicate Enabled(s: State, step: Step) {
    match step
    case Enter(i) => i !in s.calls
    case CompletionDone(i) => i in s.calls && s.calls[i] == Checking
    case Wake(i) => i in s.calls && s.calls[i] == Waiting && s.done > 0
    case Complete => !s.completed
  }

  function Next(s: State, step: Step): State
    requires Enabled(s, step)
  {
    match step
    case Enter(i) => s.(calls := s.calls[i := Checking])
    case CompletionDone(i) => s.(calls := s.calls[i := if s.done == 0 then Waiting else ReturnedAtOnce])
    case Wake(i) => s.(done := if s.done == UINT_MAX then s.done else s.done - 1, calls := s.calls[i := ReturnedAfterWait])
    case Complete => s.(done := if s.done == UINT_MAX then s.done else s.done + 1, completed := true)
  }

  /** The steps can be taken one after the other and lead from `s` to `t`. */
  ghost predicate Leads(s: State, steps: seq<Step>, t: State)
    decreases |steps|
  {
    if steps == [] then s == t
    else Enabled(s, steps[0]) && Leads(Next(s, steps[0]), steps[1..], t)
  }

  /** What a schedule of actions amounts to: each is taken if it is possible when its turn comes, and
      skipped if not. */
  function Taken(s: State, schedule: seq<Step>): seq<Step>
    decreases |schedule|
  {
    if schedule == [] then []
    else if Enabled(s, schedule[0]) then [schedule[0]] + Taken(Next(s, schedule[0]), schedule[1..])
    else Taken(s, schedule[1..])
  }

  // ---------------------------------------------------------------------------
  // The shared state

  class Module {
    // The counter of the completion, and whether the worker has called complete().
    var done: nat
    var completed: bool
    var calls: map<nat, Call>

    ghost function Abs(): State
      reads this
    {
      State(done, completed, calls)
    }

    constructor ()
      ensures Abs() == INIT
    {
      done, completed, calls := 0, false, map[];
    }

    method EnterNotifier(id: nat)
      requires Enabled(Abs(), Enter(id))
      modifies this
      ensures Abs() == Next(old(Abs()), Enter(id))
    {
      calls := calls[id := Checking];
    }

    /** The test of `my_notifier` and the branch it takes. */
    method CheckDone(id: nat)
      requires Enabled(Abs(), CompletionDone(id))
      modifies this
      ensures Abs() == Next(old(Abs()), CompletionDone(id))
    {
      if done == 0 {
        calls := calls[id := Waiting];
      } else {
        calls := calls[id := ReturnedAtOnce];
      }
    }

    /** The end of wait_for_completion(): take a token, unless the counter is saturated. */
    method WaitForCompletion(id: nat)
      requires Enabled(Abs(), Wake(id))
      modifies this
      ensures Abs() == Next(old(Abs()), Wake(id))
    {
      if done != UINT_MAX {
        done := done - 1;
      }
      calls := calls[id := ReturnedAfterWait];
    }

    /** The end of `waste_time`. */
    method WorkerComplete()
      requires Enabled(Abs(), Complete)
      modifies this
      ensures Abs() == Next(old(Abs()), Complete)
    {
      if done != UINT_MAX {
        done := done + 1;
      }
      completed := true;
    }

    /** Any schedule of actions is a run of the state machine: the possible ones are taken, the
        others skipped, and a schedule that is a run is taken as a whole. */
    method Run(schedule: seq<Step>) returns (ghost taken: seq<Step>)
      modifies this
      ensures taken == Taken(old(Abs()), schedule) && Leads(old(Abs()), taken, Abs())
      ensures forall s :: Leads(old(Abs()), schedule, s) ==> taken == schedule && Abs() == s
    {
      taken := [];
      for k := 0 to |schedule|
        invariant Leads(old(Abs()), taken, Abs())
        invariant taken == Taken(old(Abs()), schedule[..k])
      {
        TakenSnoc(old(Abs()), schedule[..k], schedule[k], Abs());
        assert schedule[..k + 1] == schedule[..k] + [schedule[k]];
        if Enabled(State(done, completed, calls), schedule[k]) {
          LeadsSnoc(old(Abs()), taken, Abs(), schedule[k]);
          taken := taken + [schedule[k]];
          match schedule[k] {
            case Enter(i) => EnterNotifier(i);
            case CompletionDone(i) => CheckDone(i);
            case Wake(i) => WaitForCompletion(i);
            case Complete => WorkerComplete();
          }
        }
      }
      assert schedule[..|schedule|] == schedule;
      forall s | Leads(old(Abs()), schedule, s)
        ensures taken == schedule && Abs() == s
      {
        RunsAreTaken(old(Abs()), schedule, s);
        OneEnd(old(Abs()), schedule, s, Abs());
      }
    }
  }

  lemma {:induction false} TakenSnoc(s: State, schedule: seq<Step>, step: Step, t: State)
    requires Leads(s, Taken(s, schedule), t)
    ensures Taken(s, schedule + [step]) == Taken(s, schedule) + (if Enabled(t, step) then [step] else [])
    decreases |schedule|
  {
    if schedule == [] {
      assert [step][1..] == [];
    } else {
      var rest := schedule[1..];
      assert (schedule + [step])[1..] == rest + [step];
      if Enabled(s, schedule[0]) {
        var next := Next(s, schedule[0]);
        assert Taken(s, schedule)[1..] == Taken(next, rest);
        TakenSnoc(next, rest, step, t);
      } else {
        TakenSnoc(s, rest, step, t);
      }
    }
  }

  lemma {:induction false} RunsAreTaken(s: State, steps: seq<Step>, t: State)
    requires Leads(s, steps, t)
    ensures Taken(s, steps) == steps
    decreases |steps|
  {
    if steps != [] {
      RunsAreTaken(Next(s, steps[0]), steps[1..], t);
    }
  }

  lemma {:induction false} OneEnd(s: State, steps: seq<Step>, t: State, u: State)
    requires Leads(s, steps, t) && Leads(s, steps, u)
    ensures t == u
    decreases |steps|
  {
    if steps != [] {
      OneEnd(Next(s, steps[0]), steps[1..], t, u);
    }
  }

  /** No call is refused: in every state a new call can come in and test at once. It returns if the
      counter is not zero and waits otherwise. */
  lemma CallsAreServed(s: State, i: nat)
    requires i !in s.calls
    ensures exists t :: Leads(s, [Enter(i), CompletionDone(i)], t) && i in t.calls && t.done == s.done &&
              t.calls[i] == if s.done == 0 then Waiting else ReturnedAtOnce
  {
    var entered := Next(s, Enter(i));
    var t := Next(entered, CompletionDone(i));
    assert [Enter(i), CompletionDone(i)][1..] == [CompletionDone(i)] && [CompletionDone(i)][1..] == [];
    assert Leads(entered, [CompletionDone(i)], t);
    assert Leads(s, [Enter(i), CompletionDone(i)], t);
  }

  /** A call that has not tested can do so, a call that waits can return exactly while the counter is
      not zero, and the worker can complete exactly once. */
  lemma CallsProceed(s: State, i: nat)
    requires i in s.calls
    ensures s.calls[i] == Checking <==>
              exists t :: Leads(s, [CompletionDone(i)], t) && i in t.calls &&
                t.calls[i] == if s.done == 0 then Waiting else ReturnedAtOnce
    ensures s.calls[i] == Waiting && s.done > 0 <==>
              exists t :: Leads(s, [Wake(i)], t) && i in t.calls && t.calls[i] == ReturnedAfterWait
    ensures !s.completed <==> exists t :: Leads(s, [Complete], t) && t.completed
  {
    OneStep(s, CompletionDone(i));
    OneStep(s, Wake(i));
    OneStep(s, Complete);
  }

  lemma OneStep(s: State, step: Step)
    ensures Enabled(s, step) ==> Leads(s, [step], Next(s, step))
    ensures forall t :: Leads(s, [step], t) <==> Enabled(s, step) && Next(s, step) == t
  {
    assert [step][1..] == [];
  }

  /** One call that tests before the worker is done returns after it. */
  lemma WaitingCallReturns(i: nat)
    ensures Leads(INIT, [Enter(i), CompletionDone(i), Complete, Wake(i)], State(0, true, map[i := ReturnedAfterWait]))
  {
    var a := Next(INIT, Enter(i));
    var b := Next(a, CompletionDone(i));
    var c := Next(b, Complete);
    assert Next(c, Wake(i)) == State(0, true, map[i := ReturnedAfterWait]);
    LeadsSnoc(INIT, [], INIT, Enter(i));
    LeadsSnoc(INIT, [Enter(i)], a, CompletionDone(i));
    LeadsSnoc(INIT, [Enter(i), CompletionDone(i)], b, Complete);
    LeadsSnoc(INIT, [Enter(i), CompletionDone(i), Complete], c, Wake(i));
    assert [] + [Enter(i)] == [Enter(i)];
    assert [Enter(i)] + [CompletionDone(i)] == [Enter(i), CompletionDone(i)];
    assert [Enter(i), CompletionDone(i)] + [Complete] == [Enter(i), CompletionDone(i), Complete];
    assert [Enter(i), CompletionDone(i), Complete] + [Wake(i)] == [Enter(i), CompletionDone(i), Complete, Wake(i)];
  }

  lemma {:induction false} LeadsSnoc(s: State, steps: seq<Step>, t: State, step: Step)
    requires Leads(s, steps, t) && Enabled(t, step)
    ensures Leads(s, steps + [step], Next(t, step))
    decreases |steps|
  {
    if steps != [] {
      LeadsSnoc(Next(s, steps[0]), steps[1..], t, step);
      assert (steps + [step])[1..] == steps[1..] + [step];
    }
  }

  // ---------------------------------------------------------------------------
  // Tokens

  /** Every token that complete() made is either in the completion or used by a call that waited,
      and no call has returned without one having been made. */
  ghost predicate Inv(s: State) {
    && s.done + |s.Woken()| == (if s.completed then 1 else 0)
    && (forall i :: s.HasReturned(i) ==> s.completed)
  }

  lemma WokenAfter(s: State, step: Step)
    requires Enabled(s, step)
    ensures Next(s, step).Woken() == if step.Wake? then s.Woken() + {step.id} else s.Woken()
    ensures step.Wake? ==> step.id !in s.Woken()
  {
  }

  lemma InvStep(s: State, step: Step)
    requires Inv(s) && Enabled(s, step)
    ensures Inv(Next(s, step))
  {
    WokenAfter(s, step);
    var t := Next(s, step);
    forall i | t.HasReturned(i)
      ensures t.completed
    {
      assert s.HasReturned(i) || s.done > 0;
    }
  }

  lemma {:induction false} InvAlways(s: State, steps: seq<Step>, t: State)
    requires Inv(s) && Leads(s, steps, t)
    ensures Inv(t)
    decreases |steps|
  {
    if steps != [] {
      InvStep(s, steps[0]);
      InvAlways(Next(s, steps[0]), steps[1..], t);
    }
  }

  /** In every run: no call returns before the worker has completed, tokens are conserved, and at
      most one of the calls that waited ever returns. */
  lemma SafeRuns(steps: seq<Step>, t: State)
    requires Leads(INIT, steps, t)
    ensures forall i :: t.HasReturned(i) ==> t.completed
    ensures t.done + |t.Woken()| == if t.completed then 1 else 0
    ensures forall i, j :: i in t.Woken() && j in t.Woken() ==> i == j
  {
    assert INIT.Woken() == {};
    InvAlways(INIT, steps, t);
    AtMostOne(t.Woken());
  }

  lemma AtMostOne(s: set<nat>)
    requires |s| <= 1
    ensures forall i, j :: i in s && j in s ==> i == j
  {
    forall i, j | i in s && j in s
      ensures i == j
    {
      if i != j {
        assert {i, j} <= s;
        Cardinality({i, j}, s);
      }
    }
  }

  lemma {:induction false} Cardinality<T>(a: set<T>, b: set<T>)
    requires a <= b
    ensures |a| <= |b|
  {
    if a != {} {
      var x :| x in a;
      Cardinality(a - {x}, b - {x});
    }
  }

  // ---------------------------------------------------------------------------
  // The token is gone

  /** The completion was used up by a call that waited. */
  ghost predicate Exhausted(s: State) {
    Inv(s) && s.Woken() != {}
  }

  lemma ExhaustedStep(s: State, step: Step, i: nat)
    requires Exhausted(s) && Enabled(s, step)
    ensures Exhausted(Next(s, step)) && s.done == 0 && Next(s, step).done == 0
    ensures Next(s, step).HasReturned(i) <==> s.HasReturned(i)
  {
    InvStep(s, step);
    WokenAfter(s, step);
    Cardinality({}, s.Woken());
    assert |s.Woken()| >= 1;
  }

  /** Once a waiting call has returned, no other call ever does: not those that wait, not those that
      are about to test the completion, and not those still to come. */
  lemma {:induction false} ExhaustedForever(s: State, steps: seq<Step>, t: State, i: nat)
    requires Exhausted(s) && Leads(s, steps, t)
    ensures t.done == 0 && (t.HasReturned(i) <==> s.HasReturned(i))
    decreases |steps|
  {
    if steps == [] {
      assert |s.Woken()| >= 1;
    } else {
      ExhaustedStep(s, steps[0], i);
      ExhaustedForever(Next(s, steps[0]), steps[1..], t, i);
    }
  }

  // ---------------------------------------------------------------------------
  // The token stays

  /** The worker is done and no call has taken the waiting branch. */
  ghost predicate Open(s: State) {
    Inv(s) && s.completed && s.Woken() == {} && s.Blocked() == {}
  }

  lemma OpenStep(s: State, step: Step)
    requires Open(s) && Enabled(s, step)
    ensures Open(Next(s, step)) && s.done == 1
    ensures step.CompletionDone? ==> Next(s, step).HasReturned(step.id)
  {
    InvStep(s, step);
    WokenAfter(s, step);
    var t := Next(s, step);
    forall i | i in s.calls
      ensures s.calls[i] != Waiting
    {
      assert i !in s.Blocked();
    }
    assert t.Blocked() == {};
  }

  /** If no call has waited by the time the worker is done, none ever will: the token persists and
      every call returns at its first test. */
  lemma {:induction false} OpenForever(s: State, steps: seq<Step>, t: State)
    requires Open(s) && Leads(s, steps, t)
    ensures Open(t) && t.done == 1
    decreases |steps|
  {
    if steps != [] {
      OpenStep(s, steps[0]);
      OpenForever(Next(s, steps[0]), steps[1..], t);
    }
  }

  // ---------------------------------------------------------------------------
  // Runs come to rest

  /** How many steps are still to come at most if no further calls come in. */
  function Work(s: State): nat {
    2 * |s.Undecided()| + |s.Blocked()| + (if s.completed then 0 else 1)
  }

  function Entries(steps: seq<Step>): nat {
    if steps == [] then 0 else (if steps[0].Enter? then 1 else 0) + Entries(steps[1..])
  }

  lemma UndecidedAfter(s: State, step: Step)
    requires Enabled(s, step)
    ensures Next(s, step).Undecided() ==
      if step.Enter? then s.Undecided() + {step.id}
      else if step.CompletionDone? then s.Undecided() - {step.id} else s.Undecided()
    ensures step.Enter? ==> step.id !in s.Undecided()
    ensures step.CompletionDone? ==> step.id in s.Undecided()
  {
  }

  lemma BlockedAfter(s: State, step: Step)
    requires Enabled(s, step)
    ensures Next(s, step).Blocked() ==
      if step.CompletionDone? && s.done == 0 then s.Blocked() + {step.id}
      else if step.Wake? then s.Blocked() - {step.id} else s.Blocked()
    ensures step.CompletionDone? ==> step.id !in s.Blocked()
    ensures step.Wake? ==> step.id in s.Blocked()
  {
  }

  lemma WorkStep(s: State, step: Step)
    requires Enabled(s, step)
    ensures step.Enter? ==> Work(Next(s, step)) == Work(s) + 2
    ensures !step.Enter? ==> Work(Next(s, step)) < Work(s)
  {
    hide State.Undecided, State.Blocked;
    UndecidedAfter(s, step);
    BlockedAfter(s, step);
  }

  /** A run takes at most three steps for each call that comes in, and what there was to do when it
      started. */
  lemma {:induction false} RunsAreShort(s: State, steps: seq<Step>, t: State)
    requires Leads(s, steps, t)
    ensures |steps| + Work(t) <= 3 * Entries(steps) + Work(s)
    decreases |steps|
  {
    hide Work;
    if steps != [] {
      WorkStep(s, steps[0]);
      RunsAreShort(Next(s, steps[0]), steps[1..], t);
    }
  }

  /** Nothing can happen any more, except that further calls come in. */
  ghost predicate Quiescent(s: State) {
    forall step :: Enabled(s, step) ==> step.Enter?
  }

  /** From every state, a run without new calls can be continued until all is quiet. */
  lemma {:induction false} RunsComeToRest(s: State) returns (steps: seq<Step>, t: State)
    ensures Leads(s, steps, t) && Quiescent(t) && Entries(steps) == 0
    decreases Work(s)
  {
    if Quiescent(s) {
      return [], s;
    }
    var step :| Enabled(s, step) && !step.Enter?;
    WorkStep(s, step);
    var more;
    more, t := RunsComeToRest(Next(s, step));
    steps := [step] + more;
    assert steps[1..] == more;
  }

  // ---------------------------------------------------------------------------
  // Who is left

  /** How many calls of the run test the completion while its counter is zero. */
  ghost function EarlyTests(s: State, steps: seq<Step>): nat
    decreases |steps|
  {
    if steps == [] || !Enabled(s, steps[0]) then 0
    else (if steps[0].CompletionDone? && s.done == 0 then 1 else 0) + EarlyTests(Next(s, steps[0]), steps[1..])
  }

  lemma EarlyTestStep(s: State, step: Step)
    requires Enabled(s, step)
    ensures var t := Next(s, step);
            |t.Woken() + t.Blocked()| == |s.Woken() + s.Blocked()| + (if step.CompletionDone? && s.done == 0 then 1 else 0)
  {
    hide State.Woken, State.Blocked, Next;
    var t := Next(s, step);
    WokenAfter(s, step);
    BlockedAfter(s, step);
    if step.CompletionDone? && s.done == 0 {
      NotWoken(s, step);
      assert t.Woken() + t.Blocked() == s.Woken() + s.Blocked() + {step.id};
    } else {
      assert t.Woken() + t.Blocked() == s.Woken() + s.Blocked();
    }
  }

  lemma NotWoken(s: State, step: Step)
    requires Enabled(s, step) && step.CompletionDone?
    ensures step.id !in s.Woken()
  {
  }

  /** The calls that took the waiting branch are those that tested too early. */
  lemma {:induction false} EarlyTestsWait(s: State, steps: seq<Step>, t: State)
    requires Leads(s, steps, t)
    ensures |t.Woken() + t.Blocked()| == |s.Woken() + s.Blocked()| + EarlyTests(s, steps)
    decreases |steps|
  {
    if steps != [] {
      EarlyTestStep(s, steps[0]);
      EarlyTestsWait(Next(s, steps[0]), steps[1..], t);
    }
  }

  /** When all is quiet, one of the calls that tested the completion while it was zero has returned
      and all the others are blocked; so all calls have returned exactly if there was at most one
      such test in the run. */
  lemma QuiescentCalls(steps: seq<Step>, t: State)
    requires Leads(INIT, steps, t) && Quiescent(t)
    ensures t.completed
    ensures |t.Woken() + t.Blocked()| == EarlyTests(INIT, steps)
    ensures (forall i :: i in t.calls ==> t.HasReturned(i)) <==> EarlyTests(INIT, steps) <= 1
    ensures |t.Blocked()| == if EarlyTests(INIT, steps) == 0 then 0 else EarlyTests(INIT, steps) - 1
  {
    EarlyTestsWait(INIT, steps, t);
    assert INIT.Woken() + INIT.Blocked() == {};
    QuiescentState(steps, t);
  }

  lemma QuiescentState(steps: seq<Step>, t: State)
    requires Leads(INIT, steps, t) && Quiescent(t)
    ensures t.completed
    ensures (forall i :: i in t.calls ==> t.HasReturned(i)) <==> |t.Woken() + t.Blocked()| <= 1
    ensures |t.Blocked()| == if |t.Woken() + t.Blocked()| == 0 then 0 else |t.Woken() + t.Blocked()| - 1
  {
    SafeRuns(steps, t);
    assert !Enabled(t, Complete);
    forall i | i in t.calls
      ensures t.calls[i] != Checking && (t.calls[i] == Waiting ==> t.done == 0)
    {
      assert !Enabled(t, CompletionDone(i)) && !Enabled(t, Wake(i));
    }
    assert t.Woken() !! t.Blocked();
    assert |t.Woken() + t.Blocked()| == |t.Woken()| + |t.Blocked()|;
    if t.Blocked() != {} {
      var i :| i in t.Blocked();
      assert t.done == 0;
      assert !t.HasReturned(i) && i in t.calls;
    }
    assert t.Blocked() == {} <==> |t.Blocked()| == 0;
    forall i | i in t.calls && t.Blocked() == {}
      ensures t.HasReturned(i)
    {
      assert i !in t.Blocked();
    }
  }

  /** Two calls that do not even overlap: the first waits and gets the token, and the second, made
      long after the worker is done, is blocked in every continuation. */
  lemma SecondCallBlocks(steps: seq<Step>, t: State)
    requires Leads(Next(Next(Next(Next(Next(Next(INIT, Enter(0)), CompletionDone(0)), Complete), Wake(0)), Enter(1)),
                        CompletionDone(1)), steps, t)
    ensures t.completed && 1 in t.calls && t.calls[1] == Waiting
  {
    var s := Next(Next(Next(Next(Next(Next(INIT, Enter(0)), CompletionDone(0)), Complete), Wake(0)), Enter(1)), CompletionDone(1));
    assert s == State(0, true, map[0 := ReturnedAfterWait, 1 := Waiting]);
    assert s.Woken() == {0};
    StaysWaiting(s, steps, t);
  }

  lemma {:induction false} StaysWaiting(s: State, steps: seq<Step>, t: State)
    requires Exhausted(s) && s.completed && 1 in s.calls && s.calls[1] == Waiting
    requires Leads(s, steps, t)
    ensures t.completed && 1 in t.calls && t.calls[1] == Waiting
    decreases |steps|
  {
    if steps != [] {
      ExhaustedStep(s, steps[0], 1);
      StaysWaiting(Next(s, steps[0]), steps[1..], t);
    }
  }
}
