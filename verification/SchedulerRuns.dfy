/** Properties of whole scheduler runs: any interleaving of task creations and switches. */
module SchedulerRuns {
  import opened Bits
  import opened Scheduler

  /** Every step happens where it is enabled */
  predicate Runs(s: Table, steps: seq<Step>)
    requires s.Valid()
    decreases |steps|, 0
  {
    steps == [] || (Runs(s, steps[..|steps| - 1]) && Enabled(After(s, steps[..|steps| - 1]), steps[|steps| - 1]))
  }

  function After(s: Table, steps: seq<Step>): (s': Table)
    requires s.Valid() && Runs(s, steps)
    ensures s'.Valid() && s.total <= s'.total
    decreases |steps|, 1
  {
    if steps == [] then s else Next(After(s, steps[..|steps| - 1]), steps[|steps| - 1])
  }

  /** The number of switches in a run */
  function Switches(steps: seq<Step>): nat {
    if steps == [] then 0 else Switches(steps[..|steps| - 1]) + if steps[|steps| - 1].Schedule? then 1 else 0
  }

  lemma {:induction false} PrefixRuns(s: Table, steps: seq<Step>, n: nat)
    requires s.Valid() && Runs(s, steps) && n <= |steps|
    ensures Runs(s, steps[..n])
  {
    if n == |steps| {
      assert steps[..n] == steps;
    } else {
      PrefixRuns(s, steps[..|steps| - 1], n);
      assert steps[..|steps| - 1][..n] == steps[..n];
    }
  }

  // ----- safety -----

  /** From load on, the current slot is in use as soon as there is a task, and the table
      never holds more than 32 */
  lemma CurrentInUse(memory: Memory, steps: seq<Step>)
    requires Runs(Boot(memory), steps)
    ensures var s := After(Boot(memory), steps);
            s.total <= 32 && (s.total >= 1 ==> s.current < s.total)
  {
  }

  // ----- waiting -----

  /** Some switch of the run selects slot j */
  ghost predicate Selects(s: Table, steps: seq<Step>, j: nat)
    requires s.Valid() && Runs(s, steps)
  {
    exists n | 0 < n <= |steps| :: SelectsAt(s, steps, n, j)
  }

  /** The n-th step is a switch, and it selects slot j */
  predicate SelectsAt(s: Table, steps: seq<Step>, n: nat, j: nat)
    requires s.Valid() && 0 < n <= |steps|
  {
    steps[n - 1].Schedule? && Runs(s, steps[..n]) && After(s, steps[..n]).current == j
  }

  /** How many switches can pass, at worst, before slot j is selected, if tasks may still be
      created up to the limit of 32 */
  function Wait(s: Table, j: nat): (d: nat)
    requires s.Valid() && j < s.total
    ensures 1 <= d <= 32
  {
    if j > s.current then j - s.current else 32 - s.current + j
  }

  /** A switch that does not select j brings it nearer; a creation never pushes it away */
  lemma WaitShrinks(s: Table, step: Step, j: nat)
    requires s.Valid() && j < s.total && Enabled(s, step)
    ensures step.Create? ==> Wait(Next(s, step), j) == Wait(s, j)
    ensures step.Schedule? ==> Next(s, step).current == j || Wait(Next(s, step), j) <= Wait(s, j) - 1
  {
  }

  lemma {:induction false} WaitBoundsSwitches(s: Table, steps: seq<Step>, j: nat)
    requires s.Valid() && j < s.total && Runs(s, steps) && !Selects(s, steps, j)
    ensures Wait(After(s, steps), j) + Switches(steps) <= Wait(s, j)
  {
    if steps != [] {
      var before := steps[..|steps| - 1];
      forall n | 0 < n <= |before|
        ensures !SelectsAt(s, before, n, j)
      {
        assert before[..n] == steps[..n];
        assert !SelectsAt(s, steps, n, j);
      }
      WaitBoundsSwitches(s, before, j);
      WaitShrinks(After(s, before), steps[|steps| - 1], j);
      assert steps[..|steps|] == steps;
      assert !SelectsAt(s, steps, |steps|, j);
    }
  }

  /** Bounded waiting while the table grows: however creations and switches interleave, a
      slot in use is selected within Wait switches, and Wait is at most 32 */
  lemma BoundedWaiting(s: Table, steps: seq<Step>, j: nat)
    requires s.Valid() && j < s.total && Runs(s, steps)
    requires Switches(steps) >= Wait(s, j)
    ensures Selects(s, steps, j)
    ensures Wait(s, j) <= 32
  {
    if !Selects(s, steps, j) {
      WaitBoundsSwitches(s, steps, j);
    }
  }

  // ----- round robin -----

  /** Where n switches lead from slot `start` in a ring of `total` slots */
  function Ring(start: nat, n: nat, total: nat): (slot: nat)
    requires start < total
    ensures slot < total
  {
    if n == 0 then start
    else if Ring(start, n - 1, total) + 1 == total then 0
    else Ring(start, n - 1, total) + 1
  }

  lemma {:induction false} RingIsRemainder(start: nat, n: nat, total: nat)
    requires start < total
    ensures Ring(start, n, total) == (start + n) % total
  {
    if n == 0 {
      DivModUnique(start, total, 0, start);
    } else {
      RingIsRemainder(start, n - 1, total);
      NextRemainder(start + n - 1, total);
    }
  }

  lemma NextRemainder(v: nat, m: nat)
    requires m > 0
    ensures (v + 1) % m == if v % m + 1 == m then 0 else v % m + 1
  {
    var q, r := v / m, v % m;
    assert v == m * q + r;
    if r + 1 == m {
      MulDistributes(m, q, 1);
      DivModUnique(v + 1, m, q + 1, 0);
    } else {
      DivModUnique(v + 1, m, q, r + 1);
    }
  }

  lemma {:induction false} RingOnce(start: nat, n: nat, total: nat)
    requires start < total && n <= total
    ensures Ring(start, n, total) == if start + n < total then start + n else start + n - total
  {
    if n > 0 {
      RingOnce(start, n - 1, total);
    }
  }

  /** While the number of tasks stays the same, the current slot after n switches is
      (start + n) mod total */
  lemma {:induction false} RoundRobin(s: Table, steps: seq<Step>)
    requires s.Valid() && s.total > 0 && Runs(s, steps)
    requires After(s, steps).total == s.total
    ensures After(s, steps).current == Ring(s.current, Switches(steps), s.total)
    ensures After(s, steps).current == (s.current + Switches(steps)) % s.total
  {
    RingIsRemainder(s.current, Switches(steps), s.total);
    if steps != [] {
      RoundRobin(s, steps[..|steps| - 1]);
    }
  }

  /** Among any `total` consecutive positions of the ring, each slot occurs exactly once */
  lemma RingCovers(start: nat, total: nat, j: nat)
    requires start < total && j < total
    ensures var n := if j > start then j - start else total - start + j;
            && 1 <= n <= total && Ring(start, n, total) == j
            && forall m | 1 <= m <= total && Ring(start, m, total) == j :: m == n
  {
    forall m | 1 <= m <= total
      ensures Ring(start, m, total) == if start + m < total then start + m else start + m - total
    {
      RingOnce(start, m, total);
    }
  }

  /** In any window of `total` consecutive switches every slot is selected exactly once */
  lemma WindowSelectsEachOnce(s: Table, steps: seq<Step>, j: nat)
    requires s.Valid() && j < s.total == |steps| && Runs(s, steps)
    requires forall n | 0 <= n < |steps| :: steps[n].Schedule?
    ensures exists n | 0 < n <= |steps| ::
              SelectsAt(s, steps, n, j) && forall m | 0 < m <= |steps| && SelectsAt(s, steps, m, j) :: m == n
  {
    forall n | 0 < n <= |steps|
      ensures SelectsAt(s, steps, n, j) <==> Ring(s.current, n, s.total) == j
    {
      PrefixRuns(s, steps, n);
      OnlySwitches(s, steps[..n]);
      RoundRobin(s, steps[..n]);
    }
    RingCovers(s.current, s.total, j);
    var n := if j > s.current then j - s.current else s.total - s.current + j;
    assert SelectsAt(s, steps, n, j);
  }

  lemma {:induction false} OnlySwitches(s: Table, steps: seq<Step>)
    requires s.Valid() && Runs(s, steps)
    requires forall n | 0 <= n < |steps| :: steps[n].Schedule?
    ensures After(s, steps).total == s.total && Switches(steps) == |steps|
  {
    if steps != [] {
      OnlySwitches(s, steps[..|steps| - 1]);
    }
  }

  function Turns(n: nat): (steps: seq<Step>)
    ensures |steps| == n && forall m | 0 <= m < n :: steps[m].Schedule?
  {
    seq(n, _ => Schedule(0))
  }

  lemma {:induction false} TurnsRun(s: Table, n: nat)
    requires s.Valid() && s.total > 0
    ensures Runs(s, Turns(n))
  {
    if n > 0 {
      TurnsRun(s, n - 1);
      assert Turns(n)[..n - 1] == Turns(n - 1);
    }
  }

  /** In a full table the bound is exact: one switch fewer leaves the slot unselected */
  lemma WaitIsExact(s: Table, j: nat)
    requires s.Valid() && j < s.total == 32
    ensures exists steps :: Runs(s, steps) && Switches(steps) == Wait(s, j) - 1 && !Selects(s, steps, j)
  {
    var n := Wait(s, j) - 1;
    TurnsRun(s, n);
    OnlySwitches(s, Turns(n));
    RingCovers(s.current, 32, j);
    forall m | 0 < m <= n
      ensures !SelectsAt(s, Turns(n), m, j)
    {
      assert Turns(n)[..m] == Turns(m);
      TurnsRun(s, m);
      OnlySwitches(s, Turns(m));
      RoundRobin(s, Turns(m));
    }
    assert !Selects(s, Turns(n), j);
  }

  // ----- saved contexts -----

  /** What an observer sees of one slot: a stack pointer put into it, or taken out of it */
  datatype Event =
    | Created(slot: nat, sp: uint32)
    | Left(slot: nat, sp: uint32)
    | Entered(slot: nat, sp: uint32)

  predicate Stores(e: Event, slot: nat) {
    (e.Created? || e.Left?) && e.slot == slot
  }

  function Events(s: Table, step: Step): seq<Event>
    requires s.Valid() && Enabled(s, step)
  {
    match step
    case Create(f, arg, stack, size) =>
      if s.total >= MAX_TASKS then [] else [Created(s.total, InitialSp(stack, size))]
    case Schedule(frame) =>
      [Left(s.current, frame), Entered(Next(s, step).current, Next(s, step).sp[Next(s, step).current])]
  }

  function Log(s: Table, steps: seq<Step>): seq<Event>
    requires s.Valid() && Runs(s, steps)
    decreases |steps|
  {
    if steps == [] then []
    else Log(s, steps[..|steps| - 1]) + Events(After(s, steps[..|steps| - 1]), steps[|steps| - 1])
  }

  /** The last event of `log` that put a stack pointer into `slot` put `sp` there */
  ghost predicate LastStored(log: seq<Event>, slot: nat, sp: uint32) {
    exists k | 0 <= k < |log| :: StoredAt(log, k, slot, sp)
  }

  ghost predicate StoredAt(log: seq<Event>, k: nat, slot: nat, sp: uint32)
    requires k < |log|
  {
    && Stores(log[k], slot) && log[k].sp == sp
    && forall m | k < m < |log| :: !Stores(log[m], slot)
  }

  lemma LastStoredExtends(log: seq<Event>, e: Event, slot: nat, sp: uint32)
    requires LastStored(log, slot, sp) && !Stores(e, slot)
    ensures LastStored(log + [e], slot, sp)
  {
    var k :| 0 <= k < |log| && StoredAt(log, k, slot, sp);
    assert StoredAt(log + [e], k, slot, sp);
  }

  lemma LastStoredNow(log: seq<Event>, e: Event, slot: nat)
    requires Stores(e, slot)
    ensures LastStored(log + [e], slot, e.sp)
  {
    assert StoredAt(log + [e], |log|, slot, e.sp);
  }

  /** The table holds, for each slot in use, the stack pointer last put there */
  ghost predicate TableMatches(s: Table, log: seq<Event>)
    requires s.Valid()
  {
    forall j: nat | j < s.total :: LastStored(log, j, s.sp[j])
  }

  /** Each context is entered with the stack pointer last put into its slot */
  ghost predicate EntriesMatch(log: seq<Event>) {
    forall i | 0 <= i < |log| && log[i].Entered? :: LastStored(log[..i], log[i].slot, log[i].sp)
  }

  lemma EntriesMatchExtends(log: seq<Event>, e: Event)
    requires EntriesMatch(log) && (e.Entered? ==> LastStored(log, e.slot, e.sp))
    ensures EntriesMatch(log + [e])
  {
    var log' := log + [e];
    forall i | 0 <= i < |log'| && log'[i].Entered?
      ensures LastStored(log'[..i], log'[i].slot, log'[i].sp)
    {
      assert log'[..i] == log[..i];
      if i == |log| {
        assert log[..i] == log;
      }
    }
  }

  lemma SwitchKeepsMatch(s: Table, frame: uint32, log: seq<Event>)
    requires s.Valid() && s.total > 0 && TableMatches(s, log) && EntriesMatch(log)
    ensures var s' := Next(s, Schedule(frame));
            var left, entered := Left(s.current, frame), Entered(s'.current, s'.sp[s'.current]);
            TableMatches(s', log + [left] + [entered]) && EntriesMatch(log + [left] + [entered])
  {
    var s' := Next(s, Schedule(frame));
    var left, entered := Left(s.current, frame), Entered(s'.current, s'.sp[s'.current]);
    forall j: nat | j < s'.total
      ensures LastStored(log + [left], j, s'.sp[j]) && LastStored(log + [left] + [entered], j, s'.sp[j])
    {
      if j == s.current {
        LastStoredNow(log, left, j);
      } else {
        LastStoredExtends(log, left, j, s.sp[j]);
      }
      LastStoredExtends(log + [left], entered, j, s'.sp[j]);
    }
    EntriesMatchExtends(log, left);
    EntriesMatchExtends(log + [left], entered);
  }

  lemma CreateKeepsMatch(s: Table, step: Step, log: seq<Event>)
    requires s.Valid() && step.Create? && TableMatches(s, log) && EntriesMatch(log)
    ensures TableMatches(Next(s, step), log + Events(s, step)) && EntriesMatch(log + Events(s, step))
  {
    if s.total >= MAX_TASKS {
      assert log + Events(s, step) == log;
    } else {
      var e := Created(s.total, InitialSp(step.stack, step.size));
      forall j: nat | j < s.total + 1
        ensures LastStored(log + [e], j, Next(s, step).sp[j])
      {
        if j == s.total {
          LastStoredNow(log, e, j);
        } else {
          LastStoredExtends(log, e, j, s.sp[j]);
        }
      }
      EntriesMatchExtends(log, e);
    }
  }

  lemma {:induction false} RunMatches(memory: Memory, steps: seq<Step>)
    requires Runs(Boot(memory), steps)
    ensures TableMatches(After(Boot(memory), steps), Log(Boot(memory), steps))
    ensures EntriesMatch(Log(Boot(memory), steps))
  {
    if steps != [] {
      var before, step := steps[..|steps| - 1], steps[|steps| - 1];
      RunMatches(memory, before);
      var s, log := After(Boot(memory), before), Log(Boot(memory), before);
      if step.Create? {
        CreateKeepsMatch(s, step, log);
      } else {
        SwitchKeepsMatch(s, step.frame, log);
        assert log + Events(s, step) == log + [Left(s.current, step.frame)] + [Events(s, step)[1]];
      }
    }
  }

  /** Saved-context integrity: in every run from load, each selection of a slot loads the
      stack pointer saved when the slot was last left, or its creation-time stack pointer if it was never
      left; nothing that happened in between, to this slot or another, altered it */
  lemma SavedContextIntegrity(memory: Memory, steps: seq<Step>, i: nat)
    requires Runs(Boot(memory), steps)
    requires i < |Log(Boot(memory), steps)| && Log(Boot(memory), steps)[i].Entered?
    ensures var log := Log(Boot(memory), steps);
            exists k | 0 <= k < i ::
              && Stores(log[k], log[i].slot) && log[k].sp == log[i].sp
              && forall m | k < m < i :: !Stores(log[m], log[i].slot)
  {
    RunMatches(memory, steps);
    var log := Log(Boot(memory), steps);
    var k :| 0 <= k < |log[..i]| && StoredAt(log[..i], k, log[i].slot, log[i].sp);
    assert log[..i][k] == log[k];
    assert forall m | k < m < i :: log[..i][m] == log[m];
  }

  lemma RunExtends(s: Table, steps: seq<Step>, step: Step)
    requires s.Valid() && Runs(s, steps) && Enabled(After(s, steps), step)
    ensures Runs(s, steps + [step]) && After(s, steps + [step]) == Next(After(s, steps), step)
  {
    assert (steps + [step])[..|steps|] == steps;
  }

  /** Runs are what the methods of the kernel do, one call after the other */
  method PerformAll(k: Kernel, steps: seq<Step>)
    requires k.Valid() && Runs(k.View(), steps)
    modifies k, k.tasks
    ensures k.Valid() && k.View() == After(old(k.View()), steps)
  {
    ghost var start := k.View();
    assert steps[..0] == [];
    var n := 0;
    while n < |steps|
      invariant n <= |steps| && k.Valid() && k.tasks == old(k.tasks)
      invariant Runs(start, steps[..n]) && k.View() == After(start, steps[..n])
    {
      PrefixRuns(start, steps, n + 1);
      assert steps[..n + 1][..n] == steps[..n];
      match steps[n] {
        case Create(f, arg, stack, size) =>
          var id := k.CreateTask(f, arg, stack, size);
        case Schedule(frame) =>
          var loaded := k.Schedule(frame);
      }
      n := n + 1;
    }
    assert steps[..|steps|] == steps;
  }

  /** Step p leaves slot j, and no step from p + 1 to q - 1 leaves it again */
  ghost predicate LeftAtOnly(s: Table, steps: seq<Step>, p: nat, q: nat, j: nat)
    requires s.Valid() && Runs(s, steps) && p < q <= |steps|
  {
    && LeavesAt(s, steps, p, j)
    && forall m | p < m < q :: !LeavesAt(s, steps, m, j)
  }

  ghost predicate LeavesAt(s: Table, steps: seq<Step>, m: nat, j: nat)
    requires s.Valid() && Runs(s, steps) && m < |steps|
  {
    PrefixRuns(s, steps, m);
    steps[m].Schedule? && After(s, steps[..m]).current == j
  }

  /** The same integrity on the table itself: from the step that leaves a slot until it is left
      again, the slot holds the frame address of that step, so a selection in between loads it */
  lemma {:induction false} FrameKeptUntilLeft(s: Table, steps: seq<Step>, p: nat, q: nat, j: nat)
    requires s.Valid() && Runs(s, steps) && p < q <= |steps| && j < 32
    requires LeftAtOnly(s, steps, p, q, j)
    ensures Runs(s, steps[..q]) && After(s, steps[..q]).sp[j] == steps[p].frame && j < After(s, steps[..q]).total
  {
    PrefixRuns(s, steps, q);
    PrefixRuns(s, steps, q - 1);
    assert steps[..q][..q - 1] == steps[..q - 1];
    FrameKeptStep(After(s, steps[..q - 1]), steps[q - 1], j);
    if p < q - 1 {
      FrameKeptUntilLeft(s, steps, p, q - 1, j);
      assert !LeavesAt(s, steps, q - 1, j);
    }
  }

  lemma FrameKeptStep(s: Table, step: Step, j: nat)
    requires s.Valid() && Enabled(s, step) && j < 32
    ensures step.Schedule? && s.current == j ==> Next(s, step).sp[j] == step.frame && j < Next(s, step).total
    ensures !(step.Schedule? && s.current == j) && j < s.total ==> Next(s, step).sp[j] == s.sp[j]
  {
  }

  // ----- the first switch -----

  /** The last event that put a stack pointer into `slot` was the slot being left */
  ghost predicate LastLeft(log: seq<Event>, slot: nat) {
    exists k | 0 <= k < |log| :: LeftAt(log, k, slot)
  }

  ghost predicate LeftAt(log: seq<Event>, k: nat, slot: nat)
    requires k < |log|
  {
    log[k].Left? && log[k].slot == slot && forall m | k < m < |log| :: !Stores(log[m], slot)
  }

  lemma LastLeftExtends(log: seq<Event>, e: Event, slot: nat)
    requires LastLeft(log, slot) && (Stores(e, slot) ==> e.Left?)
    ensures LastLeft(log + [e], slot)
  {
    var k :| 0 <= k < |log| && LeftAt(log, k, slot);
    if Stores(e, slot) {
      assert LeftAt(log + [e], |log|, slot);
    } else {
      assert LeftAt(log + [e], k, slot);
    }
  }

  /** Every context is entered when slot 0 has already been left */
  ghost predicate EnteredAfterLeaving(log: seq<Event>) {
    forall i | 0 <= i < |log| && log[i].Entered? :: LastLeft(log[..i], 0)
  }

  lemma EnteredAfterLeavingExtends(log: seq<Event>, e: Event)
    requires EnteredAfterLeaving(log) && (e.Entered? ==> LastLeft(log, 0))
    ensures EnteredAfterLeaving(log + [e])
  {
    var log' := log + [e];
    forall i | 0 <= i < |log'| && log'[i].Entered?
      ensures LastLeft(log'[..i], 0)
    {
      assert log'[..i] == log[..i];
      if i == |log| {
        assert log[..i] == log;
      }
    }
  }

  lemma SwitchLeavesZero(s: Table, frame: uint32, log: seq<Event>)
    requires s.Valid() && s.total > 0 && EnteredAfterLeaving(log) && (s.current == 0 || LastLeft(log, 0))
    ensures LastLeft(log + Events(s, Schedule(frame)), 0) && EnteredAfterLeaving(log + Events(s, Schedule(frame)))
  {
    var events := Events(s, Schedule(frame));
    if s.current == 0 {
      assert LeftAt(log + [events[0]], |log|, 0);
    } else {
      LastLeftExtends(log, events[0], 0);
    }
    LastLeftExtends(log + [events[0]], events[1], 0);
    EnteredAfterLeavingExtends(log, events[0]);
    EnteredAfterLeavingExtends(log + [events[0]], events[1]);
    assert log + events == log + [events[0]] + [events[1]];
  }

  lemma {:induction false} ZeroLeftFirst(memory: Memory, steps: seq<Step>)
    requires Runs(Boot(memory), steps)
    ensures EnteredAfterLeaving(Log(Boot(memory), steps))
    ensures After(Boot(memory), steps).current == 0 || LastLeft(Log(Boot(memory), steps), 0)
    ensures LastLeft(Log(Boot(memory), steps), 0) ==> After(Boot(memory), steps).total > 0
  {
    if steps != [] {
      var before, step := steps[..|steps| - 1], steps[|steps| - 1];
      ZeroLeftFirst(memory, before);
      var s, log := After(Boot(memory), before), Log(Boot(memory), before);
      if step.Schedule? {
        SwitchLeavesZero(s, step.frame, log);
      } else if s.total >= MAX_TASKS {
        assert log + Events(s, step) == log;
      } else {
        EnteredAfterLeavingExtends(log, Events(s, step)[0]);
        if LastLeft(log, 0) {
          LastLeftExtends(log, Events(s, step)[0], 0);
        }
      }
    }
  }

  /** Slot 0 is never entered with the frame built for it: in every run from load, each
      selection of slot 0 loads a stack pointer saved when slot 0 was left, because the first switch
      saves the running context there */
  lemma SlotZeroNeverStartsFresh(memory: Memory, steps: seq<Step>, i: nat)
    requires Runs(Boot(memory), steps)
    requires i < |Log(Boot(memory), steps)| && Log(Boot(memory), steps)[i].Entered?
    requires Log(Boot(memory), steps)[i].slot == 0
    ensures var log := Log(Boot(memory), steps);
            exists k | 0 <= k < i ::
              log[k] == Left(0, log[i].sp) && forall m | k < m < i :: !Stores(log[m], 0)
  {
    var log := Log(Boot(memory), steps);
    ZeroLeftFirst(memory, steps);
    RunMatches(memory, steps);
    var k :| 0 <= k < |log[..i]| && LeftAt(log[..i], k, 0);
    var n :| 0 <= n < |log[..i]| && StoredAt(log[..i], n, 0, log[i].sp);
    assert k == n by {
      assert !(k < n) && !(n < k);
    }
    assert log[..i][k] == log[k];
    assert forall m | k < m < i :: log[..i][m] == log[m];
  }

  /** Slot j is entered by one of the first n events */
  ghost predicate EnteredBefore(log: seq<Event>, n: nat, j: nat)
    requires n <= |log|
  {
    exists m | 0 <= m < n :: log[m].Entered? && log[m].slot == j
  }

  /** Every slot but 0 is left only after it has been entered */
  ghost predicate LeftAfterEntering(log: seq<Event>) {
    forall i | 0 <= i < |log| && log[i].Left? && log[i].slot > 0 :: EnteredBefore(log, i, log[i].slot)
  }

  lemma LeftAfterEnteringExtends(log: seq<Event>, e: Event)
    requires LeftAfterEntering(log)
    requires e.Left? && e.slot > 0 ==> EnteredBefore(log, |log|, e.slot)
    ensures LeftAfterEntering(log + [e])
  {
    var log' := log + [e];
    forall i | 0 <= i < |log'| && log'[i].Left? && log'[i].slot > 0
      ensures EnteredBefore(log', i, log'[i].slot)
    {
      var m :| 0 <= m < i && log[m].Entered? && log[m].slot == log'[i].slot;
      assert log'[m] == log[m];
    }
  }

  lemma EnteredBeforeExtends(log: seq<Event>, e: Event, j: nat)
    ensures EnteredBefore(log, |log|, j) ==> EnteredBefore(log + [e], |log + [e]|, j)
    ensures e.Entered? ==> EnteredBefore(log + [e], |log + [e]|, e.slot)
  {
    if EnteredBefore(log, |log|, j) {
      var m :| 0 <= m < |log| && log[m].Entered? && log[m].slot == j;
      assert (log + [e])[m] == log[m];
    }
    assert (log + [e])[|log|] == e;
  }

  lemma {:induction false} OthersEnteredFirst(memory: Memory, steps: seq<Step>)
    requires Runs(Boot(memory), steps)
    ensures LeftAfterEntering(Log(Boot(memory), steps))
    ensures var s, log := After(Boot(memory), steps), Log(Boot(memory), steps);
            s.current > 0 ==> EnteredBefore(log, |log|, s.current)
  {
    if steps != [] {
      var before, step := steps[..|steps| - 1], steps[|steps| - 1];
      OthersEnteredFirst(memory, before);
      var s, log := After(Boot(memory), before), Log(Boot(memory), before);
      var events := Events(s, step);
      if events == [] {
        assert log + events == log;
      } else {
        LeftAfterEnteringExtends(log, events[0]);
        EnteredBeforeExtends(log, events[0], s.current);
        if step.Schedule? {
          LeftAfterEnteringExtends(log + [events[0]], events[1]);
          EnteredBeforeExtends(log + [events[0]], events[1], s.current);
          assert log + events == log + [events[0]] + [events[1]];
        }
      }
    }
  }

  /** Every slot but 0 starts fresh: the first time it is entered, the stack pointer loaded is
      the one stored when it was created */
  lemma FirstEntryIsFresh(memory: Memory, steps: seq<Step>, i: nat)
    requires Runs(Boot(memory), steps)
    requires i < |Log(Boot(memory), steps)| && Log(Boot(memory), steps)[i].Entered?
    requires Log(Boot(memory), steps)[i].slot > 0
    requires !EnteredBefore(Log(Boot(memory), steps), i, Log(Boot(memory), steps)[i].slot)
    ensures var log := Log(Boot(memory), steps);
            exists k | 0 <= k < i ::
              log[k] == Created(log[i].slot, log[i].sp) && forall m | k < m < i :: !Stores(log[m], log[i].slot)
  {
    var log := Log(Boot(memory), steps);
    var j := log[i].slot;
    SavedContextIntegrity(memory, steps, i);
    OthersEnteredFirst(memory, steps);
    var k :| 0 <= k < i && Stores(log[k], j) && log[k].sp == log[i].sp && forall m | k < m < i :: !Stores(log[m], j);
    assert !EnteredBefore(log, k, j);
  }

  // ----- task frames -----

  /** The successful creations of a run from load, in order: the first 32 */
  function Creations(steps: seq<Step>): (cs: seq<Step>)
    ensures |cs| <= 32 && forall n | 0 <= n < |cs| :: cs[n].Create?
  {
    if steps == [] then []
    else
      var cs := Creations(steps[..|steps| - 1]);
      if steps[|steps| - 1].Create? && |cs| < 32 then cs + [steps[|steps| - 1]] else cs
  }

  /** The stack does not wrap around the address space and has room for the frame below its
      aligned top */
  predicate StackOk(c: Step)
    requires c.Create?
  {
    c.stack + c.size < WORD && c.stack + 12 <= Top(c.stack, c.size)
  }

  /** Exactly when there is room; 27 bytes always suffice, and 26 do not */
  lemma StackOkExactly(c: Step)
    requires c.Create? && c.stack + c.size < WORD
    ensures StackOk(c) <==> c.size >= 12 + (c.stack + c.size) % 16
    ensures c.size >= 27 ==> StackOk(c)
    ensures c.size == 26 && c.stack % 16 == 5 ==> !StackOk(c)
  {
    RoomBelow(c.stack, c.size, Top(c.stack, c.size));
  }

  lemma RoomBelow(stack: nat, size: nat, top: nat)
    requires top % 16 == 0 && top <= stack + size < top + 16
    ensures stack + 12 <= top <==> size >= 12 + (stack + size) % 16
    ensures size == 26 && stack % 16 == 5 ==> stack + 12 > top
  {
    DivModUnique(stack + size, 16, top / 16, stack + size - top);
  }

  predicate Apart(a: Step, b: Step)
    requires a.Create? && b.Create?
  {
    a.stack + a.size <= b.stack || b.stack + b.size <= a.stack
  }

  ghost predicate StacksOk(cs: seq<Step>)
    requires forall n | 0 <= n < |cs| :: cs[n].Create?
  {
    && (forall n | 0 <= n < |cs| :: StackOk(cs[n]))
    && (forall n, m | 0 <= n < m < |cs| :: Apart(cs[n], cs[m]))
  }

  /** The words f, 0, arg lie just below the aligned top of its own stack */
  predicate FrameIntact(m: Memory, c: Step)
    requires c.Create? && StackOk(c)
  {
    var top := Top(c.stack, c.size);
    && c.stack <= top - 12 && top <= c.stack + c.size
    && top - 12 in m && m[top - 12] == c.f
    && top - 8 in m && m[top - 8] == 0
    && top - 4 in m && m[top - 4] == c.arg
  }

  lemma BuildKeepsFrames(m: Memory, c: Step, d: Step)
    requires c.Create? && d.Create? && StackOk(c) && StackOk(d) && Apart(c, d)
    requires FrameIntact(m, c)
    ensures FrameIntact(BuildFrame(m, d.f, d.arg, Top(d.stack, d.size)), c)
  {
    FrameWords(c);
    FrameWords(d);
  }

  lemma BuildMakesFrame(m: Memory, c: Step)
    requires c.Create? && StackOk(c)
    ensures FrameIntact(BuildFrame(m, c.f, c.arg, Top(c.stack, c.size)), c)
  {
    FrameWords(c);
  }

  lemma FrameWords(c: Step)
    requires c.Create? && StackOk(c)
    ensures var top := Top(c.stack, c.size);
            && c.stack + 12 <= top <= c.stack + c.size
            && U32(top - 4) == top - 4 && U32(top - 8) == top - 8 && U32(top - 12) == top - 12
  {
  }

  /** Every task created on a stack of its own keeps its frame, whatever creations and
      switches follow; the ids given out are 0, 1, ..., total - 1 in creation order, and
      beyond 32 tasks nothing is created */
  lemma {:induction false} FramesIntact(memory: Memory, steps: seq<Step>)
    requires Runs(Boot(memory), steps) && StacksOk(Creations(steps))
    ensures After(Boot(memory), steps).total == |Creations(steps)|
    ensures forall id | 0 <= id < |Creations(steps)| ::
              FrameIntact(After(Boot(memory), steps).memory, Creations(steps)[id])
  {
    if steps != [] {
      var before, step := steps[..|steps| - 1], steps[|steps| - 1];
      var cs, all := Creations(before), Creations(steps);
      assert forall n | 0 <= n < |cs| :: all[n] == cs[n];
      FramesIntact(memory, before);
      var s := After(Boot(memory), before);
      if step.Create? && |cs| < 32 {
        forall id | 0 <= id < |all|
          ensures FrameIntact(Next(s, step).memory, all[id])
        {
          if id < |cs| {
            assert Apart(all[id], all[|cs|]);
            BuildKeepsFrames(s.memory, cs[id], step);
          } else {
            BuildMakesFrame(s.memory, step);
          }
        }
      }
    }
  }

  lemma {:induction false} TotalIsCreations(memory: Memory, steps: seq<Step>)
    requires Runs(Boot(memory), steps)
    ensures After(Boot(memory), steps).total == |Creations(steps)|
  {
    if steps != [] {
      TotalIsCreations(memory, steps[..|steps| - 1]);
    }
  }

  lemma {:induction false} CreationsGrow(steps: seq<Step>, n: nat)
    requires n <= |steps|
    ensures Creations(steps[..n]) <= Creations(steps)
  {
    if n == |steps| {
      assert steps[..n] == steps;
    } else {
      CreationsGrow(steps[..|steps| - 1], n);
      assert steps[..|steps| - 1][..n] == steps[..n];
    }
  }

  /** The ids: a creation finds as many slots in use as there were successful creations before
      it, which is the id it returns, and it is the entry of that number among them */
  lemma IdsCountUp(memory: Memory, steps: seq<Step>, n: nat)
    requires Runs(Boot(memory), steps) && n < |steps| && steps[n].Create?
    ensures Runs(Boot(memory), steps[..n])
    ensures var id := |Creations(steps[..n])|;
            && After(Boot(memory), steps[..n]).total == id
            && (id < 32 ==> id < |Creations(steps)| && Creations(steps)[id] == steps[n])
  {
    PrefixRuns(Boot(memory), steps, n);
    TotalIsCreations(memory, steps[..n]);
    assert steps[..n + 1][..n] == steps[..n];
    CreationsGrow(steps, n + 1);
  }

  lemma {:induction false} CreatedEvents(memory: Memory, steps: seq<Step>, k: nat)
    requires Runs(Boot(memory), steps)
    requires k < |Log(Boot(memory), steps)| && Log(Boot(memory), steps)[k].Created?
    ensures var e, cs := Log(Boot(memory), steps)[k], Creations(steps);
            e.slot < |cs| && e.sp == InitialSp(cs[e.slot].stack, cs[e.slot].size)
  {
    var before := steps[..|steps| - 1];
    if k < |Log(Boot(memory), before)| {
      CreatedEvents(memory, before, k);
    } else {
      TotalIsCreations(memory, before);
    }
  }

  /** The words f, 0, arg in order from address sp */
  predicate FrameAt(m: Memory, sp: uint32, c: Step)
    requires c.Create?
  {
    && sp in m && m[sp] == c.f
    && sp + 4 in m && m[sp + 4] == 0
    && sp + 8 in m && m[sp + 8] == c.arg
  }

  lemma FrameIsAtInitialSp(m: Memory, c: Step)
    requires c.Create? && StackOk(c) && FrameIntact(m, c)
    ensures FrameAt(m, InitialSp(c.stack, c.size), c)
  {
    FrameWords(c);
  }

  /** On disjoint stacks, the first entry of every slot but 0 finds f, 0 and arg at the stack
      pointer that it loads */
  lemma FirstEntryFindsFrame(memory: Memory, steps: seq<Step>, i: nat)
    requires Runs(Boot(memory), steps) && StacksOk(Creations(steps))
    requires i < |Log(Boot(memory), steps)| && Log(Boot(memory), steps)[i].Entered?
    requires Log(Boot(memory), steps)[i].slot > 0
    requires !EnteredBefore(Log(Boot(memory), steps), i, Log(Boot(memory), steps)[i].slot)
    ensures Log(Boot(memory), steps)[i].slot < |Creations(steps)|
    ensures var e := Log(Boot(memory), steps)[i];
            FrameAt(After(Boot(memory), steps).memory, e.sp, Creations(steps)[e.slot])
  {
    var log := Log(Boot(memory), steps);
    FirstEntryIsFresh(memory, steps, i);
    var k :| 0 <= k < i && log[k] == Created(log[i].slot, log[i].sp);
    CreatedEvents(memory, steps, k);
    FramesIntact(memory, steps);
    assert FrameIntact(After(Boot(memory), steps).memory, Creations(steps)[log[i].slot]);
    FrameIsAtInitialSp(After(Boot(memory), steps).memory, Creations(steps)[log[i].slot]);
  }
}
