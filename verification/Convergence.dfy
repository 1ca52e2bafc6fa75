/** Once a child's users stop changing, the main's picture of it becomes exact within a bounded time. */
module Convergence {
  import opened Options
  import opened Store
  import opened Protocol
  import opened MainServer
  import opened ChildDaemon
  import opened System

  /** The main holds the child's users, traffic aside, and its version. */
  ghost predicate Exact(s: Sys, node: string) {
    && node in s.children && node in s.main.detail
    && s.main.detail[node].version == s.children[node].store.version
    && Who(s.main.detail[node].users) == Identities(s.children[node].store.users)
  }

  ghost predicate AtHead(s: Sys, node: string) {
    s.queue != [] && s.queue[0] == node
  }

  /** Whatever a pull of the node has read so far is current. */
  ghost predicate InFlightCurrent(s: Sys, node: string) {
    AtHead(s, node) && node in s.children ==>
      && (s.pull.UsersRead? ==> Who(s.pull.users) == Identities(s.children[node].store.users))
      && (s.pull.Answered? ==>
          Who(s.pull.reply.users) == Identities(s.children[node].store.users)
          && s.pull.reply.version == s.children[node].store.version)
  }

  /** The step adds and removes no user of the node. */
  ghost predicate QuietStep(s: Sys, step: Step, node: string) {
    step.StoreCall? && step.node == node && node in s.children ==>
      Apply(s.children[node].store, step.op).version == s.children[node].store.version
  }

  ghost predicate Commits(s: Sys, step: Step, node: string) {
    step.CommitPull? && AtHead(s, node) && s.pull.Answered?
  }

  ghost predicate ReadsUsers(s: Sys, step: Step, node: string) {
    step.ReadUsers? && AtHead(s, node) && s.pull.Requested?
  }

  ghost predicate Fails(s: Sys, step: Step, node: string) {
    step.FailPull? && AtHead(s, node)
  }

  ghost predicate IsTick(cfg: MainConfig, s: Sys, step: Step) {
    step.Tick? && s.queue == [] && IsSchedule(cfg, s.main, s.clock, step.toPull)
  }

  // ----- one step -----

  lemma QuietMutation(c: Child, op: Op)
    requires ChildInv(c) && Apply(c.store, op).version == c.store.version
    ensures Mutate(c, op).store.version == c.store.version
    ensures Identities(Mutate(c, op).store.users) == Identities(c.store.users)
  {
    MutateKeeps(c, op);
    hide Apply, Identities;
  }

  /** A quiet step leaves the child's users and version as they are. */
  lemma QuietChild(cfg: MainConfig, s: Sys, step: Step, node: string)
    requires Inv(cfg, s) && node in s.children && QuietStep(s, step, node)
    ensures var t := Next(cfg, s, step);
      node in t.children && t.children[node].store.version == s.children[node].store.version
      && Identities(t.children[node].store.users) == Identities(s.children[node].store.users)
  {
    hide Identities, Mutate, Apply, IsSchedule, ViewsInv, DetailsInv, PullInv, NetInv, ChildInv, TotalTraffic, Details;
    if step.StoreCall? && step.node == node {
      QuietMutation(s.children[node], step.op);
    }
  }

  lemma WhoOfDetails(users: seq<User>)
    ensures Who(Details(users)) == Identities(users)
  {
  }

  /** What a pull has read stays current through quiet steps, and what it reads anew is current. */
  lemma QuietKeepsInFlight(cfg: MainConfig, s: Sys, step: Step, node: string)
    requires Inv(cfg, s) && node in s.children && QuietStep(s, step, node)
    requires InFlightCurrent(s, node) || ReadsUsers(s, step, node) || Commits(s, step, node)
    ensures InFlightCurrent(Next(cfg, s, step), node)
  {
    QuietChild(cfg, s, step, node);
    WhoOfDetails(s.children[node].store.users);
    assert NoRepeats(s.queue);
    hide Identities, Who, Details, Mutate, Apply, IsSchedule, Inv, QuietStep, TotalTraffic;
  }

  lemma QuietKeepsExact(cfg: MainConfig, s: Sys, step: Step, node: string)
    requires Inv(cfg, s) && QuietStep(s, step, node) && InFlightCurrent(s, node) && node in s.children
    requires Exact(s, node) || Commits(s, step, node)
    ensures Exact(Next(cfg, s, step), node)
  {
    QuietChild(cfg, s, step, node);
    hide Identities, Who, Details, Mutate, Apply, IsSchedule, Inv, QuietStep, TotalTraffic, Pulled;
  }

  /** Only a commit moves the time of the last pull. */
  lemma LastPullStep(cfg: MainConfig, s: Sys, step: Step, node: string)
    requires Inv(cfg, s) && node in s.main.views
    ensures var t := Next(cfg, s, step);
      node in t.main.views
      && t.main.views[node].lastPull == (if Commits(s, step, node) then Some(s.clock) else s.main.views[node].lastPull)
  {
    hide Identities, Who, Details, Mutate, Apply, IsSchedule, TotalTraffic, TotalOf, Silent;
    hide ChildrenInv, NetInv, ViewsInv, DetailsInv;
  }

  /** A listed, registered node is pulled unless its pull fails. */
  lemma QueueStep(cfg: MainConfig, s: Sys, step: Step, node: string)
    requires Inv(cfg, s) && QuietStep(s, step, node) && InFlightCurrent(s, node) && node in s.children
    requires node in s.queue && node in s.main.regs && !Fails(s, step, node)
    ensures node in Next(cfg, s, step).queue || Exact(Next(cfg, s, step), node)
  {
    if Commits(s, step, node) {
      QuietKeepsExact(cfg, s, step, node);
    }
    hide Identities, Who, Details, Mutate, Apply, IsSchedule, Inv, QuietStep, TotalTraffic, InFlightCurrent, CommitStep, TickStep;
    assert s.queue == [s.queue[0]] + s.queue[1..];
  }

  lemma RegisteredStep(cfg: MainConfig, s: Sys, step: Step, node: string)
    requires Inv(cfg, s) && node in s.main.regs && node in s.main.views
    ensures var t := Next(cfg, s, step); node in t.main.regs && node in t.main.views && s.clock <= t.clock
  {
    hide Identities, Who, Details, Mutate, Apply, Inv, TotalTraffic, TotalOf, Silent;
  }

  /** A node not silent, and last pulled long enough ago, is on the tick's list. */
  lemma TickLists(cfg: MainConfig, s: Sys, step: Step, node: string)
    requires IsTick(cfg, s, step) && node in s.main.views && !Silent(cfg, s.main.views[node], s.clock)
    requires WithDefaults(cfg.thresholds).reconcileEvery <= MAX_DURATION
    requires s.main.views[node].lastPull.Some? ==>
      s.main.views[node].lastPull.value + WithDefaults(cfg.thresholds).reconcileEvery <= s.clock
    ensures node in Next(cfg, s, step).queue
  {
    hide Silent, WithDefaults;
    assert Due(cfg, s.main, s.clock, node);
  }

  // ----- whole runs -----

  datatype Trace = Trace(cfg: MainConfig, start: Sys, steps: seq<Step>)

  /** The state before step i. */
  ghost function StateAt(t: Trace, i: nat): Sys
    requires i <= |t.steps|
  {
    Run(t.cfg, t.start, t.steps[..i])
  }

  lemma StateAtNext(t: Trace, i: nat)
    requires i < |t.steps|
    ensures StateAt(t, i + 1) == Next(t.cfg, StateAt(t, i), t.steps[i])
  {
    hide Next;
    assert t.steps[..i + 1][..i] == t.steps[..i];
  }

  lemma InvAt(t: Trace, i: nat)
    requires i <= |t.steps| && Inv(t.cfg, t.start)
    ensures Inv(t.cfg, StateAt(t, i))
  {
    hide Inv, Run;
    RunKeeps(t.cfg, t.start, t.steps[..i]);
  }

  /** A heartbeat of the node arrives. */
  ghost predicate Hears(s: Sys, step: Step, node: string) {
    step.Deliver? && step.hb in s.net && step.hb.node == node
  }

  /** One arrived before step i, no longer ago than the silence allowed. */
  ghost predicate HeardLately(t: Trace, i: nat, node: string)
    requires i < |t.steps|
  {
    exists m :: 0 <= m < i && Hears(StateAt(t, m), t.steps[m], node) && StateAt(t, i).clock - StateAt(t, m).clock <= Allowed(t.cfg)
  }

  /** From q on, the node's users do not change, it stays registered, before every tick a heartbeat arrives no longer
      ago than the silence allowed, and its pulls do not fail. */
  ghost predicate Settled(t: Trace, q: nat, node: string)
    requires q <= |t.steps|
  {
    && node in StateAt(t, q).children && node in StateAt(t, q).main.views && node in StateAt(t, q).main.regs
    && Allowed(t.cfg) <= MAX_DURATION
    && forall i :: q <= i < |t.steps| ==> SettledStep(t, i, node)
  }

  ghost predicate SettledStep(t: Trace, i: nat, node: string)
    requires i < |t.steps|
  {
    var s, step := StateAt(t, i), t.steps[i];
    && QuietStep(s, step, node) && !Fails(s, step, node)
    && (IsTick(t.cfg, s, step) ==> HeardLately(t, i, node))
  }

  /** No pull that read the node's users before q commits after time limit. */
  ghost predicate OldPullsEnd(t: Trace, q: nat, node: string, limit: int)
    requires q <= |t.steps|
  {
    forall i :: q <= i < |t.steps| && Commits(StateAt(t, i), t.steps[i], node) && NoReadIn(t, q, i, node) ==>
      StateAt(t, i).clock <= limit
  }

  ghost predicate NoReadIn(t: Trace, q: nat, i: nat, node: string)
    requires i <= |t.steps|
  {
    forall j :: q <= j < i ==> !ReadsUsers(StateAt(t, j), t.steps[j], node)
  }

  /** What holds at every state from q on. */
  lemma {:induction false} SettledState(t: Trace, q: nat, i: nat, node: string)
    requires q <= i <= |t.steps| && Inv(t.cfg, t.start) && Settled(t, q, node)
    ensures var s := StateAt(t, i);
      Inv(t.cfg, s) && node in s.children && node in s.main.views && node in s.main.regs
      && StateAt(t, q).clock <= s.clock
    decreases i
  {
    hide Inv, Next, StateAt, SettledStep;
    InvAt(t, i);
    if i > q {
      SettledState(t, q, i - 1, node);
      StateAtNext(t, i - 1);
      RegisteredStep(t.cfg, StateAt(t, i - 1), t.steps[i - 1], node);
      assert SettledStep(t, i - 1, node);
      SettledQuiet(t, i - 1, node);
      QuietChild(t.cfg, StateAt(t, i - 1), t.steps[i - 1], node);
    }
  }

  lemma SettledQuiet(t: Trace, i: nat, node: string)
    requires i < |t.steps| && SettledStep(t, i, node)
    ensures QuietStep(StateAt(t, i), t.steps[i], node) && !Fails(StateAt(t, i), t.steps[i], node)
  {
    hide StateAt;
  }

  lemma {:induction false} ClockGrows(t: Trace, i: nat, j: nat)
    requires i <= j <= |t.steps|
    ensures StateAt(t, i).clock <= StateAt(t, j).clock
    decreases j
  {
    if i < j {
      ClockGrows(t, i, j - 1);
      StateAtNext(t, j - 1);
      hide StateAt, Mutate, IsSchedule, CommitStep, HeartbeatStep, TickStep;
    }
  }

  /** A pull whose users were read from q on carries current users. */
  lemma {:induction false} CurrentOrOld(t: Trace, q: nat, i: nat, node: string)
    requires q <= i <= |t.steps| && Inv(t.cfg, t.start) && Settled(t, q, node)
    ensures InFlightCurrent(StateAt(t, i), node) || NoReadIn(t, q, i, node)
    decreases i
  {
    hide Inv, Next, StateAt, SettledStep, InFlightCurrent, QuietStep;
    if i > q {
      var s, step := StateAt(t, i - 1), t.steps[i - 1];
      CurrentOrOld(t, q, i - 1, node);
      StateAtNext(t, i - 1);
      SettledState(t, q, i - 1, node);
      assert SettledStep(t, i - 1, node);
      SettledQuiet(t, i - 1, node);
      if InFlightCurrent(s, node) || ReadsUsers(s, step, node) {
        QuietKeepsInFlight(t.cfg, s, step, node);
      }
    }
  }

  /** Once the picture is exact and nothing stale is on its way, it stays so. */
  lemma {:induction false} ExactStays(t: Trace, q: nat, e: nat, i: nat, node: string)
    requires q <= e <= i <= |t.steps| && Inv(t.cfg, t.start) && Settled(t, q, node)
    requires Exact(StateAt(t, e), node) && InFlightCurrent(StateAt(t, e), node)
    ensures Exact(StateAt(t, i), node) && InFlightCurrent(StateAt(t, i), node)
    decreases i
  {
    hide Inv, Next, StateAt, SettledStep, InFlightCurrent, QuietStep, Exact, Settled;
    if i > e {
      ExactStays(t, q, e, i - 1, node);
      ExactNext(t, q, i - 1, node);
    }
  }

  lemma ExactNext(t: Trace, q: nat, i: nat, node: string)
    requires q <= i < |t.steps| && Inv(t.cfg, t.start) && Settled(t, q, node)
    requires InFlightCurrent(StateAt(t, i), node)
    ensures InFlightCurrent(StateAt(t, i + 1), node)
    ensures Exact(StateAt(t, i), node) || Commits(StateAt(t, i), t.steps[i], node) ==> Exact(StateAt(t, i + 1), node)
  {
    hide Inv, Next, StateAt, SettledStep, InFlightCurrent, QuietStep, Exact;
    var s, step := StateAt(t, i), t.steps[i];
    StateAtNext(t, i);
    SettledState(t, q, i, node);
    assert SettledStep(t, i, node);
    SettledQuiet(t, i, node);
    QuietKeepsInFlight(t.cfg, s, step, node);
    if Exact(s, node) || Commits(s, step, node) {
      QuietKeepsExact(t.cfg, s, step, node);
    }
  }

  /** At every state from q on, either the last pull is no later than the limit, or the picture is exact. */
  ghost predicate OldOrExact(s: Sys, node: string, limit: int) {
    node in s.main.views &&
    ((s.main.views[node].lastPull.Some? ==> s.main.views[node].lastPull.value <= limit)
     || (Exact(s, node) && InFlightCurrent(s, node)))
  }

  lemma {:induction false} OldOrExactAt(t: Trace, q: nat, i: nat, node: string, limit: int)
    requires q <= i <= |t.steps| && Inv(t.cfg, t.start) && Settled(t, q, node)
    requires OldPullsEnd(t, q, node, limit) && StateAt(t, q).clock <= limit
    ensures OldOrExact(StateAt(t, i), node, limit)
    decreases i
  {
    SettledState(t, q, i, node);
    if i == q {
      LastPullPast(t.cfg, StateAt(t, q), node);
    } else {
      hide Inv, Next, StateAt, SettledStep, InFlightCurrent, QuietStep, Exact, Settled, NoReadIn, Commits, OldPullsEnd;
      OldOrExactAt(t, q, i - 1, node, limit);
      OldOrExactNext(t, q, i - 1, node, limit);
    }
  }

  lemma OldOrExactNext(t: Trace, q: nat, i: nat, node: string, limit: int)
    requires q <= i < |t.steps| && Inv(t.cfg, t.start) && Settled(t, q, node)
    requires OldPullsEnd(t, q, node, limit) && OldOrExact(StateAt(t, i), node, limit)
    ensures OldOrExact(StateAt(t, i + 1), node, limit)
  {
    hide Inv, Next, StateAt, SettledStep, InFlightCurrent, QuietStep, Exact, Settled, NoReadIn, Commits, OldPullsEnd;
    StateAtNext(t, i);
    SettledState(t, q, i, node);
    LastPullStep(t.cfg, StateAt(t, i), t.steps[i], node);
    CurrentOrOld(t, q, i, node);
    if InFlightCurrent(StateAt(t, i), node) {
      ExactNext(t, q, i, node);
    } else if Commits(StateAt(t, i), t.steps[i], node) {
      OldCommit(t, q, i, node, limit);
    }
  }

  lemma OldCommit(t: Trace, q: nat, i: nat, node: string, limit: int)
    requires q <= i < |t.steps| && OldPullsEnd(t, q, node, limit)
    requires Commits(StateAt(t, i), t.steps[i], node) && NoReadIn(t, q, i, node)
    ensures StateAt(t, i).clock <= limit
  {
    hide StateAt, Commits, NoReadIn;
  }

  lemma LastPullPast(cfg: MainConfig, s: Sys, node: string)
    requires Inv(cfg, s) && node in s.main.views
    ensures s.main.views[node].lastPull.Some? ==> s.main.views[node].lastPull.value <= s.clock
  {
    assert ViewInv(cfg, s.main.views[node], s.children[node], s.clock);
  }

  /** A listed node leaves the list only by an exact commit. */
  lemma {:induction false} ListedThenExact(t: Trace, q: nat, b: nat, i: nat, node: string)
    requires q <= b <= i <= |t.steps| && Inv(t.cfg, t.start) && Settled(t, q, node)
    requires node in StateAt(t, b).queue && InFlightCurrent(StateAt(t, b), node)
    ensures InFlightCurrent(StateAt(t, i), node) && (node in StateAt(t, i).queue || Exact(StateAt(t, i), node))
    decreases i
  {
    hide Inv, Next, StateAt, SettledStep, InFlightCurrent, QuietStep, Exact, Settled;
    if i > b {
      ListedThenExact(t, q, b, i - 1, node);
      ListedNext(t, q, i - 1, node);
    }
  }

  lemma ListedNext(t: Trace, q: nat, i: nat, node: string)
    requires q <= i < |t.steps| && Inv(t.cfg, t.start) && Settled(t, q, node) && InFlightCurrent(StateAt(t, i), node)
    requires node in StateAt(t, i).queue || Exact(StateAt(t, i), node)
    ensures InFlightCurrent(StateAt(t, i + 1), node) && (node in StateAt(t, i + 1).queue || Exact(StateAt(t, i + 1), node))
  {
    hide Inv, Next, StateAt, SettledStep, InFlightCurrent, QuietStep, Exact, Fails;
    ExactNext(t, q, i, node);
    if !Exact(StateAt(t, i), node) {
      StateAtNext(t, i);
      SettledState(t, q, i, node);
      assert SettledStep(t, i, node);
      SettledQuiet(t, i, node);
      QueueStep(t.cfg, StateAt(t, i), t.steps[i], node);
    }
  }

  /** A tick at least one reconcile interval after the limit finds the picture exact or lists the node;
      when the scheduler is done with that list, the picture is exact and stays so. */
  lemma TickConverges(t: Trace, q: nat, j: nat, e: nat, node: string, limit: int)
    requires q <= j < e <= |t.steps| && Inv(t.cfg, t.start) && Settled(t, q, node)
    requires OldPullsEnd(t, q, node, limit) && StateAt(t, q).clock <= limit
    requires WithDefaults(t.cfg.thresholds).reconcileEvery <= MAX_DURATION
    requires IsTick(t.cfg, StateAt(t, j), t.steps[j]) && StateAt(t, e).queue == []
    requires limit + WithDefaults(t.cfg.thresholds).reconcileEvery <= StateAt(t, j).clock
    ensures forall i :: e <= i <= |t.steps| ==> Exact(StateAt(t, i), node)
  {
    hide Inv, Next, StateAt, SettledStep, QuietStep, Exact, WithDefaults, Silent, OldPullsEnd;
    OldOrExactAt(t, q, j, node, limit);
    SettledState(t, q, j, node);
    var s := StateAt(t, j);
    assert InFlightCurrent(s, node);
    hide InFlightCurrent;
    if Exact(s, node) {
      ExactStays(t, q, j, e, node);
    } else {
      StateAtNext(t, j);
      TickSettled(t, q, j, node);
      TickLists(t.cfg, s, t.steps[j], node);
      ExactNext(t, q, j, node);
      ListedThenExact(t, q, j + 1, e, node);
    }
    forall i | e <= i <= |t.steps|
      ensures Exact(StateAt(t, i), node)
    {
      ExactStays(t, q, e, i, node);
    }
  }

  lemma TickSettled(t: Trace, q: nat, j: nat, node: string)
    requires q <= j < |t.steps| && Inv(t.cfg, t.start) && Settled(t, q, node)
    requires IsTick(t.cfg, StateAt(t, j), t.steps[j])
    ensures node in StateAt(t, j).main.views && !Silent(t.cfg, StateAt(t, j).main.views[node], StateAt(t, j).clock)
  {
    hide StateAt, Silent, IsTick, Inv, Allowed, Hears, QuietStep, Fails;
    assert SettledStep(t, j, node);
    var m :| 0 <= m < j && Hears(StateAt(t, m), t.steps[m], node) && StateAt(t, j).clock - StateAt(t, m).clock <= Allowed(t.cfg);
    HeardStays(t, m, j, node);
    HeardNotSilent(t.cfg, StateAt(t, j), node, StateAt(t, m).clock);
  }

  lemma {:induction false} HeardStays(t: Trace, m: nat, j: nat, node: string)
    requires m < j <= |t.steps| && Inv(t.cfg, t.start) && Hears(StateAt(t, m), t.steps[m], node)
    ensures HeardSince(StateAt(t, j), node, StateAt(t, m).clock)
    decreases j
  {
    hide StateAt, Inv, Next, HeardSince, Hears;
    StateAtNext(t, j - 1);
    if j == m + 1 {
      InvAt(t, m);
      FirstHeard(t.cfg, StateAt(t, m), t.steps[m], node);
    } else {
      HeardStays(t, m, j - 1, node);
      HeardSinceStep(t.cfg, StateAt(t, j - 1), t.steps[j - 1], node, StateAt(t, m).clock);
    }
  }

  lemma FirstHeard(cfg: MainConfig, s: Sys, step: Step, node: string)
    requires Inv(cfg, s) && Hears(s, step, node)
    ensures HeardSince(Next(cfg, s, step), node, s.clock)
  {
    hide ChildInv, ViewsInv, DetailsInv, PullInv, HeardSince;
    DeliverHeard(cfg, s, step.hb);
  }

  /** Every stretch of the run of length `period` has a tick. */
  ghost predicate TicksEvery(t: Trace, q: nat, period: int)
    requires q <= |t.steps|
  {
    forall at :: StateAt(t, q).clock <= at && at + period <= StateAt(t, |t.steps|).clock ==> TickIn(t, q, at, period)
  }

  ghost predicate TickIn(t: Trace, q: nat, at: int, period: int) {
    exists j :: q <= j < |t.steps| && IsTick(t.cfg, StateAt(t, j), t.steps[j]) && at <= StateAt(t, j).clock < at + period
  }

  /** The scheduler is done with each list within `busy` of its tick. */
  ghost predicate ListsDrain(t: Trace, q: nat, busy: int)
    requires q <= |t.steps|
  {
    forall j ::
      q <= j < |t.steps| && IsTick(t.cfg, StateAt(t, j), t.steps[j])
      && StateAt(t, j).clock + busy <= StateAt(t, |t.steps|).clock ==>
      DoneBy(t, j, StateAt(t, j).clock + busy)
  }

  ghost predicate DoneBy(t: Trace, j: nat, deadline: int) {
    exists e :: j < e <= |t.steps| && StateAt(t, e).queue == [] && StateAt(t, e).clock <= deadline
  }

  /** Convergence: more than one reconcile interval, one tick and one list after the last old pull, the main
      holds the child's users and version, and goes on holding them. */
  lemma Converges(t: Trace, q: nat, node: string, limit: int, period: int, busy: int, i: nat)
    requires q <= i <= |t.steps| && Inv(t.cfg, t.start) && Settled(t, q, node)
    requires OldPullsEnd(t, q, node, limit) && StateAt(t, q).clock <= limit
    requires 0 < period && 0 <= busy && TicksEvery(t, q, period) && ListsDrain(t, q, busy)
    requires WithDefaults(t.cfg.thresholds).reconcileEvery <= MAX_DURATION
    requires StateAt(t, i).clock > limit + WithDefaults(t.cfg.thresholds).reconcileEvery + period + busy
    ensures Exact(StateAt(t, i), node)
  {
    var due := limit + WithDefaults(t.cfg.thresholds).reconcileEvery;
    assert WithDefaults(t.cfg.thresholds).reconcileEvery > 0;
    hide Inv, Run, StateAt, Settled, OldPullsEnd, WithDefaults, IsTick;
    ClockGrows(t, i, |t.steps|);
    assert TickIn(t, q, due, period);
    var j :| q <= j < |t.steps| && IsTick(t.cfg, StateAt(t, j), t.steps[j]) && due <= StateAt(t, j).clock < due + period;
    assert DoneBy(t, j, StateAt(t, j).clock + busy);
    var e :| j < e <= |t.steps| && StateAt(t, e).queue == [] && StateAt(t, e).clock <= StateAt(t, j).clock + busy;
    if e > i {
      ClockGrows(t, i, e);
    }
    TickConverges(t, q, j, e, node, limit);
  }

  // ----- the version trigger -----

  /** The main has heard of the child's version and has not pulled it yet. */
  ghost predicate HeardAhead(s: Sys, node: string) {
    && node in s.children && node in s.main.views
    && s.main.views[node].heardVersion == s.children[node].store.version
    && s.main.views[node].pulledVersion < s.children[node].store.version
  }

  /** A delivered heartbeat of the node does not report an older version. */
  ghost predicate NoStaleBeat(s: Sys, step: Step, node: string) {
    step.Deliver? && step.hb in s.net && step.hb.node == node && node in s.children ==>
      step.hb.version == s.children[node].store.version
  }

  lemma HeardTickLists(cfg: MainConfig, s: Sys, step: Step, node: string)
    requires IsTick(cfg, s, step) && HeardAhead(s, node) && !Silent(cfg, s.main.views[node], s.clock)
    ensures node in Next(cfg, s, step).queue
  {
    hide Silent, WithDefaults;
    assert Due(cfg, s.main, s.clock, node);
  }

  /** Ahead it stays until a commit. */
  lemma HeardStep(cfg: MainConfig, s: Sys, step: Step, node: string)
    requires Inv(cfg, s) && QuietStep(s, step, node) && NoStaleBeat(s, step, node)
    requires HeardAhead(s, node) && !Commits(s, step, node)
    ensures HeardAhead(Next(cfg, s, step), node)
  {
    QuietChild(cfg, s, step, node);
    HeardViews(cfg, s, step, node);
    hide Next, Inv, QuietStep, NoStaleBeat, Commits;
  }

  lemma HeardViews(cfg: MainConfig, s: Sys, step: Step, node: string)
    requires Inv(cfg, s) && NoStaleBeat(s, step, node) && HeardAhead(s, node) && !Commits(s, step, node)
    ensures var t := Next(cfg, s, step);
      node in t.main.views && t.main.views[node].heardVersion == s.main.views[node].heardVersion
      && t.main.views[node].pulledVersion == s.main.views[node].pulledVersion
  {
    hide Identities, Who, Details, Mutate, Apply, IsSchedule, Inv, TotalTraffic, TotalOf, Silent;
  }

  /** Delivery of the final version, when what was pulled lies behind it. */
  lemma DeliveryHeard(cfg: MainConfig, s: Sys, hb: Heartbeat)
    requires Inv(cfg, s) && hb in s.net && hb.node in s.main.views
    requires hb.version == s.children[hb.node].store.version > s.main.views[hb.node].pulledVersion
    ensures HeardAhead(Next(cfg, s, Deliver(hb)), hb.node)
  {
    hide ChildInv, ViewInv, DetailsInv, PullInv;
  }

  /** From d on, no heartbeat of the node that is delivered reports an older version. */
  ghost predicate BeatsCurrent(t: Trace, d: nat, node: string) {
    forall m :: d <= m < |t.steps| ==> NoStaleBeat(StateAt(t, m), t.steps[m], node)
  }

  lemma {:induction false} HeardOrExact(t: Trace, q: nat, d: nat, i: nat, node: string)
    requires q <= d <= i <= |t.steps| && Inv(t.cfg, t.start) && Settled(t, q, node) && BeatsCurrent(t, d, node)
    requires InFlightCurrent(StateAt(t, d), node) && HeardAhead(StateAt(t, d), node)
    ensures InFlightCurrent(StateAt(t, i), node) && (HeardAhead(StateAt(t, i), node) || Exact(StateAt(t, i), node))
    decreases i
  {
    hide Inv, Next, StateAt, SettledStep, InFlightCurrent, QuietStep, Exact, HeardAhead, NoStaleBeat, Commits, Fails;
    if i > d {
      HeardOrExact(t, q, d, i - 1, node);
      ExactNext(t, q, i - 1, node);
      StateAtNext(t, i - 1);
      SettledState(t, q, i - 1, node);
      assert SettledStep(t, i - 1, node);
      SettledQuiet(t, i - 1, node);
      assert NoStaleBeat(StateAt(t, i - 1), t.steps[i - 1], node);
      if HeardAhead(StateAt(t, i - 1), node) && !Commits(StateAt(t, i - 1), t.steps[i - 1], node) {
        HeardStep(t.cfg, StateAt(t, i - 1), t.steps[i - 1], node);
      }
    }
  }

  /** Once the final version is heard, the next tick lists the node unless the picture is exact already. */
  lemma HeardTickConverges(t: Trace, q: nat, d: nat, j: nat, e: nat, node: string)
    requires q <= d <= j < e <= |t.steps| && Inv(t.cfg, t.start) && Settled(t, q, node) && BeatsCurrent(t, d, node)
    requires InFlightCurrent(StateAt(t, d), node) && HeardAhead(StateAt(t, d), node)
    requires IsTick(t.cfg, StateAt(t, j), t.steps[j]) && StateAt(t, e).queue == []
    ensures Exact(StateAt(t, e), node) && InFlightCurrent(StateAt(t, e), node)
  {
    hide Inv, Next, StateAt, SettledStep, QuietStep, Exact, Silent, HeardAhead, InFlightCurrent, BeatsCurrent, Settled;
    HeardOrExact(t, q, d, j, node);
    SettledState(t, q, j, node);
    if Exact(StateAt(t, j), node) {
      ExactStays(t, q, j, e, node);
    } else {
      StateAtNext(t, j);
      HeardInViews(StateAt(t, j), node);
      TickSettled(t, q, j, node);
      HeardTickLists(t.cfg, StateAt(t, j), t.steps[j], node);
      ExactNext(t, q, j, node);
      ListedThenExact(t, q, j + 1, e, node);
    }
  }

  lemma HeardInViews(s: Sys, node: string)
    requires HeardAhead(s, node)
    ensures node in s.main.views
  {
  }

  /** The version trigger: when a heartbeat with the child's final version arrives and what was pulled lies
      behind it, the picture is exact one tick and one list later, whatever the reconcile interval. It takes that
      no pull is under way whose reading is out of date, and that no older heartbeat arrives afterwards. */
  lemma HeardConverges(t: Trace, q: nat, d: nat, node: string, period: int, busy: int, i: nat)
    requires q <= d < i <= |t.steps| && Inv(t.cfg, t.start) && Settled(t, q, node)
    requires var s, step := StateAt(t, d), t.steps[d];
      step.Deliver? && step.hb in s.net && step.hb.node == node && node in s.children && node in s.main.views
      && step.hb.version == s.children[node].store.version > s.main.views[node].pulledVersion
    requires InFlightCurrent(StateAt(t, d), node) && BeatsCurrent(t, d, node)
    requires 0 < period && 0 <= busy && TicksEvery(t, d + 1, period) && ListsDrain(t, d + 1, busy)
    requires StateAt(t, i).clock > StateAt(t, d).clock + period + busy
    ensures Exact(StateAt(t, i), node)
  {
    hide Inv, Run, StateAt, Settled, IsTick, Next, HeardAhead, InFlightCurrent, BeatsCurrent, Exact;
    AfterDelivery(t, q, d, node);
    var s := StateAt(t, d);
    ClockGrows(t, i, |t.steps|);
    assert TickIn(t, d + 1, s.clock, period);
    var j :| d + 1 <= j < |t.steps| && IsTick(t.cfg, StateAt(t, j), t.steps[j]) && s.clock <= StateAt(t, j).clock < s.clock + period;
    assert DoneBy(t, j, StateAt(t, j).clock + busy);
    var e :| j < e <= |t.steps| && StateAt(t, e).queue == [] && StateAt(t, e).clock <= StateAt(t, j).clock + busy;
    if e > i {
      ClockGrows(t, i, e);
    }
    HeardTickConverges(t, q, d + 1, j, e, node);
    ExactStays(t, q, e, i, node);
  }

  lemma AfterDelivery(t: Trace, q: nat, d: nat, node: string)
    requires q <= d < |t.steps| && Inv(t.cfg, t.start) && Settled(t, q, node)
    requires var s, step := StateAt(t, d), t.steps[d];
      step.Deliver? && step.hb in s.net && step.hb.node == node && node in s.children && node in s.main.views
      && step.hb.version == s.children[node].store.version > s.main.views[node].pulledVersion
    requires InFlightCurrent(StateAt(t, d), node) && BeatsCurrent(t, d, node)
    ensures HeardAhead(StateAt(t, d + 1), node) && InFlightCurrent(StateAt(t, d + 1), node) && BeatsCurrent(t, d + 1, node)
    ensures StateAt(t, d + 1).clock == StateAt(t, d).clock
  {
    hide StateAt, Inv, Settled, HeardAhead, InFlightCurrent, BeatsCurrent, Exact;
    InvAt(t, d);
    StateAtNext(t, d);
    DeliveryHeard(t.cfg, StateAt(t, d), t.steps[d].hb);
    ExactNext(t, q, d, node);
    LaterBeats(t, d, node);
  }

  lemma LaterBeats(t: Trace, d: nat, node: string)
    requires BeatsCurrent(t, d, node)
    ensures BeatsCurrent(t, d + 1, node)
  {
    hide NoStaleBeat, StateAt;
  }
}
