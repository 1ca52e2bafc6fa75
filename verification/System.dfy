/** The children, the network and the main server together, one atomic step at a time. */
module System {
  import opened Options
  import opened Store
  import opened Protocol
  import opened MainServer
  import opened ChildDaemon

  // ----- a child -----

  /** A heartbeat under way: the version is read before the byte total. */
  datatype Beat = Resting | VersionRead(sequence: nat, version: int)

  /** A child's store, its heartbeat loop, and the record of its user list at every version since `base`. */
  datatype Child = Child(store: State, sequence: nat, beat: Beat, base: int, hist: seq<seq<Identity>>)

  /** A store call of the child; additions and removals open a new version. */
  function Mutate(c: Child, op: Op): Child {
    var s := Apply(c.store, op);
    c.(store := s, hist := if s.version != c.store.version then c.hist + [Identities(s.users)] else c.hist)
  }

  /** The current entry of the record. */
  function Newest(c: Child): nat {
    if c.hist == [] then 0 else |c.hist| - 1
  }

  // ----- the scheduler's pull -----

  /** Between ticks the scheduler works through its list, one node at a time. */
  datatype Pull =
    | Waiting                                       // about to look the next node up
    | Requested                                     // the child is about to read its users
    | UsersRead(users: seq<Detail>, taken: nat)     // ... about to read its version
    | Answered(reply: PullResponse, taken: nat)     // the main is about to commit

  /** `taken` is the version, counted from the child's base, whose users the main holds. */
  datatype Sys = Sys(
    children: map<string, Child>, main: MainState, clock: int, net: set<Heartbeat>,
    queue: seq<string>, pull: Pull, taken: map<string, nat>)

  datatype Step =
    | Advance(dt: nat)                    // time passes
    | StoreCall(node: string, op: Op)     // users, tokens or counters change on a child
    | ReadVersionToBeat(node: string)     // a heartbeat is begun
    | SendBeat(node: string, up: bool)    // ... and sent
    | Deliver(hb: Heartbeat)              // late, out of order, more than once, or never
    | RegisterNode(node: string, reg: NodeReg)
    | Tick(toPull: seq<string>)
    | BeginPull
    | ReadUsers
    | ReadVersion
    | CommitPull
    | FailPull

  function Drop(s: Sys): Sys
    requires s.queue != []
  {
    s.(queue := s.queue[1..], pull := Waiting)
  }

  /** One atomic step; a step that is not possible in the state leaves it as it is. */
  ghost function Next(cfg: MainConfig, s: Sys, step: Step): Sys {
    match step
    case Advance(dt) => s.(clock := s.clock + dt)
    case StoreCall(node, op) =>
      if node !in s.children then s else s.(children := s.children[node := Mutate(s.children[node], op)])
    case ReadVersionToBeat(node) =>
      if node !in s.children then s
      else
        var c := s.children[node];
        s.(children := s.children[node := c.(sequence := c.sequence + 1, beat := VersionRead(c.sequence + 1, c.store.version))])
    case SendBeat(node, up) =>
      if node !in s.children || s.children[node].beat.Resting? then s
      else
        var c := s.children[node];
        var hb := Heartbeat(node, c.beat.sequence, up, up, c.beat.version, TotalTraffic(c.store.users));
        s.(children := s.children[node := c.(beat := Resting)], net := s.net + {hb})
    case Deliver(hb) =>
      if hb !in s.net then s else s.(main := HeartbeatStep(s.main, hb, s.clock))
    case RegisterNode(node, reg) => s.(main := s.main.(regs := s.main.regs[node := reg]))
    case Tick(toPull) =>
      if s.queue != [] || !IsSchedule(cfg, s.main, s.clock, toPull) then s
      else s.(main := TickStep(cfg, s.main, s.clock), queue := toPull, pull := Waiting)
    case BeginPull =>
      if s.queue == [] || !s.pull.Waiting? then s
      else if s.queue[0] !in s.main.regs then Drop(s)
      else s.(pull := Requested)
    case ReadUsers =>
      if s.queue == [] || !s.pull.Requested? || s.queue[0] !in s.children then s
      else
        var c := s.children[s.queue[0]];
        s.(pull := UsersRead(Details(c.store.users), Newest(c)))
    case ReadVersion =>
      if s.queue == [] || !s.pull.UsersRead? || s.queue[0] !in s.children then s
      else s.(pull := Answered(PullResponse(s.children[s.queue[0]].store.version, s.pull.users), s.pull.taken))
    case CommitPull =>
      if s.queue == [] || !s.pull.Answered? then s
      else
        Drop(s).(main := CommitStep(s.main, s.queue[0], s.pull.reply, s.clock), taken := s.taken[s.queue[0] := s.pull.taken])
    case FailPull =>
      if s.queue == [] || s.pull.Waiting? then s else Drop(s)
  }

  ghost function Run(cfg: MainConfig, s: Sys, steps: seq<Step>): Sys {
    if steps == [] then s else Next(cfg, Run(cfg, s, steps[..|steps| - 1]), steps[|steps| - 1])
  }

  // ----- what every run keeps -----

  /** The record has one entry per version, the last one being the current list. */
  ghost predicate ChildInv(c: Child) {
    && 0 <= c.base && |c.hist| > 0 && c.store.version == c.base + |c.hist| - 1
    && c.hist[|c.hist| - 1] == Identities(c.store.users)
    && (c.beat.VersionRead? ==> c.beat.version <= c.store.version)
  }

  /** Users as they were at some version, reported with that version or a later one. */
  ghost predicate Snapshot(c: Child, users: seq<Detail>, version: int, taken: nat) {
    taken < |c.hist| && Who(users) == c.hist[taken] && c.base + taken <= version <= c.store.version
  }

  /** What the main knows about one node, against the node itself. */
  ghost predicate ViewInv(cfg: MainConfig, v: NodeView, c: Child, clock: int) {
    && v.heardVersion <= c.store.version && v.pulledVersion <= c.store.version
    && v.lastSeen.Some? && v.lastSeen.value <= clock
    && (v.lastPull.Some? ==> v.lastPull.value <= clock)
    && (v.down ==> Silent(cfg, v, clock))
  }

  ghost predicate DetailInv(s: Sys, node: string)
    requires node in s.main.detail
  {
    && node in s.children && node in s.taken && node in s.main.views
    && Snapshot(s.children[node], s.main.detail[node].users, s.main.detail[node].version, s.taken[node])
    && s.main.views[node].pulledVersion == s.main.detail[node].version
    && s.main.views[node].pulledBytes == TotalOf(s.main.detail[node].users)
    && s.main.views[node].lastPull.Some?
  }

  ghost predicate NoRepeats(queue: seq<string>) {
    forall i, j :: 0 <= i < j < |queue| ==> queue[i] != queue[j]
  }

  ghost predicate PullInv(s: Sys) {
    && NoRepeats(s.queue)
    && (forall i :: 0 <= i < |s.queue| ==> s.queue[i] in s.main.views)
    && (s.queue == [] ==> s.pull.Waiting?)
    && (s.queue != [] && s.pull.UsersRead? ==>
        s.queue[0] in s.children && Snapshot(s.children[s.queue[0]], s.pull.users, s.children[s.queue[0]].store.version, s.pull.taken))
    && (s.queue != [] && s.pull.Answered? ==>
        s.queue[0] in s.children && Snapshot(s.children[s.queue[0]], s.pull.reply.users, s.pull.reply.version, s.pull.taken)
        && s.queue[0] in s.main.views && s.main.views[s.queue[0]].pulledVersion <= s.pull.reply.version)
  }

  ghost predicate ChildrenInv(s: Sys) {
    "" !in s.children && forall node :: node in s.children ==> ChildInv(s.children[node])
  }

  /** Messages report versions their sender has reached. */
  ghost predicate NetInv(s: Sys) {
    forall hb :: hb in s.net ==> hb.node in s.children && hb.version <= s.children[hb.node].store.version
  }

  ghost predicate ViewsInv(cfg: MainConfig, s: Sys) {
    forall node :: node in s.main.views ==> node in s.children && ViewInv(cfg, s.main.views[node], s.children[node], s.clock)
  }

  ghost predicate DetailsInv(s: Sys) {
    forall node :: node in s.main.detail ==> DetailInv(s, node)
  }

  ghost predicate Inv(cfg: MainConfig, s: Sys) {
    ChildrenInv(s) && NetInv(s) && ViewsInv(cfg, s) && DetailsInv(s) && PullInv(s)
  }

  lemma MutateKeeps(c: Child, op: Op)
    requires ChildInv(c)
    ensures ChildInv(Mutate(c, op)) && c.hist <= Mutate(c, op).hist && c.base == Mutate(c, op).base
    ensures c.store.version <= Mutate(c, op).store.version
  {
    hide FirstRef, FirstStat, EmailTaken;
    var t := Apply(c.store, op);
    if t.version == c.store.version {
      assert Identities(t.users) == Identities(c.store.users);
    }
  }

  lemma SnapshotStays(c: Child, op: Op, users: seq<Detail>, version: int, taken: nat)
    requires ChildInv(c) && Snapshot(c, users, version, taken)
    ensures Snapshot(Mutate(c, op), users, version, taken)
    ensures version == c.store.version ==> Snapshot(Mutate(c, op), users, Mutate(c, op).store.version, taken)
  {
    MutateKeeps(c, op);
    hide Mutate, ChildInv;
  }

  lemma StoreCallKeeps(cfg: MainConfig, s: Sys, node: string, op: Op)
    requires Inv(cfg, s)
    ensures Inv(cfg, Next(cfg, s, StoreCall(node, op)))
  {
    hide Mutate, ChildInv, Snapshot, Silent, TotalOf;
    if node in s.children {
      var c, t := s.children[node], Next(cfg, s, StoreCall(node, op));
      MutateKeeps(c, op);
      assert ChildrenInv(t) && NetInv(t) && ViewsInv(cfg, t) by { hide DetailsInv, PullInv; }
      assert DetailsInv(t) by {
        hide PullInv, ViewsInv, NetInv;
        if node in s.main.detail {
          SnapshotStays(c, op, s.main.detail[node].users, s.main.detail[node].version, s.taken[node]);
        }
      }
      assert PullInv(t) by {
        hide DetailsInv, ViewsInv, NetInv;
        if s.queue != [] && s.queue[0] == node && s.pull.UsersRead? {
          SnapshotStays(c, op, s.pull.users, c.store.version, s.pull.taken);
        }
        if s.queue != [] && s.queue[0] == node && s.pull.Answered? {
          SnapshotStays(c, op, s.pull.reply.users, s.pull.reply.version, s.pull.taken);
        }
      }
    }
  }

  lemma AdvanceKeeps(cfg: MainConfig, s: Sys, dt: nat)
    requires Inv(cfg, s)
    ensures Inv(cfg, Next(cfg, s, Advance(dt)))
  {
    forall node | node in s.main.views && s.main.views[node].down
      ensures Silent(cfg, s.main.views[node], s.clock + dt)
    {
      MarkDownMonotone(s.main.views[node].lastSeen, s.clock, s.clock + dt, HEARTBEAT_INTERVAL, cfg.downAfterMisses);
    }
    hide ChildInv, Snapshot, Silent;
  }

  /** A change to a child's heartbeat loop alone. */
  lemma ChildStays(cfg: MainConfig, s: Sys, node: string, c: Child)
    requires Inv(cfg, s) && node in s.children && ChildInv(c)
    requires c.store == s.children[node].store && c.hist == s.children[node].hist && c.base == s.children[node].base
    ensures Inv(cfg, s.(children := s.children[node := c]))
  {
    hide Silent, ChildInv, TotalOf, NoRepeats;
    var t := s.(children := s.children[node := c]);
    assert forall users, version: int, taken: nat ::
      Snapshot(c, users, version, taken) == Snapshot(s.children[node], users, version, taken);
    hide Snapshot;
    assert ChildrenInv(t) && NetInv(t) by { hide DetailsInv, PullInv, ViewsInv; }
    assert ViewsInv(cfg, t) by { hide DetailsInv, PullInv, NetInv, ChildrenInv; }
    assert DetailsInv(t) by { hide PullInv, ViewsInv, NetInv, ChildrenInv; }
    assert PullInv(t) by { hide DetailsInv, ViewsInv, NetInv, ChildrenInv; }
  }

  lemma BeatReadKeeps(cfg: MainConfig, s: Sys, node: string)
    requires Inv(cfg, s)
    ensures Inv(cfg, Next(cfg, s, ReadVersionToBeat(node)))
  {
    hide NetInv, ViewsInv, DetailsInv, PullInv, Identities;
    if node in s.children {
      var c := s.children[node];
      ChildStays(cfg, s, node, c.(sequence := c.sequence + 1, beat := VersionRead(c.sequence + 1, c.store.version)));
    }
  }

  lemma BeatSentKeeps(cfg: MainConfig, s: Sys, node: string, up: bool)
    requires Inv(cfg, s)
    ensures Inv(cfg, Next(cfg, s, SendBeat(node, up)))
  {
    hide ViewsInv, DetailsInv, PullInv, Identities, TotalTraffic;
    if node in s.children && !s.children[node].beat.Resting? {
      var c := s.children[node];
      var hb := Heartbeat(node, c.beat.sequence, up, up, c.beat.version, TotalTraffic(c.store.users));
      var t := s.(children := s.children[node := c.(beat := Resting)]);
      ChildStays(cfg, s, node, c.(beat := Resting));
      MessageAdded(cfg, t, hb);
    }
  }

  lemma MessageAdded(cfg: MainConfig, s: Sys, hb: Heartbeat)
    requires Inv(cfg, s) && hb.node in s.children && hb.version <= s.children[hb.node].store.version
    ensures Inv(cfg, s.(net := s.net + {hb}))
  {
    hide ChildInv, ViewInv, Snapshot, NoRepeats, TotalOf;
  }

  lemma DeliverKeeps(cfg: MainConfig, s: Sys, hb: Heartbeat)
    requires Inv(cfg, s)
    ensures Inv(cfg, Next(cfg, s, Deliver(hb)))
  {
    hide Silent, Snapshot, TotalOf;
    if hb in s.net {
      assert hb.node in s.children;
    }
  }

  lemma RegisterKeeps(cfg: MainConfig, s: Sys, node: string, reg: NodeReg)
    requires Inv(cfg, s)
    ensures Inv(cfg, Next(cfg, s, RegisterNode(node, reg)))
  {
    hide Silent, Snapshot, ChildInv, TotalOf;
  }

  lemma TickKeeps(cfg: MainConfig, s: Sys, toPull: seq<string>)
    requires Inv(cfg, s)
    ensures Inv(cfg, Next(cfg, s, Tick(toPull)))
  {
    hide ShouldPull, ChildInv, MarkDown, Snapshot, TotalOf;
    if s.queue == [] && IsSchedule(cfg, s.main, s.clock, toPull) {
      forall i | 0 <= i < |toPull|
        ensures toPull[i] in s.main.views
      {
        assert toPull[i] in toPull;
      }
    }
  }

  lemma PullStepKeeps(cfg: MainConfig, s: Sys, step: Step)
    requires Inv(cfg, s) && (step.BeginPull? || step.ReadUsers? || step.ReadVersion? || step.FailPull?)
    ensures Inv(cfg, Next(cfg, s, step))
  {
    hide Silent;
    if step.ReadUsers? && s.queue != [] && s.queue[0] in s.children {
      var users := s.children[s.queue[0]].store.users;
      assert Who(Details(users)) == Identities(users);
    }
  }

  lemma CommitKeeps(cfg: MainConfig, s: Sys)
    requires Inv(cfg, s)
    ensures Inv(cfg, Next(cfg, s, CommitPull))
  {
    hide MarkDown, ChildInv, TotalOf, Who;
    var t := Next(cfg, s, CommitPull);
    assert s.queue != [] ==> s.queue[0] in s.main.views;
    assert ViewsInv(cfg, t) by { hide DetailsInv; }
    assert DetailsInv(t) by { hide ViewsInv, ViewInv; }
  }

  lemma NextKeeps(cfg: MainConfig, s: Sys, step: Step)
    requires Inv(cfg, s)
    ensures Inv(cfg, Next(cfg, s, step))
  {
    hide Inv, Next;
    match step
    case Advance(dt) => AdvanceKeeps(cfg, s, dt);
    case StoreCall(node, op) => StoreCallKeeps(cfg, s, node, op);
    case Tick(toPull) => TickKeeps(cfg, s, toPull);
    case CommitPull => CommitKeeps(cfg, s);
    case BeginPull => PullStepKeeps(cfg, s, step);
    case ReadUsers => PullStepKeeps(cfg, s, step);
    case ReadVersion => PullStepKeeps(cfg, s, step);
    case FailPull => PullStepKeeps(cfg, s, step);
    case ReadVersionToBeat(node) => BeatReadKeeps(cfg, s, node);
    case SendBeat(node, up) => BeatSentKeeps(cfg, s, node, up);
    case Deliver(hb) => DeliverKeeps(cfg, s, hb);
    case RegisterNode(node, reg) => RegisterKeeps(cfg, s, node, reg);
  }

  lemma {:induction false} RunKeeps(cfg: MainConfig, s: Sys, steps: seq<Step>)
    requires Inv(cfg, s)
    ensures Inv(cfg, Run(cfg, s, steps))
    decreases |steps|
  {
    hide Inv, Next;
    if steps != [] {
      var n := |steps| - 1;
      RunKeeps(cfg, s, steps[..n]);
      NextKeeps(cfg, Run(cfg, s, steps[..n]), steps[n]);
    }
  }

  /** Nobody heard from, nothing pulled: any children whose records begin now. */
  lemma Starts(cfg: MainConfig, s: Sys)
    requires "" !in s.children && (forall node :: node in s.children ==> ChildInv(s.children[node]))
    requires s.net == {} && s.main.views == map[] && s.main.detail == map[] && s.queue == [] && s.pull.Waiting?
    ensures Inv(cfg, s)
  {
  }

  // ----- what follows for the main's picture of a node -----

  /** Neither the pulled version of a node nor the list of nodes ever goes back. */
  lemma PulledNeverDecreases(cfg: MainConfig, s: Sys, step: Step, node: string)
    requires Inv(cfg, s) && node in s.main.views
    ensures node in Next(cfg, s, step).main.views
    ensures s.main.views[node].pulledVersion <= Next(cfg, s, step).main.views[node].pulledVersion
  {
    hide Silent, ChildInv, Snapshot, TotalOf, Mutate, IsSchedule, ChildrenInv, NetInv, ViewsInv, DetailsInv;
  }

  lemma {:induction false} PulledNeverDecreasesInRuns(cfg: MainConfig, s: Sys, steps: seq<Step>, node: string)
    requires Inv(cfg, s) && node in s.main.views
    ensures var t := Run(cfg, s, steps);
      node in t.main.views && s.main.views[node].pulledVersion <= t.main.views[node].pulledVersion
    decreases |steps|
  {
    hide Inv, Next;
    if steps != [] {
      var n := |steps| - 1;
      RunKeeps(cfg, s, steps[..n]);
      PulledNeverDecreasesInRuns(cfg, s, steps[..n], node);
      PulledNeverDecreases(cfg, Run(cfg, s, steps[..n]), steps[n], node);
    }
  }

  /** In every run: what the main heard and pulled lies behind the child, and the users it stores are
      the child's users at some version no later than the one reported with them. */
  lemma MainLagsChild(cfg: MainConfig, s: Sys, steps: seq<Step>, node: string)
    requires Inv(cfg, s) && node in Run(cfg, s, steps).main.views
    ensures var t := Run(cfg, s, steps);
      node in t.children
      && t.main.views[node].heardVersion <= t.children[node].store.version
      && t.main.views[node].pulledVersion <= t.children[node].store.version
      && (node in t.main.detail ==>
        var c, d := t.children[node], t.main.detail[node];
        t.main.views[node].pulledVersion == d.version <= c.store.version
        && t.main.views[node].pulledBytes == TotalOf(d.users)
        && exists k :: 0 <= k < |c.hist| && Who(d.users) == c.hist[k] && c.base + k <= d.version)
  {
    RunKeeps(cfg, s, steps);
    hide Run, Silent, ChildInv, TotalOf, Who, NetInv, PullInv;
  }

  /** Steps that leave the pull in progress alone. */
  ghost predicate Outside(step: Step) {
    step.Advance? || step.StoreCall? || step.ReadVersionToBeat? || step.SendBeat? || step.Deliver? || step.RegisterNode?
  }

  ghost predicate AllOutside(steps: seq<Step>) {
    forall i :: 0 <= i < |steps| ==> Outside(steps[i])
  }

  lemma OutsideStep(cfg: MainConfig, s: Sys, step: Step, node: string)
    requires ChildrenInv(s) && Outside(step) && node in s.children
    ensures var t := Next(cfg, s, step);
      t.queue == s.queue && t.pull == s.pull && node in t.children
      && t.children[node].base == s.children[node].base && |s.children[node].hist| <= |t.children[node].hist|
  {
    hide Mutate, ChildInv, TotalTraffic;
    if step.StoreCall? && step.node in s.children {
      MutateKeeps(s.children[step.node], step.op);
    }
  }

  lemma {:induction false} OutsideKeepsPull(cfg: MainConfig, s: Sys, steps: seq<Step>, node: string)
    requires Inv(cfg, s) && AllOutside(steps) && node in s.children
    ensures var t := Run(cfg, s, steps);
      Inv(cfg, t) && t.queue == s.queue && t.pull == s.pull && node in t.children
      && t.children[node].base == s.children[node].base && |s.children[node].hist| <= |t.children[node].hist|
    decreases |steps|
  {
    RunKeeps(cfg, s, steps);
    hide Next, ChildrenInv, ViewsInv, DetailsInv, NetInv, PullInv;
    if steps != [] {
      var n := |steps| - 1;
      OutsideKeepsPull(cfg, s, steps[..n], node);
      OutsideStep(cfg, Run(cfg, s, steps[..n]), steps[n], node);
    }
  }

  lemma ReadUsersDoes(cfg: MainConfig, s: Sys)
    requires s.queue != [] && s.pull.Requested? && s.queue[0] in s.children
    ensures var c := s.children[s.queue[0]];
      Next(cfg, s, ReadUsers) == s.(pull := UsersRead(Details(c.store.users), Newest(c)))
  {
  }

  lemma ReadVersionDoes(cfg: MainConfig, s: Sys)
    requires s.queue != [] && s.pull.UsersRead? && s.queue[0] in s.children
    ensures Next(cfg, s, ReadVersion)
      == s.(pull := Answered(PullResponse(s.children[s.queue[0]].store.version, s.pull.users), s.pull.taken))
  {
  }

  lemma CommitDoes(cfg: MainConfig, s: Sys)
    requires s.queue != [] && s.pull.Answered? && s.queue[0] in s.main.views
    ensures var node, t := s.queue[0], Next(cfg, s, CommitPull);
      node in t.main.views && node in t.main.detail && t.main.detail[node] == s.pull.reply
      && t.main.views[node] == Pulled(s.main.views[node], s.pull.reply, s.clock)
      && t.children == s.children && t.clock == s.clock
  {
  }

  /** The step adds or removes a user of the node. */
  ghost predicate Changes(s: Sys, step: Step, node: string) {
    && step.StoreCall? && step.node == node && node in s.children
    && (step.op.Add? || step.op.Remove?) && Succeeds(s.children[node].store, step.op)
  }

  ghost predicate ChangesUsers(cfg: MainConfig, s: Sys, steps: seq<Step>, node: string) {
    exists n :: 0 <= n < |steps| && Changes(Run(cfg, s, steps[..n]), steps[n], node)
  }

  lemma ChangesSnoc(cfg: MainConfig, s: Sys, steps: seq<Step>, node: string)
    requires steps != []
    ensures var m := |steps| - 1;
      ChangesUsers(cfg, s, steps, node)
      <==> ChangesUsers(cfg, s, steps[..m], node) || Changes(Run(cfg, s, steps[..m]), steps[m], node)
  {
    var m := |steps| - 1;
    hide Run, Changes;
    assert forall n :: 0 <= n < m ==> steps[..m][..n] == steps[..n];
    assert forall n :: 0 <= n < m ==>
      Changes(Run(cfg, s, steps[..m][..n]), steps[..m][n], node) == Changes(Run(cfg, s, steps[..n]), steps[n], node);
  }

  lemma VersionStep(cfg: MainConfig, s: Sys, step: Step, node: string)
    requires node in s.children
    ensures var t := Next(cfg, s, step);
      node in t.children
      && t.children[node].store.version == s.children[node].store.version + if Changes(s, step, node) then 1 else 0
  {
    hide Succeeds, EmailTaken, FirstRef, FirstStat, IsSchedule, TotalTraffic, Details, Identities;
  }

  /** The child's version moves exactly when a user comes or goes. */
  lemma {:induction false} VersionMoves(cfg: MainConfig, s: Sys, steps: seq<Step>, node: string)
    requires node in s.children
    ensures var t := Run(cfg, s, steps);
      node in t.children && t.children[node].store.version >= s.children[node].store.version
      && (t.children[node].store.version == s.children[node].store.version <==> !ChangesUsers(cfg, s, steps, node))
    decreases |steps|
  {
    if steps != [] {
      hide Next, Changes, ChangesUsers;
      var n := |steps| - 1;
      VersionMoves(cfg, s, steps[..n], node);
      VersionStep(cfg, Run(cfg, s, steps[..n]), steps[n], node);
      ChangesSnoc(cfg, s, steps, node);
    }
  }

  /** A whole pull, with anything but pull steps in between: the main ends up with the users as they were
      at the first read, the version as it was at the second, and the byte total of the first. */
  lemma WholePull(cfg: MainConfig, s: Sys, between: seq<Step>, before: seq<Step>)
    requires Inv(cfg, s) && AllOutside(between) && AllOutside(before)
    requires s.queue != [] && s.pull.Requested? && s.queue[0] in s.children
    ensures var node := s.queue[0];
      var a := Run(cfg, Next(cfg, s, ReadUsers), between);
      var b := Run(cfg, Next(cfg, a, ReadVersion), before);
      var t := Next(cfg, b, CommitPull);
      node in a.children && node in t.main.views && node in t.main.detail
      && t.main.detail[node] == PullResponse(a.children[node].store.version, Details(s.children[node].store.users))
      && t.main.views[node].pulledBytes == TotalTraffic(s.children[node].store.users)
      && t.main.views[node].lastPull == Some(b.clock)
      // the pair is exact precisely when no user came or went between the two reads
      && (t.main.detail[node].version == s.children[node].store.version
          <==> !ChangesUsers(cfg, Next(cfg, s, ReadUsers), between, node))
  {
    var node := s.queue[0];
    hide Next, Run, ViewsInv, DetailsInv, NetInv, Details, TotalOf, TotalTraffic, Snapshot, Identities;
    ReadUsersDoes(cfg, s);
    NextKeeps(cfg, s, ReadUsers);
    var r := Next(cfg, s, ReadUsers);
    OutsideKeepsPull(cfg, r, between, node);
    var a := Run(cfg, r, between);
    VersionMoves(cfg, r, between, node);
    hide ChildrenInv, ChildInv;
    ReadVersionDoes(cfg, a);
    NextKeeps(cfg, a, ReadVersion);
    OutsideKeepsPull(cfg, Next(cfg, a, ReadVersion), before, node);
    var b := Run(cfg, Next(cfg, a, ReadVersion), before);
    assert node in b.main.views;
    CommitDoes(cfg, b);
    TotalOfDetails(s.children[node].store.users);
  }

  /** Right after a tick, down and silent mean the same, and no silent node is on the list. */
  lemma TickTellsTheTruth(cfg: MainConfig, s: Sys, toPull: seq<string>, node: string)
    requires Inv(cfg, s) && s.queue == [] && IsSchedule(cfg, s.main, s.clock, toPull) && node in s.main.views
    ensures var t := Next(cfg, s, Tick(toPull));
      node in t.main.views && (t.main.views[node].down <==> Silent(cfg, t.main.views[node], t.clock))
      && (node in t.queue ==> !t.main.views[node].down)
  {
    hide MarkDown, ShouldPull, DetailsInv, NetInv, ChildrenInv, PullInv;
  }

  // ----- heartbeats and the next tick -----

  /** The step neither begins nor sends a heartbeat of the node. */
  ghost predicate LeavesBeat(step: Step, node: string) {
    !(step.ReadVersionToBeat? && step.node == node) && !(step.SendBeat? && step.node == node)
  }

  lemma LeavesBeatStep(cfg: MainConfig, s: Sys, step: Step, node: string)
    requires LeavesBeat(step, node) && node in s.children
    ensures var t := Next(cfg, s, step);
      node in t.children && t.children[node].beat == s.children[node].beat && t.children[node].sequence == s.children[node].sequence
  {
    hide Succeeds, Apply, Identities, IsSchedule, TotalTraffic, Details;
  }

  lemma {:induction false} LeavesBeatRun(cfg: MainConfig, s: Sys, steps: seq<Step>, node: string)
    requires node in s.children && forall i :: 0 <= i < |steps| ==> LeavesBeat(steps[i], node)
    ensures var t := Run(cfg, s, steps);
      node in t.children && t.children[node].beat == s.children[node].beat && t.children[node].sequence == s.children[node].sequence
    decreases |steps|
  {
    hide Next, LeavesBeat;
    if steps != [] {
      var n := |steps| - 1;
      LeavesBeatRun(cfg, s, steps[..n], node);
      LeavesBeatStep(cfg, Run(cfg, s, steps[..n]), steps[n], node);
    }
  }

  /** A whole heartbeat, with anything but another of the node in between: what goes out names the node, carries the
      next number, the version as it was at the first read and the traffic, received and sent, as it is at the second. */
  lemma WholeBeat(cfg: MainConfig, s: Sys, node: string, between: seq<Step>, up: bool)
    requires node in s.children && forall i :: 0 <= i < |between| ==> LeavesBeat(between[i], node)
    ensures var b := Run(cfg, Next(cfg, s, ReadVersionToBeat(node)), between);
      node in b.children && (var users := b.children[node].store.users;
      Next(cfg, b, SendBeat(node, up)).net
        == b.net + {Heartbeat(node, s.children[node].sequence + 1, up, up, s.children[node].store.version, Received(users) + Sent(users))})
  {
    hide *;
    BeatBegins(cfg, s, node);
    var a := Next(cfg, s, ReadVersionToBeat(node));
    LeavesBeatRun(cfg, a, between, node);
    BeatEnds(cfg, Run(cfg, a, between), node, up);
  }

  lemma BeatEnds(cfg: MainConfig, s: Sys, node: string, up: bool)
    requires node in s.children && s.children[node].beat.VersionRead?
    ensures var beat, users := s.children[node].beat, s.children[node].store.users;
      Next(cfg, s, SendBeat(node, up)).net
        == s.net + {Heartbeat(node, beat.sequence, up, up, beat.version, Received(users) + Sent(users))}
  {
    hide TotalTraffic, Received, Sent;
    TotalIsColumns(s.children[node].store.users);
  }

  lemma BeatBegins(cfg: MainConfig, s: Sys, node: string)
    requires node in s.children
    ensures var t := Next(cfg, s, ReadVersionToBeat(node));
      node in t.children && t.children[node].beat == VersionRead(s.children[node].sequence + 1, s.children[node].store.version)
  {
  }

  /** How long a node may be silent: 3 misses unless set, of 20 s each. */
  function Allowed(cfg: MainConfig): int {
    (if cfg.downAfterMisses > 0 then cfg.downAfterMisses else 3) * 20_000_000_000
  }

  /** The node was heard at that time or later. */
  ghost predicate HeardSince(s: Sys, node: string, time: int) {
    node in s.main.views && s.main.views[node].lastSeen.Some? && time <= s.main.views[node].lastSeen.value <= s.clock
  }

  lemma HeardSinceStep(cfg: MainConfig, s: Sys, step: Step, node: string, time: int)
    requires HeardSince(s, node, time)
    ensures HeardSince(Next(cfg, s, step), node, time)
  {
    hide Silent, Mutate, IsSchedule, TotalOf, TotalTraffic, Details;
  }

  lemma {:induction false} HeardSinceRun(cfg: MainConfig, s: Sys, steps: seq<Step>, node: string, time: int)
    requires HeardSince(s, node, time)
    ensures HeardSince(Run(cfg, s, steps), node, time)
    decreases |steps|
  {
    hide Next, HeardSince;
    if steps != [] {
      HeardSinceRun(cfg, s, steps[..|steps| - 1], node, time);
      HeardSinceStep(cfg, Run(cfg, s, steps[..|steps| - 1]), steps[|steps| - 1], node, time);
    }
  }

  lemma DeliverHeard(cfg: MainConfig, s: Sys, hb: Heartbeat)
    requires hb in s.net && hb.node != ""
    ensures HeardSince(Next(cfg, s, Deliver(hb)), hb.node, s.clock)
  {
  }

  /** A node heard since then is not silent while that is within the time allowed. */
  lemma HeardNotSilent(cfg: MainConfig, s: Sys, node: string, time: int)
    requires HeardSince(s, node, time) && s.clock - time <= Allowed(cfg) <= MAX_DURATION
    ensures node in s.main.views && !Silent(cfg, s.main.views[node], s.clock)
  {
    DownIff(s.main.views[node].lastSeen.value, s.clock, HEARTBEAT_INTERVAL, cfg.downAfterMisses);
    hide MarkDown;
  }

  /** Whatever happens between a heartbeat and a tick that follows within the time allowed: the tick leaves the node
      up, and lists it exactly when it was never pulled, a newer version or enough traffic was heard of, or the last
      pull is a reconcile interval ago. */
  lemma BeatThenTick(cfg: MainConfig, s: Sys, hb: Heartbeat, between: seq<Step>, toPull: seq<string>)
    requires Inv(cfg, s) && hb in s.net && cfg.thresholds.reconcileEvery <= MAX_DURATION
    requires var b := Run(cfg, Next(cfg, s, Deliver(hb)), between);
      b.queue == [] && IsSchedule(cfg, b.main, b.clock, toPull) && b.clock - s.clock <= Allowed(cfg) <= MAX_DURATION
    ensures var b := Run(cfg, Next(cfg, s, Deliver(hb)), between);
      var t, th := Next(cfg, b, Tick(toPull)), cfg.thresholds;
      hb.node in b.main.views && hb.node in t.main.views && !t.main.views[hb.node].down
      && (hb.node in t.queue <==> var v := b.main.views[hb.node];
        || v.lastPull.None? || v.heardVersion > v.pulledVersion
        || v.heardBytes - v.pulledBytes >= (if th.byteDelta > 0 then th.byteDelta else 268_435_456)
        || b.clock - v.lastPull.value >= (if th.reconcileEvery > 0 then th.reconcileEvery else 600_000_000_000))
  {
    assert hb.node != "" by { hide ChildInv, ViewsInv, DetailsInv, PullInv; }
    hide Inv, Next, Run, HeardSince, IsSchedule, Allowed;
    var a := Next(cfg, s, Deliver(hb));
    var b := Run(cfg, a, between);
    DeliverHeard(cfg, s, hb);
    HeardSinceRun(cfg, a, between, hb.node, s.clock);
    HeardNotSilent(cfg, b, hb.node, s.clock);
    NextKeeps(cfg, s, Deliver(hb));
    RunKeeps(cfg, a, between);
    TickOnHeard(cfg, b, toPull, hb.node);
    PullIff(b.main.views[hb.node], b.clock, cfg.thresholds);
  }

  lemma TickOnHeard(cfg: MainConfig, s: Sys, toPull: seq<string>, node: string)
    requires Inv(cfg, s) && s.queue == [] && IsSchedule(cfg, s.main, s.clock, toPull) && node in s.main.views
    requires !Silent(cfg, s.main.views[node], s.clock)
    ensures var t := Next(cfg, s, Tick(toPull));
      node in t.main.views && !t.main.views[node].down
      && (node in t.queue <==> ShouldPull(s.main.views[node], s.clock, cfg.thresholds).pull)
    ensures s.main.views[node].lastPull.Some? ==> s.main.views[node].lastPull.value <= s.clock
  {
    assert ViewInv(cfg, s.main.views[node], s.children[node], s.clock);
    TickTellsTheTruth(cfg, s, toPull, node);
    hide ShouldPull, Silent, DetailsInv, NetInv, ChildrenInv, PullInv, ViewsInv;
  }

  /** No step delivers a heartbeat of the node or moves a pull. */
  ghost predicate Unheard(steps: seq<Step>, node: string) {
    forall i :: 0 <= i < |steps| ==> Outside(steps[i]) && !(steps[i].Deliver? && steps[i].hb.node == node)
  }

  lemma UnheardStep(cfg: MainConfig, s: Sys, step: Step, node: string)
    requires Outside(step) && !(step.Deliver? && step.hb.node == node) && node in s.main.views
    ensures var t := Next(cfg, s, step);
      node in t.main.views && t.main.views[node] == s.main.views[node] && t.queue == s.queue && t.pull == s.pull
  {
    hide Mutate, TotalTraffic;
  }

  lemma {:induction false} UnheardRun(cfg: MainConfig, s: Sys, steps: seq<Step>, node: string)
    requires Unheard(steps, node) && node in s.main.views
    ensures var t := Run(cfg, s, steps);
      node in t.main.views && t.main.views[node] == s.main.views[node] && t.queue == s.queue && t.pull == s.pull
    decreases |steps|
  {
    hide Next, Outside;
    if steps != [] {
      var n := |steps| - 1;
      UnheardRun(cfg, s, steps[..n], node);
      UnheardStep(cfg, Run(cfg, s, steps[..n]), steps[n], node);
    }
  }

  /** A heartbeat whose byte total runs ahead of the pulled one by the threshold, or whose version does, puts the node
      on the next tick's list, if nothing else of the node is heard or pulled before. */
  lemma NewsIsPulled(cfg: MainConfig, s: Sys, hb: Heartbeat, between: seq<Step>, toPull: seq<string>)
    requires Inv(cfg, s) && hb in s.net && hb.node in s.main.views && cfg.thresholds.reconcileEvery <= MAX_DURATION
    requires var v, th := s.main.views[hb.node], cfg.thresholds;
      hb.version > v.pulledVersion || hb.totalBytes - v.pulledBytes >= (if th.byteDelta > 0 then th.byteDelta else 268_435_456)
    requires s.queue == [] && Unheard(between, hb.node)
    requires var b := Run(cfg, Next(cfg, s, Deliver(hb)), between);
      IsSchedule(cfg, b.main, b.clock, toPull) && b.clock - s.clock <= Allowed(cfg) <= MAX_DURATION
    ensures hb.node in Next(cfg, Run(cfg, Next(cfg, s, Deliver(hb)), between), Tick(toPull)).queue
  {
    DeliveryRecorded(cfg, s, hb);
    hide Inv, Next, Run, IsSchedule, Allowed, Unheard;
    UnheardRun(cfg, Next(cfg, s, Deliver(hb)), between, hb.node);
    BeatThenTick(cfg, s, hb, between, toPull);
  }

  lemma DeliveryRecorded(cfg: MainConfig, s: Sys, hb: Heartbeat)
    requires Inv(cfg, s) && hb in s.net && hb.node in s.main.views
    ensures var t := Next(cfg, s, Deliver(hb));
      hb.node in t.main.views && t.queue == s.queue
      && t.main.views[hb.node].heardVersion == hb.version && t.main.views[hb.node].heardBytes == hb.totalBytes
      && t.main.views[hb.node].pulledVersion == s.main.views[hb.node].pulledVersion
      && t.main.views[hb.node].pulledBytes == s.main.views[hb.node].pulledBytes
  {
    hide ChildInv, ViewInv, DetailsInv, PullInv;
  }

  /** With a limit wrapped below zero, such as for 461168602 allowed misses, every tick marks every node down,
      however lately it was heard, and pulls none. */
  lemma WrappedLimitStopsPulls(cfg: MainConfig, s: Sys, toPull: seq<string>)
    requires Inv(cfg, s) && s.queue == [] && IsSchedule(cfg, s.main, s.clock, toPull)
    requires Limit(HEARTBEAT_INTERVAL, cfg.downAfterMisses) < 0 || cfg.downAfterMisses == 461168602
    ensures var t := Next(cfg, s, Tick(toPull));
      t.queue == [] && forall node :: node in t.main.views ==> t.main.views[node].down
  {
    LimitWraps();
    hide Limit, ShouldPull, DetailsInv, NetInv, ChildrenInv, PullInv;
    forall node | node in s.main.views
      ensures Silent(cfg, s.main.views[node], s.clock)
    {
      assert ViewInv(cfg, s.main.views[node], s.children[node], s.clock);
    }
    hide Silent, ViewsInv;
    HeadIn(toPull);
  }

  lemma HeadIn(queue: seq<string>)
    ensures queue == [] || exists node :: node in queue
  {
    assert queue == [] || queue[0] in queue;
  }

  /** Between ticks a down node is a silent one. */
  lemma DownMeansSilent(cfg: MainConfig, s: Sys, steps: seq<Step>, node: string)
    requires Inv(cfg, s) && node in Run(cfg, s, steps).main.views && Run(cfg, s, steps).main.views[node].down
    ensures Silent(cfg, Run(cfg, s, steps).main.views[node], Run(cfg, s, steps).clock)
  {
    RunKeeps(cfg, s, steps);
    hide Run, Silent;
  }
}
