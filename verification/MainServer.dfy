/** The main server: views, registrations and pulled detail, rewritten under one lock. */
module MainServer {
  import opened Options
  import opened Protocol

  datatype NodeReg = NodeReg(pullURL: string, pullBearer: string)

  datatype MainState = MainState(views: map<string, NodeView>, regs: map<string, NodeReg>, detail: map<string, PullResponse>)

  datatype MainConfig = MainConfig(thresholds: Thresholds, downAfterMisses: int)

  const HEARTBEAT_INTERVAL: int := 20 * SECOND

  // ----- what each locked section does -----

  function ViewOf(m: MainState, node: string): NodeView {
    if node in m.views then m.views[node] else UNSEEN
  }

  function Hear(v: NodeView, hb: Heartbeat, now: int): NodeView {
    v.(lastSeen := Some(now), lastSeq := hb.sequence, healthy := hb.healthy, cascadeUp := hb.cascadeUp,
       down := false, heardVersion := hb.version, heardBytes := hb.totalBytes)
  }

  function HeartbeatStep(m: MainState, hb: Heartbeat, now: int): MainState {
    if hb.node == "" then m else m.(views := m.views[hb.node := Hear(ViewOf(m, hb.node), hb, now)])
  }

  predicate Silent(cfg: MainConfig, v: NodeView, now: int) {
    MarkDown(v.lastSeen, now, HEARTBEAT_INTERVAL, cfg.downAfterMisses)
  }

  function Checked(cfg: MainConfig, v: NodeView, now: int): NodeView {
    if Silent(cfg, v, now) then v.(down := true) else v
  }

  /** Every view after a tick: the silent ones marked down, nothing else touched. */
  function TickStep(cfg: MainConfig, m: MainState, now: int): MainState {
    m.(views := map id | id in m.views :: Checked(cfg, m.views[id], now))
  }

  /** A tick writes nothing but the down flags. */
  lemma TickFlagsOnly(cfg: MainConfig, m: MainState, now: int, id: string)
    requires id in m.views
    ensures var t := TickStep(cfg, m, now);
      t.views.Keys == m.views.Keys && t.regs == m.regs && t.detail == m.detail
      && t.views[id] == m.views[id].(down := m.views[id].down || Silent(cfg, m.views[id], now))
  {
    hide Silent;
  }

  /** A node is scheduled when it is heard from and the decision says pull. */
  predicate Due(cfg: MainConfig, m: MainState, now: int, id: string) {
    id in m.views && !Silent(cfg, m.views[id], now) && ShouldPull(m.views[id], now, cfg.thresholds).pull
  }

  /** A tick in plain numbers: a heard node is down after it when it was or when its silence exceeds the misses
      allowed, 3 unless set, of 20 s; it is due when its silence does not and a pull is called for. */
  lemma TickIff(cfg: MainConfig, m: MainState, now: int, id: string)
    requires id in m.views && m.views[id].lastSeen.Some? && m.views[id].lastSeen.value <= now
    requires m.views[id].lastPull.Some? ==> m.views[id].lastPull.value <= now
    requires cfg.thresholds.reconcileEvery <= MAX_DURATION
    requires (if cfg.downAfterMisses > 0 then cfg.downAfterMisses else 3) * 20_000_000_000 < MAX_DURATION
    ensures var v, th := m.views[id], cfg.thresholds;
      var over := now - v.lastSeen.value > (if cfg.downAfterMisses > 0 then cfg.downAfterMisses else 3) * 20_000_000_000;
      var bytes := if th.byteDelta > 0 then th.byteDelta else 268_435_456;
      var every := if th.reconcileEvery > 0 then th.reconcileEvery else 600_000_000_000;
      var news := v.heardVersion > v.pulledVersion || v.heardBytes - v.pulledBytes >= bytes;
      var wanted := v.lastPull.None? || news || now - v.lastPull.value >= every;
      TickStep(cfg, m, now).views[id].down == (v.down || over) && Due(cfg, m, now, id) == (!over && wanted)
  {
    DownIff(m.views[id].lastSeen.value, now, HEARTBEAT_INTERVAL, cfg.downAfterMisses);
    PullIff(m.views[id], now, cfg.thresholds);
    hide MarkDown, ShouldPull;
  }

  /** A list of the scheduled nodes, each once, in some order. */
  ghost predicate IsSchedule(cfg: MainConfig, m: MainState, now: int, toPull: seq<string>) {
    && (forall i, j :: 0 <= i < j < |toPull| ==> toPull[i] != toPull[j])
    && (forall id :: id in toPull <==> Due(cfg, m, now, id))
  }

  function Pulled(v: NodeView, pr: PullResponse, now: int): NodeView {
    v.(pulledVersion := pr.version, pulledBytes := TotalOf(pr.users), lastPull := Some(now))
  }

  function CommitStep(m: MainState, node: string, pr: PullResponse, now: int): MainState {
    m.(detail := m.detail[node := pr],
       views := if node in m.views then m.views[node := Pulled(m.views[node], pr, now)] else m.views)
  }

  /** After a commit the node is due again exactly when something newer is heard, the heard traffic runs
      ahead by the threshold, or the reconcile interval has passed. */
  lemma DueAgainIff(th: Thresholds, v: NodeView, pr: PullResponse, now: int, later: int)
    requires now <= later && th.reconcileEvery <= MAX_DURATION
    ensures ShouldPull(Pulled(v, pr, now), later, th).pull <==>
      || v.heardVersion > pr.version
      || v.heardBytes - TotalOf(pr.users) >= (if th.byteDelta > 0 then th.byteDelta else 268_435_456)
      || later - now >= (if th.reconcileEvery > 0 then th.reconcileEvery else 600_000_000_000)
  {
    hide TotalOf;
    PullIff(Pulled(v, pr, now), later, th);
  }

  // ----- the server -----

  class Server {
    const cfg: MainConfig
    var views: map<string, NodeView>
    var regs: map<string, NodeReg>
    var detail: map<string, PullResponse>

    ghost function Abs(): MainState
      reads this
    {
      MainState(views, regs, detail)
    }

    constructor (cfg: MainConfig, regs: map<string, NodeReg>)
      ensures this.cfg == cfg && Abs() == MainState(map[], regs, map[])
    {
      this.cfg, this.regs := cfg, regs;
      views, detail := map[], map[];
    }

    method Register(node: string, reg: NodeReg)
      modifies this`regs
      ensures Abs() == old(Abs()).(regs := old(regs)[node := reg])
    {
      regs := regs[node := reg];
    }

    method HandleHeartbeat(hb: Heartbeat, now: int)
      modifies this`views
      ensures Abs() == HeartbeatStep(old(Abs()), hb, now)
      ensures hb.node != "" ==> hb.node in views && (var v := views[hb.node];
        && v.lastSeen == Some(now) && v.lastSeq == hb.sequence && v.healthy == hb.healthy && v.cascadeUp == hb.cascadeUp && !v.down
        && v.heardVersion == hb.version && v.heardBytes == hb.totalBytes)
      ensures hb.node != "" && hb.node in old(views) ==>
        views[hb.node].pulledVersion == old(views)[hb.node].pulledVersion
        && views[hb.node].pulledBytes == old(views)[hb.node].pulledBytes && views[hb.node].lastPull == old(views)[hb.node].lastPull
      ensures hb.node != "" && hb.node !in old(views) ==>
        views[hb.node].pulledVersion == 0 && views[hb.node].pulledBytes == 0 && views[hb.node].lastPull.None?
      ensures forall id :: id != hb.node ==> (id in views <==> id in old(views)) && (id in views ==> views[id] == old(views)[id])
    {
      if hb.node == "" {
        return;
      }
      if hb.node !in views {
        views := views[hb.node := UNSEEN];
      }
      var v := views[hb.node];
      v := v.(lastSeen := Some(now));
      v := v.(lastSeq := hb.sequence);
      v := v.(healthy := hb.healthy, cascadeUp := hb.cascadeUp);
      v := v.(down := false);
      v := v.(heardVersion := hb.version, heardBytes := hb.totalBytes);
      views := views[hb.node := v];
    }

    /** One tick of the scheduler: marks the silent nodes, lists the ones to pull. */
    method Tick(now: int) returns (toPull: seq<string>)
      modifies this`views
      ensures Abs() == TickStep(cfg, old(Abs()), now)
      ensures IsSchedule(cfg, old(Abs()), now, toPull)
    {
      hide MarkDown, ShouldPull;
      toPull := [];
      var left := views.Keys;
      while left != {}
        invariant left <= views.Keys == old(views).Keys
        invariant forall id :: id in views ==> views[id] == if id in left then old(views)[id] else Checked(cfg, old(views)[id], now)
        invariant forall i, j :: 0 <= i < j < |toPull| ==> toPull[i] != toPull[j]
        invariant forall id :: id in toPull <==> id !in left && Due(cfg, old(Abs()), now, id)
        decreases |left|
      {
        var id :| id in left;
        left := left - {id};
        var v := views[id];
        if MarkDown(v.lastSeen, now, HEARTBEAT_INTERVAL, cfg.downAfterMisses) {
          if !v.down {
            views := views[id := v.(down := true)];
          }
          continue;
        }
        if ShouldPull(v, now, cfg.thresholds).pull {
          toPull := toPull + [id];
        }
      }
    }

    /** Stores a pulled reply as the authoritative detail. */
    method Commit(node: string, pr: PullResponse, now: int)
      modifies this`detail, this`views
      ensures Abs() == CommitStep(old(Abs()), node, pr, now)
    {
      detail := detail[node := pr];
      if node in views {
        var v := views[node].(pulledVersion := pr.version);
        var total := 0;
        for i := 0 to |pr.users|
          modifies {}
          invariant total == TotalOf(pr.users[..i])
        {
          assert pr.users[..i + 1][..i] == pr.users[..i];
          total := total + (pr.users[i].rx + pr.users[i].tx);
        }
        assert pr.users[..|pr.users|] == pr.users;
        v := v.(pulledBytes := total);
        v := v.(lastPull := Some(now));
        views := views[node := v];
      }
    }

    /** One uninterrupted pull; `answer` is what the child replies to the registered address, None when the request fails. */
    method Pull(node: string, answer: NodeReg -> Option<PullResponse>, now: int) returns (committed: bool)
      modifies this`detail, this`views
      ensures committed <==> node in regs && answer(regs[node]).Some?
      ensures Abs() == if committed then CommitStep(old(Abs()), node, answer(regs[node]).value, now) else old(Abs())
      // the reply is kept whole, and the view, if the node was ever heard, agrees with it
      ensures committed ==> node in detail && detail[node] == answer(regs[node]).value
      ensures committed && node in views ==>
        views[node].pulledVersion == detail[node].version && views[node].pulledBytes == TotalOf(detail[node].users)
      ensures !committed || node !in old(views) ==> views == old(views)
    {
      if node !in regs {
        return false;
      }
      var reg := regs[node];
      var reply := answer(reg);
      if reply.None? {
        return false;
      }
      Commit(node, reply.value, now);
      return true;
    }
  }
}
