/** The automated clients of the store: the deactivation webhook and the self-service portal. */
module Clients {
  import opened Options
  import opened Store
  import opened StoreRuns

  // ----- the deactivation webhook -----

  /** Handles one event; the email arrives trimmed. */
  method HandleEvent(st: Store, action: string, email: string, isActive: Option<bool>) returns (revoked: bool)
    requires st.Valid()
    modifies st, st.users
    ensures st.Valid()
    ensures revoked <==>
      !(action != "model_deleted" && isActive == Some(true)) && email != ""
      && Find(old(st.Contents()), email).Some? && Find(old(st.Contents()), email).value.source == SOURCE_AUTHENTIK
    ensures st.Abs() == if revoked then Apply(old(st.Abs()), Remove(email)) else old(st.Abs())
  {
    var active := isActive.Some? && isActive.value;
    if action != "model_deleted" && active {
      return false;
    }
    if email == "" {
      return false;
    }
    revoked := RevokeAuthentikUser(st, email);
  }

  /** Finds, checks the source, removes: uninterrupted, it removes the very user it found. */
  method RevokeAuthentikUser(st: Store, email: string) returns (revoked: bool)
    requires st.Valid()
    modifies st, st.users
    ensures st.Valid()
    ensures revoked <==> Find(old(st.Contents()), email).Some? && Find(old(st.Contents()), email).value.source == SOURCE_AUTHENTIK
    ensures st.Abs() == if revoked then Apply(old(st.Abs()), Remove(email)) else old(st.Abs())
  {
    var u := st.FindUser(email);
    if u.None? || u.value.source != SOURCE_AUTHENTIK {
      return false;
    }
    var ok := st.RemoveUser(email);
    if !ok {
      return false;
    }
    return true;
  }

  /** Removal by reference takes exactly the user the lookup returns, and keeps the others in order. */
  lemma RemoveTakesFound(s: State, ref: string)
    requires Find(s.users, ref).Some?
    ensures exists head, tail: seq<User> ::
      s.users == head + [Find(s.users, ref).value] + tail
      && Apply(s, Remove(ref)) == State(head + tail, s.version + 1)
      && forall i :: 0 <= i < |head| ==> !MatchRef(head[i], ref)
  {
    hide MatchRef;
    var i := FirstRef(s.users, ref);
    var head, tail := s.users[..i], s.users[i + 1..];
    assert s.users == head + [s.users[i]] + tail;
    assert Apply(s, Remove(ref)) == State(head + tail, s.version + 1);
  }

  /** Calls that keep everyone in the list. */
  ghost predicate Keeping(op: Op) {
    op.Add? || op.Rotate? || op.Traffic?
  }

  /** The user a reference leads to stays the same under such calls: same place, UUID and source. */
  lemma FoundStays(s: State, op: Op, ref: string)
    requires Keeping(op) && FirstRef(s.users, ref) < |s.users|
    ensures var i, t := FirstRef(s.users, ref), Apply(s, op);
      FirstRef(t.users, ref) == i && |s.users| <= |t.users|
      && t.users[i].uuid == s.users[i].uuid && t.users[i].source == s.users[i].source && t.users[i].enabled == s.users[i].enabled
  {
    var i, t := FirstRef(s.users, ref), Apply(s, op);
    hide Decimal, FirstRef, FirstStat;
    forall k | 0 <= k < |s.users|
      ensures MatchRef(t.users[k], ref) == MatchRef(s.users[k], ref)
    {
    }
    FirstIs(t.users, ByReference(ref), i);
  }

  /** Where user i of the list is after a call; None when the call removes them. */
  function Track(s: State, op: Op, i: nat): (k: Option<nat>)
    requires i < |s.users|
    ensures k.Some? ==> k.value < |Apply(s, op).users|
  {
    if !op.Remove? || !Succeeds(s, op) then Some(i)
    else
      var f := FirstRef(s.users, op.ref);
      if f == i then None else if f < i then Some(i - 1) else Some(i)
  }

  ghost function TrackRun(h: History, ops: seq<Op>, i: nat): (k: Option<nat>)
    requires i < |h.state.users|
    ensures k.Some? ==> k.value < |Run(h, ops).state.users|
  {
    if ops == [] then Some(i)
    else
      var k, before := TrackRun(h, ops[..|ops| - 1], i), Run(h, ops[..|ops| - 1]).state;
      if k.None? then None else Track(before, ops[|ops| - 1], k.value)
  }

  /** A call keeps the UUID, source and references of everyone it does not remove. */
  lemma TrackStep(s: State, op: Op, i: nat, ref: string)
    requires i < |s.users| && Track(s, op, i).Some?
    ensures var k, t := Track(s, op, i).value, Apply(s, op);
      && t.users[k].uuid == s.users[i].uuid && t.users[k].source == s.users[i].source
      && (FirstRef(s.users, ref) == i ==> FirstRef(t.users, ref) == k)
  {
    if op.Remove? && Succeeds(s, op) {
      var f, k, t := FirstRef(s.users, op.ref), Track(s, op, i).value, Apply(s, op);
      hide FirstRef, MatchRef, MatchStat;
      assert forall j :: 0 <= j < |t.users| ==> t.users[j] == s.users[if j < f then j else j + 1];
      if FirstRef(s.users, ref) == i {
        FirstIs(t.users, ByReference(ref), k);
      }
    } else if FirstRef(s.users, ref) == i {
      NotRemoved(s, op, ref);
    } else {
      hide FirstRef, FirstStat;
    }
  }

  lemma NotRemoved(s: State, op: Op, ref: string)
    requires (op.Remove? ==> !Succeeds(s, op)) && FirstRef(s.users, ref) < |s.users|
    ensures var i, t := FirstRef(s.users, ref), Apply(s, op);
      FirstRef(t.users, ref) == i < |t.users| && t.users[i].uuid == s.users[i].uuid && t.users[i].source == s.users[i].source
  {
    hide FirstRef;
    if !op.Remove? {
      FoundStays(s, op, ref);
    }
  }

  /** Whatever calls come between lookup and removal: as long as none of them removes the user looked up,
      the reference leads to that very user, wherever they now are in the list. */
  lemma {:induction false} FoundFollows(h: History, ops: seq<Op>, ref: string)
    requires FirstRef(h.state.users, ref) < |h.state.users|
    ensures var i, t := FirstRef(h.state.users, ref), Run(h, ops).state;
      var k := TrackRun(h, ops, i);
      k.Some? ==>
        && FirstRef(t.users, ref) == k.value
        && t.users[k.value].uuid == h.state.users[i].uuid && t.users[k.value].source == h.state.users[i].source
    decreases |ops|
  {
    if ops != [] {
      hide FirstRef, Succeeds, Apply, Track;
      var n, i := |ops| - 1, FirstRef(h.state.users, ref);
      FoundFollows(h, ops[..n], ref);
      var k := TrackRun(h, ops[..n], i);
      if k.Some? && TrackRun(h, ops, i).Some? {
        TrackStep(Run(h, ops[..n]).state, ops[n], k.value, ref);
      }
    }
  }

  /** The only user of that UUID, if anyone, is at the place tracked. */
  ghost predicate OnlyAt(users: seq<User>, uuid: string, k: Option<nat>) {
    forall j :: 0 <= j < |users| ==> (users[j].uuid == uuid <==> k == Some(j))
  }

  /** No call adds a user under an existing UUID. */
  ghost predicate NeverAdded(ops: seq<Op>, uuid: string) {
    forall n :: 0 <= n < |ops| && ops[n].Add? ==> ops[n].u.uuid != uuid
  }

  lemma OnlyAtStep(s: State, op: Op, uuid: string, k: Option<nat>)
    requires OnlyAt(s.users, uuid, k) && (k.Some? ==> k.value < |s.users|) && (op.Add? ==> op.u.uuid != uuid)
    ensures OnlyAt(Apply(s, op).users, uuid, if k.None? then None else Track(s, op, k.value))
  {
    if op.Remove? && Succeeds(s, op) {
      OnlyAtRemoval(s, op, uuid, k);
    } else {
      SameUUIDs(s, op);
      hide Apply, Succeeds;
    }
  }

  lemma OnlyAtRemoval(s: State, op: Op, uuid: string, k: Option<nat>)
    requires op.Remove? && Succeeds(s, op) && OnlyAt(s.users, uuid, k) && (k.Some? ==> k.value < |s.users|)
    ensures OnlyAt(Apply(s, op).users, uuid, if k.None? then None else Track(s, op, k.value))
  {
    var f, t := FirstRef(s.users, op.ref), Apply(s, op).users;
    var k' := if k.None? then None else Track(s, op, k.value);
    assert t == Without(s.users, f);
    hide FirstRef, Apply, Succeeds;
    forall j | 0 <= j < |t|
      ensures t[j].uuid == uuid <==> k' == Some(j)
    {
      var was := if j < f then j else j + 1;
      assert t[j] == s.users[was];
    }
  }

  lemma SameUUIDs(s: State, op: Op)
    requires op.Remove? ==> !Succeeds(s, op)
    ensures var t := Apply(s, op);
      |s.users| <= |t.users| && (forall j :: 0 <= j < |s.users| ==> t.users[j].uuid == s.users[j].uuid)
      && (forall j :: |s.users| <= j < |t.users| ==> op.Add? && t.users[j].uuid == op.u.uuid)
  {
    hide FirstRef, FirstStat, EmailTaken;
  }

  lemma {:induction false} OnlyAtRun(h: History, ops: seq<Op>, i: nat)
    requires i < |h.state.users| && NeverAdded(ops, h.state.users[i].uuid)
    requires OnlyAt(h.state.users, h.state.users[i].uuid, Some(i))
    ensures OnlyAt(Run(h, ops).state.users, h.state.users[i].uuid, TrackRun(h, ops, i))
    decreases |ops|
  {
    if ops != [] {
      hide OnlyAt, Track, Apply, Succeeds;
      var n := |ops| - 1;
      OnlyAtRun(h, ops[..n], i);
      OnlyAtStep(Run(h, ops[..n]).state, ops[n], h.state.users[i].uuid, TrackRun(h, ops[..n], i));
    }
  }

  /** Call n of the run removes the user of that UUID. */
  ghost predicate Takes(h: History, ops: seq<Op>, n: nat, uuid: string)
    requires n < |ops|
  {
    var s := Run(h, ops[..n]).state;
    ops[n].Remove? && Succeeds(s, ops[n]) && s.users[FirstRef(s.users, ops[n].ref)].uuid == uuid
  }

  ghost predicate TakenIn(h: History, ops: seq<Op>, uuid: string) {
    exists n :: 0 <= n < |ops| && Takes(h, ops, n, uuid)
  }

  lemma TakenSnoc(h: History, ops: seq<Op>, uuid: string)
    requires ops != []
    ensures TakenIn(h, ops, uuid) <==> TakenIn(h, ops[..|ops| - 1], uuid) || Takes(h, ops, |ops| - 1, uuid)
  {
    var m := |ops| - 1;
    assert forall n :: 0 <= n < m ==> ops[..m][..n] == ops[..n];
    hide Run, Succeeds, FirstRef;
    assert forall n :: 0 <= n < m ==> Takes(h, ops[..m], n, uuid) == Takes(h, ops, n, uuid);
  }

  lemma {:induction false} LostIffTaken(h: History, ops: seq<Op>, i: nat)
    requires i < |h.state.users| && NeverAdded(ops, h.state.users[i].uuid)
    requires OnlyAt(h.state.users, h.state.users[i].uuid, Some(i))
    ensures TrackRun(h, ops, i).None? <==> TakenIn(h, ops, h.state.users[i].uuid)
    decreases |ops|
  {
    if ops != [] {
      hide Apply, TakenIn, FirstRef;
      var n, uuid := |ops| - 1, h.state.users[i].uuid;
      LostIffTaken(h, ops[..n], i);
      OnlyAtRun(h, ops[..n], i);
      TakenSnoc(h, ops, uuid);
    }
  }

  /** A revocation whose removal comes after any run of other calls takes the user it looked up exactly when
      no call in between removed that very user, UUIDs being distinct. */
  lemma RevocationTakesFound(h: History, ops: seq<Op>, ref: string)
    requires FirstRef(h.state.users, ref) < |h.state.users|
    requires var i := FirstRef(h.state.users, ref);
      NeverAdded(ops, h.state.users[i].uuid) && OnlyAt(h.state.users, h.state.users[i].uuid, Some(i))
    ensures var uuid, t := Find(h.state.users, ref).value.uuid, Run(h, ops).state;
      (Find(t.users, ref).Some? && Find(t.users, ref).value.uuid == uuid) <==> !TakenIn(h, ops, uuid)
    ensures var u, t := Find(h.state.users, ref).value, Run(h, ops).state;
      !TakenIn(h, ops, u.uuid) ==> Find(t.users, ref).Some? && Find(t.users, ref).value.source == u.source
  {
    var i := FirstRef(h.state.users, ref);
    hide Run, TrackRun, TakenIn, NeverAdded, FirstRef;
    FoundFollows(h, ops, ref);
    OnlyAtRun(h, ops, i);
    LostIffTaken(h, ops, i);
  }

  /** With a removal and an addition in between, it takes a user the portal never made. */
  lemma RevocationDisturbed() returns (s: State, ops: seq<Op>, email: string)
    ensures Find(s.users, email).Some? && Find(s.users, email).value.source == SOURCE_AUTHENTIK
    ensures |ops| == 2 && ops[0].Remove? && ops[1].Add?
    ensures var t := Apply(Apply(s, ops[0]), ops[1]);
      Find(t.users, email).Some? && Find(t.users, email).value.source != SOURCE_AUTHENTIK
  {
    email := "bob@x";
    var portal := User("u1", email, 0, "", "", "", "t1", SOURCE_AUTHENTIK, 1, true, 0, 0);
    var manual := User("u2", email, 0, "", "", "", "t2", "", 1, true, 0, 0);
    s := State([portal], 1);
    ops := [Remove(email), Add(manual, 1, None)];
    FirstIs(s.users, ByReference(email), 0);
    var mid := Apply(s, ops[0]);
    assert mid == State([], 2);
    var t := Apply(mid, ops[1]);
    assert t.users == [Completed(manual, 1, "t2")];
    FirstIs(t.users, ByReference(email), 0);
  }

  // ----- the portal -----

  /** Where one visit stands between two store calls. */
  datatype Visit =
    | Arriving                        // about to look the email up
    | Adding                          // not found: about to add
    | Reading                         // added: about to read the stored copy
    | Retrying(token: Option<string>) // the addition failed with this token: about to look again
    | Served(user: User)
    | Refused

  /** The store, every visit for one email, and how many users those visits created. */
  datatype Portal = Portal(state: State, visits: seq<Visit>, created: nat)

  datatype Step =
    | Call(i: nat, uuid: string, shortID: string, now: int, token: Option<string>)
    | Other(op: Op)

  function NewUser(uuid: string, email: string, shortID: string): User {
    User(uuid, email, 0, "", shortID, "", "", SOURCE_AUTHENTIK, 0, false, 0, 0)
  }

  /** A visit answers with the user it found, unless that account is disabled. */
  function Answer(found: Option<User>): Visit {
    if found.Some? && found.value.enabled then Served(found.value) else Refused
  }

  /** The next store call of visit i. */
  function CallStep(p: Portal, email: string, s: Step): Portal
    requires s.Call? && s.i < |p.visits|
  {
    match p.visits[s.i]
    case Arriving =>
      var u := Find(p.state.users, email);
      p.(visits := p.visits[s.i := if u.None? then Adding else Answer(u)])
    case Adding =>
      var op := Add(NewUser(s.uuid, email, s.shortID), s.now, s.token);
      if Succeeds(p.state, op) then Portal(Apply(p.state, op), p.visits[s.i := Reading], p.created + 1)
      else p.(visits := p.visits[s.i := Retrying(s.token)])
    case Reading => p.(visits := p.visits[s.i := Answer(Find(p.state.users, email))])
    case Retrying(_) => p.(visits := p.visits[s.i := Answer(Find(p.state.users, email))])
    case Served(_) => p
    case Refused => p
  }

  function PortalStep(p: Portal, email: string, s: Step): Portal {
    match s
    case Call(i, _, _, _, _) => if i < |p.visits| then CallStep(p, email, s) else p
    case Other(op) => p.(state := Apply(p.state, op))
  }

  ghost function PortalRun(p: Portal, email: string, steps: seq<Step>): Portal {
    if steps == [] then p else PortalStep(PortalRun(p, email, steps[..|steps| - 1]), email, steps[|steps| - 1])
  }

  ghost predicate NoRemovals(steps: seq<Step>) {
    forall i :: 0 <= i < |steps| && steps[i].Other? ==> Keeping(steps[i].op)
  }

  /** The visit added its user, or failed to although the random source gave a token. */
  predicate AfterAdding(v: Visit) {
    v.Reading? || (v.Retrying? && v.token.Some?)
  }

  /** Whoever was served got the first user the email leads to, and the portal has created at most one. */
  ghost predicate PortalInv(p: Portal, email: string) {
    && p.created <= 1
    && (p.created == 1 ==> EmailTaken(p.state.users, email))
    && (forall i :: 0 <= i < |p.visits| && AfterAdding(p.visits[i]) ==> EmailTaken(p.state.users, email))
    && (forall i :: 0 <= i < |p.visits| && p.visits[i].Served? ==>
        var f := FirstRef(p.state.users, email);
        f < |p.state.users| && p.state.users[f].uuid == p.visits[i].user.uuid)
  }

  lemma TakenIsFound(users: seq<User>, email: string)
    requires EmailTaken(users, email)
    ensures FirstRef(users, email) < |users|
  {
    var i :| 0 <= i < |users| && users[i].email == email;
    assert MatchRef(users[i], email);
    hide MatchRef;
  }

  lemma TakenStays(s: State, op: Op, email: string)
    requires Keeping(op) && EmailTaken(s.users, email)
    ensures EmailTaken(Apply(s, op).users, email)
  {
    hide FirstRef, FirstStat, MatchRef, MatchStat;
    var i :| 0 <= i < |s.users| && s.users[i].email == email;
    assert Apply(s, op).users[i].email == email;
  }

  lemma OtherKeeps(p: Portal, email: string, op: Op)
    requires PortalInv(p, email) && Keeping(op)
    ensures PortalInv(p.(state := Apply(p.state, op)), email)
  {
    hide FirstRef, Apply, EmailTaken;
    if EmailTaken(p.state.users, email) {
      TakenStays(p.state, op, email);
    }
    if FirstRef(p.state.users, email) < |p.state.users| {
      FoundStays(p.state, op, email);
    }
  }

  lemma CallKeeps(p: Portal, email: string, s: Step)
    requires PortalInv(p, email) && email != "" && s.Call? && s.i < |p.visits|
    ensures PortalInv(CallStep(p, email, s), email)
  {
    if p.visits[s.i].Adding? {
      var op := Add(NewUser(s.uuid, email, s.shortID), s.now, s.token);
      if Succeeds(p.state, op) {
        var t := Apply(p.state, op);
        assert t.users[|p.state.users|].email == email;
        if FirstRef(p.state.users, email) < |p.state.users| {
          FoundStays(p.state, op, email);
        }
      }
    }
    hide FirstRef, MatchRef;
  }

  /** However the visits for one email interleave with each other and with other additions, the portal
      creates at most one user for it, and every visit that is served gets the same UUID. */
  lemma {:induction false} PortalServesOne(p: Portal, email: string, steps: seq<Step>)
    requires PortalInv(p, email) && email != "" && NoRemovals(steps)
    ensures var end := PortalRun(p, email, steps);
      PortalInv(end, email) && end.created <= 1 && ServedAlike(end)
    decreases |steps|
  {
    if steps != [] {
      var n := |steps| - 1;
      PortalServesOne(p, email, steps[..n]);
      var before := PortalRun(p, email, steps[..n]);
      hide PortalInv, CallStep, Apply;
      match steps[n] {
        case Call(i, _, _, _, _) =>
          if i < |before.visits| {
            CallKeeps(before, email, steps[n]);
          }
        case Other(op) => OtherKeeps(before, email, op);
      }
    }
    InvServesAlike(PortalRun(p, email, steps), email);
  }

  ghost predicate ServedAlike(p: Portal) {
    forall i, j :: 0 <= i < |p.visits| && 0 <= j < |p.visits| && p.visits[i].Served? && p.visits[j].Served? ==>
      p.visits[i].user.uuid == p.visits[j].user.uuid
  }

  lemma InvServesAlike(p: Portal, email: string)
    requires PortalInv(p, email)
    ensures ServedAlike(p) && p.created <= 1
  {
    hide FirstRef;
  }

  /** A fresh crowd of visits satisfies the invariant. */
  lemma PortalStarts(s: State, visits: seq<Visit>, email: string)
    requires forall i :: 0 <= i < |visits| ==> visits[i].Arriving?
    ensures PortalInv(Portal(s, visits, 0), email)
  {
  }

  /** In every state such runs reach, a visit whose addition failed with a token at hand lost to another
      addition, and its second lookup serves it exactly when the account it finds is enabled. */
  lemma LoserIsServed(start: Portal, email: string, steps: seq<Step>, s: Step)
    requires PortalInv(start, email) && email != "" && NoRemovals(steps)
    requires var p := PortalRun(start, email, steps);
      s.Call? && s.i < |p.visits| && p.visits[s.i].Retrying? && p.visits[s.i].token.Some?
    ensures var p := PortalRun(start, email, steps);
      var found := Find(p.state.users, email);
      found.Some? && CallStep(p, email, s).visits[s.i] == (if found.value.enabled then Served(found.value) else Refused)
  {
    hide PortalRun, FirstRef, EmailTaken, Apply, NoRemovals;
    var p := PortalRun(start, email, steps);
    PortalServesOne(start, email, steps);
    assert AfterAdding(p.visits[s.i]);
    TakenIsFound(p.state.users, email);
  }

  /** A lone visit under an unknown email, with a token at hand, adds an enabled portal user and serves it. */
  lemma LoneVisit(s: State, email: string, visit: Step, token: string)
    requires email != "" && Find(s.users, email).None? && visit.Call? && visit.i == 0 && visit.token == Some(token)
    ensures var end := PortalRun(Portal(s, [Arriving], 0), email, [visit, visit, visit]);
      var u := User(visit.uuid, email, 0, "", visit.shortID, "", token, "authentik", visit.now, true, 0, 0);
      end == Portal(State(s.users + [u], s.version + 1), [Served(u)], 1)
  {
    var u := User(visit.uuid, email, 0, "", visit.shortID, "", token, "authentik", visit.now, true, 0, 0);
    var p1, p2 := Portal(s, [Adding], 0), Portal(State(s.users + [u], s.version + 1), [Reading], 1);
    var op := Add(NewUser(visit.uuid, email, visit.shortID), visit.now, visit.token);
    assert !EmailTaken(s.users, email) by {
      if EmailTaken(s.users, email) { TakenIsFound(s.users, email); }
    }
    FirstIs(s.users + [u], ByReference(email), |s.users|);
    hide FirstRef, EmailTaken, MatchRef, PortalRun;
    assert PortalStep(Portal(s, [Arriving], 0), email, visit) == p1;
    assert PortalStep(p1, email, visit) == p2;
    assert PortalStep(p2, email, visit) == p2.(visits := [Served(u)]);
    ThreeSteps(Portal(s, [Arriving], 0), email, visit);
  }

  lemma ThreeSteps(p: Portal, email: string, s: Step)
    ensures PortalRun(p, email, [s, s, s]) == PortalStep(PortalStep(PortalStep(p, email, s), email, s), email, s)
  {
    hide PortalStep;
    assert [s, s, s][..2] == [s, s] && [s, s][..1] == [s] && [s][..0] == [];
    assert PortalRun(p, email, [s]) == PortalStep(p, email, s);
    assert PortalRun(p, email, [s, s]) == PortalStep(PortalRun(p, email, [s]), email, s);
  }

  /** A visit under a known email changes nothing: an enabled account is served, a disabled one refused. */
  lemma KnownVisit(s: State, email: string, visit: Step)
    requires Find(s.users, email).Some? && visit.Call? && visit.i == 0
    ensures var u := Find(s.users, email).value;
      PortalStep(Portal(s, [Arriving], 0), email, visit) == Portal(s, [if u.enabled then Served(u) else Refused], 0)
  {
    hide FirstRef;
  }
}
