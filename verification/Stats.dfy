/** The traffic poller: folding the listed counters, and writing them back in no fixed order. */
module Stats {
  import opened Options
  import opened Store
  import opened StoreRuns

  /** One listed counter: its name cut at ">>>", and its value if it is a number. */
  datatype Stat = Stat(parts: seq<string>, value: Option<int>)

  datatype Counter = Counter(rx: int, tx: int)

  predicate Relevant(st: Stat) {
    |st.parts| == 4 && st.parts[0] == "user" && st.parts[2] == "traffic" && st.value.Some?
  }

  function Absorb(agg: map<string, Counter>, st: Stat): map<string, Counter> {
    if !Relevant(st) then agg
    else
      var id, v := st.parts[1], st.value.value;
      var c := if id in agg then agg[id] else Counter(0, 0);
      agg[id := if st.parts[3] == "downlink" then c.(rx := v) else if st.parts[3] == "uplink" then c.(tx := v) else c]
  }

  function Aggregate(stats: seq<Stat>): map<string, Counter> {
    if stats == [] then map[] else Absorb(Aggregate(stats[..|stats| - 1]), stats[|stats| - 1])
  }

  /** The last value listed for an identity in one direction, 0 when there is none. */
  function Latest(stats: seq<Stat>, id: string, direction: string): int {
    if stats == [] then 0
    else
      var st := stats[|stats| - 1];
      if Relevant(st) && st.parts[1] == id && st.parts[3] == direction then st.value.value
      else Latest(stats[..|stats| - 1], id, direction)
  }

  /** An identity has an entry when some number is listed for it, and the entry holds the last of each direction. */
  lemma {:induction false} AggregateIs(stats: seq<Stat>, id: string)
    ensures id in Aggregate(stats) <==> exists i :: 0 <= i < |stats| && Relevant(stats[i]) && stats[i].parts[1] == id
    ensures id in Aggregate(stats) ==> Aggregate(stats)[id] == Counter(Latest(stats, id, "downlink"), Latest(stats, id, "uplink"))
    ensures id !in Aggregate(stats) ==> Latest(stats, id, "downlink") == 0 == Latest(stats, id, "uplink")
    decreases |stats|
  {
    if stats != [] {
      var n := |stats| - 1;
      AggregateIs(stats[..n], id);
      assert stats == stats[..n] + [stats[n]];
    }
  }

  // ----- writing the counters back -----

  ghost predicate IsOrder(order: seq<string>, keys: set<string>) {
    && (forall i, j :: 0 <= i < j < |order| ==> order[i] != order[j])
    && (forall k :: k in order <==> k in keys)
  }

  function WriteOne(k: string, c: Counter): Op {
    Traffic(k, c.rx, c.tx)
  }

  ghost function WriteBack(s: State, agg: map<string, Counter>, order: seq<string>): State
    requires forall k :: k in order ==> k in agg
  {
    if order == [] then s
    else
      var n := |order| - 1;
      Apply(WriteBack(s, agg, order[..n]), WriteOne(order[n], agg[order[n]]))
  }

  /** Queries, folds, and updates each identity once; ok when every identity was found. */
  method Poll(st: Store, listing: Option<seq<Stat>>) returns (ok: bool, ghost order: seq<string>)
    requires st.Valid()
    modifies st, st.users
    ensures st.Valid()
    ensures listing.None? ==> !ok && st.Abs() == old(st.Abs())
    ensures listing.Some? ==> IsOrder(order, Aggregate(listing.value).Keys)
    ensures listing.Some? ==> st.Abs() == WriteBack(old(st.Abs()), Aggregate(listing.value), order)
    ensures listing.Some? ==> (ok <==> AllNamed(old(st.Contents()), Aggregate(listing.value).Keys))
  {
    if listing.None? {
      return false, [];
    }
    var stats := listing.value;
    var agg: map<string, Counter> := map[];
    for i := 0 to |stats|
      modifies {}
      invariant agg == Aggregate(stats[..i])
    {
      assert stats[..i + 1][..i] == stats[..i];
      agg := Absorb(agg, stats[i]);
    }
    assert stats[..|stats|] == stats;
    hide Aggregate;
    ok, order := UpdateAll(st, agg);
  }

  ghost predicate AllNamed(users: seq<User>, keys: set<string>) {
    forall k :: k in keys ==> FirstStat(users, k) < |users|
  }

  /** Updates every identity of the map, in whatever order the map yields them. */
  method UpdateAll(st: Store, agg: map<string, Counter>) returns (ok: bool, ghost order: seq<string>)
    requires st.Valid()
    modifies st, st.users
    ensures st.Valid()
    ensures IsOrder(order, agg.Keys) && st.Abs() == WriteBack(old(st.Abs()), agg, order)
    ensures ok <==> AllNamed(old(st.Contents()), agg.Keys)
  {
    hide Apply, Succeeds, FirstStat;
    ghost var s := st.Abs();
    ok, order := true, [];
    var left := agg.Keys;
    while left != {}
      invariant st.Valid() && st.users == old(st.users) && left <= agg.Keys
      invariant IsOrder(order, agg.Keys - left)
      invariant st.Abs() == WriteBack(s, agg, order)
      invariant ok <==> AllNamed(s.users, agg.Keys - left)
      decreases |left|
    {
      var id :| id in left;
      ghost var before := st.Abs();
      var found := st.UpdateTraffic(id, agg[id].rx, agg[id].tx);
      WriteBackKeepsNames(s, agg, order, id);
      SucceedsIs(before, WriteOne(id, agg[id]));
      ghost var longer := order + [id];
      assert longer[..|order|] == order;
      if !found {
        ok := false;
      }
      left, order := left - {id}, longer;
    }
  }

  lemma SucceedsIs(s: State, op: Op)
    requires op.Traffic?
    ensures Succeeds(s, op) <==> FirstStat(s.users, op.ref) < |s.users|
  {
    hide FirstStat;
  }

  /** An update of counters changes neither who is in the list nor whom a statistic names. */
  lemma TrafficKeepsNames(s: State, op: Op, k: string)
    requires op.Traffic?
    ensures var t := Apply(s, op);
      |t.users| == |s.users| && FirstStat(t.users, k) == FirstStat(s.users, k)
  {
    hide FirstStat;
    var t := Apply(s, op);
    assert |t.users| == |s.users|;
    forall i | 0 <= i < |s.users|
      ensures MatchStat(t.users[i], k) == MatchStat(s.users[i], k)
    {
    }
    hide Apply, MatchStat;
    FirstIs(t.users, ByStatistic(k), FirstStat(s.users, k));
  }

  lemma {:induction false} WriteBackKeepsNames(s: State, agg: map<string, Counter>, order: seq<string>, k: string)
    requires forall j :: j in order ==> j in agg
    ensures var t := WriteBack(s, agg, order);
      |t.users| == |s.users| && FirstStat(t.users, k) == FirstStat(s.users, k)
    decreases |order|
  {
    if order != [] {
      hide FirstStat, Apply;
      var n := |order| - 1;
      WriteBackKeepsNames(s, agg, order[..n], k);
      TrafficKeepsNames(WriteBack(s, agg, order[..n]), WriteOne(order[n], agg[order[n]]), k);
    }
  }

  /** The last identity of the order that names user i. */
  ghost function LastHit(users: seq<User>, order: seq<string>, i: nat): Option<string> {
    if order == [] then None
    else if FirstStat(users, order[|order| - 1]) == i then Some(order[|order| - 1])
    else LastHit(users, order[..|order| - 1], i)
  }

  lemma {:induction false} LastHitIs(users: seq<User>, order: seq<string>, i: nat)
    ensures LastHit(users, order, i).Some? <==> exists k :: k in order && FirstStat(users, k) == i
    ensures var h := LastHit(users, order, i); h.Some? ==> h.value in order && FirstStat(users, h.value) == i
    decreases |order|
  {
    hide FirstStat;
    if order != [] {
      var n := |order| - 1;
      LastHitIs(users, order[..n], i);
      assert order == order[..n] + [order[n]];
      assert order[n] in order;
      if LastHit(users, order, i).Some? {
        assert LastHit(users, order, i).value in order;
      }
    }
  }

  function Counted(u: User, c: Counter): User {
    u.(rx := c.rx, tx := c.tx)
  }

  /** Each user ends with the counters of the last identity that named them. */
  lemma {:induction false} WriteBackAt(s: State, agg: map<string, Counter>, order: seq<string>, i: nat)
    requires (forall k :: k in order ==> k in agg) && i < |s.users|
    ensures var t, h := WriteBack(s, agg, order), LastHit(s.users, order, i);
      |t.users| == |s.users| && t.version == s.version
      && (h.None? ==> t.users[i] == s.users[i])
      && (h.Some? ==> h.value in agg && t.users[i] == Counted(s.users[i], agg[h.value]))
    decreases |order|
  {
    hide FirstStat, MatchStat;
    if order != [] {
      var n := |order| - 1;
      WriteBackAt(s, agg, order[..n], i);
      WriteBackKeepsNames(s, agg, order[..n], order[n]);
      LastHitIs(s.users, order[..n], i);
    }
  }

  /** No two identities with different counters name the same user first. */
  ghost predicate CollisionFree(users: seq<User>, agg: map<string, Counter>) {
    forall k, k' :: k in agg && k' in agg && FirstStat(users, k) == FirstStat(users, k') < |users| ==> agg[k] == agg[k']
  }

  ghost predicate OrderIndependent(s: State, agg: map<string, Counter>) {
    forall a, b :: IsOrder(a, agg.Keys) && IsOrder(b, agg.Keys) ==> WriteBack(s, agg, a) == WriteBack(s, agg, b)
  }

  lemma {:induction false} OrderExists(keys: set<string>) returns (order: seq<string>)
    ensures IsOrder(order, keys)
    decreases |keys|
  {
    if keys == {} {
      order := [];
    } else {
      var k :| k in keys;
      order := OrderExists(keys - {k});
      order := order + [k];
    }
  }

  lemma SameEverywhere(s: State, agg: map<string, Counter>, a: seq<string>, b: seq<string>)
    requires CollisionFree(s.users, agg) && IsOrder(a, agg.Keys) && IsOrder(b, agg.Keys)
    ensures WriteBack(s, agg, a) == WriteBack(s, agg, b)
  {
    hide FirstStat;
    var t, t' := WriteBack(s, agg, a), WriteBack(s, agg, b);
    WriteBackKeepsNames(s, agg, a, "");
    WriteBackKeepsNames(s, agg, b, "");
    forall i | 0 <= i < |s.users|
      ensures t.users[i] == t'.users[i]
    {
      WriteBackAt(s, agg, a, i);
      WriteBackAt(s, agg, b, i);
      LastHitIs(s.users, a, i);
      LastHitIs(s.users, b, i);
      hide WriteBack, LastHit;
    }
    WriteBackVersion(s, agg, a);
    WriteBackVersion(s, agg, b);
  }

  lemma {:induction false} WriteBackVersion(s: State, agg: map<string, Counter>, order: seq<string>)
    requires forall k :: k in order ==> k in agg
    ensures WriteBack(s, agg, order).version == s.version
    decreases |order|
  {
    hide FirstStat;
    if order != [] {
      WriteBackVersion(s, agg, order[..|order| - 1]);
    }
  }

  lemma CollisionShows(s: State, agg: map<string, Counter>, k: string, k': string) returns (a: seq<string>, b: seq<string>)
    requires k in agg && k' in agg && FirstStat(s.users, k) == FirstStat(s.users, k') < |s.users| && agg[k] != agg[k']
    ensures IsOrder(a, agg.Keys) && IsOrder(b, agg.Keys) && WriteBack(s, agg, a) != WriteBack(s, agg, b)
  {
    hide FirstStat;
    var rest := OrderExists(agg.Keys - {k, k'});
    var i := FirstStat(s.users, k);
    a, b := rest + [k] + [k'], rest + [k'] + [k];
    LastTwo(rest, k, k', agg.Keys);
    LastTwo(rest, k', k, agg.Keys);
    hide IsOrder;
    WriteBackAt(s, agg, a, i);
    WriteBackAt(s, agg, b, i);
    hide WriteBack;
    assert LastHit(s.users, a, i) == Some(k') && LastHit(s.users, b, i) == Some(k);
  }

  lemma LastTwo(rest: seq<string>, k: string, k': string, keys: set<string>)
    requires k in keys && k' in keys && k != k' && IsOrder(rest, keys - {k, k'})
    ensures IsOrder(rest + [k] + [k'], keys)
    ensures forall x :: x in rest + [k] + [k'] <==> x in keys
  {
  }

  /** The map's iteration order never matters, exactly when no two identities collide. */
  lemma OrderIndependence(s: State, agg: map<string, Counter>)
    ensures OrderIndependent(s, agg) <==> CollisionFree(s.users, agg)
  {
    hide FirstStat, WriteBack;
    if CollisionFree(s.users, agg) {
      forall a, b | IsOrder(a, agg.Keys) && IsOrder(b, agg.Keys)
        ensures WriteBack(s, agg, a) == WriteBack(s, agg, b)
      {
        SameEverywhere(s, agg, a, b);
      }
    } else {
      var k, k' :| k in agg && k' in agg && FirstStat(s.users, k) == FirstStat(s.users, k') < |s.users| && agg[k] != agg[k'];
      var a, b := CollisionShows(s, agg, k, k');
    }
  }

  /** Two users the store accepts, one's email being the other's UUID, each listed under their own identity:
      both identities name the first user, who ends with either one's counters, depending on the map. */
  lemma CollisionExample() returns (a: User, b: User)
    ensures var s := Apply(Apply(State([], 0), Add(a, 1, Some("t1"))), Add(b, 1, Some("t2")));
      var agg := map[StatID(a) := Counter(1, 1), StatID(b) := Counter(2, 2)];
      && |s.users| == 2 && a.uuid != b.uuid && a.email != b.email && StatID(b) == a.uuid
      && !CollisionFree(s.users, agg) && !OrderIndependent(s, agg)
  {
    a := User("X", "a", 0, "", "", "", "", "", 1, true, 0, 0);
    b := User("Y", "X", 0, "", "", "", "", "", 1, true, 0, 0);
    assert "a"[0] != "X"[0] && "X"[0] != "Y"[0];
    var s1 := Apply(State([], 0), Add(a, 1, Some("t1")));
    assert s1 == State([Completed(a, 1, "t1")], 1);
    var s := Apply(s1, Add(b, 1, Some("t2")));
    assert s == State([Completed(a, 1, "t1"), Completed(b, 1, "t2")], 2);
    hide Apply, Completed, CollisionFree, OrderIndependent;
    Collide(s, "a", "X", Counter(1, 1), Counter(2, 2));
  }

  lemma Collide(s: State, k: string, k': string, c: Counter, c': Counter)
    requires s.users != [] && s.users[0].email == k != "" && s.users[0].uuid == k' != k && c != c'
    ensures var agg := map[k := c, k' := c']; !CollisionFree(s.users, agg) && !OrderIndependent(s, agg)
  {
    var agg := map[k := c, k' := c'];
    FirstIs(s.users, ByStatistic(k), 0);
    FirstIs(s.users, ByStatistic(k'), 0);
    hide FirstStat, OrderIndependent;
    assert agg[k] != agg[k'];
    OrderIndependence(s, agg);
  }

  // ----- who is rendered, and under which name -----

  /** The identity Xray files a client's traffic under. */
  function StatID(u: User): string {
    if u.email != "" then u.email else u.uuid
  }

  datatype Client = Client(id: string, email: string, vision: bool)

  function Rendered(users: seq<User>): seq<Client> {
    if users == [] then []
    else
      var u := users[|users| - 1];
      Rendered(users[..|users| - 1]) + if u.enabled then [Client(u.uuid, StatID(u), u.profile == "vision")] else []
  }

  /** Exactly the enabled users are rendered, each under their UUID and StatID. */
  lemma {:induction false} RenderedIs(users: seq<User>, c: Client)
    ensures c in Rendered(users) <==>
      exists i :: 0 <= i < |users| && users[i].enabled && c == Client(users[i].uuid, StatID(users[i]), users[i].profile == "vision")
    decreases |users|
  {
    hide StatID;
    if users != [] {
      var n := |users| - 1;
      RenderedIs(users[..n], c);
      assert users == users[..n] + [users[n]];
    }
  }

  /** The client list of the rendered configuration. */
  method RenderClients(users: seq<User>) returns (clients: seq<Client>)
    ensures clients == Rendered(users)
  {
    clients := [];
    for i := 0 to |users|
      invariant clients == Rendered(users[..i])
    {
      assert users[..i + 1][..i] == users[..i];
      var u := users[i];
      if !u.enabled {
        continue;
      }
      clients := clients + [Client(u.uuid, StatID(u), u.profile == "vision")];
    }
    assert users[..|users|] == users;
  }

  /** UUIDs are distinct, and no email is another user's UUID. */
  ghost predicate SeparateIdentities(users: seq<User>) {
    && (forall i, j :: 0 <= i < j < |users| ==> users[i].uuid != users[j].uuid)
    && (forall i, j :: 0 <= i < |users| && 0 <= j < |users| && i != j ==> users[i].email != users[j].uuid || users[i].email == "")
  }

  /** A StatID names its own user first. */
  lemma StatIDNames(users: seq<User>, i: nat)
    requires DistinctEmails(users) && SeparateIdentities(users) && i < |users|
    ensures FirstStat(users, StatID(users[i])) == i
    ensures forall j :: 0 <= j < |users| && StatID(users[j]) == StatID(users[i]) && StatID(users[i]) != "" ==> j == i
  {
    hide FirstStat;
    FirstIs(users, ByStatistic(StatID(users[i])), i);
  }

  /** Xray lists clients under their StatIDs, so an identity that matches a user is that user's StatID. */
  ghost predicate ListedByStatID(users: seq<User>, agg: map<string, Counter>) {
    forall k, i :: k in agg && 0 <= i < |users| && MatchStat(users[i], k) ==> k == StatID(users[i])
  }

  /** A configuration rendered for these users lists no identity but theirs. */
  ghost predicate ListsRendered(users: seq<User>, agg: map<string, Counter>) {
    forall k :: k in agg ==> (exists c :: c in Rendered(users) && c.email == k)
  }

  lemma RenderedAreStatIDs(users: seq<User>, agg: map<string, Counter>)
    requires DistinctEmails(users) && SeparateIdentities(users) && ListsRendered(users, agg)
    ensures ListedByStatID(users, agg)
  {
    hide DistinctEmails, SeparateIdentities, ListsRendered, Rendered;
    forall k, i | k in agg && 0 <= i < |users| && MatchStat(users[i], k)
      ensures k == StatID(users[i])
    {
      var c := RenderedUnder(users, agg, k);
      RenderedIs(users, c);
      var m :| 0 <= m < |users| && users[m].enabled && c == Client(users[m].uuid, StatID(users[m]), users[m].profile == "vision");
      OwnIdentity(users, m, i);
    }
  }

  lemma RenderedUnder(users: seq<User>, agg: map<string, Counter>, k: string) returns (c: Client)
    requires ListsRendered(users, agg) && k in agg
    ensures c in Rendered(users) && c.email == k
  {
    c :| c in Rendered(users) && c.email == k;
  }

  lemma OwnIdentity(users: seq<User>, m: nat, i: nat)
    requires DistinctEmails(users) && SeparateIdentities(users) && m < |users| && i < |users|
    requires MatchStat(users[i], StatID(users[m]))
    ensures i == m
  {
  }

  /** Then every order gives the same store: each user gets exactly the counters under their own StatID. */
  lemma PollAttributes(s: State, agg: map<string, Counter>, order: seq<string>)
    requires DistinctEmails(s.users) && SeparateIdentities(s.users) && ListedByStatID(s.users, agg)
    requires IsOrder(order, agg.Keys)
    ensures OrderIndependent(s, agg)
    ensures |WriteBack(s, agg, order).users| == |s.users|
    ensures forall i :: 0 <= i < |s.users| ==>
      WriteBack(s, agg, order).users[i]
      == if StatID(s.users[i]) in agg then Counted(s.users[i], agg[StatID(s.users[i])]) else s.users[i]
  {
    hide FirstStat, WriteBack, MatchStat, SeparateIdentities, DistinctEmails, OrderIndependent;
    assert CollisionFree(s.users, agg) by {
      forall k, k' | k in agg && k' in agg && FirstStat(s.users, k) == FirstStat(s.users, k') < |s.users|
        ensures k == k'
      {
        var i := FirstStat(s.users, k);
        assert MatchStat(s.users[i], k) && MatchStat(s.users[i], k');
      }
    }
    OrderIndependence(s, agg);
    WriteBackKeepsNames(s, agg, order, "");
    forall i | 0 <= i < |s.users|
      ensures WriteBack(s, agg, order).users[i]
        == if StatID(s.users[i]) in agg then Counted(s.users[i], agg[StatID(s.users[i])]) else s.users[i]
    {
      WriteBackAt(s, agg, order, i);
      LastHitIs(s.users, order, i);
      StatIDNames(s.users, i);
    }
  }

  /** Polling what a rendered configuration counts: each enabled user gets their own counters, the others keep theirs. */
  lemma RenderedPoll(s: State, agg: map<string, Counter>, order: seq<string>)
    requires DistinctEmails(s.users) && SeparateIdentities(s.users) && ListsRendered(s.users, agg)
    requires IsOrder(order, agg.Keys)
    ensures OrderIndependent(s, agg)
    ensures |WriteBack(s, agg, order).users| == |s.users|
    ensures forall i :: 0 <= i < |s.users| ==>
      WriteBack(s, agg, order).users[i]
      == if s.users[i].enabled && StatID(s.users[i]) in agg then Counted(s.users[i], agg[StatID(s.users[i])]) else s.users[i]
  {
    hide WriteBack, OrderIndependent, ListedByStatID, DistinctEmails, SeparateIdentities, ListsRendered, Rendered, IsOrder;
    RenderedAreStatIDs(s.users, agg);
    PollAttributes(s, agg, order);
    forall i | 0 <= i < |s.users| && StatID(s.users[i]) in agg
      ensures s.users[i].enabled
    {
      var c := RenderedUnder(s.users, agg, StatID(s.users[i]));
      RenderedIs(s.users, c);
      var m :| 0 <= m < |s.users| && s.users[m].enabled && c.email == StatID(s.users[m]);
      assert MatchStat(s.users[i], StatID(s.users[i]));
      OwnIdentity(s.users, m, i);
    }
  }

  // ----- from listed entries to stored counters -----

  /** A listed number for this identity and direction. */
  predicate IsEntry(st: Stat, id: string, direction: string) {
    st.parts == ["user", id, "traffic", direction] && st.value.Some?
  }

  /** The value is the last one listed for the direction, or 0 when none is. */
  ghost predicate LastListed(stats: seq<Stat>, id: string, direction: string, value: int) {
    || (exists m :: 0 <= m < |stats| && stats[m].value == Some(value) && IsEntry(stats[m], id, direction) && NoneAfter(stats, m + 1, id, direction))
    || (value == 0 && NoneAfter(stats, 0, id, direction))
  }

  ghost predicate NoneAfter(stats: seq<Stat>, from: nat, id: string, direction: string) {
    forall j :: from <= j < |stats| ==> !IsEntry(stats[j], id, direction)
  }

  lemma EntryIs(st: Stat, id: string, direction: string)
    ensures IsEntry(st, id, direction) <==> Relevant(st) && st.parts[1] == id && st.parts[3] == direction
  {
    if Relevant(st) && st.parts[1] == id && st.parts[3] == direction {
      assert st.parts == ["user", id, "traffic", direction];
    }
  }

  lemma {:induction false} LatestListed(stats: seq<Stat>, id: string, direction: string, value: int)
    requires LastListed(stats, id, direction, value)
    ensures Latest(stats, id, direction) == value
    decreases |stats|
  {
    hide Relevant, IsEntry;
    if stats != [] {
      var n := |stats| - 1;
      EntryIs(stats[n], id, direction);
      if !IsEntry(stats[n], id, direction) {
        assert forall j :: 0 <= j < n ==> stats[..n][j] == stats[j];
        LatestListed(stats[..n], id, direction, value);
      }
    }
  }

  /** A user with an email is not listed under the UUID as well. */
  ghost predicate NotByUUID(stats: seq<Stat>, u: User) {
    u.email != "" && u.email != u.uuid ==> forall j, way :: 0 <= j < |stats| ==> !IsEntry(stats[j], u.uuid, way)
  }

  /** What a poll leaves a user with: the last numbers listed as
      user>>>identity>>>traffic>>>downlink (received) and ...>>>uplink (sent), the identity being the email, or the
      UUID of a user without one. */
  lemma PollStores(s: State, stats: seq<Stat>, order: seq<string>, i: nat, direction: string, m: nat, received: int, sent: int)
    requires i < |s.users| && m < |stats|
    requires var u := s.users[i];
      var id := if u.email != "" then u.email else u.uuid;
      && IsEntry(stats[m], id, direction)
      && LastListed(stats, id, "downlink", received) && LastListed(stats, id, "uplink", sent)
      && NotByUUID(stats, u)
    requires DistinctEmails(s.users) && SeparateIdentities(s.users) && IsOrder(order, Aggregate(stats).Keys)
    ensures var t := WriteBack(s, Aggregate(stats), order);
      |t.users| == |s.users| && t.users[i] == s.users[i].(rx := received, tx := sent)
  {
    var u := s.users[i];
    var id := if u.email != "" then u.email else u.uuid;
    assert id == StatID(u);
    StatIDNames(s.users, i);
    hide DistinctEmails, SeparateIdentities, Latest, Aggregate, FirstStat, WriteBack, LastListed, StatID, NotByUUID;
    ListedHas(stats, id, direction, m);
    AggregateIs(stats, id);
    LatestListed(stats, id, "downlink", received);
    LatestListed(stats, id, "uplink", sent);
    OnlyHit(s.users, stats, order, i, id);
    WriteBackAt(s, Aggregate(stats), order, i);
  }

  lemma ListedHas(stats: seq<Stat>, id: string, direction: string, m: nat)
    requires m < |stats| && IsEntry(stats[m], id, direction)
    ensures exists j :: 0 <= j < |stats| && Relevant(stats[j]) && stats[j].parts[1] == id
  {
    EntryIs(stats[m], id, direction);
  }

  lemma OnlyHit(users: seq<User>, stats: seq<Stat>, order: seq<string>, i: nat, id: string)
    requires i < |users| && FirstStat(users, id) == i && id in Aggregate(stats) && IsOrder(order, Aggregate(stats).Keys)
    requires id == if users[i].email != "" then users[i].email else users[i].uuid
    requires NotByUUID(stats, users[i])
    ensures LastHit(users, order, i) == Some(id)
  {
    hide Aggregate, FirstStat, LastHit, NotByUUID;
    LastHitIs(users, order, i);
    assert id in order;
    SameHit(users, stats, i, id, LastHit(users, order, i).value);
  }

  lemma SameHit(users: seq<User>, stats: seq<Stat>, i: nat, id: string, h: string)
    requires i < |users| && FirstStat(users, h) == i && h in Aggregate(stats) && NotByUUID(stats, users[i])
    requires id == if users[i].email != "" then users[i].email else users[i].uuid
    ensures h == id
  {
    assert MatchStat(users[i], h);
    hide Aggregate, FirstStat, Relevant, IsEntry;
    AggregateIs(stats, h);
    var j :| 0 <= j < |stats| && Relevant(stats[j]) && stats[j].parts[1] == h;
    EntryIs(stats[j], h, PartThree(stats[j]));
    PartThreeIs(stats[j]);
  }

  lemma PartThreeIs(st: Stat)
    ensures Relevant(st) ==> |st.parts| > 3 && PartThree(st) == st.parts[3]
  {
  }

  /** A user listed neither by email nor by UUID keeps the counters they had. */
  lemma UnlistedKeep(s: State, stats: seq<Stat>, order: seq<string>, i: nat)
    requires i < |s.users| && IsOrder(order, Aggregate(stats).Keys)
    requires forall j, id, way ::
      0 <= j < |stats| && (id == s.users[i].uuid || (id == s.users[i].email && id != "")) ==> !IsEntry(stats[j], id, way)
    ensures var t := WriteBack(s, Aggregate(stats), order);
      |t.users| == |s.users| && t.users[i] == s.users[i]
  {
    hide Aggregate, FirstStat, LastHit, WriteBack, IsEntry;
    LastHitIs(s.users, order, i);
    WriteBackAt(s, Aggregate(stats), order, i);
    var h := LastHit(s.users, order, i);
    if h.Some? {
      assert MatchStat(s.users[i], h.value);
      AggregateIs(stats, h.value);
      var j :| 0 <= j < |stats| && Relevant(stats[j]) && stats[j].parts[1] == h.value;
      EntryIs(stats[j], h.value, PartThree(stats[j]));
      PartThreeIs(stats[j]);
    }
  }

  function PartThree(st: Stat): string {
    if |st.parts| > 3 then st.parts[3] else ""
  }

  /** An entry of any other shape, wherever it stands in the listing, changes nothing. */
  lemma {:induction false} OtherShapesIgnored(before: seq<Stat>, st: Stat, after: seq<Stat>)
    requires forall id, direction :: !IsEntry(st, id, direction)
    ensures Aggregate(before + [st] + after) == Aggregate(before + after)
    decreases |after|
  {
    hide Relevant, IsEntry;
    if after == [] {
      assert before + [st] + after == before + [st] && before + after == before;
      assert (before + [st])[..|before|] == before;
      NotRelevant(st);
    } else {
      var n := |after| - 1;
      OtherShapesIgnored(before, st, after[..n]);
      assert (before + [st] + after)[..|before| + 1 + n] == before + [st] + after[..n];
      assert (before + after)[..|before| + n] == before + after[..n];
    }
  }

  lemma NotRelevant(st: Stat)
    requires forall id, direction :: !IsEntry(st, id, direction)
    ensures !Relevant(st)
  {
    if Relevant(st) {
      EntryIs(st, st.parts[1], st.parts[3]);
    }
  }
}
