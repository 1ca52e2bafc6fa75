/** The reconcile loop: fetch the active identities, then drop the portal users who are not among them. */
module Reconcile {
  import opened Options
  import opened Store
  import opened StoreRuns
  import Clients

  type Lower = string -> string

  /** Provisioned by the portal, and no longer active upstream. */
  predicate Doomed(u: User, active: set<string>, lower: Lower) {
    u.source == SOURCE_AUTHENTIK && u.email != "" && lower(u.email) !in active
  }

  function Kept(users: seq<User>, active: set<string>, lower: Lower): seq<User> {
    if users == [] then []
    else
      var n := |users| - 1;
      Kept(users[..n], active, lower) + if Doomed(users[n], active, lower) then [] else [users[n]]
  }

  /** Removing by email, one after the other, each doomed user of a snapshot. */
  ghost function PruneFrom(s: State, snapshot: seq<User>, active: set<string>, lower: Lower): State {
    if snapshot == [] then s
    else
      var n := |snapshot| - 1;
      var before := PruneFrom(s, snapshot[..n], active, lower);
      if Doomed(snapshot[n], active, lower) then Apply(before, Remove(snapshot[n].email)) else before
  }

  /** No portal user, without an email, or with one that is active in whatever case it is written. */
  predicate Spared(u: User, active: set<string>, lower: Lower) {
    u.source != "authentik" || u.email == "" || lower(u.email) in active
  }

  /** Walks a snapshot of the list while removing from the live store. */
  method Prune(st: Store, active: set<string>, lower: Lower) returns (removed: nat)
    requires st.Valid()
    modifies st, st.users
    ensures st.Valid() && st.users == old(st.users)
    ensures st.Abs() == PruneFrom(old(st.Abs()), old(st.Contents()), active, lower)
    ensures removed == st.configVersion - old(st.configVersion)
    ensures st.file == if removed > 0 then Some(st.Abs()) else old(st.file)
    ensures Apart(old(st.Contents())) ==>
      forall u :: u in st.Contents() <==> u in old(st.Contents()) && Spared(u, active, lower)
  {
    hide Apply, Succeeds;
    ghost var start := st.Abs();
    removed := 0;
    var snapshot := st.Users();
    ghost var all := snapshot[..];
    for i := 0 to snapshot.Length
      invariant st.Valid() && st.users == old(st.users) && snapshot[..] == all
      invariant st.Abs() == PruneFrom(old(st.Abs()), all[..i], active, lower)
      invariant removed == st.configVersion - old(st.configVersion)
      invariant st.file == if removed > 0 then Some(st.Abs()) else old(st.file)
    {
      var u := snapshot[i];
      assert all[..i + 1][..i] == all[..i] && all[i] == u;
      if u.source != SOURCE_AUTHENTIK || u.email == "" {
        continue;
      }
      if lower(u.email) in active {
        continue;
      }
      ghost var before := st.Abs();
      var ok := st.RemoveUser(u.email);
      RemovalCounts(before, u.email);
      if !ok {
        continue;
      }
      removed := removed + 1;
    }
    assert all[..snapshot.Length] == all;
    if Apart(start.users) {
      forall u
        ensures u in st.Contents() <==> u in start.users && Spared(u, active, lower)
      {
        StaysIff(start, active, lower, u);
      }
    }
  }

  lemma RemovalCounts(s: State, ref: string)
    ensures Apply(s, Remove(ref)).version == s.version + if Succeeds(s, Remove(ref)) then 1 else 0
    ensures !Succeeds(s, Remove(ref)) ==> Apply(s, Remove(ref)) == s
  {
    hide FirstRef;
  }

  // ----- fetching the active identities -----

  datatype Listed = Listed(email: string, isActive: bool)

  /** What the users API answers for one page. */
  datatype Reply = Failed | Page(next: int, current: int, results: seq<Listed>)

  /** The page ends the list: there is no next one, or it does not come after the one the server says it sent. */
  predicate IsLast(r: Reply)
    requires r.Page?
  {
    r.next == 0 || r.next <= r.current
  }

  /** One page leads on to another. */
  predicate LeadsTo(api: int -> Reply, p: int, q: int) {
    api(p).Page? && !IsLast(api(p)) && q == api(p).next
  }

  /** The pages a client meets that starts at the first and follows next. */
  ghost predicate IsChain(api: int -> Reply, chain: seq<int>) {
    && (forall i :: 0 <= i < |chain| ==> api(chain[i]).Page?)
    && (chain != [] ==> chain[0] == 1)
    && forall i, j :: 0 <= i < |chain| && j == i + 1 < |chain| ==> LeadsTo(api, chain[i], chain[j])
  }

  /** No chain of pages is longer than that. */
  ghost predicate Ends(api: int -> Reply, bound: nat) {
    forall chain :: IsChain(api, chain) ==> |chain| <= bound
  }

  ghost predicate Collected(api: int -> Reply, chain: seq<int>, lower: Lower, email: string) {
    exists i :: 0 <= i < |chain| && ListsActive(api(chain[i]), lower, email)
  }

  lemma CollectedSnoc(api: int -> Reply, chain: seq<int>, page: int, lower: Lower)
    ensures forall email ::
      Collected(api, chain + [page], lower, email) <==> Collected(api, chain, lower, email) || ListsActive(api(page), lower, email)
  {
    hide ListsActive;
    var longer := chain + [page];
    forall email
      ensures Collected(api, longer, lower, email) <==> Collected(api, chain, lower, email) || ListsActive(api(page), lower, email)
    {
      if Collected(api, chain, lower, email) {
        var i :| 0 <= i < |chain| && ListsActive(api(chain[i]), lower, email);
        assert longer[i] == chain[i];
      }
      if ListsActive(api(page), lower, email) {
        assert longer[|chain|] == page;
      }
    }
  }

  ghost predicate ListsActive(r: Reply, lower: Lower, email: string) {
    r.Page? && exists k :: 0 <= k < |r.results| && r.results[k].isActive && r.results[k].email != "" && lower(r.results[k].email) == email
  }

  /** What a fetch along a chain of pages returns: the active identities of them all when the last page ends
      the list, nothing when the page after them fails. */
  ghost predicate Fetched(api: int -> Reply, chain: seq<int>, lower: Lower, r: Option<set<string>>) {
    IsChain(api, chain) &&
    match r
    case Some(emails) =>
      && chain != [] && IsLast(api(chain[|chain| - 1]))
      && forall email :: email in emails <==> Collected(api, chain, lower, email)
    case None =>
      if chain == [] then api(1).Failed?
      else !IsLast(api(chain[|chain| - 1])) && api(api(chain[|chain| - 1]).next).Failed?
  }

  /** Collects the active identities of every page; any failed page fails the fetch. */
  method FetchActiveEmails(api: int -> Reply, lower: Lower, ghost bound: nat) returns (r: Option<set<string>>)
    requires Ends(api, bound)
    ensures exists chain :: Fetched(api, chain, lower, r)
  {
    hide ListsActive, Collected;
    var out: set<string> := {};
    var page := 1;
    ghost var chain: seq<int> := [];
    NothingCollected(api, lower);
    while true
      invariant IsChain(api, chain)
      invariant page == if chain == [] then 1 else api(chain[|chain| - 1]).next
      invariant chain != [] ==> LeadsTo(api, chain[|chain| - 1], page)
      invariant forall email :: email in out <==> Collected(api, chain, lower, email)
      decreases bound - |chain|
    {
      var reply := api(page);
      if reply.Failed? {
        assert Fetched(api, chain, lower, None);
        return None;
      }
      var more := ActiveOn(reply, lower);
      CollectedSnoc(api, chain, page, lower);
      out, chain := out + more, chain + [page];
      assert IsChain(api, chain);
      if reply.next == 0 || reply.next <= reply.current {
        assert Fetched(api, chain, lower, Some(out));
        return Some(out);
      }
      page := reply.next;
    }
  }

  lemma {:induction false} ChainsAgree(api: int -> Reply, a: seq<int>, b: seq<int>, i: nat)
    requires IsChain(api, a) && IsChain(api, b) && i < |a| && i < |b|
    ensures a[i] == b[i]
  {
    if i > 0 {
      ChainsAgree(api, a, b, i - 1);
      assert LeadsTo(api, a[i - 1], a[i]) && LeadsTo(api, b[i - 1], b[i]);
    }
  }

  lemma ChainComplete(api: int -> Reply, a: seq<int>, b: seq<int>, lower: Lower, r: Option<set<string>>)
    requires Fetched(api, a, lower, r) && IsChain(api, b)
    ensures |b| <= |a|
  {
    if 0 < |a| < |b| {
      ChainGoesOn(api, b, |a| - 1);
      ChainsAgree(api, a, b, |a| - 1);
    }
  }

  lemma ChainGoesOn(api: int -> Reply, chain: seq<int>, i: nat)
    requires IsChain(api, chain) && i + 1 < |chain|
    ensures LeadsTo(api, chain[i], chain[i + 1]) && api(chain[i + 1]).Page?
  {
  }

  /** The pages leave a fetch no choice of result. */
  lemma FetchDetermined(
    api: int -> Reply, a: seq<int>, b: seq<int>, lower: Lower, r: Option<set<string>>, r': Option<set<string>>)
    requires Fetched(api, a, lower, r) && Fetched(api, b, lower, r')
    ensures a == b && r == r'
  {
    hide Collected;
    ChainComplete(api, a, b, lower, r);
    ChainComplete(api, b, a, lower, r');
    forall i | 0 <= i < |a|
      ensures a[i] == b[i]
    {
      ChainsAgree(api, a, b, i);
    }
    assert a == b;
    if r.Some? {
      assert r.value == r'.value;
    }
  }

  /** If a fetch returns at all, the chains are bounded: that is all the loop needs of the server. */
  lemma ReturnsOnlyIfEnds(api: int -> Reply, chain: seq<int>, lower: Lower, r: Option<set<string>>)
    requires Fetched(api, chain, lower, r)
    ensures Ends(api, |chain|)
  {
    hide Fetched, IsChain;
    forall b | IsChain(api, b)
      ensures |b| <= |chain|
    {
      ChainComplete(api, chain, b, lower, r);
    }
  }

  /** The server says truthfully which page it sent, and has none after `last`. */
  ghost predicate Honest(api: int -> Reply, last: int) {
    forall p :: api(p).Page? ==> api(p).current == p && (api(p).next > p ==> api(p).next <= last)
  }

  lemma HonestEnds(api: int -> Reply, last: int)
    requires Honest(api, last)
    ensures Ends(api, if last < 1 then 1 else last)
  {
    forall chain | IsChain(api, chain)
      ensures |chain| <= if last < 1 then 1 else last
    {
      if |chain| > 1 {
        PagesRise(api, last, chain, |chain| - 1);
        ChainGoesOn(api, chain, |chain| - 2);
      }
    }
  }

  lemma {:induction false} PagesRise(api: int -> Reply, last: int, chain: seq<int>, i: nat)
    requires Honest(api, last) && IsChain(api, chain) && i < |chain|
    ensures chain[i] >= i + 1
  {
    if i > 0 {
      PagesRise(api, last, chain, i - 1);
      ChainGoesOn(api, chain, i - 1);
    }
  }

  /** A server that answers every request with page 1 of several keeps the loop going for ever. */
  lemma StuckServer(bound: nat)
    ensures !Ends(_ => Page(2, 1, []), bound)
  {
    var api := (p: int) => Page(2, 1, []);
    var chain := seq(bound + 1, i => if i == 0 then 1 else 2);
    assert IsChain(api, chain);
  }

  lemma NothingCollected(api: int -> Reply, lower: Lower)
    ensures forall email :: !Collected(api, [], lower, email)
  {
  }

  /** The active identities of one page, lowercased. */
  method ActiveOn(reply: Reply, lower: Lower) returns (out: set<string>)
    requires reply.Page?
    ensures forall email :: email in out <==> ListsActive(reply, lower, email)
  {
    out := {};
    for i := 0 to |reply.results|
      invariant forall email :: email in out <==>
        exists k :: 0 <= k < i && reply.results[k].isActive && reply.results[k].email != "" && lower(reply.results[k].email) == email
    {
      var ru := reply.results[i];
      if ru.isActive && ru.email != "" {
        out := out + {lower(ru.email)};
      }
    }
  }

  /** One reconcile round: a failed fetch or an empty answer removes nobody. */
  method ReconcileOnce(st: Store, fetched: Option<set<string>>, lower: Lower) returns (removed: nat)
    requires st.Valid()
    modifies st, st.users
    ensures st.Valid()
    ensures st.Abs() == if fetched.None? || fetched.value == {} then old(st.Abs())
      else PruneFrom(old(st.Abs()), old(st.Contents()), fetched.value, lower)
    ensures removed == st.configVersion - old(st.configVersion)
  {
    if fetched.None? {
      return 0;
    }
    if |fetched.value| == 0 {
      return 0;
    }
    removed := Prune(st, fetched.value, lower);
  }

  // ----- when removal by email hits the intended user -----

  /** No user who stays comes before a doomed user whose email also names the one who stays. */
  ghost predicate Shielded(users: seq<User>, active: set<string>, lower: Lower) {
    forall i, j :: 0 <= i < j < |users| && !Doomed(users[i], active, lower) && Doomed(users[j], active, lower)
      ==> !MatchRef(users[i], users[j].email)
  }

  lemma {:induction false} KeptMembers(users: seq<User>, active: set<string>, lower: Lower, u: User)
    ensures u in Kept(users, active, lower) <==> u in users && !Doomed(u, active, lower)
    decreases |users|
  {
    hide Doomed;
    if users != [] {
      var n := |users| - 1;
      KeptMembers(users[..n], active, lower, u);
      assert users == users[..n] + [users[n]];
    }
  }

  /** After the first n users of the snapshot, the list is the filtered prefix and the untouched rest. */
  lemma {:induction false} PrunePrefix(s: State, n: nat, active: set<string>, lower: Lower)
    requires n <= |s.users| && Shielded(s.users[..n], active, lower)
    ensures PruneFrom(s, s.users[..n], active, lower).users == Kept(s.users[..n], active, lower) + s.users[n..]
  {
    if n == 0 {
      assert s.users[..0] == [] && s.users[0..] == s.users;
    } else {
      var m := n - 1;
      var u := s.users[m];
      assert s.users[..n][..m] == s.users[..m];
      assert Shielded(s.users[..m], active, lower) by {
        assert forall i :: 0 <= i < m ==> s.users[..m][i] == s.users[..n][i];
      }
      PrunePrefix(s, m, active, lower);
      var kept, rest := Kept(s.users[..m], active, lower), s.users[m..];
      assert rest == [u] + s.users[n..];
      if Doomed(u, active, lower) {
        RemovesNext(s, m, active, lower);
      }
    }
  }

  lemma RemovesNext(s: State, m: nat, active: set<string>, lower: Lower)
    requires m < |s.users| && Shielded(s.users[..m + 1], active, lower) && Doomed(s.users[m], active, lower)
    ensures var list := Kept(s.users[..m], active, lower) + s.users[m..];
      FirstRef(list, s.users[m].email) == |Kept(s.users[..m], active, lower)|
      && forall v :: Apply(State(list, v), Remove(s.users[m].email)).users == Kept(s.users[..m], active, lower) + s.users[m + 1..]
  {
    var kept, u := Kept(s.users[..m], active, lower), s.users[m];
    var list := kept + s.users[m..];
    forall k | 0 <= k < |kept|
      ensures !MatchRef(list[k], u.email)
    {
      KeptMembers(s.users[..m], active, lower, kept[k]);
      var i :| 0 <= i < m && s.users[..m][i] == kept[k];
      assert s.users[..m + 1][i] == kept[k] && s.users[..m + 1][m] == u;
    }
    assert MatchRef(u, u.email);
    FirstIs(list, ByReference(u.email), |kept|);
  }

  // ----- counting the doomed -----

  ghost function DoomedCount(users: seq<User>, active: set<string>, lower: Lower): nat {
    if users == [] then 0
    else DoomedCount(users[..|users| - 1], active, lower) + if Doomed(users[|users| - 1], active, lower) then 1 else 0
  }

  lemma {:induction false} DoomedCountSum(a: seq<User>, b: seq<User>, active: set<string>, lower: Lower)
    ensures DoomedCount(a + b, active, lower) == DoomedCount(a, active, lower) + DoomedCount(b, active, lower)
    decreases |b|
  {
    hide Doomed;
    if b == [] {
      assert a + b == a;
    } else {
      DoomedCountSum(a, b[..|b| - 1], active, lower);
      assert (a + b)[..|a + b| - 1] == a + b[..|b| - 1];
    }
  }

  lemma {:induction false} DoomedCountZero(users: seq<User>, active: set<string>, lower: Lower)
    requires forall i :: 0 <= i < |users| ==> !Doomed(users[i], active, lower)
    ensures DoomedCount(users, active, lower) == 0
  {
    hide Doomed;
    if users != [] {
      DoomedCountZero(users[..|users| - 1], active, lower);
    }
  }

  lemma WithoutCount(users: seq<User>, i: nat, active: set<string>, lower: Lower)
    requires i < |users|
    ensures DoomedCount(Without(users, i), active, lower)
      == DoomedCount(users, active, lower) - if Doomed(users[i], active, lower) then 1 else 0
  {
    hide Doomed;
    var head, tail := users[..i], users[i + 1..];
    assert users == head + [users[i]] + tail;
    DoomedCountSum(head, tail, active, lower);
    DoomedCountSum(head + [users[i]], tail, active, lower);
    DoomedCountSum(head, [users[i]], active, lower);
    assert [users[i]][..0] == [];
  }

  /** A removal takes at most one doomed user. */
  lemma RemoveCount(s: State, ref: string, active: set<string>, lower: Lower)
    ensures DoomedCount(Apply(s, Remove(ref)).users, active, lower) >= DoomedCount(s.users, active, lower) - 1
  {
    var i := FirstRef(s.users, ref);
    hide Doomed, FirstRef, Without;
    if i < |s.users| {
      WithoutCount(s.users, i, active, lower);
    }
  }

  /** The doomed users still there and those already dealt with are never fewer than before. */
  lemma {:induction false} DoomedNeverFewer(s: State, snapshot: seq<User>, m: nat, n: nat, active: set<string>, lower: Lower)
    requires m <= n <= |snapshot|
    ensures DoomedCount(PruneFrom(s, snapshot[..m], active, lower).users, active, lower) + DoomedCount(snapshot[..m], active, lower)
         <= DoomedCount(PruneFrom(s, snapshot[..n], active, lower).users, active, lower) + DoomedCount(snapshot[..n], active, lower)
    decreases n
  {
    hide Doomed, Apply;
    if m < n {
      DoomedNeverFewer(s, snapshot, m, n - 1, active, lower);
      assert snapshot[..n][..n - 1] == snapshot[..n - 1] && snapshot[..n][n - 1] == snapshot[n - 1];
      RemoveCount(PruneFrom(s, snapshot[..n - 1], active, lower), snapshot[n - 1].email, active, lower);
    }
  }

  /** The first doomed user whose email leads to someone who stays. */
  lemma {:induction false} FirstMisdirected(users: seq<User>, n: nat, active: set<string>, lower: Lower) returns (j: nat)
    requires n <= |users| && !Shielded(users[..n], active, lower)
    ensures j < n && Doomed(users[j], active, lower) && Shielded(users[..j], active, lower)
    ensures exists i :: 0 <= i < j && !Doomed(users[i], active, lower) && MatchRef(users[i], users[j].email)
  {
    hide Doomed, MatchRef;
    var m := n - 1;
    if Shielded(users[..m], active, lower) {
      var i, k :| 0 <= i < k < n && !Doomed(users[..n][i], active, lower) && Doomed(users[..n][k], active, lower)
        && MatchRef(users[..n][i], users[..n][k].email);
      assert forall x :: 0 <= x < m ==> users[..m][x] == users[..n][x];
      j := m;
    } else {
      j := FirstMisdirected(users, m, active, lower);
    }
  }

  /** The removal at j then takes a user who stays. */
  lemma MisdirectedRemoval(s: State, j: nat, active: set<string>, lower: Lower)
    requires j < |s.users| && Doomed(s.users[j], active, lower) && Shielded(s.users[..j], active, lower)
    requires exists i :: 0 <= i < j && !Doomed(s.users[i], active, lower) && MatchRef(s.users[i], s.users[j].email)
    ensures DoomedCount(PruneFrom(s, s.users[..j + 1], active, lower).users, active, lower)
         == DoomedCount(PruneFrom(s, s.users[..j], active, lower).users, active, lower)
  {
    hide Doomed, MatchRef, Shielded, PruneFrom, Kept, FirstRef, DoomedCount, Without;
    var kept, email := Kept(s.users[..j], active, lower), s.users[j].email;
    var before := PruneFrom(s, s.users[..j], active, lower);
    PrunePrefix(s, j, active, lower);
    var i :| 0 <= i < j && !Doomed(s.users[i], active, lower) && MatchRef(s.users[i], email);
    assert s.users[..j][i] == s.users[i];
    KeptMembers(s.users[..j], active, lower, s.users[i]);
    var k :| 0 <= k < |kept| && kept[k] == s.users[i];
    assert before.users[k] == s.users[i];
    var f := FirstRef(before.users, email);
    assert f <= k;
    KeptMembers(s.users[..j], active, lower, kept[f]);
    WithoutCount(before.users, f, active, lower);
    PruneSnoc(s, j, active, lower);
  }

  lemma PruneSnoc(s: State, j: nat, active: set<string>, lower: Lower)
    requires j < |s.users| && Doomed(s.users[j], active, lower)
    ensures PruneFrom(s, s.users[..j + 1], active, lower) == Apply(PruneFrom(s, s.users[..j], active, lower), Remove(s.users[j].email))
  {
    hide Doomed, Apply;
    assert s.users[..j + 1][..j] == s.users[..j] && s.users[..j + 1][j] == s.users[j];
  }

  lemma PruneNobody(s: State, active: set<string>, lower: Lower)
    ensures PruneFrom(s, [], active, lower) == s
  {
  }

  /** A misdirected removal leaves somebody doomed in the list. */
  lemma MisdirectedLeaves(s: State, active: set<string>, lower: Lower)
    requires !Shielded(s.users, active, lower)
    ensures var left := PruneFrom(s, s.users, active, lower).users;
      exists i :: 0 <= i < |left| && Doomed(left[i], active, lower)
  {
    hide Doomed, Shielded, PruneFrom, MatchRef;
    var n, end := |s.users|, PruneFrom(s, s.users, active, lower);
    assert s.users[..n] == s.users;
    var j := FirstMisdirected(s.users, n, active, lower);
    MisdirectedRemoval(s, j, active, lower);
    DoomedNeverFewer(s, s.users, 0, j, active, lower);
    DoomedNeverFewer(s, s.users, j + 1, n, active, lower);
    PruneNobody(s, active, lower);
    assert s.users[..0] == [];
    assert s.users[..j + 1][..j] == s.users[..j];
    if forall i :: 0 <= i < |end.users| ==> !Doomed(end.users[i], active, lower) {
      DoomedCountZero(end.users, active, lower);
    }
  }

  /** Pruning is the filter that drops exactly the doomed users, precisely when the doomed are shielded. */
  lemma PruneIsFilter(s: State, active: set<string>, lower: Lower)
    ensures PruneFrom(s, s.users, active, lower).users == Kept(s.users, active, lower) <==> Shielded(s.users, active, lower)
  {
    hide Doomed, Kept, PruneFrom, Shielded;
    assert s.users[..|s.users|] == s.users;
    if Shielded(s.users, active, lower) {
      PrunePrefix(s, |s.users|, active, lower);
      assert s.users[|s.users|..] == [];
    } else {
      MisdirectedLeaves(s, active, lower);
      var end := PruneFrom(s, s.users, active, lower);
      var i :| 0 <= i < |end.users| && Doomed(end.users[i], active, lower);
      KeptMembers(s.users, active, lower, end.users[i]);
    }
  }

  lemma {:induction false} NothingDoomed(s: State, snapshot: seq<User>, active: set<string>, lower: Lower)
    requires forall i :: 0 <= i < |snapshot| ==> !Doomed(snapshot[i], active, lower)
    ensures PruneFrom(s, snapshot, active, lower) == s
    decreases |snapshot|
  {
    hide Doomed;
    if snapshot != [] {
      NothingDoomed(s, snapshot[..|snapshot| - 1], active, lower);
    }
  }

  /** A doomed user in the list is a removal waiting to happen. */
  lemma {:induction false} PruneChanges(s: State, n: nat, active: set<string>, lower: Lower)
    requires n <= |s.users|
    ensures PruneFrom(s, s.users[..n], active, lower).version >= s.version
    ensures (exists i :: 0 <= i < n && Doomed(s.users[i], active, lower)) ==>
      PruneFrom(s, s.users[..n], active, lower).version > s.version
  {
    if n > 0 {
      var m := n - 1;
      var u, before := s.users[m], PruneFrom(s, s.users[..m], active, lower);
      assert s.users[..n][..m] == s.users[..m] && s.users[..n][m] == u;
      PruneChanges(s, m, active, lower);
      RemovalCounts(before, u.email);
      if Doomed(u, active, lower) && !exists i :: 0 <= i < m && Doomed(s.users[i], active, lower) {
        NothingDoomed(s, s.users[..m], active, lower);
        assert MatchRef(u, u.email);
        hide FirstRef;
        assert Succeeds(before, Remove(u.email));
      }
      hide Doomed, Apply, Succeeds;
    }
  }

  /** A second round with the same active set changes nothing, precisely when the doomed are shielded. */
  lemma PruneIdempotent(s: State, active: set<string>, lower: Lower)
    ensures var once := PruneFrom(s, s.users, active, lower);
      PruneFrom(once, once.users, active, lower) == once <==> Shielded(s.users, active, lower)
  {
    hide Doomed, Kept, PruneFrom, Shielded;
    var once := PruneFrom(s, s.users, active, lower);
    assert once.users[..|once.users|] == once.users;
    PruneIsFilter(s, active, lower);
    if Shielded(s.users, active, lower) {
      forall i | 0 <= i < |once.users|
        ensures !Doomed(once.users[i], active, lower)
      {
        KeptMembers(s.users, active, lower, once.users[i]);
      }
      NothingDoomed(once, once.users, active, lower);
    } else {
      MisdirectedLeaves(s, active, lower);
      PruneChanges(once, |once.users|, active, lower);
    }
  }

  /** No portal user's email names a user further up the list. */
  ghost predicate Apart(users: seq<User>) {
    forall i, j :: 0 <= i < j < |users| && users[j].source == SOURCE_AUTHENTIK && users[j].email != "" ==>
      !MatchRef(users[i], users[j].email)
  }

  /** Then the doomed are shielded, whatever the active set. */
  lemma ApartShields(users: seq<User>, active: set<string>, lower: Lower)
    requires Apart(users)
    ensures Shielded(users, active, lower)
  {
    hide MatchRef;
  }

  /** A portal user is added only when the email names nobody yet, as an uninterrupted portal visit does. */
  ghost predicate LooksFirst(s: State, op: Op) {
    op.Add? && op.u.source == SOURCE_AUTHENTIK ==> Find(s.users, op.u.email).None?
  }

  ghost predicate LooksFirstIn(h: History, ops: seq<Op>) {
    forall n :: 0 <= n < |ops| ==> LooksFirst(Run(h, ops[..n]).state, ops[n])
  }

  lemma ApartStep(s: State, op: Op)
    requires Apart(s.users) && LooksFirst(s, op)
    ensures Apart(Apply(s, op).users)
  {
    var t := Apply(s, op).users;
    if op.Add? && Succeeds(s, op) {
      hide MatchRef, EmailTaken;
      assert forall i :: 0 <= i < |s.users| ==> t[i] == s.users[i];
      assert t[|s.users|].email == op.u.email && t[|s.users|].source == op.u.source;
    } else if op.Remove? && Succeeds(s, op) {
      var f := FirstRef(s.users, op.ref);
      hide MatchRef, FirstRef;
      assert forall i :: 0 <= i < |t| ==> t[i] == s.users[if i < f then i else i + 1];
    } else {
      SameReferences(s, op);
      hide MatchRef, Apply, Succeeds;
    }
  }

  lemma SameReferences(s: State, op: Op)
    requires !Succeeds(s, op) || op.Rotate? || op.Traffic?
    ensures var t := Apply(s, op).users;
      |t| == |s.users| && forall i :: 0 <= i < |t| ==>
        t[i].source == s.users[i].source && t[i].email == s.users[i].email
        && forall ref :: MatchRef(t[i], ref) == MatchRef(s.users[i], ref)
  {
    hide FirstRef, FirstStat, Decimal, EmailTaken;
  }

  lemma {:induction false} ApartInRuns(h: History, ops: seq<Op>)
    requires Apart(h.state.users) && LooksFirstIn(h, ops)
    ensures Apart(Run(h, ops).state.users)
    decreases |ops|
  {
    if ops != [] {
      hide Apart, Apply, LooksFirst, Succeeds;
      var n := |ops| - 1;
      assert forall m :: 0 <= m < n ==> ops[..n][..m] == ops[..m];
      assert LooksFirstIn(h, ops[..n]);
      ApartInRuns(h, ops[..n]);
      assert LooksFirst(Run(h, ops[..n]).state, ops[n]);
      ApartStep(Run(h, ops[..n]).state, ops[n]);
    }
  }

  /** Pruning is the filter in every state reached from an empty store, or any such store, by calls
      that add portal users only after looking. */
  lemma PruneIsFilterInRuns(h: History, ops: seq<Op>, active: set<string>, lower: Lower)
    requires Apart(h.state.users) && LooksFirstIn(h, ops)
    ensures var s := Run(h, ops).state;
      PruneFrom(s, s.users, active, lower).users == Kept(s.users, active, lower)
  {
    hide Run, LooksFirstIn, PruneFrom, Kept, Shielded, Apart;
    ApartInRuns(h, ops);
    var s := Run(h, ops).state;
    ApartShields(s.users, active, lower);
    PruneIsFilter(s, active, lower);
  }

  /** Lowercasing, on strings that are lower-case already. */
  function AsIs(text: string): string {
    text
  }

  /** A visit that finds nobody, then a manual user added with that email as external id, then the visit's own
      addition: with anyone else active, pruning removes the manual user and keeps the portal's. */
  lemma WrongUserExample() returns (steps: seq<Clients.Step>)
    ensures var s := Clients.PortalRun(Clients.Portal(State([], 0), [Clients.Arriving], 0), "bob@x", steps).state;
      |s.users| == 2 && s.users[0].source == "" && s.users[1].source == SOURCE_AUTHENTIK
      && PruneFrom(s, s.users, {"eve@x"}, AsIs).users == [s.users[1]] && Kept(s.users, {"eve@x"}, AsIs) == [s.users[0]]
  {
    var manual := User("u1", "", 0, "bob@x", "", "", "", "", 1, false, 0, 0);
    var visit := Clients.Call(0, "u2", "", 1, Some("t2"));
    steps := [visit, Clients.Other(Add(manual, 1, Some("t1"))), visit];
    var s := RacedStore(steps, manual);
    assert "bob@x"[0] != "eve@x"[0];
    WrongUserPruned(s, {"eve@x"}, AsIs);
  }

  lemma RacedStore(steps: seq<Clients.Step>, manual: User) returns (s: State)
    requires manual == User("u1", "", 0, "bob@x", "", "", "", "", 1, false, 0, 0)
    requires var visit := Clients.Call(0, "u2", "", 1, Some("t2"));
      steps == [visit, Clients.Other(Add(manual, 1, Some("t1"))), visit]
    ensures s == Clients.PortalRun(Clients.Portal(State([], 0), [Clients.Arriving], 0), "bob@x", steps).state
    ensures s == State([Completed(manual, 1, "t1"), Completed(Clients.NewUser("u2", "bob@x", ""), 1, "t2")], 2)
  {
    var start := Clients.Portal(State([], 0), [Clients.Arriving], 0);
    var p1 := Clients.PortalStep(start, "bob@x", steps[0]);
    assert p1 == Clients.Portal(State([], 0), [Clients.Adding], 0);
    var p2 := Clients.PortalStep(p1, "bob@x", steps[1]);
    assert p2 == Clients.Portal(State([Completed(manual, 1, "t1")], 1), [Clients.Adding], 0);
    var p3 := Clients.PortalStep(p2, "bob@x", steps[2]);
    s := p3.state;
    assert !EmailTaken(p2.state.users, "bob@x");
    hide Clients.PortalStep;
    assert steps[..3] == steps && steps[..3][..2] == steps[..2] && steps[..2][..1] == steps[..1] && steps[..1][..0] == [];
    assert Clients.PortalRun(start, "bob@x", steps[..1]) == p1;
    assert Clients.PortalRun(start, "bob@x", steps[..2]) == p2;
  }

  lemma WrongUserPruned(s: State, active: set<string>, lower: Lower)
    requires |s.users| == 2 && !Doomed(s.users[0], active, lower) && Doomed(s.users[1], active, lower)
    requires MatchRef(s.users[0], s.users[1].email)
    ensures PruneFrom(s, s.users, active, lower).users == [s.users[1]] && Kept(s.users, active, lower) == [s.users[0]]
  {
    hide Doomed, MatchRef;
    var head := [s.users[0]];
    assert s.users[..1] == head && head[..0] == [];
    FirstIs(s.users, ByReference(s.users[1].email), 0);
    hide FirstRef;
    assert Kept(head, active, lower) == head;
    assert PruneFrom(s, head, active, lower) == s;
  }

  // ----- who stays, said outright -----

  /** In a list whose portal emails name nobody further up, exactly the spared users stay. */
  lemma StaysIff(s: State, active: set<string>, lower: Lower, u: User)
    requires Apart(s.users)
    ensures u in PruneFrom(s, s.users, active, lower).users
      <==> u in s.users && Spared(u, active, lower)
  {
    hide Apart, Kept, PruneFrom, Shielded;
    ApartShields(s.users, active, lower);
    PruneIsFilter(s, active, lower);
    KeptMembers(s.users, active, lower, u);
  }

  /** Some page of the chain lists this email, in some case, as active. */
  ghost predicate ActiveUpstream(api: int -> Reply, chain: seq<int>, lower: Lower, email: string) {
    exists i :: 0 <= i < |chain| && api(chain[i]).Page? && HasAccount(api(chain[i]).results, lower, email)
  }

  ghost predicate HasAccount(results: seq<Listed>, lower: Lower, email: string) {
    exists k :: 0 <= k < |results| && IsAccount(results[k], lower, email)
  }

  predicate IsAccount(listed: Listed, lower: Lower, email: string) {
    listed.isActive && listed.email != "" && lower(listed.email) == lower(email)
  }

  /** A whole round: fetched pages on one side, who stays on the other. */
  lemma RoundKeeps(s: State, api: int -> Reply, chain: seq<int>, active: set<string>, lower: Lower, u: User)
    requires Apart(s.users) && Fetched(api, chain, lower, Some(active))
    ensures u in PruneFrom(s, s.users, active, lower).users
      <==> u in s.users && (u.source != "authentik" || u.email == "" || ActiveUpstream(api, chain, lower, u.email))
  {
    hide Apart, PruneFrom, IsChain;
    StaysIff(s, active, lower, u);
    CollectedIs(api, chain, lower, u.email);
  }

  lemma CollectedIs(api: int -> Reply, chain: seq<int>, lower: Lower, email: string)
    ensures Collected(api, chain, lower, lower(email)) <==> ActiveUpstream(api, chain, lower, email)
  {
    if ActiveUpstream(api, chain, lower, email) {
      var i :| 0 <= i < |chain| && api(chain[i]).Page? && HasAccount(api(chain[i]).results, lower, email);
      assert ListsActive(api(chain[i]), lower, lower(email));
    }
    if Collected(api, chain, lower, lower(email)) {
      var i :| 0 <= i < |chain| && ListsActive(api(chain[i]), lower, lower(email));
      var k :| 0 <= k < |api(chain[i]).results| && IsAccount(api(chain[i]).results[k], lower, email);
      assert HasAccount(api(chain[i]).results, lower, email);
    }
  }
}
