/** What a child reports: heartbeats and pull replies read from its store. */
module ChildDaemon {
  import opened Options
  import opened Store
  import opened Protocol

  function IdentityOf(u: User): Identity {
    Identity(u.uuid, u.email, u.telegramID, u.externalID, u.profile, u.shortID, u.enabled)
  }

  function Identities(users: seq<User>): (r: seq<Identity>)
    ensures |r| == |users| && forall i :: 0 <= i < |r| ==> r[i] == IdentityOf(users[i])
  {
    seq(|users|, i requires 0 <= i < |users| => IdentityOf(users[i]))
  }

  function DetailOf(u: User): Detail {
    Detail(IdentityOf(u), u.rx, u.tx)
  }

  function Details(users: seq<User>): (r: seq<Detail>)
    ensures |r| == |users| && forall i :: 0 <= i < |r| ==> r[i] == DetailOf(users[i])
  {
    seq(|users|, i requires 0 <= i < |users| => DetailOf(users[i]))
  }

  function Who(details: seq<Detail>): (r: seq<Identity>)
    ensures |r| == |details| && forall i :: 0 <= i < |r| ==> r[i] == details[i].who
  {
    seq(|details|, i requires 0 <= i < |details| => details[i].who)
  }

  lemma {:induction false} TotalOfDetails(users: seq<User>)
    ensures TotalOf(Details(users)) == TotalTraffic(users)
    decreases |users|
  {
    if users != [] {
      var n := |users| - 1;
      TotalOfDetails(users[..n]);
      assert Details(users)[..n] == Details(users[..n]);
    }
  }

  /** The reporting side of a child, uninterrupted: each method makes its store calls in the source's order. */
  class Daemon {
    const node: string
    var sequence: nat

    constructor (node: string)
      ensures this.node == node && sequence == 0
    {
      this.node, sequence := node, 0;
    }

    /** Builds the next heartbeat: the version first, then the byte total. */
    method BuildHeartbeat(st: Store, up: bool) returns (hb: Heartbeat)
      requires st.Valid()
      modifies this
      ensures sequence == old(sequence) + 1
      ensures hb == Heartbeat(node, sequence, up, up, st.configVersion, TotalTraffic(st.Contents()))
    {
      sequence := sequence + 1;
      var version := st.ConfigVersion();
      var total := st.TotalBytes();
      hb := Heartbeat(node, sequence, up, up, version, total);
    }

    /** Builds the pull reply: the users first, then the version. */
    method HandlePull(st: Store) returns (reply: PullResponse)
      requires st.Valid()
      ensures reply == PullResponse(st.configVersion, Details(st.Contents()))
      ensures TotalOf(reply.users) == TotalTraffic(st.Contents())
      ensures |reply.users| == |st.Contents()|
      ensures forall i :: 0 <= i < |reply.users| ==> var d, u := reply.users[i], st.Contents()[i];
        && d.who.uuid == u.uuid && d.who.email == u.email && d.who.telegramID == u.telegramID
        && d.who.externalID == u.externalID && d.who.profile == u.profile && d.who.shortID == u.shortID
        && d.who.enabled == u.enabled && d.rx == u.rx && d.tx == u.tx
    {
      var users := st.Users();
      ghost var all := users[..];
      var det: seq<Detail> := [];
      for i := 0 to users.Length
        invariant det == Details(all[..i])
      {
        var u := users[i];
        det := det + [Detail(Identity(u.uuid, u.email, u.telegramID, u.externalID, u.profile, u.shortID, u.enabled), u.rx, u.tx)];
      }
      assert all[..users.Length] == all;
      TotalOfDetails(all);
      var version := st.ConfigVersion();
      reply := PullResponse(version, det);
    }
  }
}
