/** What every run of store calls keeps true, when the random source never repeats a token. */
module StoreRuns {
  import opened Options
  import opened Store

  /** The store with what the run has done so far: tokens ever issued, tokens withdrawn,
      successful additions and removals, and the file. */
  datatype History = History(state: State, file: Option<State>, issued: set<string>, retired: set<string>, changes: int)

  ghost predicate DistinctEmails(users: seq<User>) {
    forall i, j :: 0 <= i < j < |users| && users[i].email != "" ==> users[i].email != users[j].email
  }

  ghost predicate DistinctTokens(users: seq<User>) {
    && (forall i :: 0 <= i < |users| ==> users[i].subToken != "")
    && (forall i, j :: 0 <= i < j < |users| ==> users[i].subToken != users[j].subToken)
  }

  ghost predicate TokensIn(users: seq<User>, tokens: set<string>) {
    forall i :: 0 <= i < |users| ==> users[i].subToken in tokens
  }

  ghost predicate TokensOutside(users: seq<User>, tokens: set<string>) {
    forall i :: 0 <= i < |users| ==> users[i].subToken !in tokens
  }

  ghost predicate Inv(h: History) {
    && DistinctEmails(h.state.users) && DistinctTokens(h.state.users)
    && TokensIn(h.state.users, h.issued) && TokensOutside(h.state.users, h.retired) && h.retired <= h.issued
    && (h.file == Some(h.state) || (h.file.None? && h.state == State([], 0)))
  }

  /** The token a call would store, if it gets that far. */
  function TokenOf(op: Op): Option<string> {
    match op
    case Add(u, now, token) => TokenFor(u, token)
    case Rotate(ref, token) => token
    case _ => None
  }

  /** Fresh tokens are non-empty and never issued before. */
  ghost predicate IsFresh(h: History, op: Op) {
    TokenOf(op).Some? ==> TokenOf(op).value != "" && TokenOf(op).value !in h.issued
  }

  ghost function Next(h: History, op: Op): History {
    if !Succeeds(h.state, op) then h
    else
      var s := Apply(h.state, op);
      var issued := if TokenOf(op).Some? then h.issued + {TokenOf(op).value} else h.issued;
      var withdrawn := if op.Rotate? || op.Remove? then {h.state.users[FirstRef(h.state.users, op.ref)].subToken} else {};
      History(s, Some(s), issued, h.retired + withdrawn, h.changes + if op.Add? || op.Remove? then 1 else 0)
  }

  ghost function Run(h: History, ops: seq<Op>): History {
    if ops == [] then h else Next(Run(h, ops[..|ops| - 1]), ops[|ops| - 1])
  }

  ghost predicate FreshRun(h: History, ops: seq<Op>) {
    forall i :: 0 <= i < |ops| ==> IsFresh(Run(h, ops[..i]), ops[i])
  }

  lemma AddKeeps(h: History, op: Op)
    requires Inv(h) && op.Add? && IsFresh(h, op)
    ensures Inv(Next(h, op))
  {
    if Succeeds(h.state, op) {
      var users, v := h.state.users, Completed(op.u, op.now, TokenFor(op.u, op.token).value);
      assert v.email != "" ==> forall i :: 0 <= i < |users| ==> users[i].email != v.email;
      assert Next(h, op).state.users == users + [v];
    }
  }

  lemma RemoveKeeps(h: History, op: Op)
    requires Inv(h) && op.Remove?
    ensures Inv(Next(h, op))
  {
    hide FirstRef;
    if Succeeds(h.state, op) {
      var users, k := h.state.users, FirstRef(h.state.users, op.ref);
      var left := Without(users, k);
      assert Next(h, op).state.users == left;
      assert forall i :: 0 <= i < |left| ==> left[i] == users[if i < k then i else i + 1];
    }
  }

  lemma RotateKeeps(h: History, op: Op)
    requires Inv(h) && op.Rotate? && IsFresh(h, op)
    ensures Inv(Next(h, op))
  {
    hide FirstRef;
    if Succeeds(h.state, op) {
      var users, k := h.state.users, FirstRef(h.state.users, op.ref);
      var s := users[k := users[k].(subToken := op.token.value)];
      assert Next(h, op).state.users == s;
      assert forall i :: 0 <= i < |s| ==>
        s[i].email == users[i].email && s[i].subToken == if i == k then op.token.value else users[i].subToken;
    }
  }

  lemma TrafficKeeps(h: History, op: Op)
    requires Inv(h) && op.Traffic?
    ensures Inv(Next(h, op))
  {
    hide FirstStat;
    if Succeeds(h.state, op) {
      var users, k := h.state.users, FirstStat(h.state.users, op.ref);
      var s := users[k := users[k].(rx := op.rx, tx := op.tx)];
      assert Next(h, op).state.users == s;
      assert forall i :: 0 <= i < |s| ==> s[i].email == users[i].email && s[i].subToken == users[i].subToken;
    }
  }

  lemma NextKeeps(h: History, op: Op)
    requires Inv(h) && IsFresh(h, op)
    ensures Inv(Next(h, op))
  {
    hide Inv, IsFresh, Next;
    match op
    case Add(_, _, _) => AddKeeps(h, op);
    case Remove(_) => RemoveKeeps(h, op);
    case Rotate(_, _) => RotateKeeps(h, op);
    case Traffic(_, _, _) => TrafficKeeps(h, op);
  }

  lemma NextCounts(h: History, op: Op)
    ensures Next(h, op).state.version - h.state.version == Next(h, op).changes - h.changes
    ensures h.retired <= Next(h, op).retired
  {
    hide FirstRef, FirstStat, EmailTaken, Without;
  }

  /** Emails and tokens stay distinct, the file follows memory, withdrawn tokens stay withdrawn,
      and the version counts the successful additions and removals. */
  lemma {:induction false} RunKeeps(h: History, ops: seq<Op>)
    requires Inv(h) && FreshRun(h, ops)
    ensures Inv(Run(h, ops))
    ensures Run(h, ops).state.version - h.state.version == Run(h, ops).changes - h.changes
    ensures h.retired <= Run(h, ops).retired
    decreases |ops|
  {
    if ops != [] {
      var n := |ops| - 1;
      var before := Run(h, ops[..n]);
      assert FreshRun(h, ops[..n]) by {
        forall i | 0 <= i < n
          ensures IsFresh(Run(h, ops[..n][..i]), ops[..n][i])
        {
          assert ops[..n][..i] == ops[..i];
        }
      }
      hide Inv, IsFresh, Next;
      RunKeeps(h, ops[..n]);
      NextKeeps(before, ops[n]);
      NextCounts(before, ops[n]);
    }
  }

  /** A token taken from its user by rotation or removal resolves to nobody for the rest of the run. */
  lemma WithdrawnTokenIsDead(h: History, op: Op, later: seq<Op>)
    requires Inv(h) && IsFresh(h, op) && Succeeds(h.state, op) && (op.Rotate? || op.Remove?)
    requires FreshRun(Next(h, op), later)
    ensures var old_token := Find(h.state.users, op.ref).value.subToken;
      FindToken(Run(Next(h, op), later).state.users, old_token) == None
  {
    var token := Find(h.state.users, op.ref).value.subToken;
    assert token in Next(h, op).retired;
    NextKeeps(h, op);
    RunKeeps(Next(h, op), later);
    var end := Run(Next(h, op), later);
    assert token in end.retired;
    hide Run, Next, IsFresh;
  }

  /** In any state a run can reach, a user's token leads to that user and no other. */
  lemma TokenNamesItsUser(h: History, i: nat)
    requires Inv(h) && i < |h.state.users|
    ensures FindToken(h.state.users, h.state.users[i].subToken) == Some(h.state.users[i])
  {
    var users := h.state.users;
    FirstIs(users, ByToken(users[i].subToken), i);
  }

  // ----- opening a state file -----

  /** Tokens are drawn afresh for the users without one. */
  ghost predicate FreshTokens(users: seq<User>, tokens: seq<string>) {
    && |tokens| == |users|
    && (forall i :: 0 <= i < |users| ==> tokens[i] != "")
    && (forall i, j :: 0 <= i < j < |users| ==> tokens[i] != tokens[j])
    && (forall i, j :: 0 <= i < |users| && 0 <= j < |users| ==> tokens[i] != users[j].subToken)
  }

  ghost predicate TokensClash(users: seq<User>) {
    exists i, j :: 0 <= i < j < |users| && users[i].subToken != "" && users[i].subToken == users[j].subToken
  }

  /** The backfill gives every user a token of its own, exactly when the file had no duplicate. */
  lemma BackfillGivesTokens(users: seq<User>, tokens: seq<string>)
    requires FreshTokens(users, tokens)
    ensures DistinctTokens(Backfilled(users, tokens)) <==> !TokensClash(users)
    ensures DistinctEmails(users) ==> DistinctEmails(Backfilled(users, tokens))
  {
    var r := Backfilled(users, tokens);
    forall i, j | 0 <= i < j < |users|
      ensures r[i].subToken == r[j].subToken <==> users[i].subToken != "" && users[i].subToken == users[j].subToken
    {
      assert r[i] == WithToken(users[i], tokens[i]) && r[j] == WithToken(users[j], tokens[j]);
    }
  }
}
