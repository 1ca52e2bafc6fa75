/** The node-local user store: a list of users rewritten in place, a version counter,
    and the file it is flushed to. */
module Store {
  import opened Options

  datatype User = User(
    uuid: string, email: string, telegramID: int, externalID: string, shortID: string, profile: string,
    subToken: string, source: string, createdAt: int, enabled: bool, rx: int, tx: int)

  datatype State = State(users: seq<User>, version: int)

  const SOURCE_AUTHENTIK := "authentik"

  // ----- references -----

  function Digits(n: nat): string {
    (if n >= 10 then Digits(n / 10) else "") + [(n % 10) as char + '0']
  }

  function Decimal(n: int): string {
    if n < 0 then "-" + Digits(-n) else Digits(n)
  }

  /** A user is named by UUID, or by a non-empty email, external id or Telegram id. */
  predicate MatchRef(u: User, ref: string) {
    if ref == "" then false
    else
      || u.uuid == ref
      || (u.email != "" && u.email == ref)
      || (u.externalID != "" && u.externalID == ref)
      || (u.telegramID != 0 && Decimal(u.telegramID) == ref)
  }

  /** The traffic counters are filed under the email, or under the UUID. */
  predicate MatchStat(u: User, ref: string) {
    u.uuid == ref || (u.email != "" && u.email == ref)
  }

  /** The three ways a user is looked up. */
  datatype Key = ByReference(text: string) | ByStatistic(text: string) | ByToken(text: string)

  predicate Matches(u: User, key: Key) {
    match key
    case ByReference(ref) => MatchRef(u, ref)
    case ByStatistic(ref) => MatchStat(u, ref)
    case ByToken(tok) => u.subToken == tok
  }

  /** Position of the first user that matches; the length of the list if none does. */
  function First(users: seq<User>, key: Key): (i: nat)
    ensures i <= |users| && (i < |users| ==> Matches(users[i], key))
    ensures forall k :: 0 <= k < i ==> !Matches(users[k], key)
  {
    if users == [] || Matches(users[0], key) then 0 else 1 + First(users[1..], key)
  }

  function FirstRef(users: seq<User>, ref: string): (i: nat)
    ensures i <= |users| && (i < |users| ==> MatchRef(users[i], ref))
    ensures forall k :: 0 <= k < i ==> !MatchRef(users[k], ref)
  {
    var i := First(users, ByReference(ref));
    assert forall k :: 0 <= k < i ==> !Matches(users[k], ByReference(ref));
    i
  }

  function FirstStat(users: seq<User>, ref: string): (i: nat)
    ensures i <= |users| && (i < |users| ==> MatchStat(users[i], ref))
    ensures forall k :: 0 <= k < i ==> !MatchStat(users[k], ref)
  {
    var i := First(users, ByStatistic(ref));
    assert forall k :: 0 <= k < i ==> !Matches(users[k], ByStatistic(ref));
    i
  }

  function Find(users: seq<User>, ref: string): Option<User> {
    var i := FirstRef(users, ref);
    if i < |users| then Some(users[i]) else None
  }

  function FindToken(users: seq<User>, tok: string): Option<User> {
    var i := First(users, ByToken(tok));
    if tok != "" && i < |users| then Some(users[i]) else None
  }

  function Without(users: seq<User>, i: nat): seq<User>
    requires i < |users|
  {
    users[..i] + users[i + 1..]
  }

  function TotalTraffic(users: seq<User>): int {
    if users == [] then 0 else TotalTraffic(users[..|users| - 1]) + users[|users| - 1].rx + users[|users| - 1].tx
  }

  function Received(users: seq<User>): int {
    if users == [] then 0 else users[0].rx + Received(users[1..])
  }

  function Sent(users: seq<User>): int {
    if users == [] then 0 else users[0].tx + Sent(users[1..])
  }

  /** The total is all that was received and all that was sent, each column on its own. */
  lemma {:induction false} TotalIsColumns(users: seq<User>)
    ensures TotalTraffic(users) == Received(users) + Sent(users)
    decreases |users|
  {
    if |users| == 1 {
      assert users[..0] == [] && users[1..] == [];
    } else if users != [] {
      var n := |users| - 1;
      TotalIsColumns(users[..n]);
      TotalIsColumns(users[1..]);
      TotalIsColumns(users[1..n]);
      assert users[..n][1..] == users[1..n] && users[1..][..n - 1] == users[1..n];
    }
  }

  predicate EmailTaken(users: seq<User>, email: string) {
    email != "" && exists i :: 0 <= i < |users| && users[i].email == email
  }

  // ----- what each call does to the state -----

  /** A call that changes the store; `token` is what the random source yields, None if it fails. */
  datatype Op =
    | Add(u: User, now: int, token: Option<string>)
    | Remove(ref: string)
    | Rotate(ref: string, token: Option<string>)
    | Traffic(ref: string, rx: int, tx: int)

  /** The record an addition stores. */
  function Completed(u: User, now: int, token: string): User {
    u.(createdAt := if u.createdAt == 0 then now else u.createdAt,
       subToken := if u.subToken == "" then token else u.subToken,
       enabled := true)
  }

  function TokenFor(u: User, token: Option<string>): Option<string> {
    if u.subToken == "" then token else Some(u.subToken)
  }

  predicate Succeeds(s: State, op: Op) {
    match op
    case Add(u, now, token) => !EmailTaken(s.users, u.email) && TokenFor(u, token).Some?
    case Remove(ref) => FirstRef(s.users, ref) < |s.users|
    case Rotate(ref, token) => FirstRef(s.users, ref) < |s.users| && token.Some?
    case Traffic(ref, rx, tx) => FirstStat(s.users, ref) < |s.users|
  }

  /** The state after the call; a failed call changes nothing. */
  function Apply(s: State, op: Op): State {
    if !Succeeds(s, op) then s
    else
      match op
      case Add(u, now, token) => State(s.users + [Completed(u, now, TokenFor(u, token).value)], s.version + 1)
      case Remove(ref) => State(Without(s.users, FirstRef(s.users, ref)), s.version + 1)
      case Rotate(ref, token) =>
        var i := FirstRef(s.users, ref);
        State(s.users[i := s.users[i].(subToken := token.value)], s.version)
      case Traffic(ref, rx, tx) =>
        var i := FirstStat(s.users, ref);
        State(s.users[i := s.users[i].(rx := rx, tx := tx)], s.version)
  }

  // ----- the store -----

  class Store {
    var users: array<User> // backing array; the first count entries are the list
    var count: nat
    var configVersion: int
    ghost var file: Option<State> // what the state file holds

    ghost predicate Valid()
      reads this
    {
      count <= users.Length
    }

    ghost function Contents(): seq<User>
      requires Valid()
      reads this, users
    {
      users[..count]
    }

    ghost function Abs(): State
      requires Valid()
      reads this, users
    {
      State(Contents(), configVersion)
    }

    /** Loads the state on disk and gives a token to every user without one. */
    constructor Open(disk: Option<State>, tokens: seq<string>)
      requires disk.Some? ==> |tokens| == |disk.value.users|
      ensures Valid() && fresh(users)
      ensures disk.None? ==> Abs() == State([], 0) && file == None
      ensures disk.Some? ==> Abs() == State(Backfilled(disk.value.users, tokens), disk.value.version) && file == Some(Abs())
    {
      var loaded := match disk case Some(s) => s.users case None => [];
      users := new User[|loaded|](i requires 0 <= i < |loaded| => loaded[i]);
      count := |loaded|;
      configVersion := match disk case Some(s) => s.version case None => 0;
      file := disk;
      new;
      var changed := false;
      for i := 0 to count
        modifies users
        invariant |loaded| == |tokens| || loaded == []
        invariant changed ==> loaded != []
        invariant count == |loaded| == users.Length && fresh(users)
        invariant forall k :: 0 <= k < i ==> users[k] == WithToken(loaded[k], tokens[k])
        invariant forall k :: i <= k < count ==> users[k] == loaded[k]
        invariant !changed ==> forall k :: 0 <= k < i ==> users[k] == loaded[k]
      {
        if users[i].subToken == "" {
          users[i] := users[i].(subToken := tokens[i]);
          changed := true;
        }
      }
      assert disk.Some? ==> users[..count] == Backfilled(disk.value.users, tokens);
      if changed {
        file := Some(State(users[..count], configVersion));
      } else {
        assert disk.Some? ==> users[..count] == disk.value.users;
      }
    }

    /** Appends to the backing array, growing it when full. */
    method Append(u: User)
      requires Valid()
      modifies this`users, this`count, users
      ensures Valid() && Contents() == old(Contents()) + [u]
      ensures users == old(users) || fresh(users)
    {
      if count == users.Length {
        var bigger := new User[2 * count + 1](_ => u);
        for i := 0 to count
          modifies bigger
          invariant bigger[..i] == users[..i]
        {
          bigger[i] := users[i];
        }
        users := bigger;
      }
      users[count] := u;
      count := count + 1;
    }

    method AddUser(u: User, now: int, token: Option<string>) returns (ok: bool)
      requires Valid()
      modifies this, users
      ensures Valid() && (users == old(users) || fresh(users))
      ensures ok == Succeeds(old(Abs()), Add(u, now, token)) && Abs() == Apply(old(Abs()), Add(u, now, token))
      ensures ok <==> (u.email == "" || forall i :: 0 <= i < old(count) ==> old(users[i].email) != u.email) && (u.subToken != "" || token.Some?)
      ensures ok ==> Contents() == old(Contents()) + [User(
        u.uuid, u.email, u.telegramID, u.externalID, u.shortID, u.profile, if u.subToken != "" then u.subToken else token.value,
        u.source, if u.createdAt == 0 then now else u.createdAt, true, u.rx, u.tx)]
      ensures file == if ok then Some(Abs()) else old(file)
    {
      if u.email != "" {
        for i := 0 to count
          modifies {}
          invariant forall k :: 0 <= k < i ==> users[k].email != u.email
        {
          if users[i].email == u.email {
            assert Contents()[i].email == u.email;
            return false;
          }
        }
      }
      assert !EmailTaken(Contents(), u.email);
      var v := u;
      if v.createdAt == 0 {
        v := v.(createdAt := now);
      }
      if v.subToken == "" {
        if token.None? {
          return false;
        }
        v := v.(subToken := token.value);
      }
      v := v.(enabled := true);
      Append(v);
      configVersion := configVersion + 1;
      file := Some(Abs());
      ok := true;
    }

    method FindUser(ref: string) returns (r: Option<User>)
      requires Valid()
      ensures r == Find(Contents(), ref)
      ensures NamedFirst(Contents(), ref, r)
    {
      FindIs(Contents(), ref);
      hide NamedFirst, Decimal;
      for i := 0 to count
        invariant forall k :: 0 <= k < i ==> !MatchRef(users[k], ref)
      {
        if MatchRef(users[i], ref) {
          FirstIs(Contents(), ByReference(ref), i);
          return Some(users[i]);
        }
      }
      FirstIs(Contents(), ByReference(ref), count);
      return None;
    }

    method FindBySubToken(tok: string) returns (r: Option<User>)
      requires Valid()
      ensures r == FindToken(Contents(), tok)
    {
      if tok == "" {
        return None;
      }
      for i := 0 to count
        invariant forall k :: 0 <= k < i ==> users[k].subToken != tok
      {
        if users[i].subToken == tok {
          FirstIs(Contents(), ByToken(tok), i);
          return Some(users[i]);
        }
      }
      FirstIs(Contents(), ByToken(tok), count);
      return None;
    }

    method RotateSubToken(ref: string, token: Option<string>) returns (r: Option<string>)
      requires Valid()
      modifies this`file, users
      ensures Valid()
      ensures r.Some? == Succeeds(old(Abs()), Rotate(ref, token)) && (r.Some? ==> r == token)
      ensures Abs() == Apply(old(Abs()), Rotate(ref, token))
      ensures file == if r.Some? then Some(Abs()) else old(file)
    {
      for i := 0 to count
        invariant users[..] == old(users[..])
        invariant forall k :: 0 <= k < i ==> !MatchRef(users[k], ref)
      {
        if MatchRef(users[i], ref) {
          FirstIs(Contents(), ByReference(ref), i);
          if token.None? {
            return None;
          }
          users[i] := users[i].(subToken := token.value);
          file := Some(Abs());
          return token;
        }
      }
      FirstIs(Contents(), ByReference(ref), count);
      return None;
    }

    /** Moves every user but the first that ref names to the front of the backing array. */
    method Compact(ref: string) returns (found: bool, out: nat)
      requires Valid()
      modifies users
      ensures found == (FirstRef(old(Contents()), ref) < count)
      ensures out <= count
      ensures users[..out] == if found then Without(old(Contents()), FirstRef(old(Contents()), ref)) else old(Contents())
    {
      ghost var before, f := Contents(), FirstRef(Contents(), ref);
      hide *;
      found, out := false, 0;
      for i := 0 to count
        invariant found == (f < i) && out == if found then i - 1 else i
        invariant forall k :: 0 <= k < out && k < f ==> users[k] == before[k]
        invariant forall k :: f <= k < out ==> users[k] == before[k + 1]
        invariant forall k :: i <= k < count ==> users[k] == before[k]
      {
        var e := users[i];
        if !found && MatchRef(e, ref) {
          found := true;
          continue;
        }
        users[out] := e;
        out := out + 1;
      }
      CompactedIs(before, f, users[..out]);
    }

    /** Deletes the first user that ref names, in place. */
    method RemoveUser(ref: string) returns (ok: bool)
      requires Valid()
      modifies this, users
      ensures Valid() && users == old(users)
      ensures ok == Succeeds(old(Abs()), Remove(ref)) && Abs() == Apply(old(Abs()), Remove(ref))
      ensures ok <==> exists u :: u in old(Contents()) && ref in Names(u)
      ensures file == if ok then Some(Abs()) else old(file)
    {
      FindIs(Contents(), ref);
      hide Names, Decimal;
      var found, out := Compact(ref);
      if !found {
        return false;
      }
      count := out;
      configVersion := configVersion + 1;
      file := Some(Abs());
      ok := true;
    }

    /** A copy of the list, which later calls leave alone. */
    method Users() returns (r: array<User>)
      requires Valid()
      ensures fresh(r) && r[..] == Contents()
    {
      r := new User[count](i requires 0 <= i < count <= users.Length reads this, users => users[i]);
    }

    method ConfigVersion() returns (v: int)
      ensures v == configVersion
    {
      v := configVersion;
    }

    method TotalBytes() returns (t: int)
      requires Valid()
      ensures t == TotalTraffic(Contents())
    {
      t := 0;
      for i := 0 to count
        invariant t == TotalTraffic(users[..i])
      {
        assert users[..i + 1][..i] == users[..i];
        t := t + users[i].rx + users[i].tx;
      }
    }

    method UpdateTraffic(ref: string, rx: int, tx: int) returns (ok: bool)
      requires Valid()
      modifies this`file, users
      ensures Valid()
      ensures ok == Succeeds(old(Abs()), Traffic(ref, rx, tx)) && Abs() == Apply(old(Abs()), Traffic(ref, rx, tx))
      ensures file == if ok then Some(Abs()) else old(file)
    {
      for i := 0 to count
        invariant users[..] == old(users[..])
        invariant forall k :: 0 <= k < i ==> !MatchStat(users[k], ref)
      {
        if MatchStat(users[i], ref) {
          FirstIs(Contents(), ByStatistic(ref), i);
          users[i] := users[i].(rx := rx, tx := tx);
          file := Some(Abs());
          return true;
        }
      }
      FirstIs(Contents(), ByStatistic(ref), count);
      return false;
    }
  }

  lemma CompactedIs(before: seq<User>, f: nat, after: seq<User>)
    requires f <= |before| && |after| == if f < |before| then |before| - 1 else |before|
    requires forall k :: 0 <= k < |after| && k < f ==> after[k] == before[k]
    requires forall k :: f <= k < |after| ==> after[k] == before[k + 1]
    ensures after == if f < |before| then Without(before, f) else before
  {
  }

  function WithToken(u: User, token: string): User {
    if u.subToken == "" then u.(subToken := token) else u
  }

  function Backfilled(users: seq<User>, tokens: seq<string>): (r: seq<User>)
    requires |users| == |tokens|
    ensures |r| == |users| && forall i :: 0 <= i < |r| ==> r[i] == WithToken(users[i], tokens[i])
  {
    seq(|users|, i requires 0 <= i < |users| => WithToken(users[i], tokens[i]))
  }

  // ----- first matches are unique -----

  lemma FirstIs(users: seq<User>, key: Key, i: nat)
    requires i <= |users| && (i < |users| ==> Matches(users[i], key))
    requires forall k :: 0 <= k < i ==> !Matches(users[k], key)
    ensures First(users, key) == i
    ensures key.ByReference? ==> FirstRef(users, key.text) == i
    ensures key.ByStatistic? ==> FirstStat(users, key.text) == i
  {
    hide Matches;
    var j := First(users, key);
    assert !(j < i) && !(i < j);
  }

  // ----- what a reference is -----

  function DigitValue(c: char): int {
    c as int - '0' as int
  }

  predicate IsDigit(c: char) {
    '0' <= c <= '9'
  }

  /** Reads digits from the left. */
  function ReadDigits(s: string): int {
    if s == [] then 0 else 10 * ReadDigits(s[..|s| - 1]) + DigitValue(s[|s| - 1])
  }

  function ReadNumeral(s: string): int {
    if s != [] && s[0] == '-' then -ReadDigits(s[1..]) else ReadDigits(s)
  }

  lemma DigitChar(d: nat)
    requires d < 10
    ensures var c := d as char + '0'; IsDigit(c) && DigitValue(c) == d && (d > 0 ==> c != '0')
  {
  }

  lemma ReadLast(head: string, c: char)
    ensures ReadDigits(head + [c]) == 10 * ReadDigits(head) + DigitValue(c) && ReadDigits("") == 0
  {
    assert (head + [c])[..|head|] == head;
  }

  lemma DigitsEnd(n: nat)
    ensures Digits(n) == (if n >= 10 then Digits(n / 10) else "") + [(n % 10) as char + '0']
  {
  }

  lemma {:induction false} DigitsRead(n: nat)
    ensures ReadDigits(Digits(n)) == n && Digits(n) != [] && forall i :: 0 <= i < |Digits(n)| ==> IsDigit(Digits(n)[i])
    ensures n > 0 ==> Digits(n)[0] != '0'
  {
    hide *;
    DigitsEnd(n);
    DigitChar(n % 10);
    ReadLast(if n >= 10 then Digits(n / 10) else "", (n % 10) as char + '0');
    if n >= 10 {
      DigitsRead(n / 10);
    } else {
      ReadLast("", '0');
    }
  }

  /** The numeral of a Telegram id: its digits without leading zeros, after a minus if it is negative. */
  lemma DecimalReads(n: int)
    ensures ReadNumeral(Decimal(n)) == n
    ensures n != 0 ==> var digits := if n < 0 then Decimal(n)[1..] else Decimal(n);
      (n < 0 ==> Decimal(n)[0] == '-') && digits != [] && digits[0] != '0' && forall i :: 0 <= i < |digits| ==> IsDigit(digits[i])
  {
    hide ReadDigits, Digits;
    DigitsRead(if n < 0 then -n else n);
    if n < 0 {
      assert Decimal(n)[1..] == Digits(-n);
    }
  }

  /** The texts that name a user. */
  ghost function Names(u: User): set<string> {
    {u.uuid, u.email, u.externalID} + (if u.telegramID != 0 then {Decimal(u.telegramID)} else {}) - {""}
  }

  /** The first user one of whose names the text is, and nobody for any other text. */
  ghost predicate NamedFirst(users: seq<User>, text: string, r: Option<User>) {
    && (r.None? <==> forall u :: u in users ==> text !in Names(u))
    && forall i :: 0 <= i < |users| && text in Names(users[i]) && (forall j :: 0 <= j < i ==> text !in Names(users[j])) ==>
      r == Some(users[i])
  }

  lemma FindIs(users: seq<User>, text: string)
    ensures NamedFirst(users, text, Find(users, text))
  {
    hide Decimal;
    forall u: User
      ensures MatchRef(u, text) <==> text in Names(u)
    {
    }
    hide MatchRef, Names, FirstRef;
    forall i | 0 <= i < |users| && text in Names(users[i]) && (forall j :: 0 <= j < i ==> text !in Names(users[j]))
      ensures Find(users, text) == Some(users[i])
    {
      FirstIs(users, ByReference(text), i);
    }
  }

  /** A user whose UUID, email, external id or Telegram id is nobody's before them is found by it, and removed by it
      with the others left in order. */
  lemma FoundByName(s: State, i: nat, text: string)
    requires i < |s.users| && text != ""
    requires text == s.users[i].uuid || text == s.users[i].email || text == s.users[i].externalID
      || (s.users[i].telegramID != 0 && text == Decimal(s.users[i].telegramID))
    requires forall j :: 0 <= j < i ==>
      text != s.users[j].uuid && text != s.users[j].email && text != s.users[j].externalID
      && (s.users[j].telegramID == 0 || text != Decimal(s.users[j].telegramID))
    ensures Find(s.users, text) == Some(s.users[i])
    ensures Apply(s, Remove(text)) == State(s.users[..i] + s.users[i + 1..], s.version + 1)
  {
    hide Decimal;
    FirstIs(s.users, ByReference(text), i);
    hide FirstRef;
  }

  /** Counters are stored for the first user with that UUID or non-empty email, received before sent. */
  lemma CountersStored(s: State, i: nat, text: string, received: int, sent: int)
    requires i < |s.users| && (text == s.users[i].uuid || (text == s.users[i].email && text != ""))
    requires forall j :: 0 <= j < i ==> text != s.users[j].uuid && (text != s.users[j].email || text == "")
    ensures Apply(s, Traffic(text, received, sent))
      == State(s.users[i := s.users[i].(rx := received, tx := sent)], s.version)
  {
    FirstIs(s.users, ByStatistic(text), i);
    hide FirstStat;
  }
}
