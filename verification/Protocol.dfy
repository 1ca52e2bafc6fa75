/** Heartbeats, pulls, and the pure decisions of the main server. Durations are in nanoseconds. */
module Protocol {
  import opened Options

  const SECOND: int := 1_000_000_000
  const MAX_DURATION: int := 0x7fff_ffff_ffff_ffff

  datatype Heartbeat = Heartbeat(node: string, sequence: int, healthy: bool, cascadeUp: bool, version: int, totalBytes: int)

  /** What a detail record says about a user, traffic aside. */
  datatype Identity = Identity(
    uuid: string, email: string, telegramID: int, externalID: string, profile: string, shortID: string, enabled: bool)

  datatype Detail = Detail(who: Identity, rx: int, tx: int)

  datatype PullResponse = PullResponse(version: int, users: seq<Detail>)

  /** Times are None for the zero time. */
  datatype NodeView = NodeView(
    lastSeen: Option<int>, lastSeq: int, healthy: bool, cascadeUp: bool, down: bool,
    pulledVersion: int, pulledBytes: int, lastPull: Option<int>,
    heardVersion: int, heardBytes: int)

  const UNSEEN := NodeView(None, 0, false, false, false, 0, 0, None, 0, 0)

  datatype Thresholds = Thresholds(byteDelta: int, reconcileEvery: int)

  function WithDefaults(th: Thresholds): Thresholds {
    Thresholds(
      if th.byteDelta <= 0 then 0x1000_0000 else th.byteDelta,
      if th.reconcileEvery <= 0 then 600 * SECOND else th.reconcileEvery)
  }

  /** now.Sub(t): saturating, and as large as can be from the zero time. */
  function Since(now: int, t: Option<int>): int {
    if t.None? || now - t.value > MAX_DURATION then MAX_DURATION
    else if now - t.value < -MAX_DURATION - 1 then -MAX_DURATION - 1
    else now - t.value
  }

  /** A product of 64-bit durations, wrapped. */
  function Wrap64(x: int): int {
    var r := x % 0x1_0000_0000_0000_0000;
    if r > MAX_DURATION then r - 0x1_0000_0000_0000_0000 else r
  }

  datatype PullDecision = PullDecision(pull: bool, reason: string)

  function ShouldPull(v: NodeView, now: int, given: Thresholds): PullDecision {
    var th := WithDefaults(given);
    if v.lastPull.None? && v.lastSeen.Some? then PullDecision(true, "initial baseline pull")
    else if v.heardVersion > v.pulledVersion then PullDecision(true, "config_version advanced")
    else if v.heardBytes - v.pulledBytes >= th.byteDelta then PullDecision(true, "traffic delta over threshold")
    else if Since(now, v.lastPull) >= th.reconcileEvery then PullDecision(true, "reconcile interval elapsed")
    else PullDecision(false, "")
  }

  /** The longest silence tolerated. */
  function Limit(interval: int, allowedMisses: int): int {
    Wrap64((if allowedMisses <= 0 then 3 else allowedMisses) * (if interval <= 0 then 20 * SECOND else interval))
  }

  predicate MarkDown(lastSeen: Option<int>, now: int, interval: int, allowedMisses: int) {
    lastSeen.Some? && Since(now, lastSeen) > Limit(interval, allowedMisses)
  }

  /** A node is down when it has been heard and then not for longer than the misses allowed, 3 unless set, of the
      interval, 20 s unless set. */
  lemma DownIff(heard: int, now: int, interval: int, allowedMisses: int)
    requires heard <= now
    requires var misses, every := if allowedMisses > 0 then allowedMisses else 3, if interval > 0 then interval else 20_000_000_000;
      misses * every <= MAX_DURATION && (misses * every < MAX_DURATION || now - heard <= MAX_DURATION)
    ensures var misses, every := if allowedMisses > 0 then allowedMisses else 3, if interval > 0 then interval else 20_000_000_000;
      MarkDown(Some(heard), now, interval, allowedMisses) <==> now - heard > misses * every
    ensures !MarkDown(None, now, interval, allowedMisses)
  {
    MulPositive(if allowedMisses > 0 then allowedMisses else 3, if interval > 0 then interval else 20_000_000_000);
  }

  /** A pull is due for a node never pulled, on a newer version, on traffic ahead by the threshold, 256 MiB unless set,
      or once the reconcile interval, 10 minutes unless set, has passed. */
  lemma PullIff(v: NodeView, now: int, th: Thresholds)
    requires th.reconcileEvery <= MAX_DURATION && (v.lastPull.Some? ==> v.lastPull.value <= now)
    ensures ShouldPull(v, now, th).pull <==>
      || v.lastPull.None?
      || v.heardVersion > v.pulledVersion
      || v.heardBytes - v.pulledBytes >= (if th.byteDelta > 0 then th.byteDelta else 268_435_456)
      || now - v.lastPull.value >= (if th.reconcileEvery > 0 then th.reconcileEvery else 600_000_000_000)
  {
  }

  /** The limit is that many intervals exactly when the product fits a 64-bit duration. */
  lemma LimitIsProduct(interval: int, allowedMisses: int)
    requires 0 < interval <= MAX_DURATION && 0 < allowedMisses <= MAX_DURATION
    ensures Limit(interval, allowedMisses) == allowedMisses * interval <==> allowedMisses * interval <= MAX_DURATION
  {
    MulPositive(allowedMisses, interval);
  }

  /** Beyond that it can turn negative, and then no silence is short enough. */
  lemma LimitWraps()
    ensures Limit(20 * SECOND, 461168602) < 0
  {
  }

  lemma MulPositive(a: int, b: int)
    requires a > 0 && b > 0
    ensures a * b > 0
  {
  }

  /** Silence only grows while nothing is heard. */
  lemma MarkDownMonotone(lastSeen: Option<int>, now: int, later: int, interval: int, misses: int)
    requires now <= later && MarkDown(lastSeen, now, interval, misses)
    ensures MarkDown(lastSeen, later, interval, misses)
  {
    hide Limit;
  }

  /** Traffic as a pull reply records it. */
  function TotalOf(users: seq<Detail>): int {
    if users == [] then 0 else TotalOf(users[..|users| - 1]) + users[|users| - 1].rx + users[|users| - 1].tx
  }
}
