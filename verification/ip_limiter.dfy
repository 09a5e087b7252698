/** The per-IP limiter of code issuance: `checkIpRateLimit` and
    `incrementIpCounter` over the `phone-verification:ip:<ip>` namespace.
    It is a fixed window: the 24-hour expiry is set only by the increment
    that creates the counter. A missing client address is the empty string
    and is never limited. */
module IpLimiter {
  import opened Wrappers
  import opened TtlStore

  const MAX_REQUESTS_PER_IP: nat := 10
  const IP_BLOCK_HOURS: nat := 24
  const IP_WINDOW_MS: nat := IP_BLOCK_HOURS * 60 * 60 * 1000

  type Counters = map<string, Entry<nat>>

  /** The counter as read at time `now`; an absent key counts as zero. */
  function Count(counters: Counters, ip: string, now: int): nat {
    match Get(counters, ip, now)
    case Some(c) => c
    case None => 0
  }

  /** `checkIpRateLimit`: allowed for an empty address, otherwise allowed
      exactly while fewer than ten requests were counted in the window. */
  function CheckIp(counters: Counters, ip: string, now: int): (allowed: bool)
    ensures ip == "" ==> allowed
    ensures ip != "" ==> (allowed <==> Count(counters, ip, now) < MAX_REQUESTS_PER_IP)
  {
    if ip == "" then true
    else
      match Get(counters, ip, now)
      case Some(c) => c < MAX_REQUESTS_PER_IP
      case None => true
  }

  /** `incrementIpCounter`: `exists`, then `increment`, then `pexpireAt`
      only when the key did not exist before. */
  function IncrementIp(counters: Counters, ip: string, now: int): (r: Counters)
    ensures ip == "" ==> r == counters
    ensures ip != "" ==> Count(r, ip, now) == Count(counters, ip, now) + 1
    ensures ip != "" && Live(counters, ip, now) ==> r[ip].expiresAt == counters[ip].expiresAt
    ensures ip != "" && !Live(counters, ip, now) ==> r[ip].expiresAt == now + IP_WINDOW_MS
    ensures SameElsewhere(r, counters, ip)
  {
    if ip == "" then counters
    else if Live(counters, ip, now) then
      counters[ip := Entry(counters[ip].value + 1, counters[ip].expiresAt)]
    else
      counters[ip := Entry(1, now + IP_WINDOW_MS)]
  }

  /** The two tables agree on every address other than `ip`. */
  predicate SameElsewhere(a: Counters, b: Counters, ip: string) {
    a - {ip} == b - {ip}
  }

  /** Increments of one address at the given (non-decreasing) times. */
  function IncrementAll(counters: Counters, ip: string, times: seq<int>): Counters
    decreases |times|
  {
    if times == [] then counters
    else IncrementIp(IncrementAll(counters, ip, times[..|times| - 1]), ip, times[|times| - 1])
  }

  predicate NonDecreasing(times: seq<int>) {
    forall i, j :: 0 <= i <= j < |times| ==> times[i] <= times[j]
  }

  /** Every counter expires at most one window after `now`: a window once
      opened is never extended, so a blocked address is released within
      24 hours of any moment. */
  predicate CountersOk(counters: Counters, now: int) {
    forall k :: k in counters ==> counters[k].expiresAt <= now + IP_WINDOW_MS
  }

  lemma IncrementKeepsInvariant(counters: Counters, ip: string, now: int, later: int)
    requires CountersOk(counters, now) && now <= later
    ensures CountersOk(IncrementIp(counters, ip, later), later)
  {
  }

  /** A window opened at `times[0]` counts every increment made before it
      closes, keeps its first expiry, and leaves other addresses alone. */
  lemma {:induction false} WindowCountsIncrements(counters: Counters, ip: string, times: seq<int>)
    requires ip != "" && |times| > 0
    requires !Live(counters, ip, times[0])
    requires NonDecreasing(times) && times[|times| - 1] < times[0] + IP_WINDOW_MS
    ensures var r := IncrementAll(counters, ip, times);
      && Count(r, ip, times[|times| - 1]) == |times|
      && r[ip].expiresAt == times[0] + IP_WINDOW_MS
      && SameElsewhere(r, counters, ip)
  {
    var n := |times|;
    var r := IncrementAll(counters, ip, times);
    if n > 1 {
      var prefix := times[..n - 1];
      assert NonDecreasing(prefix);
      assert prefix[0] == times[0] && prefix[n - 2] == times[n - 2];
      WindowCountsIncrements(counters, ip, prefix);
      var mid := IncrementAll(counters, ip, prefix);
      assert Live(mid, ip, times[n - 1]);
      assert Count(mid, ip, times[n - 1]) == n - 1;
    }
  }

  /** Ten increments inside one window block the address for the rest of
      the window, while fewer leave it allowed; another address is unaffected. */
  lemma TenRequestsBlock(counters: Counters, ip: string, times: seq<int>, other: string)
    requires ip != "" && |times| > 0
    requires !Live(counters, ip, times[0])
    requires NonDecreasing(times) && times[|times| - 1] < times[0] + IP_WINDOW_MS
    requires other != ip
    ensures var r := IncrementAll(counters, ip, times);
      && (CheckIp(r, ip, times[|times| - 1]) <==> |times| < MAX_REQUESTS_PER_IP)
      && CheckIp(r, other, times[|times| - 1]) == CheckIp(counters, other, times[|times| - 1])
  {
    WindowCountsIncrements(counters, ip, times);
    var r := IncrementAll(counters, ip, times);
    assert other in r <==> other in r - {ip};
    assert other in counters <==> other in counters - {ip};
  }

  /** Once the window has closed the address is allowed again, however many
      requests it made. */
  lemma WindowCloses(counters: Counters, ip: string, now: int)
    requires ip in counters && now >= counters[ip].expiresAt
    ensures CheckIp(counters, ip, now)
  {
  }
}
