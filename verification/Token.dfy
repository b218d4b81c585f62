/** Announce tokens: a secret that is rotated lazily, and for how long a token made from it is good. */
module Token {
  import opened Bytes
  import opened Sha

  /** Clock readings, in nanoseconds. */
  type Time = int
  const MINUTE := 60_000_000_000
  const REFRESH_INTERVAL_MINS := 10
  const INTERVAL := REFRESH_INTERVAL_MINS * MINUTE

  type Secret = n: nat | n < 0x1_0000_0000

  datatype IpAddr = V4(octets: seq<Byte>) | V6(octets: seq<Byte>)

  predicate ValidAddr(a: IpAddr) {
    |a.octets| == if a.V4? then 4 else 16
  }

  // ----- Making tokens

  /** What is hashed into a token: the address, then the secret. */
  function SecretBuffer(addr: IpAddr, secret: Secret): seq<Byte> {
    addr.octets + LowBytes(secret, 4)
  }

  /** The address comes first and the secret, most significant byte first, after it. */
  lemma BufferLayout(a: IpAddr, s: Secret)
    ensures var b := SecretBuffer(a, s);
            a.octets <= b && |b| == |a.octets| + 4 && BigEndian(b[|a.octets|..]) == s
  {
    hide BigEndian, LowBytes;
    assert SecretBuffer(a, s)[|a.octets|..] == LowBytes(s, 4);
    assert Power256(4) == 0x1_0000_0000;
    BigEndianOfLowBytes(s, Power256(4), 4);
  }

  /** Different addresses or secrets are never hashed from the same bytes. */
  lemma BufferIdentifies(a: IpAddr, s: Secret, b: IpAddr, t: Secret)
    requires ValidAddr(a) && ValidAddr(b) && SecretBuffer(a, s) == SecretBuffer(b, t)
    ensures a == b && s == t
  {
    var x, y := LowBytes(s, 4), LowBytes(t, 4);
    var n := |a.octets|;
    assert SecretBuffer(a, s)[..n] == a.octets && SecretBuffer(b, t)[..n] == b.octets;
    assert SecretBuffer(a, s)[n..] == x && SecretBuffer(b, t)[n..] == y;
    assert Power256(4) == 0x1_0000_0000;
    BigEndianOfLowBytes(s, Power256(4), 4);
    BigEndianOfLowBytes(t, Power256(4), 4);
  }

  type Hasher = seq<Byte> -> ShaHash

  function TokenFor(hash: Hasher, addr: IpAddr, secret: Secret): ShaHash {
    hash(SecretBuffer(addr, secret))
  }

  /** The hash tells the buffers of two addresses apart. */
  ghost predicate InjectiveOn(hash: Hasher, a: IpAddr, b: IpAddr) {
    forall s: Secret, t: Secret :: TokenFor(hash, a, s) == TokenFor(hash, b, t) ==> SecretBuffer(a, s) == SecretBuffer(b, t)
  }

  /** The hash tells the secrets of an address apart. */
  ghost predicate CollisionFree(hash: Hasher, addr: IpAddr) {
    forall s: Secret, t: Secret :: TokenFor(hash, addr, s) == TokenFor(hash, addr, t) ==> s == t
  }

  lemma InjectiveIsCollisionFree(hash: Hasher, addr: IpAddr)
    requires ValidAddr(addr) && InjectiveOn(hash, addr, addr)
    ensures CollisionFree(hash, addr)
  {
    hide SecretBuffer;
    forall s: Secret, t: Secret | TokenFor(hash, addr, s) == TokenFor(hash, addr, t) ensures s == t {
      BufferIdentifies(addr, s, addr, t);
    }
  }

  // ----- The store

  /** The secrets and when they were drawn; `drawn` counts the random numbers used so far. */
  datatype Store = Store(curr: Secret, last: Secret, refreshed: Time, drawn: nat)

  type Draws = nat -> Secret

  function New(draws: Draws, now: Time): Store {
    Store(draws(0), draws(1), now, 2)
  }

  /** Division that rounds toward zero. */
  function Truncated(n: int, d: int): int
    requires d > 0
  {
    if n < 0 then -(-n / d) else n / d
  }

  function IntervalsPassed(refreshed: Time, now: Time): int {
    Truncated(Truncated(now - refreshed, MINUTE), REFRESH_INTERVAL_MINS)
  }

  /** What one call reads off the clock: to tell how long ago the refresh was, and if it refreshes, once more. */
  datatype Reading = Reading(now: Time, later: Time)

  function Refreshed(draws: Draws, s: Store, at: Reading): Store {
    match IntervalsPassed(s.refreshed, at.now)
    case 0 => s
    case 1 => Store(draws(s.drawn), s.curr, at.later, s.drawn + 1)
    case _ => Store(draws(s.drawn + 1), draws(s.drawn), at.later, s.drawn + 2)
  }

  predicate Accepts(hash: Hasher, s: Store, addr: IpAddr, token: ShaHash) {
    TokenFor(hash, addr, s.curr) == token || TokenFor(hash, addr, s.last) == token
  }

  /** Whatever the secrets, a token made for one address is never accepted for another. */
  lemma TokenBoundToAddress(hash: Hasher, s: Store, a: IpAddr, b: IpAddr, secret: Secret)
    requires ValidAddr(a) && ValidAddr(b) && a != b && InjectiveOn(hash, b, a)
    ensures !Accepts(hash, s, b, TokenFor(hash, a, secret))
  {
    hide SecretBuffer;
    if TokenFor(hash, b, s.curr) == TokenFor(hash, a, secret) {
      BufferIdentifies(b, s.curr, a, secret);
    }
    if TokenFor(hash, b, s.last) == TokenFor(hash, a, secret) {
      BufferIdentifies(b, s.last, a, secret);
    }
  }

  class TokenStore {
    const hash: Hasher
    const draws: Draws
    var currSecret: Secret
    var lastSecret: Secret
    var lastRefresh: Time
    var drawn: nat

    function Value(): Store
      reads this
    {
      Store(currSecret, lastSecret, lastRefresh, drawn)
    }

    constructor (hash: Hasher, draws: Draws, now: Time)
      ensures Value() == New(draws, now) && this.hash == hash && this.draws == draws
    {
      this.hash, this.draws := hash, draws;
      currSecret, lastSecret, lastRefresh, drawn := draws(0), draws(1), now, 2;
    }

    method RefreshCheck(at: Reading)
      modifies this
      ensures Value() == Refreshed(draws, old(Value()), at)
    {
      var n := IntervalsPassed(lastRefresh, at.now);
      if n == 0 {
        return;
      } else if n == 1 {
        lastSecret := currSecret;
        currSecret := draws(drawn);
        drawn := drawn + 1;
      } else {
        lastSecret := draws(drawn);
        currSecret := draws(drawn + 1);
        drawn := drawn + 2;
      }
      lastRefresh := at.later;
    }

    method Checkout(addr: IpAddr, at: Reading) returns (token: ShaHash)
      modifies this
      ensures Value() == Refreshed(draws, old(Value()), at)
      ensures Accepts(hash, Value(), addr, token) && token == TokenFor(hash, addr, currSecret)
    {
      RefreshCheck(at);
      token := TokenFor(hash, addr, currSecret);
    }

    method Checkin(addr: IpAddr, token: ShaHash, at: Reading) returns (ok: bool)
      modifies this
      ensures Value() == Refreshed(draws, old(Value()), at)
      ensures ok == Accepts(hash, Value(), addr, token)
    {
      RefreshCheck(at);
      ok := TokenFor(hash, addr, currSecret) == token || TokenFor(hash, addr, lastSecret) == token;
    }
  }

  // ----- Whole runs

  /** When the store is made, when it is called before the checkout, then until the checkin. */
  datatype Schedule =
    Schedule(created: Time, before: seq<Reading>, checkout: Reading, between: seq<Reading>, checkin: Reading)

  /** Clock readings that never go back, from `lo` through the calls to the last one. */
  ghost predicate Forward(lo: Time, calls: seq<Reading>, last: Reading)
    decreases |calls|
  {
    if calls == [] then lo <= last.now <= last.later
    else lo <= calls[0].now <= calls[0].later && Forward(calls[0].later, calls[1..], last)
  }

  ghost predicate Ordered(s: Schedule) {
    Forward(s.created, s.before, s.checkout) && Forward(s.checkout.later, s.between, s.checkin)
  }

  /** Between the two readings of any call after the checkout at most `gap` passes. */
  ghost predicate Prompt(calls: seq<Reading>, gap: nat) {
    forall i :: 0 <= i < |calls| ==> calls[i].later - calls[i].now <= gap
  }

  ghost function Calls(draws: Draws, s: Store, calls: seq<Reading>): Store
    decreases |calls|
  {
    if calls == [] then s else Calls(draws, Refreshed(draws, s, calls[0]), calls[1..])
  }

  ghost function AtCheckout(draws: Draws, s: Schedule): Store {
    Refreshed(draws, Calls(draws, New(draws, s.created), s.before), s.checkout)
  }

  ghost function AtCheckin(draws: Draws, s: Schedule): Store {
    Refreshed(draws, Calls(draws, AtCheckout(draws, s), s.between), s.checkin)
  }

  /** The token checked out is good at the checkin. */
  ghost predicate Good(hash: Hasher, draws: Draws, addr: IpAddr, s: Schedule) {
    Accepts(hash, AtCheckin(draws, s), addr, TokenFor(hash, addr, AtCheckout(draws, s).curr))
  }

  /** No secret is drawn twice. */
  ghost predicate FreshSecrets(draws: Draws, n: nat) {
    forall i, j :: 0 <= i < j < n ==> draws(i) != draws(j)
  }

  /** How a refresh goes, in whole intervals. */
  lemma IntervalsAre(refreshed: Time, now: Time)
    requires refreshed <= now
    ensures IntervalsPassed(refreshed, now) == (now - refreshed) / INTERVAL
  {}

  // ----- Good for ten minutes

  ghost predicate StillGood(s: Store, secret: Secret, checkout: Time, was: Time) {
    && s.refreshed <= was
    && (|| (s.curr == secret && checkout < s.refreshed + INTERVAL)
        || (s.last == secret && checkout < s.refreshed))
  }

  lemma StillGoodStep(draws: Draws, s: Store, secret: Secret, checkout: Time, was: Time, at: Reading)
    requires StillGood(s, secret, checkout, was) && was <= at.now <= at.later && at.now <= checkout + INTERVAL
    ensures StillGood(Refreshed(draws, s, at), secret, checkout, at.later)
  {
    IntervalsAre(s.refreshed, at.now);
  }

  lemma {:induction false} StillGoodRun(draws: Draws, s: Store, secret: Secret, checkout: Time, was: Time,
                                        calls: seq<Reading>, last: Reading)
    requires StillGood(s, secret, checkout, was) && Forward(was, calls, last) && last.now <= checkout + INTERVAL
    ensures StillGood(Refreshed(draws, Calls(draws, s, calls), last), secret, checkout, last.later)
    decreases |calls|
  {
    hide StillGood, Refreshed;
    if calls == [] {
      StillGoodStep(draws, s, secret, checkout, was, last);
    } else {
      ForwardEnds(calls[0].later, calls[1..], last);
      StillGoodStep(draws, s, secret, checkout, was, calls[0]);
      StillGoodRun(draws, Refreshed(draws, s, calls[0]), secret, checkout, calls[0].later, calls[1..], last);
    }
  }

  lemma {:induction false} ForwardEnds(lo: Time, calls: seq<Reading>, last: Reading)
    requires Forward(lo, calls, last)
    ensures lo <= last.now <= last.later
    decreases |calls|
  {
    if calls != [] {
      ForwardEnds(calls[0].later, calls[1..], last);
    }
  }

  /** A call leaves the store refreshed less than an interval before it. */
  lemma RecentlyRefreshed(draws: Draws, s: Store, at: Reading)
    requires s.refreshed <= at.now <= at.later
    ensures Refreshed(draws, s, at).refreshed <= at.later && at.now < Refreshed(draws, s, at).refreshed + INTERVAL
  {
    IntervalsAre(s.refreshed, at.now);
  }

  lemma {:induction false} CallsRecent(draws: Draws, s: Store, was: Time, calls: seq<Reading>, last: Reading)
    requires s.refreshed <= was && Forward(was, calls, last)
    ensures Calls(draws, s, calls).refreshed <= last.now <= last.later
    decreases |calls|
  {
    if calls != [] {
      RecentlyRefreshed(draws, s, calls[0]);
      CallsRecent(draws, Refreshed(draws, s, calls[0]), calls[0].later, calls[1..], last);
    }
  }

  lemma GoodForTenMinutes(hash: Hasher, draws: Draws, addr: IpAddr, s: Schedule)
    requires Ordered(s) && s.checkin.now - s.checkout.now <= INTERVAL
    ensures Good(hash, draws, addr, s)
  {
    hide Refreshed, Calls;
    var early, at := Calls(draws, New(draws, s.created), s.before), AtCheckout(draws, s);
    CallsRecent(draws, New(draws, s.created), s.created, s.before, s.checkout);
    RecentlyRefreshed(draws, early, s.checkout);
    StillGoodRun(draws, at, at.curr, s.checkout.now, s.checkout.later, s.between, s.checkin);
  }

  // ----- Useless after thirty

  /** Where a secret stands: current, last, or forgotten. */
  ghost predicate Ageing(draws: Draws, s: Store, k: nat, checkout: Time, was: Time, gap: nat) {
    && k < s.drawn
    && s.refreshed <= was
    && (|| (s.curr == draws(k) && s.refreshed <= checkout)
        || (s.curr != draws(k) && s.last == draws(k) && s.refreshed < checkout + 2 * INTERVAL + gap)
        || Forgotten(draws, s, k))
  }

  ghost predicate Forgotten(draws: Draws, s: Store, k: nat) {
    k < s.drawn && s.curr != draws(k) && s.last != draws(k)
  }

  lemma AgeingStep(draws: Draws, s: Store, k: nat, checkout: Time, was: Time, at: Reading, gap: nat)
    requires Ageing(draws, s, k, checkout, was, gap) && checkout <= was <= at.now <= at.later
    requires FreshSecrets(draws, Refreshed(draws, s, at).drawn)
    ensures at.later - at.now <= gap ==> Ageing(draws, Refreshed(draws, s, at), k, checkout, at.later, gap)
    ensures at.now >= checkout + 3 * INTERVAL - 1 + gap ==> Forgotten(draws, Refreshed(draws, s, at), k)
  {
    IntervalsAre(s.refreshed, at.now);
  }

  lemma {:induction false} CallsDraw(draws: Draws, s: Store, calls: seq<Reading>)
    ensures s.drawn <= Calls(draws, s, calls).drawn
    decreases |calls|
  {
    if calls != [] {
      CallsDraw(draws, Refreshed(draws, s, calls[0]), calls[1..]);
    }
  }

  lemma {:induction false} AgeingRun(draws: Draws, s: Store, k: nat, checkout: Time, was: Time, calls: seq<Reading>,
                                     last: Reading, gap: nat)
    requires Ageing(draws, s, k, checkout, was, gap) && Forward(was, calls, last) && checkout <= was
    requires Prompt(calls, gap) && last.now >= checkout + 3 * INTERVAL - 1 + gap
    requires FreshSecrets(draws, Refreshed(draws, Calls(draws, s, calls), last).drawn)
    ensures Forgotten(draws, Refreshed(draws, Calls(draws, s, calls), last), k)
    decreases |calls|
  {
    hide Ageing, Forgotten, Refreshed;
    if calls == [] {
      AgeingStep(draws, s, k, checkout, was, last, gap);
    } else {
      var next := Refreshed(draws, s, calls[0]);
      CallsDraw(draws, next, calls[1..]);
      MoreDrawn(draws, Calls(draws, s, calls), last);
      AgeingStep(draws, s, k, checkout, was, calls[0], gap);
      AgeingRun(draws, next, k, checkout, calls[0].later, calls[1..], last, gap);
    }
  }

  lemma MoreDrawn(draws: Draws, s: Store, at: Reading)
    ensures s.drawn <= Refreshed(draws, s, at).drawn
  {}

  /** The current secret is the first one drawn or the latest. */
  ghost predicate Known(draws: Draws, s: Store) {
    s.drawn >= 2 && (s.curr == draws(0) || s.curr == draws(s.drawn - 1))
  }

  lemma RefreshedKnown(draws: Draws, s: Store, at: Reading)
    requires Known(draws, s)
    ensures Known(draws, Refreshed(draws, s, at))
  {}

  lemma {:induction false} CallsKnown(draws: Draws, s: Store, calls: seq<Reading>)
    requires Known(draws, s)
    ensures Known(draws, Calls(draws, s, calls))
    decreases |calls|
  {
    if calls != [] {
      CallsKnown(draws, Refreshed(draws, s, calls[0]), calls[1..]);
    }
  }

  /** Refused from thirty minutes plus the gap of the calls between on, less one tick. */
  lemma UselessAfterThirtyMinutes(hash: Hasher, draws: Draws, addr: IpAddr, s: Schedule, gap: nat)
    requires Ordered(s) && Prompt(s.between, gap) && s.checkin.now - s.checkout.later >= 3 * INTERVAL - 1 + gap
    requires FreshSecrets(draws, AtCheckin(draws, s).drawn) && CollisionFree(hash, addr)
    ensures !Good(hash, draws, addr, s)
  {
    hide Refreshed, Calls, Forward, FreshSecrets, Prompt;
    var early, at := Calls(draws, New(draws, s.created), s.before), AtCheckout(draws, s);
    CallsRecent(draws, New(draws, s.created), s.created, s.before, s.checkout);
    CallsKnown(draws, New(draws, s.created), s.before);
    RecentlyRefreshed(draws, early, s.checkout);
    RefreshedKnown(draws, early, s.checkout);
    var k := if at.curr == draws(0) then 0 else at.drawn - 1;
    AgeingRun(draws, at, k, s.checkout.later, s.checkout.later, s.between, s.checkin, gap);
  }

  // ----- Exactly how long

  /** Both readings of a call at once. */
  function At(t: Time): Reading {
    Reading(t, t)
  }

  /** The latest a token can still be good: refreshed just short of two intervals, used just short of a third. */
  function LongestLife(age: nat, gap: nat): Schedule {
    if age < 2 * INTERVAL then Schedule(0, [], At(0), [], At(age))
    else
      var mid := 2 * INTERVAL - 1;
      Schedule(0, [], At(0), [Reading(mid, if mid + gap <= age then mid + gap else age)], At(age))
  }

  /** The earliest a token can be refused: checked out just short of an interval, used after two. */
  function ShortestLife(age: nat): Schedule {
    Schedule(0, [], At(INTERVAL - 1), [], At(INTERVAL - 1 + age))
  }

  lemma LongestIsGood(hash: Hasher, draws: Draws, addr: IpAddr, age: nat, gap: nat)
    requires age <= 3 * INTERVAL - 2 + gap
    ensures Ordered(LongestLife(age, gap)) && Prompt(LongestLife(age, gap).between, gap)
    ensures Good(hash, draws, addr, LongestLife(age, gap))
    ensures AtCheckin(draws, LongestLife(age, gap)).drawn <= 3
  {
    IntervalsAre(0, 0);
    if age < 2 * INTERVAL {
      IntervalsAre(0, age);
    } else {
      var mid := LongestLife(age, gap).between[0];
      var made, once: Store := New(draws, 0), Store(draws(2), draws(0), mid.later, 3);
      IntervalsAre(0, mid.now);
      IntervalsAre(mid.later, age);
      assert Refreshed(draws, made, mid) == once && Refreshed(draws, once, At(age)) == once;
      assert [mid][1..] == [] && Calls(draws, made, [mid]) == Calls(draws, once, []);
    }
  }

  lemma ShortestIsRefused(hash: Hasher, draws: Draws, addr: IpAddr, age: nat)
    requires age > INTERVAL && FreshSecrets(draws, 4) && CollisionFree(hash, addr)
    ensures Ordered(ShortestLife(age)) && !Good(hash, draws, addr, ShortestLife(age))
  {
    IntervalsAre(0, INTERVAL - 1);
    IntervalsAre(0, INTERVAL - 1 + age);
  }

  /** The checkin starts `age` after the checkout starts. */
  ghost predicate StartsAt(s: Schedule, age: nat) {
    Ordered(s) && s.checkin.now - s.checkout.now == age
  }

  /** The checkin starts `age` after the checkout ends, and calls between take no longer than `gap`. */
  ghost predicate EndsAt(s: Schedule, age: nat, gap: nat) {
    Ordered(s) && Prompt(s.between, gap) && s.checkin.now - s.checkout.later == age
  }

  /** On every schedule a token is good at an age exactly when that is at most ten minutes. */
  lemma AlwaysGoodUntil(hash: Hasher, draws: Draws, addr: IpAddr, age: nat)
    requires FreshSecrets(draws, 4) && CollisionFree(hash, addr)
    ensures (forall s :: StartsAt(s, age) ==> Good(hash, draws, addr, s)) <==> age <= INTERVAL
  {
    if age <= INTERVAL {
      forall s | StartsAt(s, age) ensures Good(hash, draws, addr, s) {
        GoodForTenMinutes(hash, draws, addr, s);
      }
    } else {
      ShortestIsRefused(hash, draws, addr, age);
      assert StartsAt(ShortestLife(age), age);
    }
  }

  /** On some schedule a token is good at an age exactly when that is at most thirty minutes less two ticks, plus the gap. */
  lemma SometimesGoodUntil(hash: Hasher, draws: Draws, addr: IpAddr, age: nat, gap: nat)
    requires FreshSecrets(draws, 4) && CollisionFree(hash, addr)
    ensures (exists s :: EndsAt(s, age, gap) && FreshSecrets(draws, AtCheckin(draws, s).drawn) && Good(hash, draws, addr, s))
            <==> age <= 3 * INTERVAL - 2 + gap
  {
    if age <= 3 * INTERVAL - 2 + gap {
      LongestIsGood(hash, draws, addr, age, gap);
      assert EndsAt(LongestLife(age, gap), age, gap);
    } else {
      forall s | EndsAt(s, age, gap) && FreshSecrets(draws, AtCheckin(draws, s).drawn)
        ensures !Good(hash, draws, addr, s)
      {
        UselessAfterThirtyMinutes(hash, draws, addr, s, gap);
      }
    }
  }
}
