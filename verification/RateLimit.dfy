/** The fixed-window rate limiter: a Redis counter per name, identifier and aligned window.
    Times are milliseconds since the epoch; the clock read and the INCR are one step. */
module RateLimit {
  import opened Options
  import opened Text

  datatype Scope = User | Ip | Global

  datatype Config = Config(windowSec: nat, max: nat, scope: Scope, name: string)

  datatype Request = Request(config: Config, userId: Option<string>, ip: string)

  datatype Counter = Counter(count: nat, expiresAt: Option<nat>)

  datatype Outcome = Passed | Limited(retryAfter: int)

  type Store = map<string, Counter>

  // ---------------------------------------------------------------- the commands

  /** Redis drops a key once its expiry lies in the past. */
  predicate Live(store: Store, key: string, now: nat) {
    key in store && (store[key].expiresAt.Some? ==> now <= store[key].expiresAt.value)
  }

  function Incremented(store: Store, key: string, now: nat): Store {
    if Live(store, key, now) then store[key := store[key].(count := store[key].count + 1)]
    else store[key := Counter(1, None)]
  }

  function Expiring(store: Store, key: string, seconds: nat, now: nat): Store {
    if Live(store, key, now) then store[key := store[key].(expiresAt := Some(now + 1000 * seconds))] else store
  }

  class Redis {
    var counters: Store

    method Incr(key: string, now: nat) returns (used: nat)
      modifies this
      ensures counters == Incremented(old(counters), key, now)
      ensures key in counters && used == counters[key].count
      ensures key in old(counters) && (old(counters)[key].expiresAt.Some? ==> now <= old(counters)[key].expiresAt.value) ==>
        counters == old(counters)[key := Counter(old(counters)[key].count + 1, old(counters)[key].expiresAt)]
      ensures key !in old(counters) || (old(counters)[key].expiresAt.Some? && now > old(counters)[key].expiresAt.value) ==>
        counters == old(counters)[key := Counter(1, None)]
    {
      if Live(counters, key, now) {
        counters := counters[key := counters[key].(count := counters[key].count + 1)];
      } else {
        counters := counters[key := Counter(1, None)];
      }
      used := counters[key].count;
    }

    method Expire(key: string, seconds: nat, now: nat)
      modifies this
      ensures counters == Expiring(old(counters), key, seconds, now)
      ensures key in old(counters) && (old(counters)[key].expiresAt.Some? ==> now <= old(counters)[key].expiresAt.value) ==>
        counters == old(counters)[key := Counter(old(counters)[key].count, Some(now + seconds * 1000))]
      ensures key !in old(counters) || (old(counters)[key].expiresAt.Some? && now > old(counters)[key].expiresAt.value) ==>
        counters == old(counters)
    {
      if Live(counters, key, now) {
        counters := counters[key := counters[key].(expiresAt := Some(now + 1000 * seconds))];
      }
    }
  }

  // ---------------------------------------------------------------- the guard

  function WindowStart(now: nat, windowSec: nat): nat
    requires windowSec > 0
  {
    now / 1000 / windowSec * windowSec
  }

  function Key(name: string, identifier: string, windowStart: nat): string {
    "rl:" + (name + ([':'] + (identifier + ([':'] + Decimal(windowStart)))))
  }

  /** No principal, or an empty identifier, means nothing to count by. */
  function IdentifierFor(req: Request): Option<string> {
    var raw :=
      match req.config.scope
      case User => req.userId
      case Ip => Some(req.ip)
      case Global => Some("all");
    if raw == Some("") then None else raw
  }

  function RetryAfter(windowSec: nat, windowStart: nat, later: nat): int {
    var left := windowSec - (later / 1000 - windowStart);
    if left < 1 then 1 else left
  }

  method CanActivate(redis: Redis, req: Request, now: nat, later: nat) returns (outcome: Outcome)
    requires req.config.windowSec > 0
    modifies redis
    ensures redis.counters == StoreAfterOne(old(redis.counters), Arrival(req, now))
    ensures outcome == Answer(old(redis.counters), Arrival(req, now), later)
  {
    var identifier := IdentifierFor(req);
    if identifier == None {
      return Passed;
    }
    var windowStart := now / 1000 / req.config.windowSec * req.config.windowSec;
    var key := Key(req.config.name, identifier.value, windowStart);
    var used := redis.Incr(key, now);
    if used == 1 {
      redis.Expire(key, req.config.windowSec, now);
    }
    if used > req.config.max {
      return Limited(RetryAfter(req.config.windowSec, windowStart, later));
    }
    return Passed;
  }

  // ---------------------------------------------------------------- whole runs

  datatype Arrival = Arrival(req: Request, now: nat) {
    predicate Sound() {
      req.config.windowSec > 0 && Lacks(req.config.name, ':')
    }

    predicate Counted() {
      IdentifierFor(req).Some?
    }

    function Window(): nat
      requires req.config.windowSec > 0
    {
      WindowStart(now, req.config.windowSec)
    }

    function KeyOf(): string
      requires req.config.windowSec > 0 && Counted()
    {
      Key(req.config.name, IdentifierFor(req).value, Window())
    }
  }

  function StoreAfterOne(store: Store, a: Arrival): Store
    requires a.req.config.windowSec > 0
  {
    if !a.Counted() then store
    else
      var s := Incremented(store, a.KeyOf(), a.now);
      if s[a.KeyOf()].count == 1 then Expiring(s, a.KeyOf(), a.req.config.windowSec, a.now) else s
  }

  function Answer(store: Store, a: Arrival, later: nat): Outcome
    requires a.req.config.windowSec > 0
  {
    if !a.Counted() || Incremented(store, a.KeyOf(), a.now)[a.KeyOf()].count <= a.req.config.max then Passed
    else Limited(RetryAfter(a.req.config.windowSec, a.Window(), later))
  }

  /** Handlers that share a name share a limit; the names in use contain no colon. */
  ghost predicate SoundRun(run: seq<Arrival>) {
    && (forall a :: a in run ==> a.Sound())
    && forall a, b :: a in run && b in run && a.req.config.name == b.req.config.name ==> a.req.config == b.req.config
  }

  function StoreAfter(run: seq<Arrival>): Store
    requires forall a :: a in run ==> a.Sound()
  {
    if |run| == 0 then map[]
    else
      var p, a := run[..|run| - 1], run[|run| - 1];
      assert a in run && a.Sound();
      StoreAfterOne(StoreAfter(p), a)
  }

  /** There is somebody to count: a user of known id under a limit per user, an address under one per
      address, anybody under a global one. */
  predicate Identified(req: Request) {
    match req.config.scope
    case User => req.userId.Some? && req.userId.value != ""
    case Ip => req.ip != ""
    case Global => true
  }

  /** Same limit, and what it counts by is the same. */
  predicate SameClient(a: Arrival, b: Arrival) {
    && Identified(a.req) && Identified(b.req) && a.req.config == b.req.config
    && match a.req.config.scope {
         case User => a.req.userId == b.req.userId
         case Ip => a.req.ip == b.req.ip
         case Global => true
       }
  }

  predicate SameBucket(a: Arrival, b: Arrival)
    requires a.Sound() && b.Sound()
  {
    SameClient(a, b) && a.now / 1000 / a.req.config.windowSec == b.now / 1000 / b.req.config.windowSec
  }

  lemma IdentifierExactly(a: Arrival, b: Arrival)
    ensures a.Counted() <==> Identified(a.req)
    ensures SameClient(a, b) <==>
      a.Counted() && b.Counted() && a.req.config == b.req.config && IdentifierFor(a.req) == IdentifierFor(b.req)
  {
  }

  /** How many requests of the run fall into the bucket of `r`. */
  function Earlier(run: seq<Arrival>, r: Arrival): nat
    requires r.Sound() && forall a :: a in run ==> a.Sound()
  {
    if |run| == 0 then 0
    else
      var n := Earlier(run[..|run| - 1], r);
      if SameBucket(run[|run| - 1], r) then n + 1 else n
  }

  predicate Passes(run: seq<Arrival>, r: Arrival)
    requires r.Sound() && forall a :: a in run ==> a.Sound()
  {
    Answer(StoreAfter(run), r, r.now) == Passed
  }

  // ---------------------------------------------------------------- keys do not collide

  lemma FirstColon(m: string, x: string, n: string, y: string)
    requires Lacks(m, ':') && Lacks(n, ':') && m + ([':'] + x) == n + ([':'] + y)
    ensures m == n && x == y
  {
    var s := m + ([':'] + x);
    assert s[|m|] == ':' && s[|n|] == ':';
    assert forall k :: 0 <= k < |m| ==> s[k] == m[k];
    assert forall k :: 0 <= k < |n| ==> s[k] == n[k];
    assert s[..|m|] == m && s[..|n|] == n;
    assert s[|m| + 1..] == x && s[|n| + 1..] == y;
  }

  lemma LastColon(x: string, d: string, y: string, e: string)
    requires Lacks(d, ':') && Lacks(e, ':') && x + ([':'] + d) == y + ([':'] + e)
    ensures x == y && d == e
  {
    var s := x + ([':'] + d);
    assert s[|x|] == ':' && s[|y|] == ':';
    assert forall k :: |x| < k < |s| ==> s[k] == d[k - |x| - 1];
    assert forall k :: |y| < k < |s| ==> s[k] == e[k - |y| - 1];
    assert s[..|x|] == x && s[..|y|] == y;
    assert s[|x| + 1..] == d && s[|y| + 1..] == e;
  }

  /** Identifiers may contain colons (IPv6 addresses do); the keys still tell clients and windows
      apart. */
  lemma KeyInjective(m: string, i: string, v: nat, n: string, j: string, w: nat)
    requires Lacks(m, ':') && Lacks(n, ':') && Key(m, i, v) == Key(n, j, w)
    ensures m == n && i == j && v == w
  {
    assert Key(m, i, v)[3..] == m + ([':'] + (i + ([':'] + Decimal(v))));
    assert Key(n, j, w)[3..] == n + ([':'] + (j + ([':'] + Decimal(w))));
    FirstColon(m, i + ([':'] + Decimal(v)), n, j + ([':'] + Decimal(w)));
    DecimalDigits(v);
    DecimalDigits(w);
    LastColon(i, Decimal(v), j, Decimal(w));
    DecimalInjective(v, w);
  }

  lemma SameWindow(now: nat, later: nat, windowSec: nat)
    requires windowSec > 0
    ensures WindowStart(now, windowSec) == WindowStart(later, windowSec) <==> now / 1000 / windowSec == later / 1000 / windowSec
  {
    var d, e := now / 1000 / windowSec, later / 1000 / windowSec;
    Multiples(d + 1, e, windowSec);
    Multiples(e + 1, d, windowSec);
    assert (d + 1) * windowSec == d * windowSec + windowSec && (e + 1) * windowSec == e * windowSec + windowSec;
  }

  lemma SameKeySameBucket(a: Arrival, b: Arrival)
    requires a.Sound() && b.Sound() && a.Counted() && b.Counted()
    requires a.req.config.name == b.req.config.name ==> a.req.config == b.req.config
    ensures a.KeyOf() == b.KeyOf() <==> SameBucket(a, b)
  {
    IdentifierExactly(a, b);
    SameWindow(a.now, b.now, a.req.config.windowSec);
    if a.KeyOf() == b.KeyOf() {
      KeyInjective(a.req.config.name, IdentifierFor(a.req).value, a.Window(), b.req.config.name, IdentifierFor(b.req).value, b.Window());
    }
  }

  // ---------------------------------------------------------------- the counter counts

  lemma WindowHolds(now: nat, windowSec: nat)
    requires windowSec > 0
    ensures 1000 * WindowStart(now, windowSec) <= now < 1000 * (WindowStart(now, windowSec) + windowSec)
  {
    var s := now / 1000;
    assert s == s / windowSec * windowSec + s % windowSec;
  }

  /** The entry of a bucket after any run: its count, and an expiry beyond the window's end. */
  ghost predicate Tallied(store: Store, run: seq<Arrival>, r: Arrival)
    requires r.Sound() && r.Counted() && forall a :: a in run ==> a.Sound()
  {
    var n := Earlier(run, r);
    if n == 0 then r.KeyOf() !in store
    else
      && r.KeyOf() in store && store[r.KeyOf()].count == n
      && store[r.KeyOf()].expiresAt.Some?
      && store[r.KeyOf()].expiresAt.value >= 1000 * (r.Window() + r.req.config.windowSec)
  }

  lemma {:induction false} BucketTallied(run: seq<Arrival>, r: Arrival)
    requires SoundRun(run + [r]) && r.Sound() && r.Counted() && forall a :: a in run ==> a.Sound()
    ensures Tallied(StoreAfter(run), run, r)
    decreases |run|
  {
    if |run| > 0 {
      var p, a := run[..|run| - 1], run[|run| - 1];
      assert a in run && forall x :: x in p ==> x in run;
      assert forall x :: x in run ==> x in run + [r];
      assert r in run + [r];
      BucketTallied(p, r);
      TallyStep(StoreAfter(p), p, a, r);
    }
  }

  lemma TallyStep(store: Store, p: seq<Arrival>, a: Arrival, r: Arrival)
    requires r.Sound() && r.Counted() && a.Sound() && forall x :: x in p ==> x.Sound()
    requires a.req.config.name == r.req.config.name ==> a.req.config == r.req.config
    requires Tallied(store, p, r)
    requires forall x :: x in p + [a] ==> x.Sound()
    ensures Tallied(StoreAfterOne(store, a), p + [a], r)
  {
    assert (p + [a])[..|p|] == p;
    if a.Counted() {
      SameKeySameBucket(a, r);
      WindowHolds(a.now, a.req.config.windowSec);
    }
  }

  /** In any run, whatever the order of the clock readings, a request passes exactly if fewer
      than `max` earlier ones of its client fell into its window: the expiry never resets a
      counter inside its own window, and no other key interferes. */
  lemma PassesExactly(run: seq<Arrival>, r: Arrival)
    requires SoundRun(run + [r]) && r.Sound() && forall a :: a in run ==> a.Sound()
    ensures Passes(run, r) <==> Identified(r.req) ==> Earlier(run, r) < r.req.config.max
  {
    IdentifierExactly(r, r);
    if r.Counted() {
      BucketTallied(run, r);
      WindowHolds(r.now, r.req.config.windowSec);
    }
  }

  // ---------------------------------------------------------------- how many pass

  /** How many requests of the bucket of `r` the run let through. */
  function PassedInBucket(run: seq<Arrival>, r: Arrival): nat
    requires r.Sound() && forall a :: a in run ==> a.Sound()
  {
    if |run| == 0 then 0
    else
      var p, a := run[..|run| - 1], run[|run| - 1];
      PassedInBucket(p, r) + (if SameBucket(a, r) && Passes(p, a) then 1 else 0)
  }

  lemma {:induction false} SameBucketSameCount(run: seq<Arrival>, a: Arrival, b: Arrival)
    requires a.Sound() && b.Sound() && SameBucket(a, b) && forall x :: x in run ==> x.Sound()
    ensures Earlier(run, a) == Earlier(run, b)
  {
    if |run| > 0 {
      SameBucketSameCount(run[..|run| - 1], a, b);
    }
  }

  /** Each window lets the first `max` of its requests through and no others. */
  lemma {:induction false} FirstMaxPass(run: seq<Arrival>, r: Arrival)
    requires SoundRun(run) && r.Sound() && forall a :: a in run ==> a.Sound()
    ensures var n := Earlier(run, r);
      PassedInBucket(run, r) == if n < r.req.config.max then n else r.req.config.max
  {
    if |run| > 0 {
      var p, a := run[..|run| - 1], run[|run| - 1];
      assert run == p + [a];
      FirstMaxPass(p, r);
      if SameBucket(a, r) {
        PassesExactly(p, a);
        SameBucketSameCount(p, a, r);
      }
    }
  }

  /** How many requests of the client of `r` passed in the `windowSec` seconds from `from`. */
  function PassedInSpan(run: seq<Arrival>, r: Arrival, from: nat): nat
    requires r.Sound() && forall a :: a in run ==> a.Sound()
  {
    if |run| == 0 then 0
    else
      var p, a := run[..|run| - 1], run[|run| - 1];
      var inSpan := SameClient(a, r) && from <= a.now < from + 1000 * r.req.config.windowSec;
      PassedInSpan(p, r, from) + (if inSpan && Passes(p, a) then 1 else 0)
  }

  lemma {:induction false} Multiples(a: int, b: int, w: nat)
    ensures a <= b ==> a * w <= b * w
    decreases if a < b then b - a else 0
  {
    if a < b {
      Multiples(a, b - 1, w);
      assert b * w == (b - 1) * w + w;
    }
  }

  lemma QuotientStep(s: nat, t: nat, w: nat)
    requires w > 0 && s <= t <= s + w
    ensures t / w == s / w || t / w == s / w + 1
  {
    var q, d := s / w, t / w;
    assert s == q * w + s % w && t == d * w + t % w;
    Multiples(d + 1, q, w);
    Multiples(q + 2, d, w);
  }

  /** A span of one window length meets at most two aligned windows. */
  lemma TwoWindows(t: nat, from: nat, w: nat)
    requires w > 0 && from <= t < from + 1000 * w
    ensures t / 1000 / w == from / 1000 / w || t / 1000 / w == (from + 1000 * w) / 1000 / w
  {
    assert (from + 1000 * w) / 1000 == from / 1000 + w;
    QuotientStep(from / 1000, t / 1000, w);
    NextQuotient(from / 1000, w);
  }

  lemma NextQuotient(s: nat, w: nat)
    requires w > 0
    ensures (s + w) / w == s / w + 1
  {
    var q, d := s / w, (s + w) / w;
    assert s == q * w + s % w && s + w == d * w + (s + w) % w;
    assert (q + 1) * w == q * w + w;
    Multiples(d + 1, q + 1, w);
    Multiples(q + 2, d, w);
  }

  lemma {:induction false} SpanWithinWindows(run: seq<Arrival>, r: Arrival, from: nat)
    requires r.Sound() && forall a :: a in run ==> a.Sound()
    ensures var w := r.req.config.windowSec;
      PassedInSpan(run, r, from) <=
      PassedInBucket(run, r.(now := from)) + PassedInBucket(run, r.(now := from + 1000 * w))
  {
    if |run| > 0 {
      var a := run[|run| - 1];
      SpanWithinWindows(run[..|run| - 1], r, from);
      if SameClient(a, r) && from <= a.now < from + 1000 * r.req.config.windowSec {
        TwoWindows(a.now, from, r.req.config.windowSec);
      }
    }
  }

  /** Any half-open span of one window length, aligned or not, lets at most twice the limit
      through. */
  lemma SpanBound(run: seq<Arrival>, r: Arrival, from: nat)
    requires SoundRun(run) && r.Sound() && forall a :: a in run ==> a.Sound()
    ensures PassedInSpan(run, r, from) <= 2 * r.req.config.max
  {
    SpanWithinWindows(run, r, from);
    FirstMaxPass(run, r.(now := from));
    FirstMaxPass(run, r.(now := from + 1000 * r.req.config.windowSec));
  }

  // ---------------------------------------------------------------- the retry header

  /** The header asks for the seconds left to the end of the exhausted window, or for one if there are
      none left, which is at most `windowSec`; waiting that long from the moment it was computed leads
      out of the window. */
  lemma RetryAfterEndsWindow(now: nat, later: nat, windowSec: nat)
    requires windowSec > 0 && now <= later
    ensures var end := (now / 1000 / windowSec + 1) * windowSec;
      var wait := RetryAfter(windowSec, WindowStart(now, windowSec), later);
      && 1 <= wait <= windowSec && wait == (if later / 1000 < end then end - later / 1000 else 1)
      && (later + 1000 * wait) / 1000 / windowSec > now / 1000 / windowSec
  {
    var start := WindowStart(now, windowSec);
    var wait := RetryAfter(windowSec, start, later);
    WindowHolds(now, windowSec);
    var q, s := now / 1000 / windowSec, (later + 1000 * wait) / 1000;
    assert (q + 1) * windowSec == start + windowSec;
    assert s == later / 1000 + wait && later / 1000 >= start;
    StartAtLeast(s, q + 1, windowSec);
    SmallerQuotient(s, q, windowSec);
  }

  lemma SmallerQuotient(s: nat, q: nat, w: nat)
    requires w > 0 && s / w * w >= (q + 1) * w
    ensures s / w > q
  {
    Multiples(s / w, q, w);
    assert (q + 1) * w == q * w + w;
  }

  /** A refused request is told so, computed at `later`. */
  lemma RefusalExactly(run: seq<Arrival>, r: Arrival, later: nat)
    requires SoundRun(run + [r]) && r.Sound() && (forall a :: a in run ==> a.Sound()) && r.now <= later
    ensures var end := (r.now / 1000 / r.req.config.windowSec + 1) * r.req.config.windowSec;
      Answer(StoreAfter(run), r, later) ==
      if Identified(r.req) && Earlier(run, r) >= r.req.config.max
      then Limited(if later / 1000 < end then end - later / 1000 else 1) else Passed
  {
    PassesExactly(run, r);
    IdentifierExactly(r, r);
    RetryAfterEndsWindow(r.now, later, r.req.config.windowSec);
  }

  lemma StartAtLeast(s: nat, q: nat, w: nat)
    requires w > 0 && s >= q * w
    ensures s / w * w >= q * w
  {
    var d := s / w;
    assert s == d * w + s % w && (d + 1) * w == d * w + w;
    Multiples(d + 1, q, w);
    Multiples(q, d, w);
  }
}
