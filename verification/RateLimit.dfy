/**
 The per-client token bucket of the HTTP rate limiter.

 Time and tokens are exact. One call reads the clock at its start (`now`) and, when the table is
 over its size limit, once more inside the eviction (`evict`, at or after `now`); clock readings
 never go back. Everything is stated through `Level`, the tokens a client would find at a time.
 */
module RateLimit {
  import opened Prelude

  datatype Bucket = Bucket(tokens: real, last: real)

  type Buckets = map<string, Bucket>

  /** Bucket size, refill per second, and the table size above which calls evict. */
  datatype Config = Config(capacity: real, rate: real, maxBuckets: nat) {
    ghost predicate Valid() {
      capacity >= 1.0 && rate > 0.0
    }
  }

  function Min(x: real, y: real): real {
    if x <= y then x else y
  }

  /** Tokens that `elapsed` seconds bring back. */
  function Refill(cfg: Config, elapsed: real): real {
    elapsed * cfg.rate
  }

  lemma RefillNonNegative(cfg: Config, elapsed: real)
    requires cfg.rate >= 0.0 && elapsed >= 0.0
    ensures Refill(cfg, elapsed) >= 0.0
  {
  }

  lemma RefillAdds(cfg: Config, x: real, y: real)
    ensures Refill(cfg, x + y) == Refill(cfg, x) + Refill(cfg, y)
    ensures Refill(cfg, 0.0) == 0.0
  {
  }

  /** The tokens client `ip` would have at time `t`. */
  function Level(cfg: Config, b: Buckets, ip: string, t: real): real {
    if ip in b then Min(cfg.capacity, b[ip].tokens + Refill(cfg, t - b[ip].last)) else cfg.capacity
  }

  predicate Refilled(cfg: Config, bucket: Bucket, t: real) {
    bucket.tokens >= cfg.capacity || Refill(cfg, t - bucket.last) >= cfg.capacity - bucket.tokens
  }

  function Evicted(cfg: Config, b: Buckets, t: real): Buckets {
    map ip | ip in b && !Refilled(cfg, b[ip], t) :: b[ip]
  }

  /** Buckets hold between zero and capacity tokens, stamped no later than `t`. */
  ghost predicate InRange(cfg: Config, b: Buckets, t: real) {
    forall ip <- b :: 0.0 <= b[ip].tokens <= cfg.capacity && b[ip].last <= t
  }

  /** One request: who, and the clock readings of its call. */
  datatype Request = Request(ip: string, now: real, evict: real)

  /** The table a request looks up: after eviction, if it evicts. */
  function Table(cfg: Config, b: Buckets, r: Request): Buckets {
    if |b| > cfg.maxBuckets then Evicted(cfg, b, r.evict) else b
  }

  predicate Admits(cfg: Config, b: Buckets, r: Request) {
    Level(cfg, Table(cfg, b, r), r.ip, r.now) >= 1.0
  }

  function Consumed(cfg: Config, b: Buckets, r: Request): Buckets {
    var tokens := Level(cfg, Table(cfg, b, r), r.ip, r.now);
    Table(cfg, b, r)[r.ip := Bucket(if tokens >= 1.0 then tokens - 1.0 else tokens, r.now)]
  }

  /** Seconds a refused client is told to wait; zero means admitted. */
  function Wait(cfg: Config, b: Buckets, r: Request): real
    requires cfg.Valid()
  {
    var tokens := Level(cfg, Table(cfg, b, r), r.ip, r.now);
    if tokens >= 1.0 then 0.0 else (1.0 - tokens) / cfg.rate
  }

  lemma EvictedInRange(cfg: Config, b: Buckets, t: real, now: real)
    requires InRange(cfg, b, now)
    ensures InRange(cfg, Evicted(cfg, b, t), now)
  {
  }

  // ---------------------------------------------------------------------
  // The middleware
  // ---------------------------------------------------------------------

  datatype Response = Forwarded | TooManyRequests(retryAfter: int, limit: real)

  function Ceiling(x: real): (n: int)
    ensures n as real - 1.0 < x <= n as real
  {
    -((-x).Floor)
  }

  /** The wait is zero exactly for admitted requests. */
  lemma WaitIsPositive(cfg: Config, b: Buckets, r: Request)
    requires cfg.Valid()
    ensures Wait(cfg, b, r) == 0.0 <==> Admits(cfg, b, r)
    ensures Wait(cfg, b, r) >= 0.0
  {
    var tokens := Level(cfg, Table(cfg, b, r), r.ip, r.now);
    if tokens < 1.0 {
      assert (1.0 - tokens) / cfg.rate * cfg.rate == 1.0 - tokens;
    }
  }

  class RateLimitMiddleware {
    const rpm: int
    const capacity: real
    const rate: real
    const maxBuckets: nat := 10_000
    var buckets: Buckets

    function Cfg(): Config {
      Config(capacity, rate, maxBuckets)
    }

    constructor (rpm: int, burst: Option<int>)
      ensures this.rpm == rpm && buckets == map[]
      ensures capacity == (if burst.Some? && burst.value > 0 then burst.value else rpm) as real
      ensures rate == rpm as real / 60.0
      ensures rpm > 0 ==> Cfg().Valid()
    {
      this.rpm := rpm;
      capacity := if burst.Some? && burst.value > 0 then burst.value as real else rpm as real;
      rate := rpm as real / 60.0;
      buckets := map[];
    }

    method EvictExpired(now: real)
      modifies this
      ensures buckets == Evicted(Cfg(), old(buckets), now)
      ensures forall ip <- old(buckets) :: ip in buckets <==>
                old(buckets)[ip].tokens < capacity && (now - old(buckets)[ip].last) * rate < capacity - old(buckets)[ip].tokens
    {
      var expired := set ip | ip in buckets && Refilled(Cfg(), buckets[ip], now);
      ghost var all := expired;
      while expired != {}
        invariant expired <= all
        invariant buckets == old(buckets) - (all - expired)
      {
        var ip :| ip in expired;
        buckets := buckets - {ip};
        expired := expired - {ip};
      }
    }

    method Consume(ip: string, now: real, evict: real) returns (wait: real)
      requires Cfg().Valid() && now <= evict && InRange(Cfg(), buckets, now)
      modifies this
      ensures buckets == Consumed(Cfg(), old(buckets), Request(ip, now, evict))
      ensures wait == Wait(Cfg(), old(buckets), Request(ip, now, evict))
      ensures InRange(Cfg(), buckets, now)
    {
      hide Refill, Evicted;
      EvictedInRange(Cfg(), buckets, evict, now);
      if |buckets| > maxBuckets {
        EvictExpired(evict);
      }
      var bucket := if ip in buckets then buckets[ip] else Bucket(capacity, now);
      var elapsed := now - bucket.last;
      RefillNonNegative(Cfg(), elapsed);
      var tokens := Min(capacity, bucket.tokens + Refill(Cfg(), elapsed));
      buckets := buckets[ip := Bucket(tokens, now)];
      if tokens >= 1.0 {
        tokens := tokens - 1.0;
        buckets := buckets[ip := Bucket(tokens, now)];
        return 0.0;
      }
      var deficit := 1.0 - tokens;
      wait := if rate > 0.0 then deficit / rate else 0.0;
    }

    /** A non-HTTP scope, or a limiter that is switched off, is forwarded untouched. */
    method Call(http: bool, ip: string, now: real, evict: real) returns (response: Response)
      requires rpm > 0 ==> Cfg().Valid() && now <= evict && InRange(Cfg(), buckets, now)
      modifies this
      ensures !http || rpm <= 0 ==> response == Forwarded && buckets == old(buckets)
      ensures http && rpm > 0 ==>
        var r := Request(ip, now, evict);
        && buckets == Consumed(Cfg(), old(buckets), r) && InRange(Cfg(), buckets, now)
        && response == if Admits(Cfg(), old(buckets), r) then Forwarded
                       else TooManyRequests(Ceiling(Wait(Cfg(), old(buckets), r)), capacity)
    {
      if !http || rpm <= 0 {
        return Forwarded;
      }
      ghost var r := Request(ip, now, evict);
      WaitIsPositive(Cfg(), buckets, r);
      var wait := Consume(ip, now, evict);
      if wait > 0.0 {
        return TooManyRequests(Ceiling(wait), capacity);
      }
      response := Forwarded;
    }
  }

  // ---------------------------------------------------------------------
  // Levels
  // ---------------------------------------------------------------------

  /** Waiting refills at the configured rate, up to capacity. */
  lemma LevelLater(cfg: Config, b: Buckets, ip: string, t: real, u: real)
    requires cfg.Valid() && t <= u
    ensures Level(cfg, b, ip, u) == Min(cfg.capacity, Level(cfg, b, ip, t) + Refill(cfg, u - t))
  {
    hide Refill;
    RefillNonNegative(cfg, u - t);
    if ip in b {
      RefillAdds(cfg, t - b[ip].last, u - t);
      assert (t - b[ip].last) + (u - t) == u - b[ip].last;
    }
  }

  /** An eviction removes exactly the clients that are back at full capacity, and keeps the other buckets as they are. */
  lemma EvictedExactly(cfg: Config, b: Buckets, t: real, ip: string)
    requires ip in b
    ensures ip in Evicted(cfg, b, t) <==> Level(cfg, b, ip, t) < cfg.capacity && b[ip].tokens < cfg.capacity
    ensures ip in Evicted(cfg, b, t) ==> Evicted(cfg, b, t)[ip] == b[ip]
  {
  }

  lemma LevelInRange(cfg: Config, b: Buckets, ip: string, t: real)
    requires cfg.Valid() && InRange(cfg, b, t)
    ensures 0.0 <= Level(cfg, b, ip, t) <= cfg.capacity
  {
    hide Refill;
    if ip in b {
      RefillNonNegative(cfg, t - b[ip].last);
    }
  }

  /** An eviction is invisible at every time at or after its clock reading. */
  lemma EvictionInvisible(cfg: Config, b: Buckets, evict: real, ip: string, t: real)
    requires cfg.Valid() && InRange(cfg, b, evict) && evict <= t
    ensures Level(cfg, Evicted(cfg, b, evict), ip, t) == Level(cfg, b, ip, t)
  {
    hide Refill;
    if ip in b && Refilled(cfg, b[ip], evict) {
      RefillNonNegative(cfg, evict - b[ip].last);
      assert Level(cfg, b, ip, evict) == cfg.capacity;
      LevelLater(cfg, b, ip, evict, t);
      RefillNonNegative(cfg, t - evict);
    }
  }

  /** Before its clock reading an eviction can only favour the client, and by no more than the skew refills. */
  lemma EvictionSkew(cfg: Config, b: Buckets, r: Request)
    requires cfg.Valid() && r.now <= r.evict && InRange(cfg, b, r.now)
    ensures
      var before := Level(cfg, b, r.ip, r.now);
      before <= Level(cfg, Table(cfg, b, r), r.ip, r.now) <= before + Refill(cfg, r.evict - r.now)
  {
    hide Refill;
    RefillNonNegative(cfg, r.evict - r.now);
    LevelInRange(cfg, b, r.ip, r.now);
    if r.ip in b && Refilled(cfg, b[r.ip], r.evict) {
      RefillAdds(cfg, r.now - b[r.ip].last, r.evict - r.now);
      assert (r.now - b[r.ip].last) + (r.evict - r.now) == r.evict - b[r.ip].last;
      RefillNonNegative(cfg, r.evict - b[r.ip].last);
    }
  }

  /** What a request finds for its own client. */
  function Found(cfg: Config, b: Buckets, r: Request): real {
    Level(cfg, Table(cfg, b, r), r.ip, r.now)
  }

  function Spent(cfg: Config, b: Buckets, r: Request): real {
    if Admits(cfg, b, r) then 1.0 else 0.0
  }

  lemma ConsumedInRange(cfg: Config, b: Buckets, r: Request)
    requires cfg.Valid() && InRange(cfg, b, r.now)
    ensures InRange(cfg, Consumed(cfg, b, r), r.now)
  {
    LevelInRange(cfg, Table(cfg, b, r), r.ip, r.now);
  }

  /** The requesting client's level from the request on. */
  lemma ConsumedOwnLevel(cfg: Config, b: Buckets, r: Request, t: real)
    ensures Level(cfg, Consumed(cfg, b, r), r.ip, t) ==
            Min(cfg.capacity, Found(cfg, b, r) - Spent(cfg, b, r) + Refill(cfg, t - r.now))
  {
  }

  /** Every other client's level is untouched from the request's last clock reading on. */
  lemma ConsumedOtherLevel(cfg: Config, b: Buckets, r: Request, ip: string, t: real)
    requires cfg.Valid() && r.now <= r.evict <= t && InRange(cfg, b, r.now) && ip != r.ip
    ensures Level(cfg, Consumed(cfg, b, r), ip, t) == Level(cfg, b, ip, t)
  {
    hide Refill;
    assert Level(cfg, Consumed(cfg, b, r), ip, t) == Level(cfg, Table(cfg, b, r), ip, t);
    EvictionInvisible(cfg, b, r.evict, ip, t);
  }

  // ---------------------------------------------------------------------
  // Runs
  // ---------------------------------------------------------------------

  /** Clock readings from `t` on, in order. */
  ghost predicate Ordered(requests: seq<Request>, t: real) {
    requests == [] ||
    (t <= requests[0].now <= requests[0].evict && Ordered(requests[1..], requests[0].evict))
  }

  function After(cfg: Config, b: Buckets, requests: seq<Request>): Buckets
    decreases |requests|
  {
    if requests == [] then b else After(cfg, Consumed(cfg, b, requests[0]), requests[1..])
  }

  /** How many requests of `ip` are admitted. */
  function Admitted(cfg: Config, b: Buckets, requests: seq<Request>, ip: string): nat
    decreases |requests|
  {
    if requests == [] then 0
    else (if requests[0].ip == ip && Admits(cfg, b, requests[0]) then 1 else 0)
         + Admitted(cfg, Consumed(cfg, b, requests[0]), requests[1..], ip)
  }

  /** Total clock skew of the client's own calls. */
  function Skew(requests: seq<Request>, ip: string): real {
    if requests == [] then 0.0
    else (if requests[0].ip == ip then requests[0].evict - requests[0].now else 0.0) + Skew(requests[1..], ip)
  }

  /** The last clock reading. */
  function End(requests: seq<Request>, t: real): real {
    if requests == [] then t else End(requests[1..], requests[0].evict)
  }

  /** In every run, every bucket holds between zero and capacity tokens. */
  lemma {:induction false} TokensInRange(cfg: Config, b: Buckets, requests: seq<Request>, t: real)
    requires cfg.Valid() && InRange(cfg, b, t) && Ordered(requests, t)
    ensures InRange(cfg, After(cfg, b, requests), End(requests, t)) && t <= End(requests, t)
    decreases |requests|
  {
    if requests == [] {
    } else {
      var r := requests[0];
      ConsumedInRange(cfg, b, r);
      TokensInRange(cfg, Consumed(cfg, b, r), requests[1..], r.evict);
    }
  }

  /** One request: what is left later, plus what it spent, is covered by what was there and the refill. */
  lemma StepBalance(cfg: Config, b: Buckets, r: Request, t: real, ip: string)
    requires cfg.Valid() && InRange(cfg, b, t) && t <= r.now <= r.evict
    ensures
      (if r.ip == ip then Spent(cfg, b, r) else 0.0) + Level(cfg, Consumed(cfg, b, r), ip, r.evict)
      <= Level(cfg, b, ip, t) + Refill(cfg, r.evict - t) + (if r.ip == ip then Refill(cfg, r.evict - r.now) else 0.0)
  {
    hide Refill, Admits;
    if r.ip == ip {
      ConsumedOwnLevel(cfg, b, r, r.evict);
      EvictionSkew(cfg, b, r);
      LevelLater(cfg, b, ip, t, r.now);
      RefillAdds(cfg, r.now - t, r.evict - r.now);
      assert (r.now - t) + (r.evict - r.now) == r.evict - t;
    } else {
      ConsumedOtherLevel(cfg, b, r, ip, r.evict);
      LevelLater(cfg, b, ip, t, r.evict);
    }
  }

  lemma ConsumedInRangeLater(cfg: Config, b: Buckets, r: Request, t: real)
    requires cfg.Valid() && InRange(cfg, b, t) && t <= r.now <= r.evict
    ensures InRange(cfg, Consumed(cfg, b, r), r.evict)
  {
    ConsumedInRange(cfg, b, r);
  }

  /** Tokens are conserved: what was there, plus the refill, covers what was spent and what is left. */
  lemma {:induction false} TokenBalance(cfg: Config, b: Buckets, requests: seq<Request>, t: real, ip: string)
    requires cfg.Valid() && InRange(cfg, b, t) && Ordered(requests, t)
    ensures
      var u := End(requests, t);
      Admitted(cfg, b, requests, ip) as real + Level(cfg, After(cfg, b, requests), ip, u)
      <= Level(cfg, b, ip, t) + Refill(cfg, u - t) + Refill(cfg, Skew(requests, ip))
    decreases |requests|
  {
    hide Refill, Level, Consumed, Admits, InRange;
    if requests == [] {
      RefillAdds(cfg, 0.0, 0.0);
    } else {
      var r, rest := requests[0], requests[1..];
      var u := End(requests, t);
      ConsumedInRangeLater(cfg, b, r, t);
      TokenBalance(cfg, Consumed(cfg, b, r), rest, r.evict, ip);
      StepBalance(cfg, b, r, t, ip);
      RefillAdds(cfg, r.evict - t, u - r.evict);
      assert (r.evict - t) + (u - r.evict) == u - t;
      RefillAdds(cfg, r.evict - r.now, Skew(rest, ip));
      RefillAdds(cfg, 0.0, Skew(rest, ip));
    }
  }

  lemma WindowBound(cfg: Config, b: Buckets, window: seq<Request>, from: real, ip: string)
    requires cfg.Valid() && InRange(cfg, b, from) && Ordered(window, from)
    ensures Admitted(cfg, b, window, ip) as real <= cfg.capacity + Refill(cfg, End(window, from) - from + Skew(window, ip))
  {
    hide Level, Refill, Admitted, InRange, After, Ordered, End, Skew;
    var u := End(window, from);
    TokensInRange(cfg, b, window, from);
    TokenBalance(cfg, b, window, from, ip);
    LevelInRange(cfg, After(cfg, b, window), ip, u);
    LevelInRange(cfg, b, ip, from);
    RefillAdds(cfg, u - from, Skew(window, ip));
  }

  lemma {:induction false} NoSkew(window: seq<Request>, ip: string)
    ensures (forall r <- window :: r.evict == r.now) ==> Skew(window, ip) == 0.0
  {
    if window == [] {
    } else {
      NoSkew(window[1..], ip);
    }
  }

  lemma InRangeLater(cfg: Config, b: Buckets, t: real, u: real)
    requires InRange(cfg, b, t) && t <= u
    ensures InRange(cfg, b, u)
  {
  }

  /**
   Any stretch `window` of any run admits at most capacity + rate * (length + skew) requests of a
   client, whatever the other clients do and whatever is evicted meanwhile. With one clock reading
   per call the skew is zero.
   */
  lemma TokenBucketBound(cfg: Config, before: seq<Request>, window: seq<Request>, start: real, ip: string)
    requires cfg.Valid() && Ordered(before, start) && window != [] && Ordered(window, End(before, start))
    ensures
      var length := End(window, start) - window[0].now;
      Admitted(cfg, After(cfg, map[], before), window, ip) as real
      <= cfg.capacity + Refill(cfg, length + Skew(window, ip))
    ensures (forall r <- window :: r.evict == r.now) ==> Skew(window, ip) == 0.0
  {
    hide After, Admitted, Skew, Refill;
    TokensInRange(cfg, map[], before, start);
    var b := After(cfg, map[], before);
    hide InRange;
    InRangeLater(cfg, b, End(before, start), window[0].now);
    WindowBound(cfg, b, window, window[0].now, ip);
    NoSkew(window, ip);
  }

  /** A request that comes when its client's bucket is full finds it full, evictions or not. */
  lemma LevelIsFull(cfg: Config, b: Buckets, r: Request)
    requires cfg.Valid() && Level(cfg, b, r.ip, r.now) == cfg.capacity && r.evict == r.now && InRange(cfg, b, r.now)
    ensures Level(cfg, Table(cfg, b, r), r.ip, r.now) == cfg.capacity
  {
    EvictionInvisible(cfg, b, r.evict, r.ip, r.now);
  }

  lemma ThreeAdmitted(cfg: Config, b: Buckets, t: real, u: real, ip: string)
    requires cfg.Valid() && cfg.capacity == 1.0 && t <= u && Refill(cfg, u - t) == 1.0
    requires InRange(cfg, b, t) && |b| == cfg.maxBuckets && ip !in b
    ensures var b1 := Consumed(cfg, b, Request(ip, t, t));
            var b2 := Consumed(cfg, b1, Request(ip, t, u));
            Admits(cfg, b, Request(ip, t, t)) && Admits(cfg, b1, Request(ip, t, u)) && Admits(cfg, b2, Request(ip, u, u))
  {
    hide Refill;
    var r1, r2, r3 := Request(ip, t, t), Request(ip, t, u), Request(ip, u, u);
    RefillAdds(cfg, 0.0, 0.0);
    var b1 := Consumed(cfg, b, r1);
    assert b1 == b[ip := Bucket(0.0, t)];
    assert |b1| == cfg.maxBuckets + 1 && Refilled(cfg, b1[ip], u);
    assert ip !in Table(cfg, b1, r2);
    var b2 := Consumed(cfg, b1, r2);
    assert b2[ip] == Bucket(0.0, t);
    ConsumedInRange(cfg, b, r1);
    ConsumedInRange(cfg, b1, r2);
    LevelIsFull(cfg, b2, r3);
  }

  lemma AdmittedOneByOne(cfg: Config, b: Buckets, r1: Request, r2: Request, r3: Request)
    requires r1.ip == r2.ip == r3.ip
    requires Admits(cfg, b, r1) && Admits(cfg, Consumed(cfg, b, r1), r2)
    requires Admits(cfg, Consumed(cfg, Consumed(cfg, b, r1), r2), r3)
    ensures Admitted(cfg, b, [r1, r2, r3], r1.ip) == 3
  {
    hide Admits, Consumed;
    assert [r1, r2, r3][1..] == [r2, r3] && [r2, r3][1..] == [r3];
    assert Admitted(cfg, Consumed(cfg, Consumed(cfg, b, r1), r2), [r3], r1.ip) == 1;
    assert Admitted(cfg, Consumed(cfg, b, r1), [r2, r3], r1.ip) == 2;
  }

  /** The skew term cannot be left out: these three requests attain the bound, one above capacity + rate * length. */
  lemma SkewIsAttained(cfg: Config, before: seq<Request>, start: real, ip: string)
    requires cfg.Valid() && cfg.capacity == 1.0 && Ordered(before, start)
    requires |After(cfg, map[], before)| == cfg.maxBuckets && ip !in After(cfg, map[], before)
    ensures
      var t, u := End(before, start), End(before, start) + 1.0 / cfg.rate;
      var window := [Request(ip, t, t), Request(ip, t, u), Request(ip, u, u)];
      var length := End(window, t) - window[0].now;
      && Ordered(window, t)
      && Admitted(cfg, After(cfg, map[], before), window, ip) == 3
      && Refill(cfg, length) == 1.0
      && cfg.capacity + Refill(cfg, length + Skew(window, ip)) == 3.0
  {
    hide After, Admits, Consumed, Admitted, Level;
    var b, t := After(cfg, map[], before), End(before, start);
    var second := 1.0 / cfg.rate;
    var u := t + second;
    assert second > 0.0 && Refill(cfg, second) == 1.0;
    TokensInRange(cfg, map[], before, start);
    ThreeAdmitted(cfg, b, t, u, ip);
    var r1, r2, r3 := Request(ip, t, t), Request(ip, t, u), Request(ip, u, u);
    AdmittedOneByOne(cfg, b, r1, r2, r3);
    assert [r1, r2, r3][1..] == [r2, r3] && [r2, r3][1..] == [r3];
    assert Skew([r3], ip) == 0.0 && End([r3], u) == u && Ordered([r3], u);
    assert Skew([r2, r3], ip) == second && Skew([r1, r2, r3], ip) == second;
    assert End([r2, r3], t) == u && Ordered([r2, r3], t);
    RefillAdds(cfg, second, second);
  }

  // ---------------------------------------------------------------------
  // Maximality
  // ---------------------------------------------------------------------

  /**
   The level of another policy's bucket for `ip` after it made `choices` on `requests`: it starts
   at `level` at time `t`, refills like ours, and pays one token per chosen request of that client.
   `None` once it would have gone negative.
   */
  function Policy(cfg: Config, level: real, requests: seq<Request>, choices: seq<bool>, t: real, ip: string): Option<real>
    requires |choices| == |requests|
    decreases |requests|
  {
    if requests == [] then Some(level)
    else
      var r := requests[0];
      if r.ip != ip then Policy(cfg, level, requests[1..], choices[1..], t, ip)
      else
        var paid := Min(cfg.capacity, level + Refill(cfg, r.now - t)) - if choices[0] then 1.0 else 0.0;
        if paid < 0.0 then None else Policy(cfg, paid, requests[1..], choices[1..], r.now, ip)
  }

  function Chosen(requests: seq<Request>, choices: seq<bool>, ip: string): nat
    requires |choices| == |requests|
  {
    if requests == [] then 0
    else (if requests[0].ip == ip && choices[0] then 1 else 0) + Chosen(requests[1..], choices[1..], ip)
  }

  lemma FoundInRange(cfg: Config, b: Buckets, r: Request)
    requires cfg.Valid() && InRange(cfg, b, r.now)
    ensures 0.0 <= Found(cfg, b, r) <= cfg.capacity
  {
    LevelInRange(cfg, Table(cfg, b, r), r.ip, r.now);
  }

  /** One request of the client keeps the limiter ahead: `lead` admissions make up for any missing tokens. */
  lemma GreedyStep(cfg: Config, b: Buckets, r: Request, t: real, level: real, choice: bool, lead: nat)
    requires cfg.Valid() && InRange(cfg, b, r.now) && t <= r.now <= r.evict
    requires level <= Level(cfg, b, r.ip, t) + lead as real
    requires Min(cfg.capacity, level + Refill(cfg, r.now - t)) - (if choice then 1.0 else 0.0) >= 0.0
    ensures
      var paid := Min(cfg.capacity, level + Refill(cfg, r.now - t)) - if choice then 1.0 else 0.0;
      var lead' := lead + (if Admits(cfg, b, r) then 1 else 0) - if choice then 1 else 0;
      lead' >= 0 && paid <= Level(cfg, Consumed(cfg, b, r), r.ip, r.now) + lead' as real
  {
    hide Refill, Level;
    LevelLater(cfg, b, r.ip, t, r.now);
    EvictionSkew(cfg, b, r);
    ConsumedOwnLevel(cfg, b, r, r.now);
    RefillAdds(cfg, 0.0, 0.0);
    assert Admits(cfg, b, r) <==> Found(cfg, b, r) >= 1.0;
    FoundInRange(cfg, b, r);
  }

  /** Another client's request takes nothing from this client. */
  lemma OtherRequestFavours(cfg: Config, b: Buckets, r: Request, ip: string, t: real)
    requires ip != r.ip
    ensures Level(cfg, b, ip, t) <= Level(cfg, Consumed(cfg, b, r), ip, t)
  {
  }

  lemma {:induction false} GreedyRun(cfg: Config, b: Buckets, requests: seq<Request>, choices: seq<bool>,
                                     level: real, t: real, clock: real, ip: string, lead: nat)
    requires cfg.Valid() && InRange(cfg, b, clock) && t <= clock && Ordered(requests, clock) && |choices| == |requests|
    requires level <= Level(cfg, b, ip, t) + lead as real
    requires Policy(cfg, level, requests, choices, t, ip).Some?
    ensures Chosen(requests, choices, ip) <= Admitted(cfg, b, requests, ip) + lead
    decreases |requests|
  {
    hide Level, Refill, Consumed, Admits, InRange;
    if requests == [] {
    } else {
      var r := requests[0];
      var next := Consumed(cfg, b, r);
      ConsumedInRangeLater(cfg, b, r, clock);
      if r.ip == ip {
        InRangeLater(cfg, b, clock, r.now);
        GreedyStep(cfg, b, r, t, level, choices[0], lead);
        var paid := Min(cfg.capacity, level + Refill(cfg, r.now - t)) - if choices[0] then 1.0 else 0.0;
        var lead' := lead + (if Admits(cfg, b, r) then 1 else 0) - if choices[0] then 1 else 0;
        GreedyRun(cfg, next, requests[1..], choices[1..], paid, r.now, r.evict, ip, lead');
      } else {
        OtherRequestFavours(cfg, b, r, ip, t);
        GreedyRun(cfg, next, requests[1..], choices[1..], level, t, r.evict, ip, lead);
      }
    }
  }

  /**
   At every point of every run from an empty table, the limiter has admitted at least as many of a
   client's requests as any policy that chooses among them with a bucket of the same capacity and
   rate, starting no fuller, that never goes negative.
   */
  lemma TokenBucketMaximal(cfg: Config, requests: seq<Request>, choices: seq<bool>, level: real, start: real, ip: string)
    requires cfg.Valid() && Ordered(requests, start) && |choices| == |requests| && level <= cfg.capacity
    requires Policy(cfg, level, requests, choices, start, ip).Some?
    ensures Chosen(requests, choices, ip) <= Admitted(cfg, map[], requests, ip)
  {
    GreedyRun(cfg, map[], requests, choices, level, start, start, ip, 0);
  }

  // ---------------------------------------------------------------------
  // Evictions and refusals are invisible
  // ---------------------------------------------------------------------

  /** The same capacity and rate; the eviction threshold may differ. */
  ghost predicate SamePolicy(cfg: Config, other: Config) {
    cfg.capacity == other.capacity && cfg.rate == other.rate
  }

  /** No client can tell the two tables apart at time `t` - nor, then, at any later time. */
  ghost predicate Alike(cfg: Config, b: Buckets, c: Buckets, t: real) {
    forall ip :: Level(cfg, b, ip, t) == Level(cfg, c, ip, t)
  }

  /** Every call reads the clock once. */
  ghost predicate OneReading(requests: seq<Request>) {
    forall r <- requests :: r.evict == r.now
  }

  /** The client's own bucket becomes full just between the two clock readings of its call. */
  predicate Crosses(cfg: Config, b: Buckets, r: Request) {
    Level(cfg, b, r.ip, r.now) < cfg.capacity && Level(cfg, b, r.ip, r.evict) >= cfg.capacity
  }

  /** Exactly otherwise, a request that evicts finds its client's level; one that does not evict always does. */
  lemma FoundIsLevel(cfg: Config, b: Buckets, r: Request)
    requires cfg.Valid() && InRange(cfg, b, r.now) && r.now <= r.evict
    ensures Found(cfg, b, r) == Level(cfg, b, r.ip, r.now) <==> |b| <= cfg.maxBuckets || !Crosses(cfg, b, r)
  {
    hide Refill;
    if r.ip in b {
      RefillNonNegative(cfg, r.now - b[r.ip].last);
      RefillNonNegative(cfg, r.evict - b[r.ip].last);
      RefillAdds(cfg, r.now - b[r.ip].last, r.evict - r.now);
      RefillNonNegative(cfg, r.evict - r.now);
      assert (r.now - b[r.ip].last) + (r.evict - r.now) == r.evict - b[r.ip].last;
    }
  }

  /** No call of a run falls on the moment at which its client's bucket becomes full. */
  ghost predicate NoneCrosses(cfg: Config, b: Buckets, requests: seq<Request>)
    decreases |requests|
  {
    requests == [] || (!Crosses(cfg, b, requests[0]) && NoneCrosses(cfg, Consumed(cfg, b, requests[0]), requests[1..]))
  }

  /** With one clock reading per call none does. */
  lemma {:induction false} OneReadingNeverCrosses(cfg: Config, b: Buckets, requests: seq<Request>)
    requires OneReading(requests)
    ensures NoneCrosses(cfg, b, requests)
    decreases |requests|
  {
    hide Consumed;
    if requests == [] {
    } else {
      assert requests[0] in requests;
      OneReadingNeverCrosses(cfg, Consumed(cfg, b, requests[0]), requests[1..]);
    }
  }

  lemma LevelsDependOnPolicy(cfg: Config, other: Config, b: Buckets, ip: string, t: real)
    requires SamePolicy(cfg, other)
    ensures Level(cfg, b, ip, t) == Level(other, b, ip, t)
  {
  }

  lemma AlikeLater(cfg: Config, b: Buckets, c: Buckets, t: real, u: real)
    requires cfg.Valid() && Alike(cfg, b, c, t) && t <= u
    ensures Alike(cfg, b, c, u)
  {
    hide Level;
    forall ip ensures Level(cfg, b, ip, u) == Level(cfg, c, ip, u) {
      LevelLater(cfg, b, ip, t, u);
      LevelLater(cfg, c, ip, t, u);
    }
  }

  lemma RefillsDependOnPolicy(cfg: Config, other: Config, elapsed: real)
    requires SamePolicy(cfg, other)
    ensures Refill(cfg, elapsed) == Refill(other, elapsed)
  {
  }

  /** Alike tables show a request the same level, unless it crosses. */
  lemma AlikeFound(cfg: Config, other: Config, b: Buckets, c: Buckets, r: Request, t: real)
    requires cfg.Valid() && SamePolicy(cfg, other) && InRange(cfg, b, t) && InRange(other, c, t)
    requires Alike(cfg, b, c, t) && t <= r.now <= r.evict && !Crosses(cfg, b, r)
    ensures Found(cfg, b, r) == Found(other, c, r)
  {
    hide Level, Table, InRange;
    AlikeLater(cfg, b, c, t, r.now);
    AlikeLater(cfg, b, c, t, r.evict);
    InRangeLater(cfg, b, t, r.now);
    InRangeLater(other, c, t, r.now);
    LevelsDependOnPolicy(cfg, other, c, r.ip, r.now);
    LevelsDependOnPolicy(cfg, other, c, r.ip, r.evict);
    FoundIsLevel(cfg, b, r);
    FoundIsLevel(other, c, r);
  }

  lemma FoundDecides(cfg: Config, other: Config, b: Buckets, c: Buckets, r: Request)
    requires cfg.Valid() && SamePolicy(cfg, other) && Found(cfg, b, r) == Found(other, c, r)
    ensures Admits(cfg, b, r) == Admits(other, c, r) && Wait(cfg, b, r) == Wait(other, c, r)
  {
    hide Level, Table;
  }

  /** Alike tables decide alike and stay alike, whatever their eviction thresholds. */
  lemma AlikeStep(cfg: Config, other: Config, b: Buckets, c: Buckets, r: Request, t: real)
    requires cfg.Valid() && SamePolicy(cfg, other) && InRange(cfg, b, t) && InRange(other, c, t)
    requires Alike(cfg, b, c, t) && t <= r.now <= r.evict && !Crosses(cfg, b, r)
    ensures Admits(cfg, b, r) == Admits(other, c, r) && Wait(cfg, b, r) == Wait(other, c, r)
    ensures Alike(cfg, Consumed(cfg, b, r), Consumed(other, c, r), r.evict)
  {
    hide Level, Consumed, Refill, Found, Wait, Admits, InRange, Crosses;
    AlikeFound(cfg, other, b, c, r, t);
    FoundDecides(cfg, other, b, c, r);
    AlikeLater(cfg, b, c, t, r.evict);
    InRangeLater(cfg, b, t, r.now);
    InRangeLater(other, c, t, r.now);
    var b', c' := Consumed(cfg, b, r), Consumed(other, c, r);
    forall ip ensures Level(cfg, b', ip, r.evict) == Level(cfg, c', ip, r.evict) {
      LevelsDependOnPolicy(cfg, other, c', ip, r.evict);
      LevelsDependOnPolicy(cfg, other, c, ip, r.evict);
      if ip == r.ip {
        ConsumedOwnLevel(cfg, b, r, r.evict);
        ConsumedOwnLevel(other, c, r, r.evict);
        RefillsDependOnPolicy(cfg, other, r.evict - r.now);
      } else {
        ConsumedOtherLevel(cfg, b, r, ip, r.evict);
        ConsumedOtherLevel(other, c, r, ip, r.evict);
      }
    }
  }

  /** A refused attempt leaves no trace. */
  lemma RefusalInvisible(cfg: Config, b: Buckets, r: Request, t: real)
    requires cfg.Valid() && InRange(cfg, b, t) && t <= r.now <= r.evict && !Crosses(cfg, b, r) && !Admits(cfg, b, r)
    ensures Alike(cfg, Consumed(cfg, b, r), b, r.evict)
  {
    hide Level, Consumed, Table, Refill;
    InRangeLater(cfg, b, t, r.now);
    FoundIsLevel(cfg, b, r);
    LevelLater(cfg, b, r.ip, r.now, r.evict);
    forall ip ensures Level(cfg, Consumed(cfg, b, r), ip, r.evict) == Level(cfg, b, ip, r.evict) {
      if ip == r.ip {
        ConsumedOwnLevel(cfg, b, r, r.evict);
      } else {
        ConsumedOtherLevel(cfg, b, r, ip, r.evict);
      }
    }
  }

  function Decisions(cfg: Config, b: Buckets, requests: seq<Request>): seq<bool>
    decreases |requests|
  {
    if requests == [] then []
    else [Admits(cfg, b, requests[0])] + Decisions(cfg, Consumed(cfg, b, requests[0]), requests[1..])
  }

  /**
   In every run in which no call crosses, the decisions are those of a limiter that evicts at any
   other table size, or never. (A call that crosses and evicts is the exception: `FoundIsLevel`.)
   */
  lemma {:induction false} EvictionsNeverMatter(cfg: Config, other: Config, b: Buckets, c: Buckets,
                                                requests: seq<Request>, t: real)
    requires cfg.Valid() && SamePolicy(cfg, other) && InRange(cfg, b, t) && InRange(other, c, t)
    requires Alike(cfg, b, c, t) && Ordered(requests, t) && NoneCrosses(cfg, b, requests)
    ensures Decisions(cfg, b, requests) == Decisions(other, c, requests)
    decreases |requests|
  {
    hide Alike, InRange, Consumed, Admits, Crosses;
    if requests == [] {
    } else {
      var r := requests[0];
      assert r in requests;
      AlikeStep(cfg, other, b, c, r, t);
      ConsumedInRangeLater(cfg, b, r, t);
      ConsumedInRangeLater(other, c, r, t);
      EvictionsNeverMatter(cfg, other, Consumed(cfg, b, r), Consumed(other, c, r), requests[1..], r.evict);
    }
  }

  /** The run without its refused requests. */
  function OnlyAdmitted(cfg: Config, b: Buckets, requests: seq<Request>): (kept: seq<Request>)
    ensures forall r <- kept :: r in requests
    decreases |requests|
  {
    if requests == [] then []
    else (if Admits(cfg, b, requests[0]) then [requests[0]] else [])
         + OnlyAdmitted(cfg, Consumed(cfg, b, requests[0]), requests[1..])
  }

  lemma AlikeTransitive(cfg: Config, a: Buckets, b: Buckets, c: Buckets, t: real)
    requires Alike(cfg, a, b, t) && Alike(cfg, b, c, t)
    ensures Alike(cfg, a, c, t)
  {
  }

  /** Had the refused requests of a run never been sent, every other request would still have been admitted. */
  lemma {:induction false} RefusalsNeverMatter(cfg: Config, b: Buckets, c: Buckets, requests: seq<Request>, t: real)
    requires cfg.Valid() && InRange(cfg, b, t) && InRange(cfg, c, t)
    requires Alike(cfg, b, c, t) && Ordered(requests, t) && NoneCrosses(cfg, b, requests)
    ensures
      var kept := OnlyAdmitted(cfg, b, requests);
      && Decisions(cfg, c, kept) == seq(|kept|, i => true)
      && Alike(cfg, After(cfg, b, requests), After(cfg, c, kept), End(requests, t))
    decreases |requests|
  {
    hide Alike, InRange, Consumed, Admits, Crosses;
    if requests == [] {
    } else {
      var r, rest := requests[0], requests[1..];
      assert r in requests;
      var b' := Consumed(cfg, b, r);
      ConsumedInRangeLater(cfg, b, r, t);
      if Admits(cfg, b, r) {
        AlikeStep(cfg, cfg, b, c, r, t);
        ConsumedInRangeLater(cfg, c, r, t);
        RefusalsNeverMatter(cfg, b', Consumed(cfg, c, r), rest, r.evict);
        var kept := OnlyAdmitted(cfg, b', rest);
        assert OnlyAdmitted(cfg, b, requests) == [r] + kept;
        assert ([r] + kept)[1..] == kept;
      } else {
        RefusalInvisible(cfg, b, r, t);
        AlikeLater(cfg, b, c, t, r.evict);
        AlikeTransitive(cfg, b', b, c, r.evict);
        InRangeLater(cfg, c, t, r.evict);
        RefusalsNeverMatter(cfg, b', c, rest, r.evict);
        assert OnlyAdmitted(cfg, b, requests) == OnlyAdmitted(cfg, b', rest);
      }
    }
  }

  // ---------------------------------------------------------------------
  // Retry-After
  // ---------------------------------------------------------------------

  lemma {:induction false} EndIsLast(requests: seq<Request>, t: real)
    requires Ordered(requests, t) && requests != []
    ensures requests[0].evict <= End(requests, t)
    decreases |requests|
  {
    if |requests| == 1 {
    } else {
      EndIsLast(requests[1..], requests[0].evict);
    }
  }

  /** A refused request costs its client nothing. */
  lemma RefusedLevel(cfg: Config, b: Buckets, r: Request, t: real, u: real)
    requires cfg.Valid() && InRange(cfg, b, t) && t <= r.now <= r.evict <= u && !Admits(cfg, b, r)
    ensures Level(cfg, Consumed(cfg, b, r), r.ip, u) >= Level(cfg, b, r.ip, u)
    ensures r.evict == r.now ==> Level(cfg, Consumed(cfg, b, r), r.ip, u) == Level(cfg, b, r.ip, u)
  {
    hide Level, Refill, Consumed, Table;
    InRangeLater(cfg, b, t, r.now);
    EvictionSkew(cfg, b, r);
    ConsumedOwnLevel(cfg, b, r, u);
    LevelLater(cfg, b, r.ip, r.now, u);
    RefillAdds(cfg, 0.0, 0.0);
  }

  /** While none of its requests is admitted, a client's level only gains from waiting. */
  lemma {:induction false} LevelKeptWhileRefused(cfg: Config, b: Buckets, requests: seq<Request>, t: real, ip: string, u: real)
    requires cfg.Valid() && InRange(cfg, b, t) && Ordered(requests, t) && End(requests, t) <= u
    requires Admitted(cfg, b, requests, ip) == 0
    ensures Level(cfg, After(cfg, b, requests), ip, u) >= Level(cfg, b, ip, u)
    ensures OneReading(requests) ==> Level(cfg, After(cfg, b, requests), ip, u) == Level(cfg, b, ip, u)
    decreases |requests|
  {
    hide Level, Refill, Consumed, InRange, Admits;
    if requests == [] {
    } else {
      var r := requests[0];
      TokensInRange(cfg, b, requests, t);
      EndIsLast(requests, t);
      ConsumedInRangeLater(cfg, b, r, t);
      LevelKeptWhileRefused(cfg, Consumed(cfg, b, r), requests[1..], r.evict, ip, u);
      if r.ip == ip {
        RefusedLevel(cfg, b, r, t, u);
        assert OneReading(requests) ==> r.evict == r.now;
      } else {
        InRangeLater(cfg, b, t, r.now);
        ConsumedOtherLevel(cfg, b, r, ip, u);
      }
    }
  }

  /** The wait is exactly the time in which the missing part of a token comes back. */
  lemma WaitRefills(cfg: Config, b: Buckets, r: Request, u: real)
    requires cfg.Valid() && !Admits(cfg, b, r)
    ensures u >= r.now + Wait(cfg, b, r) <==> Found(cfg, b, r) + Refill(cfg, u - r.now) >= 1.0
  {
    hide Level, Table;
    var missing := 1.0 - Found(cfg, b, r);
    var wait := Wait(cfg, b, r);
    assert wait * cfg.rate == missing;
    if u - r.now >= wait {
      assert (u - r.now - wait) * cfg.rate >= 0.0;
    } else {
      assert (wait - (u - r.now)) * cfg.rate > 0.0;
    }
    assert Refill(cfg, u - r.now) - missing == (u - r.now - wait) * cfg.rate;
  }

  /**
   A refused client that comes back after the advertised whole seconds, with none of its requests
   admitted in between, is admitted - whatever others did, and whatever was evicted. With one clock
   reading per call it is admitted exactly from the unrounded wait on.
   */
  lemma RetryAfterSuffices(cfg: Config, b: Buckets, t: real, r: Request, between: seq<Request>, retry: Request)
    requires cfg.Valid() && InRange(cfg, b, t) && t <= r.now <= r.evict && !Admits(cfg, b, r)
    requires Ordered(between, r.evict) && Admitted(cfg, Consumed(cfg, b, r), between, r.ip) == 0
    requires retry.ip == r.ip && End(between, r.evict) <= retry.now <= retry.evict
    ensures
      var table := After(cfg, Consumed(cfg, b, r), between);
      && (retry.now >= r.now + Ceiling(Wait(cfg, b, r)) as real ==> Admits(cfg, table, retry))
      && (OneReading(between) && retry.evict == retry.now ==>
            (Admits(cfg, table, retry) <==> retry.now >= r.now + Wait(cfg, b, r)))
  {
    hide Level, Consumed, Table, Refill;
    var b' := Consumed(cfg, b, r);
    ConsumedInRangeLater(cfg, b, r, t);
    TokensInRange(cfg, b', between, r.evict);
    var table := After(cfg, b', between);
    LevelKeptWhileRefused(cfg, b', between, r.evict, r.ip, retry.now);
    InRangeLater(cfg, table, End(between, r.evict), retry.now);
    EvictionSkew(cfg, table, retry);
    FoundIsLevel(cfg, table, retry);
    ConsumedOwnLevel(cfg, b, r, retry.now);
    WaitRefills(cfg, b, r, retry.now);
  }
}
