/**
 * `rate_limit_middleware` (app/core/middlewares.py) over the counter store it keeps in Redis: one counter per
 * client key, incremented on every request, given a 60-second lifetime when it is created, and a request
 * refused with 429 once its counter exceeds the per-minute limit.
 */
module RateLimit {
  import opened Prelude
  import opened Constants

  /** What the middleware does with a request: answer 429 itself, or hand it to the next handler. */
  datatype Outcome = TooManyRequests | Forwarded

  /** The lifetime, in seconds, given to a fresh counter. */
  const CounterLifetime: nat := 60

  /** The counter key of a client: its host, or "unknown" when the request has no client. */
  function ClientKey(host: Option<string>): (key: string)
    ensures |key| >= 5 && key[..5] == "rate:"
  {
    "rate:" + (if host.Some? then host.value else "unknown")
  }

  /** Different hosts count against different keys. */
  lemma ClientKeySeparatesHosts(a: string, b: string)
    requires ClientKey(Some(a)) == ClientKey(Some(b))
    ensures a == b
  {
    assert a == ClientKey(Some(a))[5..] && b == ClientKey(Some(b))[5..];
  }

  /** Requests without a client share one counter with a client whose host is literally "unknown". */
  lemma MissingClientSharesKey()
    ensures ClientKey(None) == ClientKey(Some("unknown"))
  {
  }

  /** How many of `n` requests in one window get through: all of them up to the limit, and the limit beyond it. */
  function Admitted(n: int): (m: int)
    ensures m <= MaxRequestsPerMinute && m <= n
    ensures n <= MaxRequestsPerMinute ==> m == n
    ensures n > MaxRequestsPerMinute ==> m == MaxRequestsPerMinute
  {
    if n <= MaxRequestsPerMinute then n else MaxRequestsPerMinute
  }

  /** One more request in a window is admitted exactly when the new count stays within the limit. */
  lemma AdmittedStep(n: nat)
    ensures Admitted(n + 1) == Admitted(n) + if n + 1 > MaxRequestsPerMinute then 0 else 1
  {
  }

  /** Each live counter has a forwarded count, and it is the number of that window's requests admitted. */
  ghost predicate Windows(counts: map<string, int>, forwarded: map<string, int>)
  {
    forwarded.Keys == counts.Keys && forall k :: k in counts ==> forwarded[k] == Admitted(counts[k])
  }

  /** Setting one key's counter together with its admitted count keeps every window consistent. */
  lemma WindowsStep(counts: map<string, int>, forwarded: map<string, int>, key: string, c: int, f: int)
    requires Windows(counts, forwarded) && f == Admitted(c)
    ensures Windows(counts[key := c], forwarded[key := f])
  {
  }

  class RateLimiter {
    /** The Redis counters. */
    var counts: map<string, int>
    /** The keys that carry an expiry, with the lifetime set on them. */
    var lifetimes: map<string, nat>
    /** How many of the requests counted in the current window were handed to the next handler. */
    ghost var forwarded: map<string, int>

    /**
     * Every live counter is at least 1 and carries an expiry, so it is reset when its window ends; within a
     * window at most the limit of requests per key were forwarded.
     */
    ghost predicate Valid()
      reads this
    {
      && (forall k :: k in counts ==> counts[k] >= 1 && k in lifetimes)
      && Windows(counts, forwarded)
    }

    constructor ()
      ensures Valid()
      ensures counts == map[] && lifetimes == map[]
    {
      counts := map[];
      lifetimes := map[];
      forwarded := map[];
    }

    /** The forwarded requests of `key` in its current window; none when it has no counter. */
    ghost function ForwardedCount(key: string): int
      reads this
    {
      if key in forwarded then forwarded[key] else 0
    }

    /** The counter of `key`; a missing key reads as 0, as INCR treats it. */
    function Count(key: string): int
      reads this
    {
      if key in counts then counts[key] else 0
    }

    /**
     * One request: INCR the client's counter, EXPIRE it when the new count is 1, and refuse the request exactly
     * when the count exceeds the limit. No other key changes. A forwarded request is counted as forwarded, and
     * a key never has more than the limit of its requests forwarded in one window.
     */
    method Handle(host: Option<string>) returns (outcome: Outcome)
      requires Valid()
      modifies this
      ensures Valid()
      ensures var key := ClientKey(host);
              && counts == old(counts)[key := old(Count(key)) + 1]
              && lifetimes == (if old(Count(key)) == 0 then old(lifetimes)[key := CounterLifetime] else old(lifetimes))
              && (outcome == TooManyRequests <==> counts[key] > MaxRequestsPerMinute)
              && forwarded == old(forwarded)[key := old(ForwardedCount(key)) + if outcome == Forwarded then 1 else 0]
              && forwarded[key] <= MaxRequestsPerMinute
    {
      var key := ClientKey(host);
      var count := Count(key) + 1;
      ghost var before := ForwardedCount(key);
      assert before == Admitted(count - 1);
      AdmittedStep(count - 1);
      WindowsStep(counts, forwarded, key, count, before + if count > MaxRequestsPerMinute then 0 else 1);
      counts := counts[key := count];
      if count == 1 {
        lifetimes := lifetimes[key := CounterLifetime];
      }
      outcome := if count > MaxRequestsPerMinute then TooManyRequests else Forwarded;
      forwarded := forwarded[key := before + if outcome == Forwarded then 1 else 0];
    }

    /** The lifetime of `key` has run out: Redis drops the counter, and the next window starts from zero. */
    method Expire(key: string)
      requires Valid()
      modifies this
      ensures Valid()
      ensures counts == old(counts) - {key} && lifetimes == old(lifetimes) - {key}
    {
      counts := counts - {key};
      lifetimes := lifetimes - {key};
      forwarded := forwarded - {key};
    }
  }
}
