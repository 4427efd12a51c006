/** The rate limiter as the server holds it; the clock reading is an argument. */
module RateLimiterClass {
  import R = RateLimiter

  class RateLimiter {
    var buckets: map<string, R.Bucket>
    const maxTokens: nat
    const refillRate: real

    ghost function Limits(): R.Limits { R.Limits(maxTokens, refillRate) }

    constructor ()
      ensures buckets == map[] && maxTokens == 60 && refillRate == 1.0
    {
      buckets := map[];
      maxTokens := 60;
      refillRate := 1.0;
    }

    method Check(account: string, now: real) returns (allowed: bool)
      ensures allowed == R.Check(Limits(), buckets, account, now)
    {
      if account in buckets {
        var bucket := buckets[account];
        var refilled := bucket.tokens as real + (now - bucket.lastRefill) * refillRate;
        assert refilled == bucket.tokens as real + R.Flow(Limits(), bucket.lastRefill, now);
        if refilled > maxTokens as real {
          refilled := maxTokens as real;
        }
        allowed := refilled >= 1.0;
      } else {
        allowed := true;
      }
    }

    method Consume(account: string, now: real) returns (allowed: bool)
      modifies this`buckets
      ensures buckets == R.Consume(Limits(), old(buckets), account, now).0
      ensures allowed == R.Consume(Limits(), old(buckets), account, now).1
    {
      if account !in buckets {
        buckets := buckets[account := R.Bucket(maxTokens, now)];
      }
      var bucket := buckets[account];
      assert bucket == R.Entry(Limits(), old(buckets), account, now);
      assert buckets == old(buckets)[account := bucket];
      var refilled := bucket.tokens as real + (now - bucket.lastRefill) * refillRate;
      assert refilled == bucket.tokens as real + R.Flow(Limits(), bucket.lastRefill, now);
      if refilled > maxTokens as real {
        refilled := maxTokens as real;
      }
      if refilled >= 1.0 {
        buckets := buckets[account := R.Bucket((refilled - 1.0).Floor, now)];
        allowed := true;
      } else {
        allowed := false;
      }
    }
  }
}
