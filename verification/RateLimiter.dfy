/** The token bucket in front of the AI calls (mudd/src/venice/mod.rs:181-236), over exact time and arithmetic. */
module RateLimiter {
  /** Whole tokens as of the last successful call. */
  datatype Bucket = Bucket(tokens: nat, lastRefill: real)

  type Buckets = map<string, Bucket>

  datatype Limits = Limits(maxTokens: nat, refillRate: real)

  ghost predicate Sane(l: Limits) { l.refillRate >= 0.0 }

  /** What flows into a bucket between two instants. */
  function Flow(l: Limits, since: real, now: real): real { (now - since) * l.refillRate }

  lemma FlowAdds(l: Limits, t0: real, t1: real, t2: real)
    ensures Flow(l, t0, t2) == Flow(l, t0, t1) + Flow(l, t1, t2)
    ensures Flow(l, t0, t0) == 0.0
    ensures Sane(l) && t0 <= t1 ==> Flow(l, t0, t1) >= 0.0
  {
    assert (t2 - t0) * l.refillRate == (t1 - t0) * l.refillRate + (t2 - t1) * l.refillRate;
  }

  /** What the bucket holds at `now`, fractions included. */
  function Refilled(l: Limits, b: Bucket, now: real): real {
    var grown := b.tokens as real + Flow(l, b.lastRefill, now);
    if grown < l.maxTokens as real then grown else l.maxTokens as real
  }

  function Entry(l: Limits, s: Buckets, account: string, now: real): Bucket {
    if account in s then s[account] else Bucket(l.maxTokens, now)
  }

  function Level(l: Limits, s: Buckets, account: string, now: real): real {
    Refilled(l, Entry(l, s, account, now), now)
  }

  function Check(l: Limits, s: Buckets, account: string, now: real): bool {
    account in s ==> Level(l, s, account, now) >= 1.0
  }

  /** A successful call pays one token and drops the fraction; a refused one only opens the account. */
  function Consume(l: Limits, s: Buckets, account: string, now: real): (r: (Buckets, bool)) {
    var level := Level(l, s, account, now);
    if level >= 1.0 then (s[account := Bucket((level - 1.0).Floor, now)], true)
    else (s[account := Entry(l, s, account, now)], false)
  }

  /** `check` foretells `consume` except for a first call when buckets hold nothing. */
  lemma CheckPredictsIff(l: Limits, s: Buckets, account: string, now: real)
    ensures Check(l, s, account, now) == Consume(l, s, account, now).1 <==> account in s || l.maxTokens >= 1
  {
    hide Flow;
    FlowAdds(l, now, now, now);
  }

  // ----- Runs -----

  datatype Attempt = Attempt(account: string, now: real)

  ghost predicate InOrder(attempts: seq<Attempt>) {
    forall i, j | 0 <= i < j < |attempts| :: attempts[i].now <= attempts[j].now
  }

  /** No bucket was filled in the future. */
  ghost predicate UpTo(s: Buckets, now: real) {
    forall a | a in s :: s[a].lastRefill <= now
  }

  function Run(l: Limits, s: Buckets, attempts: seq<Attempt>): (r: (Buckets, seq<bool>))
    ensures |r.1| == |attempts|
    decreases |attempts|
  {
    if attempts == [] then (s, [])
    else
      var (next, ok) := Consume(l, s, attempts[0].account, attempts[0].now);
      var (last, oks) := Run(l, next, attempts[1..]);
      (last, [ok] + oks)
  }

  function Successes(account: string, attempts: seq<Attempt>, oks: seq<bool>): nat
    requires |oks| == |attempts|
  {
    if attempts == [] then 0
    else (if attempts[0].account == account && oks[0] then 1 else 0) + Successes(account, attempts[1..], oks[1..])
  }

  lemma LevelGrowsAtRate(l: Limits, s: Buckets, account: string, t: real, t': real)
    requires Sane(l) && t <= t'
    ensures Level(l, s, account, t') <= Level(l, s, account, t) + Flow(l, t, t')
    ensures Level(l, s, account, t) <= l.maxTokens as real
  {
    hide Flow;
    FlowAdds(l, t, t', t');
    if account in s { FlowAdds(l, s[account].lastRefill, t, t'); }
    FlowAdds(l, t', t', t');
  }

  lemma LevelNonNegative(l: Limits, s: Buckets, account: string, now: real)
    requires Sane(l) && UpTo(s, now)
    ensures Level(l, s, account, now) >= 0.0
  {
    hide Flow;
    if account in s { FlowAdds(l, s[account].lastRefill, now, now); }
    FlowAdds(l, now, now, now);
  }

  /** The levels pay for the calls: a success costs its account at least a token, and nobody gains. */
  lemma ConsumePays(l: Limits, s: Buckets, account: string, now: real, other: string)
    requires UpTo(s, now)
    ensures var (s', ok) := Consume(l, s, account, now);
            && UpTo(s', now)
            && Level(l, s', other, now) <= Level(l, s, other, now) - (if other == account && ok then 1.0 else 0.0)
  {
    hide Flow;
    FlowAdds(l, now, now, now);
  }

  lemma SuccessesOfFirst(l: Limits, s: Buckets, attempts: seq<Attempt>, account: string)
    requires attempts != []
    ensures var (next, ok) := Consume(l, s, attempts[0].account, attempts[0].now);
            Successes(account, attempts, Run(l, s, attempts).1)
            == (if attempts[0].account == account && ok then 1 else 0)
               + Successes(account, attempts[1..], Run(l, next, attempts[1..]).1)
  {
    hide Consume;
    var (next, ok) := Consume(l, s, attempts[0].account, attempts[0].now);
    assert Run(l, s, attempts).1[1..] == Run(l, next, attempts[1..]).1;
  }

  /** Successes within the attempts never exceed what the bucket held plus what flowed in. */
  lemma {:induction false} SuccessesArePaid(l: Limits, s: Buckets, attempts: seq<Attempt>, account: string)
    requires Sane(l) && attempts != [] && InOrder(attempts) && UpTo(s, attempts[0].now)
    ensures Successes(account, attempts, Run(l, s, attempts).1) as real
            <= Level(l, s, account, attempts[0].now) + Flow(l, attempts[0].now, attempts[|attempts| - 1].now)
    decreases |attempts|
  {
    hide Flow, Level, Consume;
    var a, rest := attempts[0], attempts[1..];
    var (next, ok) := Consume(l, s, a.account, a.now);
    ConsumePays(l, s, a.account, a.now, account);
    SuccessesOfFirst(l, s, attempts, account);
    if rest == [] {
      LevelNonNegative(l, next, account, a.now);
      FlowAdds(l, a.now, a.now, a.now);
    } else {
      LevelGrowsAtRate(l, next, account, a.now, rest[0].now);
      FlowAdds(l, a.now, rest[0].now, attempts[|attempts| - 1].now);
      SuccessesArePaid(l, next, rest, account);
    }
  }

  lemma {:induction false} RunSplits(l: Limits, s: Buckets, a: seq<Attempt>, b: seq<Attempt>)
    ensures Run(l, s, a + b).0 == Run(l, Run(l, s, a).0, b).0
    ensures Run(l, s, a + b).1 == Run(l, s, a).1 + Run(l, Run(l, s, a).0, b).1
    decreases |a|
  {
    hide Consume;
    if a == [] {
      assert a + b == b;
    } else {
      assert (a + b)[1..] == a[1..] + b;
      RunSplits(l, Consume(l, s, a[0].account, a[0].now).0, a[1..], b);
    }
  }

  lemma {:induction false} RunUpTo(l: Limits, s: Buckets, attempts: seq<Attempt>, now: real)
    requires UpTo(s, now) && forall i | 0 <= i < |attempts| :: attempts[i].now <= now
    ensures UpTo(Run(l, s, attempts).0, now)
    decreases |attempts|
  {
    hide Flow;
    if attempts != [] {
      RunUpTo(l, Consume(l, s, attempts[0].account, attempts[0].now).0, attempts[1..], now);
    }
  }

  lemma RunWindow(l: Limits, s: Buckets, attempts: seq<Attempt>, i: nat, j: nat)
    requires i <= j <= |attempts|
    ensures Run(l, s, attempts).1[i..j] == Run(l, Run(l, s, attempts[..i]).0, attempts[i..j]).1
  {
    hide Consume, Run;
    var before, window, after := attempts[..i], attempts[i..j], attempts[j..];
    assert attempts == before + (window + after);
    RunSplits(l, s, before, window + after);
    RunSplits(l, Run(l, s, before).0, window, after);
  }

  /** The token-bucket bound: in every run, in every window of it, an account succeeds at most as often as a full
      bucket and the refill over the window, rate times length, allow. */
  lemma WindowBound(l: Limits, attempts: seq<Attempt>, i: nat, j: nat, account: string)
    requires Sane(l) && InOrder(attempts) && i < j <= |attempts|
    ensures Successes(account, attempts[i..j], Run(l, map[], attempts).1[i..j]) as real
            <= l.maxTokens as real + Flow(l, attempts[i].now, attempts[j - 1].now)
  {
    hide Level, Flow, Consume, Run, Successes;
    var mid, window := Run(l, map[], attempts[..i]).0, attempts[i..j];
    assert window[0] == attempts[i] && window[|window| - 1] == attempts[j - 1];
    RunWindow(l, map[], attempts, i, j);
    RunUpTo(l, map[], attempts[..i], attempts[i].now);
    SuccessesArePaid(l, mid, window, account);
    LevelGrowsAtRate(l, mid, account, attempts[i].now, attempts[i].now);
  }

  function Repeat(a: Attempt, n: nat): seq<Attempt> { seq(n, _ => a) }

  /** What a burst at one instant can still get. */
  function Available(l: Limits, s: Buckets, account: string): nat {
    if account in s && s[account].tokens <= l.maxTokens then s[account].tokens else l.maxTokens
  }

  /** A call at the instant of the last success, or a first call, sees whole tokens. */
  lemma ConsumeAtOnce(l: Limits, s: Buckets, a: Attempt)
    requires a.account in s ==> s[a.account].lastRefill == a.now
    ensures var (next, ok) := Consume(l, s, a.account, a.now);
            && ok == (Available(l, s, a.account) >= 1)
            && a.account in next && next[a.account].lastRefill == a.now
            && Available(l, next, a.account) == Available(l, s, a.account) - (if ok then 1 else 0)
  {
    hide Flow;
    FlowAdds(l, a.now, a.now, a.now);
  }

  lemma {:induction false} Burst(l: Limits, s: Buckets, a: Attempt, n: nat)
    requires a.account in s ==> s[a.account].lastRefill == a.now
    ensures var available := Available(l, s, a.account);
            Successes(a.account, Repeat(a, n), Run(l, s, Repeat(a, n)).1) == if n <= available then n else available
    decreases n
  {
    hide Consume;
    if n > 0 {
      assert Repeat(a, n)[1..] == Repeat(a, n - 1);
      ConsumeAtOnce(l, s, a);
      SuccessesOfFirst(l, s, Repeat(a, n), a.account);
      Burst(l, Consume(l, s, a.account, a.now).0, a, n - 1);
    }
  }

  /** The bound is met: at one instant a new account gets exactly a full bucket of calls. */
  lemma BurstIsFullBucket(l: Limits, a: Attempt, n: nat)
    ensures Successes(a.account, Repeat(a, n), Run(l, map[], Repeat(a, n)).1)
            == if n <= l.maxTokens then n else l.maxTokens
  {
    Burst(l, map[], a, n);
  }

  /** Waiting for one token after the last success is always enough, however often one asked meanwhile. */
  lemma WaitedEnough(l: Limits, s: Buckets, account: string, now: real)
    requires l.maxTokens >= 1
    requires account in s ==> (now - s[account].lastRefill) * l.refillRate >= 1.0
    ensures Consume(l, s, account, now).1
  {
    assert account in s ==> Flow(l, s[account].lastRefill, now) >= 1.0;
    hide Flow;
    FlowAdds(l, now, now, now);
  }

  // ----- What an account is granted -----

  function Min(a: real, b: real): real { if a <= b then a else b }

  lemma RefusedKeepsBucket(l: Limits, s: Buckets, a: Attempt, account: string)
    requires account in s && !(a.account == account && Consume(l, s, a.account, a.now).1)
    ensures var next := Consume(l, s, a.account, a.now).0;
            account in next && next[account] == s[account]
  {
    hide Flow;
  }

  lemma {:induction false} RefusalsKeepBucket(l: Limits, s: Buckets, attempts: seq<Attempt>, account: string)
    requires account in s && Successes(account, attempts, Run(l, s, attempts).1) == 0
    ensures var last := Run(l, s, attempts).0;
            account in last && last[account] == s[account]
    decreases |attempts|
  {
    hide Consume;
    if attempts != [] {
      SuccessesOfFirst(l, s, attempts, account);
      RefusedKeepsBucket(l, s, attempts[0], account);
      RefusalsKeepBucket(l, Consume(l, s, attempts[0].account, attempts[0].now).0, attempts[1..], account);
    }
  }

  lemma ConsumeExactly(l: Limits, s: Buckets, account: string, k: nat, since: real, now: real)
    requires account in s && s[account] == Bucket(k, since)
    ensures var (after, ok) := Consume(l, s, account, now);
            var level := Min(l.maxTokens as real, k as real + Flow(l, since, now));
            && (ok <==> level >= 1.0)
            && account in after
            && after[account] == if ok then Bucket((level - 1.0).Floor, now) else Bucket(k, since)
  {
    hide Flow;
  }

  /** An account that its last success, at `since`, left `k` tokens gets its next call at `now`, however often it was
      refused and others called in between, exactly when those and the refill since, but no more than a full bucket,
      make a token; and what is left then is the rest in whole tokens. */
  lemma GrantedIff(l: Limits, s: Buckets, between: seq<Attempt>, account: string, k: nat, since: real, now: real)
    requires account in s && s[account] == Bucket(k, since)
    requires Successes(account, between, Run(l, s, between).1) == 0
    ensures var (after, ok) := Consume(l, Run(l, s, between).0, account, now);
            var level := Min(l.maxTokens as real, k as real + (now - since) * l.refillRate);
            && (ok <==> level >= 1.0)
            && account in after
            && after[account] == if ok then Bucket((level - 1.0).Floor, now) else Bucket(k, since)
  {
    hide Consume, Run, Min;
    RefusalsKeepBucket(l, s, between, account);
    ConsumeExactly(l, Run(l, s, between).0, account, k, since, now);
    assert Flow(l, since, now) == (now - since) * l.refillRate;
  }

  /** Nothing is lost but by successes: what the account has had and what it still holds make a full bucket. */
  ghost predicate Provided(l: Limits, s: Buckets, account: string, had: nat) {
    account in s ==> s[account].tokens <= l.maxTokens <= s[account].tokens + had
  }

  lemma ConsumeProvides(l: Limits, s: Buckets, a: Attempt, account: string, had: nat)
    requires Sane(l) && UpTo(s, a.now) && Provided(l, s, account, had)
    ensures var (next, ok) := Consume(l, s, a.account, a.now);
            && Provided(l, next, account, had + if a.account == account && ok then 1 else 0)
            && (a.account == account && had < l.maxTokens ==> ok)
  {
    FlowAdds(l, a.now, a.now, a.now);
    if account in s { FlowAdds(l, s[account].lastRefill, a.now, a.now); }
    hide Flow;
  }

  lemma {:induction false} RunProvides(l: Limits, s: Buckets, attempts: seq<Attempt>, account: string, had: nat)
    requires Sane(l) && InOrder(attempts) && (attempts != [] ==> UpTo(s, attempts[0].now))
    requires Provided(l, s, account, had)
    ensures Provided(l, Run(l, s, attempts).0, account, had + Successes(account, attempts, Run(l, s, attempts).1))
    decreases |attempts|
  {
    hide Consume, Flow, Provided, Sane;
    if attempts != [] {
      var a, rest := attempts[0], attempts[1..];
      var (next, ok) := Consume(l, s, a.account, a.now);
      ConsumeProvides(l, s, a, account, had);
      ConsumePays(l, s, a.account, a.now, account);
      SuccessesOfFirst(l, s, attempts, account);
      RunProvides(l, next, rest, account, had + if a.account == account && ok then 1 else 0);
    }
  }

  lemma OutcomeAt(l: Limits, s: Buckets, attempts: seq<Attempt>, i: nat)
    requires i < |attempts|
    ensures Run(l, s, attempts).1[i]
            == Consume(l, Run(l, s, attempts[..i]).0, attempts[i].account, attempts[i].now).1
  {
    hide Consume;
    RunWindow(l, s, attempts, i, i + 1);
    assert attempts[i..i + 1] == [attempts[i]];
  }

  /** The lower half of the bound: in every run a call succeeds while its account has had fewer successes than a full
      bucket holds. */
  lemma FullBucketIsOwed(l: Limits, attempts: seq<Attempt>, i: nat)
    requires Sane(l) && InOrder(attempts) && i < |attempts|
    requires Successes(attempts[i].account, attempts[..i], Run(l, map[], attempts[..i]).1) < l.maxTokens
    ensures Run(l, map[], attempts).1[i]
  {
    hide Consume, Flow, Successes, Run;
    var a, mid := attempts[i], Run(l, map[], attempts[..i]).0;
    RunUpTo(l, map[], attempts[..i], a.now);
    RunProvides(l, map[], attempts[..i], a.account, 0);
    ConsumeProvides(l, mid, a, a.account, Successes(a.account, attempts[..i], Run(l, map[], attempts[..i]).1));
    OutcomeAt(l, map[], attempts, i);
  }

  // ----- Refused attempts leave no trace -----

  function OnlySuccesses(attempts: seq<Attempt>, oks: seq<bool>): seq<Attempt>
    requires |oks| == |attempts|
  {
    if attempts == [] then []
    else (if oks[0] then [attempts[0]] else []) + OnlySuccesses(attempts[1..], oks[1..])
  }

  lemma RefusedChangesNothing(l: Limits, s: Buckets, account: string, now: real)
    requires l.maxTokens >= 1 && !Consume(l, s, account, now).1
    ensures Consume(l, s, account, now).0 == s
  {
    hide Flow;
    FlowAdds(l, now, now, now);
  }

  /** Dropping the refused attempts from a run changes neither the buckets nor any success. */
  lemma {:induction false} RefusalsLeaveNoTrace(l: Limits, s: Buckets, attempts: seq<Attempt>)
    requires l.maxTokens >= 1
    ensures var (last, oks) := Run(l, s, attempts);
            var kept := OnlySuccesses(attempts, oks);
            && Run(l, s, kept).0 == last
            && forall i | 0 <= i < |kept| :: Run(l, s, kept).1[i]
    decreases |attempts|
  {
    hide Consume;
    if attempts != [] {
      var a := attempts[0];
      var (next, ok) := Consume(l, s, a.account, a.now);
      if !ok { RefusedChangesNothing(l, s, a.account, a.now); }
      RefusalsLeaveNoTrace(l, next, attempts[1..]);
      var (last, oks) := Run(l, s, attempts);
      assert oks[1..] == Run(l, next, attempts[1..]).1;
      var rest := OnlySuccesses(attempts[1..], oks[1..]);
      if ok {
        assert OnlySuccesses(attempts, oks)[1..] == rest;
      } else {
        assert OnlySuccesses(attempts, oks) == rest;
      }
    }
  }

  // ----- Accounts do not share -----

  function Of(account: string, attempts: seq<Attempt>): seq<Attempt> {
    if attempts == [] then []
    else (if attempts[0].account == account then [attempts[0]] else []) + Of(account, attempts[1..])
  }

  function Outcomes(account: string, attempts: seq<Attempt>, oks: seq<bool>): seq<bool>
    requires |oks| == |attempts|
  {
    if attempts == [] then []
    else (if attempts[0].account == account then [oks[0]] else []) + Outcomes(account, attempts[1..], oks[1..])
  }

  predicate SameBucket(s: Buckets, t: Buckets, account: string) {
    (account in s <==> account in t) && (account in s ==> s[account] == t[account])
  }

  /** What an account is granted depends on its own attempts only. */
  lemma {:induction false} AccountsAreIsolated(l: Limits, s: Buckets, t: Buckets, attempts: seq<Attempt>,
                                               account: string)
    requires SameBucket(s, t, account)
    ensures Outcomes(account, attempts, Run(l, s, attempts).1) == Run(l, t, Of(account, attempts)).1
    ensures SameBucket(Run(l, s, attempts).0, Run(l, t, Of(account, attempts)).0, account)
    decreases |attempts|
  {
    hide Flow;
    if attempts != [] {
      var a, rest := attempts[0], attempts[1..];
      var (next, ok) := Consume(l, s, a.account, a.now);
      assert Run(l, s, attempts).1[1..] == Run(l, next, rest).1;
      if a.account == account {
        var (next', ok') := Consume(l, t, account, a.now);
        AccountsAreIsolated(l, next, next', rest, account);
        assert Of(account, attempts)[1..] == Of(account, rest);
      } else {
        AccountsAreIsolated(l, next, t, rest, account);
        assert Of(account, attempts) == Of(account, rest);
      }
    }
  }
}
