/**
 The sliding-window login limiter of internal/sftpadmin/session.go, with its
 in-place compaction, and handleLogin of internal/sftpadmin/server.go handled one
 request at a time.  Times are nanoseconds.
 */
module Login {

  const MAX_ATTEMPTS := 5
  const WINDOW := 60_000_000_000

  /** The times strictly after `cutoff`, in order. */
  function After(ts: seq<int>, cutoff: int): seq<int> {
    if ts == [] then []
    else
      var rest := After(ts[..|ts| - 1], cutoff);
      if ts[|ts| - 1] > cutoff then rest + [ts[|ts| - 1]] else rest
  }

  /** The compaction loop: `kept` shares the slice it filters. */
  method Compact(a: array<int>, n: nat, cutoff: int) returns (k: nat)
    requires n <= a.Length
    modifies a
    ensures k <= n && a[..k] == After(old(a[..n]), cutoff)
    ensures a[n..] == old(a[n..])
  {
    ghost var all := a[..n];
    k := 0;
    for i := 0 to n
      invariant k <= i
      invariant a[..k] == After(all[..i], cutoff)
      invariant forall j :: i <= j < a.Length ==> a[j] == old(a[j])
    {
      assert all[..i + 1][..i] == all[..i];
      if a[i] > cutoff {
        a[k] := a[i];
        k := k + 1;
      }
    }
    assert all[..n] == all;
  }

  type Failures = map<string, seq<int>>

  function Stored(f: Failures, ip: string): seq<int> { if ip in f then f[ip] else [] }

  function Recent(f: Failures, ip: string, now: int): seq<int> { After(Stored(f, ip), now - WINDOW) }

  /** recentFailuresLocked: an empty list is not kept in the map. */
  function Pruned(f: Failures, ip: string, now: int): Failures {
    if Recent(f, ip, now) == [] then f - {ip} else f[ip := Recent(f, ip, now)]
  }

  function Failed(f: Failures, ip: string, now: int, stamp: int): Failures {
    f[ip := Recent(f, ip, now) + [stamp]]
  }

  class AuthState {
    var failures: Failures

    constructor ()
      ensures failures == map[]
    {
      failures := map[];
    }

    method RecentFailures(ip: string, now: int) returns (kept: seq<int>)
      modifies this
      ensures kept == Recent(old(failures), ip, now)
      ensures failures == Pruned(old(failures), ip, now)
    {
      var list := Stored(failures, ip);
      var buf := new int[|list|](i requires 0 <= i < |list| => list[i]);
      assert buf[..|list|] == list;
      var k := Compact(buf, |list|, now - WINDOW);
      kept := buf[..k];
      if |kept| == 0 {
        failures := failures - {ip};
      } else {
        failures := failures[ip := kept];
      }
    }

    method LoginAllowed(ip: string, now: int) returns (ok: bool)
      modifies this
      ensures ok == (|Recent(old(failures), ip, now)| < MAX_ATTEMPTS)
      ensures failures == Pruned(old(failures), ip, now)
    {
      var kept := RecentFailures(ip, now);
      ok := |kept| < MAX_ATTEMPTS;
    }

    /** recordFailure reads the clock once to prune and once more for the new stamp. */
    method RecordFailure(ip: string, now: int, stamp: int)
      modifies this
      ensures failures == Failed(old(failures), ip, now, stamp)
    {
      var kept := RecentFailures(ip, now);
      failures := failures[ip := kept + [stamp]];
    }

    method RecordSuccess(ip: string)
      modifies this
      ensures failures == old(failures) - {ip}
    {
      failures := failures - {ip};
    }

    /** handleLogin: true when the attempt was answered 429. */
    method Login(a: Attempt) returns (blocked: bool)
      modifies this
      ensures failures == Next(old(failures), a)
      ensures blocked == Blocked(old(failures), a)
    {
      var ok := LoginAllowed(a.ip, a.checkAt);
      if !ok {
        return true;
      }
      if a.good {
        RecordSuccess(a.ip);
      } else {
        RecordFailure(a.ip, a.pruneAt, a.stampAt);
      }
      return false;
    }
  }

  /** One login request and the three clock readings it takes. */
  datatype Attempt = Attempt(ip: string, good: bool, checkAt: int, pruneAt: int, stampAt: int)

  predicate Blocked(f: Failures, a: Attempt) { |Recent(f, a.ip, a.checkAt)| >= MAX_ATTEMPTS }

  function Next(f: Failures, a: Attempt): Failures {
    var g := Pruned(f, a.ip, a.checkAt);
    if Blocked(f, a) then g
    else if a.good then g - {a.ip}
    else Failed(g, a.ip, a.pruneAt, a.stampAt)
  }

  function FailuresAt(attempts: seq<Attempt>, n: nat): Failures
    requires n <= |attempts|
  {
    if n == 0 then map[] else Next(FailuresAt(attempts, n - 1), attempts[n - 1])
  }

  /** The full failure history of an address since its last success. */
  function History(attempts: seq<Attempt>, n: nat, ip: string): seq<int>
    requires n <= |attempts|
  {
    if n == 0 then []
    else
      var h, a := History(attempts, n - 1, ip), attempts[n - 1];
      if a.ip != ip || Blocked(FailuresAt(attempts, n - 1), a) then h
      else if a.good then []
      else h + [a.stampAt]
  }

  /** Requests are handled one at a time and the clock never goes back. */
  predicate Ordered(attempts: seq<Attempt>) {
    && (forall i :: 0 <= i < |attempts| ==> attempts[i].checkAt <= attempts[i].pruneAt <= attempts[i].stampAt)
    && (forall i, j :: 0 <= i < j < |attempts| ==> attempts[i].stampAt <= attempts[j].checkAt)
  }

  // ------------------------------------------------------------------ filtering

  lemma {:induction false} AfterTwice(ts: seq<int>, c: int, d: int)
    requires c <= d
    ensures After(After(ts, c), d) == After(ts, d)
  {
    if ts != [] {
      var init, rest := ts[..|ts| - 1], After(ts[..|ts| - 1], c);
      AfterTwice(init, c, d);
      assert (rest + [ts[|ts| - 1]])[..|rest|] == rest;
    }
  }

  lemma AfterAppend(ts: seq<int>, t: int, c: int)
    ensures After(ts + [t], c) == After(ts, c) + if t > c then [t] else []
  {
    assert (ts + [t])[..|ts|] == ts;
  }

  /** How many of `ts` fall in the span (`hi` - WINDOW, `hi`]. */
  function InSpan(ts: seq<int>, hi: int): nat {
    if ts == [] then 0
    else InSpan(ts[..|ts| - 1], hi) + if hi - WINDOW < ts[|ts| - 1] <= hi then 1 else 0
  }

  lemma {:induction false} SpanWithinAfter(ts: seq<int>, hi: int, c: int)
    requires c <= hi - WINDOW
    ensures InSpan(ts, hi) <= |After(ts, c)|
  {
    if ts != [] {
      SpanWithinAfter(ts[..|ts| - 1], hi, c);
    }
  }

  // -------------------------------------------------------------------- the run

  /** The history after one more attempt of the same address. */
  function HistoryStep(f: Failures, h: seq<int>, a: Attempt): seq<int> {
    if Blocked(f, a) then h else if a.good then [] else h + [a.stampAt]
  }

  lemma StoredPruned(f: Failures, ip: string, now: int)
    ensures Stored(Pruned(f, ip, now), ip) == Recent(f, ip, now)
  {}

  lemma StepAgrees(f: Failures, h: seq<int>, a: Attempt, now: int)
    requires a.checkAt <= a.pruneAt <= a.stampAt <= now
    requires Recent(f, a.ip, now) == After(h, now - WINDOW)
    ensures Recent(Next(f, a), a.ip, now) == After(HistoryStep(f, h, a), now - WINDOW)
  {
    hide After;
    var ip, s, g := a.ip, Stored(f, a.ip), Pruned(f, a.ip, a.checkAt);
    StoredPruned(f, ip, a.checkAt);
    AfterTwice(s, a.checkAt - WINDOW, now - WINDOW);
    if !Blocked(f, a) {
      if a.good {
        EmptyAfter(now - WINDOW);
      } else {
        AfterTwice(s, a.checkAt - WINDOW, a.pruneAt - WINDOW);
        AfterTwice(s, a.pruneAt - WINDOW, now - WINDOW);
        AfterAppend(Recent(g, ip, a.pruneAt), a.stampAt, now - WINDOW);
        AfterAppend(h, a.stampAt, now - WINDOW);
      }
    }
  }

  lemma EmptyAfter(c: int)
    ensures After([], c) == []
  {}

  lemma OtherAddress(f: Failures, a: Attempt, ip: string)
    requires a.ip != ip
    ensures Stored(Next(f, a), ip) == Stored(f, ip)
  {
    hide After, Blocked;
  }

  /**
   * From any later moment, the stored failures and the full history have the
   * same recent part: pruning never loses anything that still counts.
   */
  lemma {:induction false} StoredIsRecentHistory(attempts: seq<Attempt>, n: nat, ip: string, now: int)
    requires n <= |attempts| && Ordered(attempts)
    requires n > 0 ==> attempts[n - 1].stampAt <= now
    ensures Recent(FailuresAt(attempts, n), ip, now) == After(History(attempts, n, ip), now - WINDOW)
  {
    hide After, Next, Blocked;
    if n == 0 {
      EmptyAfter(now - WINDOW);
    } else {
      var a, f := attempts[n - 1], FailuresAt(attempts, n - 1);
      StoredIsRecentHistory(attempts, n - 1, ip, now);
      if a.ip == ip {
        StepAgrees(f, History(attempts, n - 1, ip), a, now);
      } else {
        OtherAddress(f, a, ip);
      }
    }
  }

  /** The limiter decides by the full history: blocked exactly when five failures are recent. */
  lemma BlockedByHistory(attempts: seq<Attempt>, n: nat)
    requires n < |attempts| && Ordered(attempts)
    ensures Blocked(FailuresAt(attempts, n), attempts[n]) <==>
            |After(History(attempts, n, attempts[n].ip), attempts[n].checkAt - WINDOW)| >= MAX_ATTEMPTS
  {
    hide After, Next, FailuresAt, History;
    StoredIsRecentHistory(attempts, n, attempts[n].ip, attempts[n].checkAt);
  }

  lemma SpanStep(h: seq<int>, a: Attempt, hi: int)
    requires a.checkAt <= a.stampAt && InSpan(h, hi) <= MAX_ATTEMPTS
    requires |After(h, a.checkAt - WINDOW)| < MAX_ATTEMPTS
    ensures InSpan(h + [a.stampAt], hi) <= MAX_ATTEMPTS
  {
    hide After;
    assert (h + [a.stampAt])[..|h|] == h;
    if a.stampAt <= hi {
      SpanWithinAfter(h, hi, a.checkAt - WINDOW);
    }
  }

  /** No span of one window between successes holds more than five failures of an address. */
  lemma {:induction false} AtMostFivePerWindow(attempts: seq<Attempt>, n: nat, ip: string, hi: int)
    requires n <= |attempts| && Ordered(attempts)
    ensures InSpan(History(attempts, n, ip), hi) <= MAX_ATTEMPTS
  {
    hide After, Next, Blocked, FailuresAt, InSpan;
    if n == 0 {
      assert InSpan([], hi) == 0 by { NothingInSpan(hi); }
    } else {
      AtMostFivePerWindow(attempts, n - 1, ip, hi);
      var a := attempts[n - 1];
      if a.ip == ip && !Blocked(FailuresAt(attempts, n - 1), a) {
        BlockedByHistory(attempts, n - 1);
        SpanStep(History(attempts, n - 1, ip), a, hi);
        NothingInSpan(hi);
      }
    }
  }

  lemma NothingInSpan(hi: int)
    ensures InSpan([], hi) == 0
  {}

  /** The span is half open: failures exactly one window old have stopped counting. */
  lemma ExactlyOneWindowLater(f: Failures, ip: string, t: int)
    requires Stored(f, ip) == [t, t, t, t, t]
    ensures Blocked(f, Attempt(ip, false, t + WINDOW - 1, t + WINDOW - 1, t + WINDOW - 1))
    ensures !Blocked(f, Attempt(ip, false, t + WINDOW, t + WINDOW, t + WINDOW))
  {
    var five := [t, t, t, t, t];
    Repeated(five, t, t - 1);
    Repeated(five, t, t);
  }

  lemma {:induction false} Repeated(ts: seq<int>, t: int, c: int)
    requires forall i :: 0 <= i < |ts| ==> ts[i] == t
    ensures |After(ts, c)| == if t > c then |ts| else 0
  {
    if ts != [] {
      Repeated(ts[..|ts| - 1], t, c);
    }
  }

  // ------------------------------------------------------ one minute, five times

  /** How many stamps lie in the span (`lo`, `hi`]. */
  function CountIn(ts: seq<int>, lo: int, hi: int): nat {
    if ts == [] then 0
    else CountIn(ts[..|ts| - 1], lo, hi) + if lo < ts[|ts| - 1] <= hi then 1 else 0
  }

  lemma {:induction false} SpanIsCount(ts: seq<int>, hi: int)
    ensures InSpan(ts, hi) == CountIn(ts, hi - 60_000_000_000, hi)
  {
    if ts != [] {
      SpanIsCount(ts[..|ts| - 1], hi);
    }
  }

  lemma {:induction false} AfterIsCount(ts: seq<int>, now: int)
    requires forall i :: 0 <= i < |ts| ==> ts[i] <= now
    ensures |After(ts, now - WINDOW)| == CountIn(ts, now - 60_000_000_000, now)
  {
    if ts != [] {
      AfterIsCount(ts[..|ts| - 1], now);
    }
  }

  /** In no span of sixty seconds do more than five failures of an address lie, between its successes. */
  lemma FivePerMinute(attempts: seq<Attempt>, n: nat, ip: string, hi: int)
    requires n <= |attempts| && Ordered(attempts)
    ensures CountIn(History(attempts, n, ip), hi - 60_000_000_000, hi) <= 5
  {
    hide History;
    AtMostFivePerWindow(attempts, n, ip, hi);
    SpanIsCount(History(attempts, n, ip), hi);
  }

  lemma {:induction false} HistoryPast(attempts: seq<Attempt>, n: nat, ip: string, now: int)
    requires n <= |attempts| && Ordered(attempts) && (n > 0 ==> attempts[n - 1].stampAt <= now)
    ensures forall i :: 0 <= i < |History(attempts, n, ip)| ==> History(attempts, n, ip)[i] <= now
  {
    hide Blocked, FailuresAt;
    if n > 0 {
      HistoryPast(attempts, n - 1, ip, now);
    }
  }

  /** An attempt is refused exactly when at least five failures of its address lie in the minute before it. */
  lemma RefusedIff(attempts: seq<Attempt>, n: nat)
    requires n < |attempts| && Ordered(attempts)
    ensures var a := attempts[n];
      Blocked(FailuresAt(attempts, n), a) <==> CountIn(History(attempts, n, a.ip), a.checkAt - 60_000_000_000, a.checkAt) >= 5
  {
    hide History, FailuresAt, Blocked, After;
    BlockedByHistory(attempts, n);
    HistoryPast(attempts, n, attempts[n].ip, attempts[n].checkAt);
    AfterIsCount(History(attempts, n, attempts[n].ip), attempts[n].checkAt);
  }

  /** `count` failed attempts of one address at time `t`, and one more attempt at `now`. */
  function Burst(ip: string, t: int, count: nat, good: bool, now: int): seq<Attempt> {
    seq(count, i => Attempt(ip, false, t, t, t)) + [Attempt(ip, good, now, now, now)]
  }

  lemma {:induction false} CountSame(ts: seq<int>, t: int, lo: int, hi: int)
    requires forall i :: 0 <= i < |ts| ==> ts[i] == t
    ensures CountIn(ts, lo, hi) == if lo < t <= hi then |ts| else 0
  {
    if ts != [] {
      CountSame(ts[..|ts| - 1], t, lo, hi);
    }
  }

  lemma BurstShape(ip: string, t: int, count: nat, good: bool, now: int)
    requires t <= now
    ensures var b := Burst(ip, t, count, good, now);
      && |b| == count + 1 && Ordered(b)
      && (forall i :: 0 <= i < count ==> b[i] == Attempt(ip, false, t, t, t))
      && b[count] == Attempt(ip, good, now, now, now)
  {}

  lemma {:induction false} BurstHistory(ip: string, t: int, count: nat, good: bool, now: int, n: nat)
    requires n <= count <= 5 && t <= now && |Burst(ip, t, count, good, now)| == count + 1
    ensures var h := History(Burst(ip, t, count, good, now), n, ip); |h| == n && forall i :: 0 <= i < n ==> h[i] == t
  {
    hide Burst, Blocked, FailuresAt, Ordered, CountIn;
    if n > 0 {
      var b := Burst(ip, t, count, good, now);
      BurstShape(ip, t, count, good, now);
      BurstHistory(ip, t, count, good, now, n - 1);
      assert b[n - 1] == Attempt(ip, false, t, t, t);
      RefusedIff(b, n - 1);
      CountSame(History(b, n - 1, ip), t, t - 60_000_000_000, t);
    }
  }

  /** Five failures at one moment block the address for the next minute and no longer; four never do. */
  lemma BurstBlocks(ip: string, t: int, count: nat, good: bool, now: int)
    requires count <= 5 && t <= now
    ensures var b := Burst(ip, t, count, good, now);
      |b| == count + 1 && (Blocked(FailuresAt(b, count), b[count]) <==> count == 5 && now < t + 60_000_000_000)
  {
    hide Burst, Blocked, FailuresAt, Ordered, CountIn, History;
    var b := Burst(ip, t, count, good, now);
    BurstShape(ip, t, count, good, now);
    BurstHistory(ip, t, count, good, now, count);
    RefusedIff(b, count);
    CountSame(History(b, count, ip), t, now - 60_000_000_000, now);
  }

  /** A good login that is let through forgets the failures of its address, and only those. */
  lemma SuccessForgets(f: Failures, a: Attempt, other: string)
    requires a.good && !Blocked(f, a)
    ensures a.ip !in Next(f, a)
    ensures other != a.ip ==> Stored(Next(f, a), other) == Stored(f, other)
  {
    hide After, Blocked;
  }
}
