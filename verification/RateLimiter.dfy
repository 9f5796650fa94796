/** The sliding-window rate limiter over two aligned, expiring counters. Clock readings are in milliseconds. */
module RateLimiter {
  import opened RedisKeys
  import opened WindowArithmetic

  /** One aligned window of one caller's key. */
  datatype Window = Window(key: string, size: Secs, start: int) {
    function Previous(): Window { Window(key, size, start - size) }
    function Text(): string { RedisKey(key, size, start) }
  }

  /** A counted request. `answered` is false when the pipeline reported an error; the limiter then decided nothing. */
  datatype Hit = Hit(key: string, size: Secs, atMs: nat, limit: int, answered: bool, allowed: bool) {
    function Second(): nat { atMs / 1000 }
    function Home(): Window { Window(key, size, WindowStart(Second(), size)) }
  }

  function WindowStart(second: nat, w: Secs): (s: int)
  {
    second / w * w
  }

  lemma WindowBounds(second: nat, w: Secs)
    ensures 0 <= WindowStart(second, w) <= second < WindowStart(second, w) + w
    ensures WindowStart(second, w) % w == 0
  {
    assert second == second / w * w + second % w;
    MultipleHasNoRemainder(second / w, w);
  }

  // ---------------------------------------------------------------- the plain request log

  ghost function Count(log: seq<Hit>, win: Window): nat {
    if log == [] then 0
    else Count(log[..|log| - 1], win) + (if log[|log| - 1].Home() == win then 1 else 0)
  }

  ghost function AllowedCount(log: seq<Hit>, win: Window): nat {
    if log == [] then 0
    else AllowedCount(log[..|log| - 1], win) +
         (if log[|log| - 1].Home() == win && log[|log| - 1].allowed then 1 else 0)
  }

  /** Requests of (k, w) allowed in the seconds (from, upTo]. */
  ghost function AllowedWithin(log: seq<Hit>, k: string, w: Secs, from: int, upTo: int): nat {
    if log == [] then 0
    else
      var h := log[|log| - 1];
      AllowedWithin(log[..|log| - 1], k, w, from, upTo) +
      (if h.key == k && h.size == w && h.allowed && from < h.Second() <= upTo then 1 else 0)
  }

  /** The weight of the previous window: the part of it that a window ending now still covers. */
  function OverlapWeight(elapsed: nat, w: Secs): real {
    var weight := 1.0 - elapsed as real / w as real;
    if weight < 0.0 then 0.0 else weight
  }

  function Weighted(previous: nat, current: nat, elapsed: nat, w: Secs): int {
    (previous as real * OverlapWeight(elapsed, w)).Floor + current
  }

  lemma WeightedExact(previous: nat, current: nat, elapsed: nat, w: Secs)
    requires elapsed <= w
    ensures Weighted(previous, current, elapsed, w) == previous * (w - elapsed) / w + current
  {
    var weight := OverlapWeight(elapsed, w);
    assert weight == (w - elapsed) as real / w as real;
    assert (previous * (w - elapsed)) as real == previous as real * (w - elapsed) as real;
    assert previous as real * weight == (previous * (w - elapsed)) as real / w as real;
    FloorOfQuotient(previous * (w - elapsed), w);
  }

  /** What the limiter computes for the latest request of a log. */
  ghost function LastWeight(log: seq<Hit>): int
    requires log != []
  {
    var h := log[|log| - 1];
    WindowBounds(h.Second(), h.size);
    Weighted(Count(log, h.Home().Previous()), Count(log, h.Home()), h.Second() - h.Home().start, h.size)
  }

  /** Every answered request was allowed exactly when the log so far weighed at most its limit. */
  ghost predicate Decided(log: seq<Hit>) {
    log == [] ||
    var h := log[|log| - 1];
    && Decided(log[..|log| - 1])
    && (h.answered ==> (h.allowed <==> LastWeight(log) <= h.limit))
    && (!h.answered ==> !h.allowed)
    && h.limit > 0
  }

  ghost predicate InTimeOrder(log: seq<Hit>) {
    forall i, j :: 0 <= i < j < |log| ==> log[i].atMs <= log[j].atMs
  }

  // ---------------------------------------------------------------- the expiring store

  datatype Expiry = Never | At(ms: int)

  datatype Counter = Counter(count: nat, expiry: Expiry) {
    predicate Live(t: int) { expiry == Never || t < expiry.ms }
  }

  /** Counters by key. The server's keys are texts; the limiter's proofs use windows, and `Rendered` relates the two. */
  type Store<K> = map<K, Counter>

  predicate LiveKey<K>(store: Store<K>, k: K, t: int) {
    k in store && store[k].Live(t)
  }

  /** GET at time t, an absent or expired counter read as zero. */
  function Read<K>(store: Store<K>, k: K, t: int): nat {
    if LiveKey(store, k, t) then store[k].count else 0
  }

  function Incr<K>(store: Store<K>, k: K, t: int): Store<K> {
    if LiveKey(store, k, t) then store[k := store[k].(count := store[k].count + 1)]
    else store[k := Counter(1, Never)]
  }

  function Expire<K>(store: Store<K>, k: K, t: int, at: int): Store<K> {
    if LiveKey(store, k, t) then store[k := store[k].(expiry := At(at))] else store
  }

  /** The two pipelined writes of one check, each of which may or may not have been applied. */
  function ApplyWrites<K>(store: Store<K>, k: K, t: int, w: Secs, incr: bool, expire: bool): Store<K> {
    var counted := if incr then Incr(store, k, t) else store;
    if expire then Expire(counted, k, t, t + w * 2 * 1000) else counted
  }

  /** The server may drop expired counters at any moment. */
  function Evict<K>(store: Store<K>, t: int): Store<K> {
    map k | k in store && store[k].Live(t) :: store[k]
  }

  /** `texts` holds the counters of `store` under the names of their windows; other keys of the server do not matter. */
  ghost predicate Rendered(store: Store<Window>, texts: Store<string>, name: Window -> string) {
    forall win :: (win in store <==> name(win) in texts) && (win in store ==> texts[name(win)] == store[win])
  }

  ghost predicate NamesApart(name: Window -> string) {
    forall a, b :: name(a) == name(b) ==> a == b
  }

  lemma TextNamesApart()
    ensures NamesApart((win: Window) => win.Text())
  {
    forall a: Window, b: Window | a.Text() == b.Text()
      ensures a == b
    {
      RedisKeyInjective(a.key, a.size, a.start, b.key, b.size, b.start);
    }
  }

  /** Under names that tell windows apart (TextNamesApart), the textual store behaves as the store of windows:
      every check leaves and reads the same counters in both. */
  lemma TextStoreSimulates(store: Store<Window>, texts: Store<string>, name: Window -> string, win: Window, t: int,
                           incr: bool, expire: bool)
    requires Rendered(store, texts, name) && NamesApart(name)
    ensures Rendered(ApplyWrites(store, win, t, win.size, incr, expire),
                     ApplyWrites(texts, name(win), t, win.size, incr, expire), name)
    ensures Read(texts, name(win), t) == Read(store, win, t)
  {
  }

  /** Counters of a window answer for it until the window after it has ended. */
  ghost predicate Refines(store: Store<Window>, log: seq<Hit>, clock: nat) {
    forall win: Window, t: int :: clock <= t < (win.start + 2 * win.size) * 1000 ==>
        Read(store, win, t) == Count(log, win)
  }

  ghost predicate Positive(store: Store<Window>) {
    forall win :: win in store ==> store[win].count > 0
  }

  /** A check keeps the agreement, whichever of its writes were applied. */
  lemma HitKeepsRefinement(store: Store<Window>, log: seq<Hit>, clock: nat, h: Hit, incr: bool, expire: bool)
    requires Refines(store, log, clock) && Positive(store) && clock <= h.atMs
    ensures var stored := ApplyWrites(store, h.Home(), h.atMs, h.size, incr, expire);
            Refines(stored, if incr then log + [h] else log, h.atMs) && Positive(stored)
  {
    var stored := ApplyWrites(store, h.Home(), h.atMs, h.size, incr, expire);
    var log' := if incr then log + [h] else log;
    WindowBounds(h.Second(), h.size);
    assert Read(store, h.Home(), h.atMs) == Count(log, h.Home());
    forall win: Window, t: int | h.atMs <= t < (win.start + 2 * win.size) * 1000
      ensures Read(stored, win, t) == Count(log', win)
    {
      assert Read(store, win, t) == Count(log, win);
      assert Count(log', win) == Count(log, win) + (if incr && h.Home() == win then 1 else 0) by {
        if incr {
          assert log'[..|log'| - 1] == log;
        }
      }
    }
  }

  lemma EvictKeepsRefinement(store: Store<Window>, log: seq<Hit>, clock: nat, now: nat)
    requires Refines(store, log, clock) && Positive(store) && clock <= now
    ensures Refines(Evict(store, now), log, now) && Positive(Evict(store, now))
  {
    forall win: Window, t: int | now <= t < (win.start + 2 * win.size) * 1000
      ensures Read(Evict(store, now), win, t) == Count(log, win)
    {
      assert Read(store, win, t) == Count(log, win);
    }
  }

  // ---------------------------------------------------------------- the adapter

  datatype Decision = Decision(allowed: bool, limit: int, remaining: int, resetAt: int, retryAfter: int)

  /** The decision from the two counts. It never refuses while both windows together hold at most the limit. */
  function Decide(limit: int, w: Secs, now: nat, previous: nat, current: nat): (d: Decision)
    ensures d.allowed <==> Weighted(previous, current, now - WindowStart(now, w), w) <= limit
    ensures previous + current <= limit ==> d.allowed
    ensures current > limit ==> !d.allowed
    ensures d.allowed ==> 0 <= d.remaining <= limit - current
    ensures d.allowed ==> d.remaining == limit - Weighted(previous, current, now - WindowStart(now, w), w)
    ensures !d.allowed ==> d.remaining == 0
    ensures d.limit == limit
    ensures d.resetAt == now + d.retryAfter && 1 <= d.retryAfter <= w && d.resetAt % w == 0
  {
    WindowBounds(now, w);
    var start := WindowStart(now, w);
    ShiftAligned(start, w);
    WeightAtMostSum(previous, current, now - start, w);
    var weightedCount := Weighted(previous, current, now - start, w);
    var resetAt := start + w;
    var retryAfter := if resetAt - now < 0 then 0 else resetAt - now;
    Decision(weightedCount <= limit, limit, if limit - weightedCount > 0 then limit - weightedCount else 0, resetAt,
             retryAfter)
  }

  lemma WeightAtMostSum(previous: nat, current: nat, elapsed: nat, w: Secs)
    requires elapsed <= w
    ensures current <= Weighted(previous, current, elapsed, w) <= previous + current
  {
    WeightedExact(previous, current, elapsed, w);
    DivBounds(previous, w - elapsed, w);
  }

  datatype CheckResult = Checked(decision: Decision) | InvalidLimit | InvalidWindow | PipelineFailed

  /** How the three pipelined commands fared. Without a reported error both writes were applied. */
  datatype Pipeline = Pipeline(incrApplied: bool, expireApplied: bool, failed: bool) {
    predicate Coherent() { !failed ==> incrApplied && expireApplied }
  }

  ghost predicate Consistent(store: Store<Window>, log: seq<Hit>, clock: nat) {
    && Refines(store, log, clock)
    && Positive(store)
    && Decided(log)
    && InTimeOrder(log)
    && (forall i :: 0 <= i < |log| ==> log[i].atMs <= clock)
  }

  class RateLimiterAdapter {
    var store: Store<Window>
    ghost var log: seq<Hit>
    ghost var clock: nat

    ghost predicate Valid()
      reads this
    {
      Consistent(store, log, clock)
    }

    constructor ()
      ensures Valid() && log == [] && store == map[] && clock == 0
    {
      store, log, clock := map[], [], 0;
    }

    method CheckRateLimit(key: string, limit: int, windowSecs: int, nowMs: nat, pipe: Pipeline)
      returns (r: CheckResult)
      requires Valid() && clock <= nowMs && pipe.Coherent()
      modifies this
      ensures Valid()
      ensures r == InvalidLimit <==> limit <= 0
      ensures r == InvalidWindow <==> limit > 0 && windowSecs <= 0
      ensures r == PipelineFailed <==> limit > 0 && windowSecs > 0 && pipe.failed
      ensures limit > 0 && windowSecs > 0 && pipe.incrApplied ==>
                log == old(log) + [Hit(key, windowSecs, nowMs, limit, r.Checked?, r.Checked? && r.decision.allowed)]
      ensures !(limit > 0 && windowSecs > 0 && pipe.incrApplied) ==> log == old(log)
      // the counter answers for two windows from its latest request, and no other counter is touched
      ensures limit > 0 && windowSecs > 0 && pipe.incrApplied && pipe.expireApplied ==>
                var win := Window(key, windowSecs, WindowStart(nowMs / 1000, windowSecs));
                win in store && store[win].expiry == At(nowMs + 2 * windowSecs * 1000)
      ensures forall win: Window :: win.key != key || win.size != windowSecs ==>
                (win in store <==> win in old(store)) && (win in store ==> store[win] == old(store)[win])
      ensures r.Checked? ==>
                var win := Window(key, windowSecs, WindowStart(nowMs / 1000, windowSecs));
                r.decision == Decide(limit, windowSecs, nowMs / 1000, Count(log, win.Previous()), Count(log, win))
    {
      if limit <= 0 {
        return InvalidLimit;
      }
      if windowSecs <= 0 {
        return InvalidWindow;
      }
      var now := nowMs / 1000;
      var current := Window(key, windowSecs, WindowStart(now, windowSecs));
      var previous := Window(key, windowSecs, current.start - windowSecs);

      var stored := ApplyWrites(store, current, nowMs, windowSecs, pipe.incrApplied, pipe.expireApplied);
      var currentCount := Read(stored, current, nowMs);
      var previousCount := Read(stored, previous, nowMs);
      r := if pipe.failed then PipelineFailed else Checked(Decide(limit, windowSecs, now, previousCount, currentCount));

      ghost var h := Hit(key, windowSecs, nowMs, limit, r.Checked?, r.Checked? && r.decision.allowed);
      assert h.Home() == current && current.Previous() == previous;
      ghost var logged := if pipe.incrApplied then log + [h] else log;
      CheckKeepsConsistent(store, log, clock, h, pipe.incrApplied, pipe.expireApplied, stored, logged);
      store, log, clock := stored, logged, nowMs;
    }

    method EvictExpired(nowMs: nat)
      requires Valid() && clock <= nowMs
      modifies this
      ensures Valid() && log == old(log) && clock == nowMs
      ensures forall win :: win in store <==> win in old(store) && old(store)[win].Live(nowMs)
      ensures forall win :: win in store ==> store[win] == old(store)[win]
    {
      EvictKeepsRefinement(store, log, clock, nowMs);
      store, clock := Evict(store, nowMs), nowMs;
    }
  }

  /** A counter answers up to its expiry, and from then on reads as zero. */
  lemma CounterLifetime<K>(store: Store<K>, k: K, at: int, t: int)
    requires k in store && store[k].expiry == At(at)
    ensures Read(store, k, t) == if t < at then store[k].count else 0
  {
  }

  /** Both counts a check reads are the numbers of logged requests in the current and the previous window. */
  lemma CountsAgree(store: Store<Window>, log: seq<Hit>, h: Hit)
    requires Refines(store, log, h.atMs)
    ensures Read(store, h.Home(), h.atMs) == Count(log, h.Home())
    ensures Read(store, h.Home().Previous(), h.atMs) == Count(log, h.Home().Previous())
  {
    WindowBounds(h.Second(), h.size);
  }

  lemma DecidedAfter(log: seq<Hit>, h: Hit, previous: nat, current: nat)
    requires Decided(log) && h.limit > 0
    requires previous == Count(log + [h], h.Home().Previous()) && current == Count(log + [h], h.Home())
    requires h.allowed <==> h.answered && Decide(h.limit, h.size, h.Second(), previous, current).allowed
    ensures Decided(log + [h])
  {
  }

  /** Everything a check must keep, given that its decision came from the two counts it read. */
  lemma CheckKeepsConsistent(store: Store<Window>, log: seq<Hit>, clock: nat, h: Hit, incr: bool, expire: bool,
                             stored: Store<Window>, log': seq<Hit>)
    requires Consistent(store, log, clock) && clock <= h.atMs && h.limit > 0
    requires h.answered ==> incr
    requires stored == ApplyWrites(store, h.Home(), h.atMs, h.size, incr, expire)
    requires log' == if incr then log + [h] else log
    requires h.allowed <==>
             h.answered && Decide(h.limit, h.size, h.Second(), Read(stored, h.Home().Previous(), h.atMs),
                                  Read(stored, h.Home(), h.atMs)).allowed
    ensures Consistent(stored, log', h.atMs)
    ensures Read(stored, h.Home(), h.atMs) == Count(log', h.Home())
    ensures Read(stored, h.Home().Previous(), h.atMs) == Count(log', h.Home().Previous())
  {
    HitKeepsRefinement(store, log, clock, h, incr, expire);
    CountsAgree(stored, log', h);
    if incr {
      DecidedAfter(log, h, Count(log', h.Home().Previous()), Count(log', h.Home()));
    }
  }

  // ---------------------------------------------------------------- how many requests get through

  /** Every request of (k, w) in the log carried a limit of at most `limit`. */
  ghost predicate LimitedBy(log: seq<Hit>, k: string, w: Secs, limit: nat) {
    forall i :: 0 <= i < |log| && log[i].key == k && log[i].size == w ==> log[i].limit <= limit
  }

  lemma {:induction false} AllowedAtMostCount(log: seq<Hit>, win: Window)
    ensures AllowedCount(log, win) <= Count(log, win)
  {
    if log != [] {
      AllowedAtMostCount(log[..|log| - 1], win);
    }
  }

  lemma {:induction false} NoHitIn(log: seq<Hit>, win: Window)
    requires forall i :: 0 <= i < |log| ==> log[i].Home() != win
    ensures Count(log, win) == 0 && AllowedCount(log, win) == 0
  {
    if log != [] {
      var init := log[..|log| - 1];
      assert forall i :: 0 <= i < |init| ==> init[i] == log[i];
      NoHitIn(init, win);
    }
  }

  /** No request of an earlier moment falls in a window that starts after it. */
  lemma LaterWindowEmpty(log: seq<Hit>, h: Hit, win: Window)
    requires InTimeOrder(log + [h]) && h.Home() == win.Previous()
    ensures Count(log, win) == 0 && AllowedCount(log, win) == 0
  {
    var all := log + [h];
    WindowBounds(h.Second(), h.size);
    forall i | 0 <= i < |log|
      ensures log[i].Home() != win
    {
      assert all[i] == log[i] && all[|log|] == h;
      assert log[i].atMs <= h.atMs;
      WindowBounds(log[i].Second(), log[i].size);
    }
    NoHitIn(log, win);
  }

  /** A request that was just allowed left room for everything counted so far. */
  lemma BudgetWhenAllowed(log: seq<Hit>, limit: nat, elapsed: nat)
    requires log != [] && Decided(log)
    requires var h := log[|log| - 1]; h.allowed && h.limit <= limit && h.Second() - h.Home().start <= elapsed <= h.size
    ensures var h := log[|log| - 1];
            Count(log, h.Home()) + Count(log, h.Home().Previous()) * (h.size - elapsed) / h.size <= limit
  {
    var h := log[|log| - 1];
    var w, e := h.size, h.Second() - h.Home().start;
    WindowBounds(h.Second(), w);
    var previous, current := Count(log, h.Home().Previous()), Count(log, h.Home());
    WeightedExact(previous, current, e, w);
    MulMonotone(w - elapsed, w - e, previous);
    assert previous * (w - elapsed) <= previous * (w - e);
    DivMonotone(previous * (w - elapsed), previous * (w - e), w);
  }

  /** In one window: what was allowed, plus the weight the previous window still has, stays within the limit.
      `elapsed` is any bound on how far into the window its requests go. */
  lemma {:induction false} WindowBudget(log: seq<Hit>, win: Window, limit: nat, elapsed: nat)
    requires Decided(log) && InTimeOrder(log) && LimitedBy(log, win.key, win.size, limit)
    requires elapsed <= win.size
    requires forall i :: 0 <= i < |log| && log[i].Home() == win ==> log[i].Second() - win.start <= elapsed
    ensures AllowedCount(log, win) == 0
            || AllowedCount(log, win) + Count(log, win.Previous()) * (win.size - elapsed) / win.size <= limit
  {
    if log != [] {
      var init, h := log[..|log| - 1], log[|log| - 1];
      assert log == init + [h];
      assert forall i :: 0 <= i < |init| ==> init[i] == log[i];
      if h.Home() == win.Previous() {
        LaterWindowEmpty(init, h, win);
      } else if h.Home() == win && h.allowed {
        BudgetWhenAllowed(log, limit, elapsed);
        AllowedAtMostCount(log, win);
      } else {
        WindowBudget(init, win, limit, elapsed);
      }
    }
  }

  lemma AtMostLimitPerWindow(log: seq<Hit>, win: Window, limit: nat)
    requires Decided(log) && InTimeOrder(log) && LimitedBy(log, win.key, win.size, limit)
    ensures AllowedCount(log, win) <= limit
  {
    forall i | 0 <= i < |log| && log[i].Home() == win
      ensures log[i].Second() - win.start <= win.size
    {
      WindowBounds(log[i].Second(), win.size);
    }
    WindowBudget(log, win, limit, win.size);
    assert Count(log, win.Previous()) * (win.size - win.size) / win.size == 0;
  }

  /** A request within the w seconds that end at `now` belongs to the current window or to the one before it. */
  lemma HomeOfRecent(h: Hit, now: nat)
    requires now - h.size < h.Second() <= now
    ensures var win := Window(h.key, h.size, WindowStart(now, h.size)); h.Home() == win || h.Home() == win.Previous()
  {
    var w, s := h.size, WindowStart(now, h.size);
    WindowBounds(now, w);
    WindowBounds(h.Second(), w);
    ShiftAligned(s, w);
    if h.Home().start > s {
      AlignedApart(s, h.Home().start, w);
    } else if h.Home().start < s {
      AlignedApart(h.Home().start, s, w);
      if h.Home().start < s - w {
        AlignedApart(h.Home().start, s - w, w);
      }
    }
  }

  lemma {:induction false} WithinTwoWindows(log: seq<Hit>, win: Window, now: nat)
    requires win.start == WindowStart(now, win.size)
    ensures AllowedWithin(log, win.key, win.size, now - win.size, now)
            <= AllowedCount(log, win.Previous()) + AllowedCount(log, win)
  {
    if log != [] {
      var h := log[|log| - 1];
      WithinTwoWindows(log[..|log| - 1], win, now);
      if h.key == win.key && h.size == win.size && now - win.size < h.Second() <= now {
        HomeOfRecent(h, now);
      }
    }
  }

  /** Over every run: the requests allowed in the w seconds that end at `now`, e seconds into the current window,
      number at most limit + ceil(limit * e / w). */
  lemma SlidingBound(log: seq<Hit>, k: string, w: Secs, limit: nat, now: nat)
    requires Decided(log) && InTimeOrder(log) && LimitedBy(log, k, w, limit)
    requires forall i :: 0 <= i < |log| ==> log[i].Second() <= now
    ensures AllowedWithin(log, k, w, now - w, now) <= limit + CeilDiv(limit * (now - WindowStart(now, w)), w)
  {
    var win := Window(k, w, WindowStart(now, w));
    var e := now - win.start;
    WindowBounds(now, w);
    WithinTwoWindows(log, win, now);
    AllowedAtMostCount(log, win.Previous());
    AtMostLimitPerWindow(log, win.Previous(), limit);
    WindowBudget(log, win, limit, e);
    SlidingArithmetic(Count(log, win.Previous()), AllowedCount(log, win.Previous()), AllowedCount(log, win), limit, e,
                      w);
  }

  // ---------------------------------------------------------------- the bound is attained

  /** The run that uses up the limit in the last second of window 0 and, e seconds into the next window, all that the
      weight then leaves. */
  function BurstHit(k: string, w: Secs, limit: int, e: nat, i: nat): Hit {
    Hit(k, w, (if i < limit then w - 1 else w + e) * 1000, limit, true, true)
  }

  function Burst(k: string, w: Secs, limit: int, e: nat, n: nat): seq<Hit> {
    seq(n, i requires 0 <= i < n => BurstHit(k, w, limit, e, i))
  }

  lemma BurstHome(k: string, w: Secs, limit: nat, e: nat, i: nat)
    requires e < w
    ensures var h := BurstHit(k, w, limit, e, i);
            && h.Second() == (if i < limit then w - 1 else w + e)
            && h.Home() == Window(k, w, if i < limit then 0 else w)
  {
    DivUnique(w - 1, 0, w);
    DivUnique(w + e, 1, w);
  }

  lemma {:induction false} BurstCounts(k: string, w: Secs, limit: nat, e: nat, n: nat)
    requires e < w
    ensures var log := Burst(k, w, limit, e, n);
            && Count(log, Window(k, w, 0 - w)) == 0
            && Count(log, Window(k, w, 0)) == (if n < limit then n else limit)
            && Count(log, Window(k, w, w)) == (if n < limit then 0 else n - limit)
  {
    if n > 0 {
      BurstCounts(k, w, limit, e, n - 1);
      BurstHome(k, w, limit, e, n - 1);
      assert Burst(k, w, limit, e, n)[..n - 1] == Burst(k, w, limit, e, n - 1);
    }
  }

  lemma BurstWeight(k: string, w: Secs, limit: nat, e: nat, n: nat)
    requires e < w && 0 < n <= limit + CeilDiv(limit * e, w)
    ensures LastWeight(Burst(k, w, limit, e, n)) <= limit
  {
    BurstCounts(k, w, limit, e, n);
    BurstHome(k, w, limit, e, n - 1);
    if n <= limit {
      WeightAtMostSum(0, n, w - 1, w);
    } else {
      WeightedExact(limit, n - limit, e, w);
      WeightSplitExact(limit, e, w);
    }
  }

  lemma {:induction false} BurstDecided(k: string, w: Secs, limit: nat, e: nat, n: nat)
    requires limit > 0 && e < w && n <= limit + CeilDiv(limit * e, w)
    ensures Decided(Burst(k, w, limit, e, n))
  {
    if n > 0 {
      BurstDecided(k, w, limit, e, n - 1);
      BurstWeight(k, w, limit, e, n);
      assert Burst(k, w, limit, e, n)[..n - 1] == Burst(k, w, limit, e, n - 1);
    }
  }

  lemma {:induction false} BurstAllowed(k: string, w: Secs, limit: nat, e: nat, n: nat)
    requires e <= w - 2
    ensures AllowedWithin(Burst(k, w, limit, e, n), k, w, e, w + e) == n
  {
    if n > 0 {
      BurstAllowed(k, w, limit, e, n - 1);
      BurstHome(k, w, limit, e, n - 1);
      assert Burst(k, w, limit, e, n)[..n - 1] == Burst(k, w, limit, e, n - 1);
    }
  }

  /** A run as the limiter's log can hold it, up to second `now`. */
  ghost predicate LoggedRun(log: seq<Hit>, k: string, w: Secs, limit: nat, now: nat) {
    && Decided(log) && InTimeOrder(log) && LimitedBy(log, k, w, limit)
    && forall i :: 0 <= i < |log| ==> log[i].Second() <= now
  }

  lemma BurstInOrder(k: string, w: Secs, limit: nat, e: nat, n: nat)
    requires e < w
    ensures var log := Burst(k, w, limit, e, n);
            && InTimeOrder(log) && LimitedBy(log, k, w, limit)
            && forall i :: 0 <= i < |log| ==> log[i].Second() <= w + e
  {
    var log := Burst(k, w, limit, e, n);
    forall i | 0 <= i < n
      ensures log[i].Second() <= w + e
    {
      BurstHome(k, w, limit, e, i);
    }
    assert forall i, j :: 0 <= i < j < n ==> log[i].atMs <= log[j].atMs;
  }

  /** The sliding bound is attained for every limit and window size, at every offset from 1 to w - 2. */
  lemma SlidingBoundAttained(k: string, w: Secs, limit: nat, e: nat)
    requires limit > 0 && 1 <= e <= w - 2
    ensures var log := Burst(k, w, limit, e, limit + CeilDiv(limit * e, w));
            && LoggedRun(log, k, w, limit, w + e) && w + e - WindowStart(w + e, w) == e
            && AllowedWithin(log, k, w, e, w + e) == limit + CeilDiv(limit * e, w)
  {
    var n := limit + CeilDiv(limit * e, w);
    var log := Burst(k, w, limit, e, n);
    BurstDecided(k, w, limit, e, n);
    BurstAllowed(k, w, limit, e, n);
    BurstInOrder(k, w, limit, e, n);
    DivUnique(w + e, 1, w);
  }

  lemma CeilPositive(a: nat, w: Secs)
    requires a > 0
    ensures CeilDiv(a, w) >= 1
  {
    DivUnique(w, 1, w);
    DivMonotone(w, a + w - 1, w);
  }

  lemma {:induction false} WithinCurrentWindow(log: seq<Hit>, win: Window, now: nat)
    requires win.start == WindowStart(now, win.size) && now == win.start + win.size - 1
    ensures AllowedWithin(log, win.key, win.size, now - win.size, now) <= AllowedCount(log, win)
  {
    if log != [] {
      var h := log[|log| - 1];
      WithinCurrentWindow(log[..|log| - 1], win, now);
      if h.key == win.key && h.size == win.size && now - win.size < h.Second() <= now {
        HomeOfRecent(h, now);
        WindowBounds(h.Second(), h.size);
      }
    }
  }

  /** At most the limit in the w seconds that end e seconds into a window, on every run. */
  ghost predicate LimitHoldsAt(w: Secs, limit: nat, e: nat) {
    forall log, k: string, now: nat ::
      LoggedRun(log, k, w, limit, now) && now - WindowStart(now, w) == e ==>
          AllowedWithin(log, k, w, now - w, now) <= limit
  }

  /** The limit itself holds for sliding windows that end in the first or the last second of an aligned window, and for
      no others. */
  lemma LimitHoldsIff(w: Secs, limit: nat, e: nat)
    requires limit > 0 && e < w
    ensures LimitHoldsAt(w, limit, e) <==> e == 0 || e == w - 1
  {
    if e == 0 || e == w - 1 {
      forall log, k: string, now: nat | LoggedRun(log, k, w, limit, now) && now - WindowStart(now, w) == e
        ensures AllowedWithin(log, k, w, now - w, now) <= limit
      {
        if e == 0 {
          SlidingBound(log, k, w, limit, now);
          DivUnique(w - 1, 0, w);
        } else {
          var win := Window(k, w, WindowStart(now, w));
          WithinCurrentWindow(log, win, now);
          AtMostLimitPerWindow(log, win, limit);
        }
      }
    } else {
      var log := Burst("k", w, limit, e, limit + CeilDiv(limit * e, w));
      SlidingBoundAttained("k", w, limit, e);
      assert limit * e > 0;
      CeilPositive(limit * e, w);
      assert !(AllowedWithin(log, "k", w, (w + e) - w, w + e) <= limit);
    }
  }
}
