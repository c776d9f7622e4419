/**
  The two-bucket rotating nonce cache (src/wssec/nonce_cache.rs).

  Time is counted in nanoseconds on one clock; the code only ever looks at whole elapsed seconds.
 */
module NonceCache {
  import opened Wrappers

  const NANOS: int := 1_000_000_000

  /** The value of a cache: what `RotatingNonceCache` holds between calls. */
  datatype Cache = Cache(current: set<string>, previous: set<string>, start: int, half: nat, cap: nat) {
    function Window(): int { half * NANOS }

    predicate Remembers(nonce: string) { nonce in current || nonce in previous }
  }

  /** `Instant::elapsed().as_secs()`: saturating at zero, rounded down. */
  function ElapsedSecs(start: int, now: int): (secs: nat)
  {
    if now <= start then 0 else (now - start) / NANOS
  }

  /** The number of whole half-windows that have passed. */
  function Periods(start: int, now: int, half: nat): nat
    requires half >= 1
  {
    ElapsedSecs(start, now) / half
  }

  /** The closed form of the rotation loop. */
  function Rotated(c: Cache, now: int): Cache
    requires c.half >= 1
  {
    var k := Periods(c.start, now, c.half);
    var start := c.start + k * c.half * NANOS;
    if k == 0 then c
    else if k == 1 then Cache({}, c.current, start, c.half, c.cap)
    else Cache({}, {}, start, c.half, c.cap)
  }

  /** One call of `check_and_insert`: the new state, and whether the nonce was accepted. */
  function Check(c: Cache, nonce: string, now: int): (Cache, bool)
    requires c.half >= 1
  {
    var r := Rotated(c, now);
    if r.Remembers(nonce) then (r, false)
    else
      var room := if |r.current| >= r.cap then Cache({}, r.current, now, r.half, r.cap) else r;
      (room.(current := room.current + {nonce}), true)
  }

  lemma MulMonotone(a: nat, b: nat, half: nat)
    ensures a < b ==> (a + 1) * half <= b * half
  {
  }

  /** A quotient is pinned down by the interval it comes from. */
  lemma QuotientBounds(e: nat, half: nat, k: nat)
    requires half >= 1
    ensures k * half <= e < (k + 1) * half <==> e / half == k
  {
    var q := e / half;
    assert e == q * half + e % half;
    assert q * half <= e < (q + 1) * half;
    MulMonotone(q, k, half);
    MulMonotone(k, q, half);
  }

  class RotatingNonceCache {
    var current: set<string>
    var previous: set<string>
    var bucketStart: int
    const halfWindowSecs: nat
    const maxEntries: nat

    function View(): Cache
      reads this
    {
      Cache(current, previous, bucketStart, halfWindowSecs, maxEntries)
    }

    constructor WithMaxEntries(halfWindowSecs: nat, maxEntries: nat, now: int)
      ensures View() == Cache({}, {}, now, halfWindowSecs, maxEntries)
    {
      this.current, this.previous, this.bucketStart := {}, {}, now;
      this.halfWindowSecs, this.maxEntries := halfWindowSecs, maxEntries;
    }

    /** The rotation loop reaches its closed form. It needs a half-window of at least one second to terminate. */
    method RotateIfNeeded(now: int)
      requires halfWindowSecs >= 1
      modifies this
      ensures View() == Rotated(old(View()), now)
    {
      ghost var start0 := bucketStart;
      ghost var k: nat := 0;
      while ElapsedSecs(bucketStart, now) >= halfWindowSecs
        invariant bucketStart == start0 + k * halfWindowSecs * NANOS
        invariant k == 0 ==> current == old(current) && previous == old(previous)
        invariant k == 1 ==> current == {} && previous == old(current)
        invariant k >= 2 ==> current == {} && previous == {}
        invariant k >= 1 ==> start0 + k * halfWindowSecs * NANOS <= now
        decreases now - bucketStart
      {
        previous := current;
        current := {};
        bucketStart := bucketStart + halfWindowSecs * NANOS;
        assert (k + 1) * halfWindowSecs == k * halfWindowSecs + halfWindowSecs;
        k := k + 1;
      }
      LoopExit(start0, now, halfWindowSecs, k);
    }

    method CheckAndInsert(nonce: string, now: int) returns (accepted: bool)
      requires halfWindowSecs >= 1
      modifies this
      ensures View() == Check(old(View()), nonce, now).0
      ensures accepted == Check(old(View()), nonce, now).1
    {
      RotateIfNeeded(now);
      if nonce in current || nonce in previous {
        return false;
      }
      if |current| >= maxEntries {
        previous := current;
        current := {};
        bucketStart := now;
      }
      current := current + {nonce};
      return true;
    }
  }

  /** After k rotations with less than one half-window left over, k is the closed form's count. */
  lemma LoopExit(start: int, now: int, half: nat, k: nat)
    requires half >= 1
    requires k >= 1 ==> start + k * half * NANOS <= now
    requires ElapsedSecs(start + k * half * NANOS, now) < half
    ensures Periods(start, now, half) == k
  {
    var p := k * half;
    if k >= 1 {
      assert p >= 0;
      assert ElapsedSecs(start + p * NANOS, now) == ElapsedSecs(start, now) - p;
      assert (k + 1) * half == p + half;
    }
    QuotientBounds(ElapsedSecs(start, now), half, k);
  }

  /** Rotation leaves `now` inside the current half-window, and only discards what is old enough. */
  lemma RotatedWindow(c: Cache, now: int)
    requires c.half >= 1 && c.start <= now
    ensures var r := Rotated(c, now);
            && c.start <= r.start <= now < r.start + r.Window()
            && r.half == c.half && r.cap == c.cap
            && (now < c.start + c.Window() ==> r == c)
            && (c.start + c.Window() <= now ==> r.current == {} && r.start >= c.start + c.Window())
            && (c.start + c.Window() <= now < c.start + 2 * c.Window() ==>
                  r.previous == c.current && r.start == c.start + c.Window())
            && (c.start + 2 * c.Window() <= now ==> r.previous == {})
  {
    var e, k := ElapsedSecs(c.start, now), Periods(c.start, now, c.half);
    QuotientBounds(e, c.half, k);
    assert (k + 1) * c.half == k * c.half + c.half;
    if k >= 1 { assert k * c.half >= c.half; }
    if k >= 2 { assert k * c.half >= 2 * c.half; }
  }

  // ----- Runs

  /** One request as the cache sees it: `None` when it never reaches the cache. */
  datatype Attempt = Attempt(nonce: Option<string>, now: int)

  function Step(c: Cache, a: Attempt): Cache
    requires c.half >= 1
  {
    if a.nonce.Some? then Check(c, a.nonce.value, a.now).0 else c
  }

  predicate Accepts(c: Cache, a: Attempt)
    requires c.half >= 1
  {
    a.nonce.Some? && Check(c, a.nonce.value, a.now).1
  }

  function StateAt(c: Cache, run: seq<Attempt>, i: nat): (s: Cache)
    requires c.half >= 1 && i <= |run|
    ensures s.half == c.half && s.cap == c.cap
  {
    if i == 0 then c else Step(StateAt(c, run, i - 1), run[i - 1])
  }

  predicate AcceptedAt(c: Cache, run: seq<Attempt>, i: nat)
    requires c.half >= 1 && i < |run|
  {
    Accepts(StateAt(c, run, i), run[i])
  }

  /** Position i of the run accepts `nonce`. */
  predicate HitAt(c: Cache, run: seq<Attempt>, i: nat, nonce: string)
    requires c.half >= 1 && i < |run|
  {
    AcceptedAt(c, run, i) && run[i].nonce == Some(nonce)
  }

  ghost predicate Monotone(c: Cache, run: seq<Attempt>) {
    && (forall i :: 0 <= i < |run| ==> c.start <= run[i].now)
    && (forall i, j :: 0 <= i <= j < |run| ==> run[i].now <= run[j].now)
  }

  /** How many acceptances of nonces other than `nonce` lie in positions [i, j). */
  function OthersAccepted(c: Cache, run: seq<Attempt>, nonce: string, i: nat, j: nat): (n: nat)
    requires c.half >= 1 && j <= |run|
    decreases j
  {
    if j <= i then 0 else
      var last := if AcceptedAt(c, run, j - 1) && run[j - 1].nonce != Some(nonce) then 1 else 0;
      OthersAccepted(c, run, nonce, i, j - 1) + last
  }

  /** The bucket start never runs ahead of the clock. */
  lemma {:induction false} StartsInPast(c: Cache, run: seq<Attempt>, i: nat)
    requires c.half >= 1 && i <= |run| && Monotone(c, run)
    ensures c.start <= StateAt(c, run, i).start
    ensures forall j :: i <= j < |run| ==> StateAt(c, run, i).start <= run[j].now
  {
    if i > 0 {
      StartsInPast(c, run, i - 1);
      RotatedWindow(StateAt(c, run, i - 1), run[i - 1].now);
    }
  }

  // ----- Retention

  /** `nonce`, accepted at `t`, is still held after `others` further acceptances. */
  ghost predicate Kept(c: Cache, nonce: string, t: int, others: nat) {
    || (nonce in c.current && c.start <= t < c.start + c.Window())
    || (nonce in c.previous && t <= c.start && |c.current| <= others)
  }

  lemma StepKeeps(c: Cache, a: Attempt, nonce: string, t: int, others: nat)
    requires c.half >= 1 && Kept(c, nonce, t, others)
    requires c.start <= a.now && t <= a.now < t + c.Window()
    requires others + (if Accepts(c, a) && a.nonce != Some(nonce) then 1 else 0) <= c.cap
    ensures a.nonce == Some(nonce) ==> !Accepts(c, a)
    ensures Kept(Step(c, a), nonce, t, others + if Accepts(c, a) && a.nonce != Some(nonce) then 1 else 0)
  {
    RotatedWindow(c, a.now);
    var r := Rotated(c, a.now);
    assert Kept(r, nonce, t, others);
  }

  lemma AcceptanceKeeps(c: Cache, a: Attempt)
    requires c.half >= 1 && c.start <= a.now && Accepts(c, a)
    ensures Kept(Step(c, a), a.nonce.value, a.now, 0)
  {
    RotatedWindow(c, a.now);
  }

  /** A nonce accepted at position i is still held at every position j inside the guarantee. */
  lemma {:induction false} StillKept(c: Cache, run: seq<Attempt>, nonce: string, i: nat, j: nat)
    requires c.half >= 1 && Monotone(c, run)
    requires i < j <= |run| && HitAt(c, run, i, nonce)
    requires run[j - 1].now < run[i].now + c.Window()
    requires OthersAccepted(c, run, nonce, i + 1, j) <= c.cap
    ensures Kept(StateAt(c, run, j), nonce, run[i].now, OthersAccepted(c, run, nonce, i + 1, j))
    decreases j
  {
    hide *;
    var s, a, t := StateAt(c, run, j - 1), run[j - 1], run[i].now;
    StartsInPast(c, run, j - 1);
    InOrder(c, run, i, j - 1);
    OneMore(c, run, nonce, i + 1, j);
    SameWindow(c, s);
    SameWindow(c, Step(s, a));
    if j == i + 1 {
      HitAccepts(c, run, i, nonce);
      AcceptanceKeeps(s, a);
    } else {
      InOrder(c, run, j - 2, j - 1);
      StillKept(c, run, nonce, i, j - 1);
      StepKeeps(s, a, nonce, t, OthersAccepted(c, run, nonce, i + 1, j - 1));
    }
  }

  lemma InOrder(c: Cache, run: seq<Attempt>, i: nat, j: nat)
    requires Monotone(c, run) && i <= j < |run|
    ensures run[i].now <= run[j].now
  {
  }

  lemma HitAccepts(c: Cache, run: seq<Attempt>, i: nat, nonce: string)
    requires c.half >= 1 && i < |run| && HitAt(c, run, i, nonce)
    ensures Accepts(StateAt(c, run, i), run[i]) && run[i].nonce == Some(nonce)
  {
  }

  /** One position more. */
  lemma OneMore(c: Cache, run: seq<Attempt>, nonce: string, i: nat, j: nat)
    requires c.half >= 1 && 1 <= j <= |run|
    ensures StateAt(c, run, j) == Step(StateAt(c, run, j - 1), run[j - 1])
    ensures OthersAccepted(c, run, nonce, i, j) ==
      if j <= i then 0
      else OthersAccepted(c, run, nonce, i, j - 1)
           + if Accepts(StateAt(c, run, j - 1), run[j - 1]) && run[j - 1].nonce != Some(nonce) then 1 else 0
  {
    hide Step, Accepts;
  }

  lemma SameWindow(c: Cache, s: Cache)
    ensures s.half == c.half ==> s.Window() == c.Window()
  {
  }

  /** Retention: within one half-window and `cap` other acceptances, a repeat is rejected. */
  lemma RepeatIsRejected(c: Cache, run: seq<Attempt>, nonce: string, i: nat, j: nat)
    requires c.half >= 1 && Monotone(c, run)
    requires i < j < |run| && HitAt(c, run, i, nonce)
    requires run[j].now < run[i].now + c.Window()
    requires OthersAccepted(c, run, nonce, i + 1, j) <= c.cap
    ensures !HitAt(c, run, j, nonce)
  {
    StillKept(c, run, nonce, i, j);
    StartsInPast(c, run, j);
    RotatedWindow(StateAt(c, run, j), run[j].now);
  }

  /** With no room for a second entry, every acceptance starts a new bucket, and `nonce` was the last one, at `t`. */
  ghost predicate KeptAlone(c: Cache, nonce: string, t: int) {
    || (nonce in c.current && c.start == t)
    || (nonce in c.previous && c.start == t + c.Window())
  }

  lemma StepKeepsAlone(c: Cache, a: Attempt, nonce: string, t: int)
    requires c.half >= 1 && KeptAlone(c, nonce, t)
    requires c.start <= a.now < t + 2 * c.Window()
    ensures a.nonce == Some(nonce) ==> !Accepts(c, a)
    ensures !Accepts(c, a) ==> KeptAlone(Step(c, a), nonce, t)
  {
    RotatedWindow(c, a.now);
  }

  lemma AcceptanceKeepsAlone(c: Cache, a: Attempt)
    requires c.half >= 1 && c.cap == 0 && Accepts(c, a)
    ensures KeptAlone(Step(c, a), a.nonce.value, a.now)
  {
  }

  lemma {:induction false} StillKeptAlone(c: Cache, run: seq<Attempt>, nonce: string, i: nat, j: nat)
    requires c.half >= 1 && c.cap == 0 && Monotone(c, run)
    requires i < j <= |run| && HitAt(c, run, i, nonce)
    requires run[j - 1].now < run[i].now + 2 * c.Window()
    requires OthersAccepted(c, run, nonce, i + 1, j) == 0
    ensures KeptAlone(StateAt(c, run, j), nonce, run[i].now)
    decreases j
  {
    assert run[i].now <= run[j - 1].now && (j > i + 1 ==> run[j - 2].now <= run[j - 1].now);
    hide Step, Accepts, Check, Monotone;
    StartsInPast(c, run, j - 1);
    var s, a := StateAt(c, run, j - 1), run[j - 1];
    assert StateAt(c, run, j) == Step(s, a);
    if j == i + 1 {
      AcceptanceKeepsAlone(s, a);
    } else {
      StillKeptAlone(c, run, nonce, i, j - 1);
      StepKeepsAlone(s, a, nonce, run[i].now);
    }
  }

  /** A cache of capacity zero keeps its one nonce twice as long. */
  lemma RepeatIsRejectedAlone(c: Cache, run: seq<Attempt>, nonce: string, i: nat, j: nat)
    requires c.half >= 1 && c.cap == 0 && Monotone(c, run)
    requires i < j < |run| && HitAt(c, run, i, nonce)
    requires run[j].now < run[i].now + 2 * c.Window()
    requires OthersAccepted(c, run, nonce, i + 1, j) == 0
    ensures !HitAt(c, run, j, nonce)
  {
    StillKeptAlone(c, run, nonce, i, j);
    StartsInPast(c, run, j);
    StepKeepsAlone(StateAt(c, run, j), run[j], nonce, run[i].now);
  }

  // ----- Expiry

  /** If `nonce` was last accepted at `t`, this bounds how late its bucket may have started. */
  ghost predicate Aging(c: Cache, nonce: string, t: int) {
    && (nonce in c.current ==> c.start <= t)
    && (nonce in c.previous ==> c.start <= t + c.Window())
  }

  lemma StepAges(c: Cache, a: Attempt, nonce: string, t: int)
    requires c.half >= 1 && c.start <= a.now && Aging(c, nonce, t)
    requires Accepts(c, a) ==> a.nonce != Some(nonce)
    ensures Aging(Step(c, a), nonce, t)
  {
    RotatedWindow(c, a.now);
  }

  lemma AcceptanceAges(c: Cache, a: Attempt)
    requires c.half >= 1 && c.start <= a.now && Accepts(c, a)
    ensures Aging(Step(c, a), a.nonce.value, a.now)
  {
    RotatedWindow(c, a.now);
  }

  lemma {:induction false} StillAging(c: Cache, run: seq<Attempt>, nonce: string, i: nat, j: nat)
    requires c.half >= 1 && Monotone(c, run)
    requires i < j <= |run| && HitAt(c, run, i, nonce)
    requires forall k :: i < k < j ==> !HitAt(c, run, k, nonce)
    ensures Aging(StateAt(c, run, j), nonce, run[i].now)
    decreases j
  {
    StartsInPast(c, run, j - 1);
    var s, a := StateAt(c, run, j - 1), run[j - 1];
    assert StateAt(c, run, j) == Step(s, a);
    if j == i + 1 {
      AcceptanceAges(s, a);
    } else {
      StillAging(c, run, nonce, i, j - 1);
      assert !HitAt(c, run, j - 1, nonce);
      StepAges(s, a, nonce, run[i].now);
    }
  }

  /** Expiry: two half-windows after its last acceptance a nonce is forgotten, and so accepted again. */
  lemma RepeatIsAccepted(c: Cache, run: seq<Attempt>, nonce: string, i: nat, j: nat)
    requires c.half >= 1 && Monotone(c, run)
    requires i < j < |run| && HitAt(c, run, i, nonce) && run[j].nonce == Some(nonce)
    requires forall k :: i < k < j ==> !HitAt(c, run, k, nonce)
    requires run[j].now >= run[i].now + 2 * c.Window()
    ensures HitAt(c, run, j, nonce)
  {
    StillAging(c, run, nonce, i, j);
    StartsInPast(c, run, j);
    RotatedWindow(StateAt(c, run, j), run[j].now);
  }

  // ----- What the buckets hold in every reachable state

  /** Some acceptance of `nonce` before position m happened in [lo, hi). */
  ghost predicate AcceptedWithin(c: Cache, run: seq<Attempt>, m: nat, nonce: string, lo: int, hi: int)
    requires c.half >= 1 && m <= |run|
  {
    exists i :: 0 <= i < m && HitAt(c, run, i, nonce) && lo <= run[i].now < hi
  }

  lemma Widen(c: Cache, run: seq<Attempt>, m: nat, nonce: string, lo: int, hi: int, lo': int, hi': int)
    requires c.half >= 1 && m < |run| && Monotone(c, run)
    requires AcceptedWithin(c, run, m, nonce, lo, hi)
    requires lo' <= lo && (hi <= hi' || run[m].now < hi')
    ensures AcceptedWithin(c, run, m + 1, nonce, lo', hi')
  {
  }

  /** Wherever `nonce` is stored, it was accepted during that bucket's period. */
  ghost predicate EntrySound(c: Cache, run: seq<Attempt>, m: nat, nonce: string)
    requires c.half >= 1 && m <= |run|
  {
    var s := StateAt(c, run, m);
    && (nonce in s.current ==> AcceptedWithin(c, run, m, nonce, s.start, s.start + s.Window()))
    && (nonce in s.previous ==> AcceptedWithin(c, run, m, nonce, s.start - s.Window(), s.start + 1))
  }

  /** Where an entry of either bucket can come from in one step. */
  lemma EntryOrigin(c: Cache, a: Attempt, nonce: string)
    requires c.half >= 1 && c.start <= a.now
    ensures var s := Step(c, a);
            && (nonce in s.current ==>
                  || (nonce in c.current && s.start == c.start)
                  || (Accepts(c, a) && a.nonce == Some(nonce) && s.start <= a.now < s.start + c.Window()))
            && (nonce in s.previous ==>
                  || (nonce in c.current && s.start - c.Window() <= c.start
                      && (a.now <= s.start || c.start + c.Window() <= s.start))
                  || (nonce in c.previous && s.start == c.start))
  {
    RotatedWindow(c, a.now);
  }

  /** One step keeps every entry's origin inside its bucket's period. */
  lemma EntryStaysSound(c: Cache, run: seq<Attempt>, m: nat, nonce: string)
    requires c.half >= 1 && Monotone(c, run) && m < |run| && EntrySound(c, run, m, nonce)
    ensures EntrySound(c, run, m + 1, nonce)
  {
    StartsInPast(c, run, m);
    var s, s', w := StateAt(c, run, m), StateAt(c, run, m + 1), c.Window();
    EntryOrigin(s, run[m], nonce);
    assert s' == Step(s, run[m]) && s.Window() == w && s'.Window() == w;
    assert Accepts(s, run[m]) && run[m].nonce == Some(nonce) ==> HitAt(c, run, m, nonce);
    hide Step, Accepts, Check, Monotone, StateAt, HitAt, AcceptedAt, Rotated, Periods, ElapsedSecs, Cache.Window;
    var lo := s'.start;
    if nonce in s'.current {
      if nonce in s.current && lo == s.start {
        Widen(c, run, m, nonce, s.start, s.start + w, lo, lo + w);
      } else {
        assert AcceptedWithin(c, run, m + 1, nonce, lo, lo + w);
      }
    }
    if nonce in s'.previous {
      if nonce in s.previous && lo == s.start {
        Widen(c, run, m, nonce, s.start - w, s.start + 1, lo - w, lo + 1);
      } else {
        Widen(c, run, m, nonce, s.start, s.start + w, lo - w, lo + 1);
      }
    }
  }

  lemma {:induction false} EntryAlwaysSound(c: Cache, run: seq<Attempt>, m: nat, nonce: string)
    requires c.half >= 1 && Monotone(c, run) && m <= |run|
    requires c.current == {} && c.previous == {}
    ensures EntrySound(c, run, m, nonce)
  {
    if m > 0 {
      EntryAlwaysSound(c, run, m - 1, nonce);
      EntryStaysSound(c, run, m - 1, nonce);
    }
  }

  /** Neither bucket ever outgrows its cap (one entry when the cap is zero). */
  lemma {:induction false} BucketsBounded(c: Cache, run: seq<Attempt>, m: nat)
    requires c.half >= 1 && Monotone(c, run) && m <= |run|
    requires c.current == {} && c.previous == {}
    ensures var s, most := StateAt(c, run, m), if c.cap == 0 then 1 else c.cap;
            |s.current| <= most && |s.previous| <= most
  {
    if m > 0 {
      BucketsBounded(c, run, m - 1);
      StartsInPast(c, run, m - 1);
      RotatedWindow(StateAt(c, run, m - 1), run[m - 1].now);
    }
  }
}
