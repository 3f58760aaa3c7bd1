/** The token bucket that shapes upgraded tunnels, in the original's 128-bit
    saturating arithmetic. Times are whole nanoseconds. */
module RateLimiter {
  import opened Common

  /** Token units are byte-nanoseconds per second. */
  const UNITS_PER_BYTE: nat := NANOS_PER_SECOND
  const USIZE_MAX: nat := U64_MAX

  function SaturatingMul(a: nat, b: nat): nat { Min(a * b, U128_MAX) }

  function SaturatingAdd(a: nat, b: nat): nat { Min(a + b, U128_MAX) }

  function SaturatingSub(a: nat, b: nat): nat { Max(a - b, 0) }

  function DivCeil(a: nat, b: nat): nat
    requires b > 0
  {
    (a + b - 1) / b
  }

  datatype Bucket = Bucket(rate: nat, capacity: nat, available: nat, lastRefill: nat)

  function Capacity(rate: nat, burstNanos: nat): nat
  {
    if rate == 0 then 0 else Max(SaturatingMul(rate, burstNanos), UNITS_PER_BYTE)
  }

  /** What a full bucket holds, in exact arithmetic: the configured burst, kept
      within 128 bits, and at least one byte. */
  function Burst(rate: nat, burstNanos: nat): nat
  {
    Max(Min(rate * burstNanos, 0xFFFF_FFFF_FFFF_FFFF_FFFF_FFFF_FFFF_FFFF), 1_000_000_000)
  }

  function Refill(b: Bucket, now: nat): Bucket
  {
    var elapsed := SaturatingSub(now, b.lastRefill);
    var added := SaturatingMul(b.rate, elapsed);
    b.(available := Min(b.capacity, SaturatingAdd(b.available, added)), lastRefill := now)
  }

  function Consume(b: Bucket, bytes: nat): Bucket
  {
    if b.rate == 0 then b
    else b.(available := SaturatingSub(b.available, SaturatingMul(bytes, UNITS_PER_BYTE)))
  }

  /** The delay after which the limiter asks to be woken. */
  function WaitNanos(b: Bucket): nat
    requires b.rate > 0
  {
    Min(Max(DivCeil(SaturatingSub(UNITS_PER_BYTE, b.available), b.rate), 1), U64_MAX)
  }

  /** Every bucket the constructor makes and the operations keep. */
  ghost predicate Enabled(b: Bucket)
  {
    && 0 < b.rate <= U64_MAX
    && UNITS_PER_BYTE <= b.capacity <= U128_MAX
    && b.available <= b.capacity
  }

  /** One turn of the retry loop: the clock, and whether the timer that was
      just armed reports itself elapsed. */
  datatype Tick = Tick(now: nat, fired: bool)

  datatype Allowance = Pending | Ready(bytes: nat)

  ghost predicate Monotone(ticks: seq<Tick>)
  {
    forall i, j :: 0 <= i <= j < |ticks| ==> ticks[i].now <= ticks[j].now
  }

  class ByteRateLimiter {
    const rate: nat
    const capacity: nat
    var available: nat
    var lastRefill: nat
    var wake: Option<nat>

    ghost function Value(): Bucket
      reads this
    {
      Bucket(rate, capacity, available, lastRefill)
    }

    constructor (rate: nat, burstNanos: nat, now: nat)
      requires rate <= U64_MAX
      ensures Value() == Bucket(rate, capacity, capacity, now)
      ensures capacity == if rate == 0 then 0 else Burst(rate, burstNanos)
      ensures rate > 0 ==> Enabled(Value())
      ensures wake == None
    {
      this.rate := rate;
      capacity := Capacity(rate, burstNanos);
      available := Capacity(rate, burstNanos);
      lastRefill := now;
      wake := None;
    }

    /** However often the loop retries, the balance on return is that of one
        refill at the last clock reading; bytes are granted exactly when a
        whole one is available then; and a pending poll leaves the timer set
        for the first instant at which one will be. */
    method PollAllowance(ticks: seq<Tick>) returns (r: Allowance, k: nat)
      requires rate > 0 ==> Enabled(Value())
      requires ticks != [] && !ticks[|ticks| - 1].fired && Monotone(ticks) && lastRefill <= ticks[0].now
      modifies this
      ensures rate == 0 ==> r == Ready(USIZE_MAX) && Value() == old(Value())
      ensures rate > 0 ==> k < |ticks| && Value() == Refill(old(Value()), ticks[k].now)
      ensures rate > 0 ==> (r == Pending <==> available < UNITS_PER_BYTE)
      ensures rate > 0 && r.Ready? ==> r.bytes == Min(available / UNITS_PER_BYTE, USIZE_MAX) && wake == None
      ensures rate > 0 && r.Pending? ==> !ticks[k].fired && wake == Some(ticks[k].now + WaitNanos(Value()))
      ensures rate > 0 ==> forall i :: 0 <= i < k ==>
                ticks[i].fired && Refill(old(Value()), ticks[i].now).available < UNITS_PER_BYTE
    {
      if rate == 0 { return Ready(USIZE_MAX), 0; }
      ghost var b0 := Value();
      k := 0;
      while true
        invariant 0 <= k < |ticks|
        invariant if k == 0 then Value() == b0 else Value() == Refill(b0, ticks[k - 1].now)
        invariant forall i :: 0 <= i < k ==>
                    ticks[i].fired && Refill(b0, ticks[i].now).available < UNITS_PER_BYTE
        decreases |ticks| - k
      {
        var now := ticks[k].now;
        if k > 0 { RefillTwice(b0, ticks[k - 1].now, now); }
        RefillAt(now);
        RefillKeepsEnabled(b0, now);
        var bytes := available / UNITS_PER_BYTE;
        if bytes > 0 {
          wake := None;
          return Ready(Min(bytes, USIZE_MAX)), k;
        }
        var missing := SaturatingSub(UNITS_PER_BYTE, available);
        var wait := Min(Max(DivCeil(missing, rate), 1), U64_MAX);
        wake := Some(now + wait);
        if !ticks[k].fired { return Pending, k; }
        wake := None;
        k := k + 1;
      }
    }

    method RefillAt(now: nat)
      modifies this`available, this`lastRefill
      ensures Value() == Refill(old(Value()), now)
    {
      var elapsed := SaturatingSub(now, lastRefill);
      lastRefill := now;
      var added := SaturatingMul(rate, elapsed);
      available := Min(capacity, SaturatingAdd(available, added));
    }

    method ConsumeBytes(bytes: nat)
      modifies this`available
      ensures Value() == Consume(old(Value()), bytes)
    {
      if rate == 0 { return; }
      var consumed := SaturatingMul(bytes, UNITS_PER_BYTE);
      available := SaturatingSub(available, consumed);
    }
  }

  // ---------------------------------------------------- saturation is exact

  /** None of the saturating steps of a refill is observable. */
  lemma RefillIsExact(b: Bucket, now: nat)
    requires b.capacity <= U128_MAX && b.lastRefill <= now
    ensures Refill(b, now).available == Min(b.capacity, b.available + b.rate * (now - b.lastRefill))
  {
  }

  lemma RefillKeepsEnabled(b: Bucket, now: nat)
    requires Enabled(b)
    ensures Enabled(Refill(b, now))
  {
  }

  /** Main result: an intermediate refill never changes the final balance. */
  lemma RefillTwice(b: Bucket, t1: nat, t2: nat)
    requires b.capacity <= U128_MAX && b.lastRefill <= t1 <= t2
    ensures Refill(Refill(b, t1), t2) == Refill(b, t2)
  {
    RefillIsExact(b, t1);
    RefillIsExact(b, t2);
    RefillIsExact(Refill(b, t1), t2);
    RateSplits(b.rate, b.lastRefill, t1, t2);
  }

  function RefillAll(b: Bucket, times: seq<nat>): Bucket
    decreases |times|
  {
    if times == [] then b else RefillAll(Refill(b, times[0]), times[1..])
  }

  /** Any number of them. */
  lemma {:induction false} RefillManyIsRefillOnce(b: Bucket, times: seq<nat>)
    requires b.capacity <= U128_MAX && times != [] && b.lastRefill <= times[0]
    requires forall i, j :: 0 <= i <= j < |times| ==> times[i] <= times[j]
    ensures RefillAll(b, times) == Refill(b, times[|times| - 1])
    decreases |times|
  {
    if |times| > 1 {
      RefillManyIsRefillOnce(Refill(b, times[0]), times[1..]);
      RefillTwice(b, times[0], times[|times| - 1]);
    } else {
      assert RefillAll(Refill(b, times[0]), times[1..]) == Refill(b, times[0]);
    }
  }

  lemma CeilingDivision(a: nat, r: nat, d: nat)
    requires r > 0 && a > 0
    ensures r * d >= a <==> d >= DivCeil(a, r)
  {
    var q := DivCeil(a, r);
    CeilingBrackets(a, r, q);
    if d >= q { Scales(r, q, d); } else { Scales(r, d, q - 1); }
  }

  lemma CeilingBrackets(a: nat, r: nat, q: nat)
    requires r > 0 && a > 0 && q == DivCeil(a, r)
    ensures q >= 1 && r * q >= a && r * (q - 1) < a
  {
    var rest := (a + r - 1) % r;
    assert a + r - 1 == r * q + rest;
    assert r * (q - 1) == r * q - r;
  }

  lemma Scales(r: nat, a: nat, b: nat)
    requires a <= b
    ensures r * a <= r * b
  {
    assert r * b == r * a + r * (b - a);
  }

  /** Main result: with no whole byte available, the wake-up delay is the least
      number of nanoseconds after which one is. */
  lemma WaitIsExact(b: Bucket, delay: nat)
    requires Enabled(b) && b.available < UNITS_PER_BYTE
    ensures Refill(b, b.lastRefill + delay).available >= UNITS_PER_BYTE <==> delay >= WaitNanos(b)
  {
    RefillIsExact(b, b.lastRefill + delay);
    CeilingDivision(UNITS_PER_BYTE - b.available, b.rate, delay);
    WaitIsCeiling(b);
  }

  /** Neither the lower clamp nor the 64-bit conversion of the delay bites. */
  lemma WaitIsCeiling(b: Bucket)
    requires Enabled(b) && b.available < UNITS_PER_BYTE
    ensures WaitNanos(b) == DivCeil(UNITS_PER_BYTE - b.available, b.rate)
  {
    CeilingBounds(UNITS_PER_BYTE - b.available, b.rate);
  }

  lemma CeilingBounds(a: nat, r: nat)
    requires a > 0 && r > 0
    ensures 1 <= DivCeil(a, r) <= a
  {
    Grows(a, r);
    CeilingDivision(a, r, 0);
    CeilingDivision(a, r, a);
  }

  lemma Grows(a: nat, r: nat)
    requires r > 0
    ensures r * a >= a && r * 0 == 0
  {
    assert r * a == a + (r - 1) * a;
  }

  lemma RateSplits(rate: nat, t0: nat, t1: nat, t2: nat)
    requires t0 <= t1 <= t2
    ensures rate * (t1 - t0) + rate * (t2 - t1) == rate * (t2 - t0)
    ensures rate * (t1 - t0) >= 0 && rate * (t2 - t1) >= 0
  {
  }

  // --------------------------------------------------- the rate, over runs

  /** One read of the tunnel: the clock, the room in the caller's buffer, and
      how many bytes the inner stream would deliver into unlimited room. */
  datatype Poll = Poll(now: nat, room: nat, offered: nat)

  /** The new balance and the number of bytes read. */
  function PollRead(b: Bucket, p: Poll): (Bucket, nat)
  {
    if p.room == 0 then (b, 0)
    else if b.rate == 0 then (b, Min(p.offered, Min(USIZE_MAX, p.room)))
    else
      var b' := Refill(b, p.now);
      var bytes := b'.available / UNITS_PER_BYTE;
      if bytes == 0 then (b', 0)
      else
        var allowance := Min(Min(bytes, USIZE_MAX), p.room);
        var got := Min(p.offered, allowance);
        (Consume(b', got), got)
  }

  /** The tunnel read, retries included: whatever happens between the clock
      readings, it is one poll at the last reading the limiter took. */
  method PollReadTunnel(limiter: ByteRateLimiter, ticks: seq<Tick>, room: nat, offered: nat)
    returns (got: nat, k: nat)
    requires limiter.rate > 0 ==> Enabled(limiter.Value())
    requires Clocked(ticks) && limiter.lastRefill <= ticks[0].now
    modifies limiter
    ensures k < |ticks|
    ensures (limiter.Value(), got) == PollRead(old(limiter.Value()), Poll(ticks[k].now, room, offered))
    ensures limiter.lastRefill <= ticks[k].now
  {
    if room == 0 { return 0, 0; }
    var allowance;
    allowance, k := limiter.PollAllowance(ticks);
    if limiter.rate == 0 { k := 0; }
    if allowance.Pending? { return 0, k; }
    var limit := Min(allowance.bytes, room);
    got := Min(offered, limit);
    limiter.ConsumeBytes(got);
  }

  /** The clock readings one read may take; the last timer has not fired. */
  ghost predicate Clocked(ticks: seq<Tick>)
  {
    ticks != [] && !ticks[|ticks| - 1].fired && Monotone(ticks)
  }

  datatype TunnelRead = TunnelRead(ticks: seq<Tick>, room: nat, offered: nat)

  /** Reads follow each other under one non-decreasing clock, up to `end`. */
  ghost predicate Follow(start: nat, steps: seq<TunnelRead>, end: nat)
    decreases |steps|
  {
    if steps == [] then start <= end
    else
      && Clocked(steps[0].ticks) && start <= steps[0].ticks[0].now
      && Follow(steps[0].ticks[|steps[0].ticks| - 1].now, steps[1..], end)
  }

  lemma {:induction false} FollowWeakens(early: nat, late: nat, steps: seq<TunnelRead>, end: nat)
    requires early <= late && Follow(late, steps, end)
    ensures Follow(early, steps, end) && late <= end
    decreases |steps|
  {
    if steps != [] {
      var last := steps[0].ticks[|steps[0].ticks| - 1].now;
      assert steps[0].ticks[0].now <= last;
      FollowWeakens(last, last, steps[1..], end);
    }
  }

  /** Every run of the tunnel itself keeps the rate: the bytes read, in token
      units, are at most the balance plus the rate times the time elapsed. */
  method PumpTunnel(limiter: ByteRateLimiter, steps: seq<TunnelRead>, end: nat) returns (total: nat)
    requires Enabled(limiter.Value()) && Follow(limiter.lastRefill, steps, end)
    modifies limiter
    ensures Enabled(limiter.Value()) && limiter.lastRefill <= end
    ensures total * UNITS_PER_BYTE + limiter.available
         <= old(limiter.available) + limiter.rate * (end - old(limiter.lastRefill))
  {
    total := 0;
    ghost var b0 := limiter.Value();
    FollowWeakens(b0.lastRefill, b0.lastRefill, steps, end);
    for i := 0 to |steps|
      invariant Enabled(limiter.Value()) && Follow(limiter.lastRefill, steps[i..], end)
      invariant b0.lastRefill <= limiter.lastRefill <= end
      invariant total * UNITS_PER_BYTE + limiter.available
             <= b0.available + limiter.rate * (limiter.lastRefill - b0.lastRefill)
    {
      ghost var b := limiter.Value();
      ghost var before := total;
      var read := steps[i];
      assert steps[i..][0] == read && steps[i..][1..] == steps[i + 1..];
      var got, k := PollReadTunnel(limiter, read.ticks, read.room, read.offered);
      total := total + got;
      ReadStaysInBudget(b, Poll(read.ticks[k].now, read.room, read.offered), b0.lastRefill);
      assert total * UNITS_PER_BYTE == before * UNITS_PER_BYTE + got * UNITS_PER_BYTE;
      FollowWeakens(limiter.lastRefill, read.ticks[|read.ticks| - 1].now, steps[i + 1..], end);
    }
    RateSplits(b0.rate, b0.lastRefill, limiter.lastRefill, end);
  }

  lemma ReadStaysInBudget(b: Bucket, p: Poll, start: nat)
    requires Enabled(b) && start <= b.lastRefill <= p.now
    ensures var (b', got) := PollRead(b, p);
            && Enabled(b') && b'.rate == b.rate && b.lastRefill <= b'.lastRefill <= p.now
            && got * UNITS_PER_BYTE + b'.available + b.rate * (b.lastRefill - start)
               <= b.available + b.rate * (b'.lastRefill - start)
  {
    if p.room > 0 {
      ReadNeverOverdraws(b, p);
      RefillIsExact(b, p.now);
      RateSplits(b.rate, start, b.lastRefill, p.now);
    }
  }

  function Total(b: Bucket, polls: seq<Poll>): nat
    decreases |polls|
  {
    if polls == [] then 0
    else
      var (b', got) := PollRead(b, polls[0]);
      got + Total(b', polls[1..])
  }

  function After(b: Bucket, polls: seq<Poll>): Bucket
    decreases |polls|
  {
    if polls == [] then b else After(PollRead(b, polls[0]).0, polls[1..])
  }

  ghost predicate InOrder(start: nat, polls: seq<Poll>)
  {
    && (forall i :: 0 <= i < |polls| ==> start <= polls[i].now)
    && (forall i, j :: 0 <= i <= j < |polls| ==> polls[i].now <= polls[j].now)
  }

  /** The saturating subtraction never clips: what is taken was there. */
  lemma ReadNeverOverdraws(b: Bucket, p: Poll)
    requires Enabled(b) && b.lastRefill <= p.now && p.room > 0
    ensures var (b', got) := PollRead(b, p);
            && Enabled(b') && b'.lastRefill == p.now
            && b'.available + got * UNITS_PER_BYTE == Refill(b, p.now).available
  {
    var b' := Refill(b, p.now);
    var bytes := b'.available / UNITS_PER_BYTE;
    assert bytes * UNITS_PER_BYTE <= b'.available;
    var got := PollRead(b, p).1;
    assert got <= bytes;
    assert got * UNITS_PER_BYTE <= bytes * UNITS_PER_BYTE;
  }

  lemma {:induction false} BalanceBoundsTotal(b: Bucket, polls: seq<Poll>, end: nat)
    requires Enabled(b) && InOrder(b.lastRefill, polls)
    requires b.lastRefill <= end && forall i :: 0 <= i < |polls| ==> polls[i].now <= end
    ensures Total(b, polls) * UNITS_PER_BYTE <= b.available + b.rate * (end - b.lastRefill)
    decreases |polls|
  {
    RateSplits(b.rate, b.lastRefill, b.lastRefill, end);
    if polls != [] {
      var p := polls[0];
      var (b', got) := PollRead(b, p);
      if p.room == 0 {
        BalanceBoundsTotal(b, polls[1..], end);
      } else {
        ReadNeverOverdraws(b, p);
        RefillIsExact(b, p.now);
        BalanceBoundsTotal(b', polls[1..], end);
        RateSplits(b.rate, b.lastRefill, p.now, end);
        var later := Total(b', polls[1..]);
        assert (got + later) * UNITS_PER_BYTE == got * UNITS_PER_BYTE + later * UNITS_PER_BYTE;
      }
    }
  }

  lemma {:induction false} AfterKeepsOrder(b: Bucket, polls: seq<Poll>, i: nat)
    requires Enabled(b) && InOrder(b.lastRefill, polls) && i <= |polls|
    ensures var b' := After(b, polls[..i]);
            && Enabled(b') && b'.rate == b.rate && b'.capacity == b.capacity
            && InOrder(b'.lastRefill, polls[i..])
    decreases i
  {
    if i == 0 {
      assert polls[..0] == [] && polls[0..] == polls;
    } else {
      var (b', _) := PollRead(b, polls[0]);
      if polls[0].room > 0 { ReadNeverOverdraws(b, polls[0]); }
      AfterKeepsOrder(b', polls[1..], i - 1);
      assert polls[..i][1..] == polls[1..][..i - 1] && polls[..i][0] == polls[0];
      assert polls[i..] == polls[1..][i - 1..];
    }
  }

  /** Main result. Over every interval i..j of every run of an enabled limiter
      under a non-decreasing clock, the bytes read, in token units, exceed the
      burst capacity by no more than the rate times the time elapsed. */
  lemma RateBound(b: Bucket, polls: seq<Poll>, i: nat, j: nat)
    requires Enabled(b) && InOrder(b.lastRefill, polls) && i <= j < |polls|
    ensures Total(After(b, polls[..i]), polls[i..j + 1]) * UNITS_PER_BYTE
         <= b.capacity + b.rate * (polls[j].now - polls[i].now)
  {
    AfterKeepsOrder(b, polls, i);
    var b' := After(b, polls[..i]);
    var window := polls[i..j + 1];
    assert window == polls[i..][..j + 1 - i];
    IntervalBound(b', window, polls[j].now);
  }

  lemma {:induction false} IntervalBound(b: Bucket, polls: seq<Poll>, end: nat)
    requires Enabled(b) && polls != [] && InOrder(b.lastRefill, polls)
    requires forall i :: 0 <= i < |polls| ==> polls[i].now <= end
    ensures Total(b, polls) * UNITS_PER_BYTE <= b.capacity + b.rate * (end - polls[0].now)
    decreases |polls|
  {
    var t := polls[0].now;
    assert b.rate * (end - t) >= 0;
    if polls[0].room == 0 {
      if |polls| > 1 {
        IntervalBound(b, polls[1..], end);
        RateSplits(b.rate, t, polls[1].now, end);
      } else {
        assert polls[1..] == [];
      }
    } else {
      var r := Refill(b, t);
      RefillKeepsEnabled(b, t);
      RefillTwice(b, t, t);
      assert PollRead(r, polls[0]) == PollRead(b, polls[0]);
      BalanceBoundsTotal(r, polls, end);
    }
  }

  /** The limiter is work-conserving: with room and bytes on offer, a poll of a
      drained bucket reads something exactly when its wake-up delay is over. */
  lemma WaitingEndsStarvation(b: Bucket, p: Poll)
    requires Enabled(b) && b.available < UNITS_PER_BYTE && b.lastRefill <= p.now
    requires p.room > 0 && p.offered > 0
    ensures PollRead(b, p).1 > 0 <==> p.now >= b.lastRefill + WaitNanos(b)
  {
    hide WaitNanos, Refill;
    WaitIsExact(b, p.now - b.lastRefill);
    WholeByte(Refill(b, p.now).available);
  }

  lemma WholeByte(available: nat)
    ensures available / UNITS_PER_BYTE > 0 <==> available >= UNITS_PER_BYTE
  {
  }

  // --------------------------------------------------- as it was configured

  /** The bucket a constructor makes. */
  function Filled(rate: nat, burstNanos: nat, now: nat): Bucket
  {
    Bucket(rate, Capacity(rate, burstNanos), Capacity(rate, burstNanos), now)
  }

  /** Main result in configured terms: over any run of a fresh limiter, and over
      any interval i..j of it, the bytes read make up at most the configured
      burst plus the configured rate times the time elapsed. */
  lemma ConfiguredRateBound(rate: nat, burstNanos: nat, start: nat, polls: seq<Poll>, i: nat, j: nat)
    requires 0 < rate <= U64_MAX && InOrder(start, polls) && i <= j < |polls|
    ensures var b := Filled(rate, burstNanos, start);
            Total(After(b, polls[..i]), polls[i..j + 1]) * 1_000_000_000
            <= Burst(rate, burstNanos) + rate * (polls[j].now - polls[i].now)
  {
    RateBound(Filled(rate, burstNanos, start), polls, i, j);
  }

  /** The first read of a fresh limiter gets the whole burst, and no more. */
  lemma FirstReadIsExact(rate: nat, burstNanos: nat, now: nat, room: nat, offered: nat)
    requires 0 < rate <= U64_MAX && room > 0
    ensures PollRead(Filled(rate, burstNanos, now), Poll(now, room, offered)).1
         == Min(offered, Min(room, Min(Burst(rate, burstNanos) / 1_000_000_000, 0xFFFF_FFFF_FFFF_FFFF)))
  {
    RefillIsExact(Filled(rate, burstNanos, now), now);
    assert rate * (now - now) == 0;
  }

  /** A limiter without a rate limits nothing. */
  lemma UnlimitedReads(b: Bucket, p: Poll)
    requires b.rate == 0
    ensures PollRead(b, p) == (b, Min(p.offered, Min(p.room, 0xFFFF_FFFF_FFFF_FFFF)))
  {
  }

  /** The same for the object itself, from its creation. */
  method PumpFreshTunnel(rate: nat, burstNanos: nat, now: nat, steps: seq<TunnelRead>, end: nat)
    returns (total: nat)
    requires 0 < rate <= U64_MAX && Follow(now, steps, end)
    ensures now <= end
    ensures total * 1_000_000_000 <= Burst(rate, burstNanos) + rate * (end - now)
  {
    FollowWeakens(now, now, steps, end);
    var limiter := new ByteRateLimiter(rate, burstNanos, now);
    total := PumpTunnel(limiter, steps, end);
  }
}
