/** The lock-free token bucket: settlement arithmetic and every interleaving of its atomic steps. */
module TokenBucket {
  import opened Bytes

  function Wrap32(n: int): (r: nat)
    ensures r < U32
    ensures 0 <= n < U32 ==> r == n
  {
    n % 0x1_0000_0000
  }

  function Min(a: nat, b: nat): nat {
    if a < b then a else b
  }

  datatype Config = Config(capacity: nat, rate: nat) {
    ghost predicate Valid() {
      capacity < U32 && rate < U32
    }
  }

  /** The packed atomic word. */
  datatype Cell = Cell(timestamp: nat, tokens: nat)

  // ----- Settlement -----

  /** Whole tokens produced in `elapsed` milliseconds. */
  function Produced(elapsed: nat, rate: nat): nat {
    elapsed * rate / 1000
  }

  /** Milliseconds paid for by `produced` tokens, rounded down. */
  function Settled(produced: nat, rate: nat): nat
    requires rate > 0
  {
    produced * 1000 / rate
  }

  function Elapsed(cur: Cell, now: nat): nat {
    Wrap32(now - cur.timestamp)
  }

  /** The state a tryAcquire computes before it takes its tokens. */
  function Settle(cfg: Config, cur: Cell, now: nat): Cell {
    var produced := Produced(Elapsed(cur, now), cfg.rate);
    if produced == 0 then cur else
    assert cfg.rate > 0;
    Cell(Wrap32(cur.timestamp + Wrap32(Settled(produced, cfg.rate))), Min(cfg.capacity, cur.tokens + produced))
  }

  /** Whether that settlement produces any tokens. */
  function Refill(cfg: Config, cur: Cell, now: nat): nat {
    if Produced(Elapsed(cur, now), cfg.rate) > 0 then 1 else 0
  }

  /** The state an update writes: settled under the old configuration, clipped to both capacities. */
  function SettleForUpdate(old_: Config, new_: Config, cur: Cell, now: nat): Cell {
    Cell(now, Min(new_.capacity, Min(old_.capacity, cur.tokens + Produced(Elapsed(cur, now), old_.rate))))
  }

  function Available(cfg: Config, cur: Cell, now: nat): nat {
    Min(cfg.capacity, cur.tokens + Produced(Elapsed(cur, now), cfg.rate))
  }

  /** A settlement never pays for more time than passed, and keeps back less than a token and a millisecond. */
  lemma SettlementArithmetic(e: nat, r: nat)
    requires r > 0
    ensures var p := Produced(e, r);
            var a := Settled(p, r);
            && a <= e
            && a * r <= 1000 * p < (a + 1) * r
            && (e - a) * r < 1000 + r
            && (e < U32 && r < U32 ==> e * r < 0x1_0000_0000_0000_0000 && p * 1000 <= e * r)
  {
    var p := Produced(e, r);
    var a := Settled(p, r);
    DivBounds(e * r, 1000);
    DivBounds(p * 1000, r);
    assert a * r <= p * 1000 <= e * r;
    assert (e + 1) * r == e * r + r;
    Cancel(a, e + 1, r);
    assert (e - a) * r == e * r - a * r;
    assert (a + 1) * r == a * r + r;
    if e < U32 && r < U32 {
      MulMono(e, U32 - 1, r);
      MulMono(r, U32 - 1, U32 - 1);
    }
  }

  lemma DivBounds(n: nat, d: nat)
    requires d > 0
    ensures n / d * d <= n < n / d * d + d
  {
  }

  lemma MulMono(a: nat, b: nat, c: nat)
    requires a <= b
    ensures a * c <= b * c && c * a <= c * b
  {
  }

  lemma Cancel(a: nat, b: nat, c: nat)
    requires a * c < b * c
    ensures a < b
  {
    if b <= a {
      MulMono(b, a, c);
    }
  }

  lemma Distribute(r: nat, x: nat, y: nat)
    ensures r * (x + y) == r * x + r * y
  {
  }

  /** Settlement is always exact when a token takes a whole number of ms, or a ms yields a whole number of tokens. */
  predicate Commensurable(rate: nat) {
    rate > 0 && (1000 % rate == 0 || rate % 1000 == 0)
  }

  lemma ExactSettlement(e: nat, r: nat)
    requires Commensurable(r)
    ensures Settled(Produced(e, r), r) * r == 1000 * Produced(e, r)
  {
    var p := Produced(e, r);
    if 1000 % r == 0 {
      var q := 1000 / r;
      assert 1000 == q * r;
      assert p * 1000 == (p * q) * r;
      DivExact(p * q, r);
    } else {
      var q := r / 1000;
      assert r == q * 1000;
      assert e * r == (e * q) * 1000;
      DivExact(e * q, 1000);
      assert p * 1000 == e * r;
      DivExact(e, r);
    }
  }

  lemma DivExact(n: nat, d: nat)
    requires d > 0
    ensures n * d / d == n
  {
    DivBounds(n * d, d);
    var q := n * d / d;
    assert (q + 1) * d == q * d + d && (n + 1) * d == n * d + d;
    Cancel(n, q + 1, d);
    Cancel(q, n + 1, d);
  }

  // ----- The machine -----

  /** A thread between two atomic steps of tryAcquire or update. */
  datatype Thread =
    | Ready
    | Loaded(cfg: Config, need: nat)
    | Holding(cfg: Config, need: nat, cur: Cell)
    | Sampled(cfg: Config, need: nat, cur: Cell, now: nat)
    | Updating(old_: Config, new_: Config)
    | UpdateHolding(old_: Config, new_: Config, cur: Cell)
    | UpdateSampled(old_: Config, new_: Config, cur: Cell, now: nat)
    | Storing(new_: Config)

  /** `granted` counts tokens given out, `refills` the refilling CAS successes, `peak` the largest capacity so far. */
  datatype Bucket = Bucket(config: Config, cell: Cell, clock: nat, threads: map<nat, Thread>, locked: bool,
                           granted: nat, refills: nat, peak: nat) {
    function Thread(t: nat): Thread {
      if t in threads then threads[t] else Ready
    }

    function Put(t: nat, th: Thread): Bucket {
      this.(threads := threads[t := th])
    }
  }

  function Initial(cfg: Config): Bucket {
    Bucket(cfg, Cell(0, cfg.capacity), 0, map[], false, 0, 0, cfg.capacity)
  }

  /** `Cas` may fail spuriously; `Lock` also loads the configuration only the lock holder may change. */
  datatype Event =
    | Tick(ms: nat)
    | Begin(t: nat, need: nat)
    | LoadCell(t: nat)
    | Sample(t: nat)
    | Cas(t: nat, spurious: bool)
    | Lock(t: nat, new_: Config)
    | Store(t: nat)

  /** One atomic step; an event that is not enabled changes nothing. */
  function Step(s: Bucket, e: Event): Bucket {
    match e
    case Tick(ms) => s.(clock := s.clock + ms)
    case Begin(t, need) =>
      if s.Thread(t).Ready? && 0 < need <= s.config.capacity then s.Put(t, Loaded(s.config, need)) else s
    case LoadCell(t) =>
      (match s.Thread(t)
       case Loaded(cfg, need) => s.Put(t, Holding(cfg, need, s.cell))
       case Updating(old_, new_) => s.Put(t, UpdateHolding(old_, new_, s.cell))
       case _ => s)
    case Sample(t) =>
      (match s.Thread(t)
       case Holding(cfg, need, cur) => s.Put(t, Sampled(cfg, need, cur, Wrap32(s.clock)))
       case UpdateHolding(old_, new_, cur) => s.Put(t, UpdateSampled(old_, new_, cur, Wrap32(s.clock)))
       case _ => s)
    case Cas(t, spurious) =>
      (match s.Thread(t)
       case Sampled(cfg, need, cur, now) => TryTake(s, t, cfg, need, cur, now, spurious)
       case UpdateSampled(old_, new_, cur, now) =>
         if s.cell == cur && !spurious then
           s.Put(t, Storing(new_)).(cell := SettleForUpdate(old_, new_, cur, now))
         else s.Put(t, UpdateHolding(old_, new_, s.cell))
       case _ => s)
    case Lock(t, new_) =>
      if s.Thread(t).Ready? && !s.locked then s.Put(t, Updating(s.config, new_)).(locked := true) else s
    case Store(t) =>
      if s.Thread(t).Storing? then
        var new_ := s.Thread(t).new_;
        s.Put(t, Ready).(config := new_, locked := false,
                         peak := if new_.capacity > s.peak then new_.capacity else s.peak)
      else s
  }

  /** The end of one round of tryAcquire: refuse, succeed, or go round again with the refreshed state. */
  function TryTake(s: Bucket, t: nat, cfg: Config, need: nat, cur: Cell, now: nat, spurious: bool): Bucket {
    var next := Settle(cfg, cur, now);
    if next.tokens < need then s.Put(t, Ready)
    else if s.cell == cur && !spurious then
      s.Put(t, Ready).(cell := Cell(next.timestamp, next.tokens - need),
                       granted := s.granted + need, refills := s.refills + Refill(cfg, cur, now))
    else s.Put(t, Holding(cfg, need, s.cell))
  }

  function Exec(s: Bucket, events: seq<Event>): Bucket
    decreases |events|
  {
    if events == [] then s else Exec(Step(s, events[0]), events[1..])
  }

  ghost predicate AllowedEvent(e: Event) {
    e.Lock? ==> e.new_.Valid()
  }

  // ----- All runs, with concurrent updates -----

  ghost predicate ThreadOk(s: Bucket, th: Thread) {
    && (th.Loaded? || th.Holding? || th.Sampled? ==>
          th.cfg.Valid() && th.cfg.capacity <= s.peak && th.need <= th.cfg.capacity)
    && (th.Updating? || th.UpdateHolding? || th.UpdateSampled? ==>
          th.old_.Valid() && th.new_.Valid() && th.old_.capacity <= s.peak)
    && (th.Storing? ==> th.new_.Valid())
    && (th.Holding? || th.UpdateHolding? ==> th.cur.timestamp <= s.clock)
    && (th.Sampled? || th.UpdateSampled? ==> th.cur.timestamp <= th.now <= s.clock)
  }

  /** No interleaving stores more tokens than the largest capacity ever in force, or a time still to come. */
  ghost predicate Sound(s: Bucket) {
    && s.config.Valid() && s.config.capacity <= s.peak
    && s.cell.tokens <= s.peak && s.cell.timestamp <= s.clock
    && forall t :: t in s.threads ==> ThreadOk(s, s.threads[t])
  }

  lemma SettleBounds(cfg: Config, cur: Cell, now: nat)
    requires cfg.Valid() && cur.timestamp <= now < U32
    ensures var next := Settle(cfg, cur, now);
            && cur.timestamp <= next.timestamp <= now
            && (next.tokens <= cfg.capacity || next.tokens == cur.tokens)
  {
    var e := Elapsed(cur, now);
    assert e == now - cur.timestamp;
    if Produced(e, cfg.rate) > 0 {
      assert cfg.rate > 0;
      SettlementArithmetic(e, cfg.rate);
    }
  }

  lemma CasSound(s: Bucket, e: Event)
    requires Sound(s) && s.clock < U32 && e.Cas?
    ensures Sound(Step(s, e)) && s.clock == Step(s, e).clock && s.peak == Step(s, e).peak
  {
    hide Settle, Elapsed, Produced;
    if s.Thread(e.t).Sampled? {
      var th := s.Thread(e.t);
      SettleBounds(th.cfg, th.cur, th.now);
    }
  }

  lemma StepSound(s: Bucket, e: Event)
    requires Sound(s) && AllowedEvent(e) && Step(s, e).clock < U32
    ensures Sound(Step(s, e)) && s.clock <= Step(s, e).clock && s.peak <= Step(s, e).peak
  {
    hide TryTake, SettleForUpdate;
    if e.Cas? {
      assert s.clock < U32 by { CasClock(s, e); }
      CasSound(s, e);
    }
  }

  lemma CasClock(s: Bucket, e: Event)
    requires e.Cas?
    ensures Step(s, e).clock == s.clock
  {
    hide Settle, SettleForUpdate;
  }

  lemma {:induction false} ExecClock(s: Bucket, events: seq<Event>)
    ensures s.clock <= Exec(s, events).clock
    decreases |events|
  {
    hide Settle;
    if events != [] {
      ExecClock(Step(s, events[0]), events[1..]);
    }
  }

  lemma {:induction false} ExecSound(s: Bucket, events: seq<Event>)
    requires Sound(s) && (forall i | 0 <= i < |events| :: AllowedEvent(events[i]))
    requires Exec(s, events).clock < U32
    ensures Sound(Exec(s, events)) && s.peak <= Exec(s, events).peak
    decreases |events|
  {
    hide Step;
    if events != [] {
      ExecClock(Step(s, events[0]), events[1..]);
      StepSound(s, events[0]);
      ExecSound(Step(s, events[0]), events[1..]);
    }
  }

  /** In every interleaving from a new bucket, with any updates. */
  lemma NeverOverfull(cfg: Config, events: seq<Event>)
    requires cfg.Valid() && (forall i | 0 <= i < |events| :: AllowedEvent(events[i]))
    requires Exec(Initial(cfg), events).clock < U32
    ensures var s := Exec(Initial(cfg), events); s.cell.tokens <= s.peak && s.cell.timestamp <= s.clock
  {
    ExecSound(Initial(cfg), events);
  }

  // ----- Runs under a fixed configuration -----

  ghost predicate Fixed(cfg: Config, s: Bucket) {
    && s.config == cfg && s.peak == cfg.capacity
    && forall t :: t in s.threads ==>
         var th := s.threads[t];
         th.Ready? || ((th.Loaded? || th.Holding? || th.Sampled?) && th.cfg == cfg)
  }

  /** Tokens given out and tokens left never exceed the capacity, the settled time and the rounding of each refill. */
  ghost predicate Conserved(cfg: Config, s: Bucket) {
    && 1000 * (s.granted + s.cell.tokens) + s.refills
       <= 1000 * cfg.capacity + cfg.rate * (s.cell.timestamp + s.refills)
    && (Commensurable(cfg.rate) ==>
          1000 * (s.granted + s.cell.tokens) <= 1000 * cfg.capacity + cfg.rate * s.cell.timestamp)
  }

  /** One settlement in numbers. */
  lemma SettleConserves(cfg: Config, cur: Cell, now: nat, k: nat)
    requires cfg.Valid() && cur.timestamp <= now < U32
    ensures var next := Settle(cfg, cur, now);
            var refill := Refill(cfg, cur, now);
            && 1000 * next.tokens + refill + cfg.rate * (cur.timestamp + k)
               <= 1000 * cur.tokens + cfg.rate * (next.timestamp + k + refill)
            && (Commensurable(cfg.rate) ==>
                  1000 * next.tokens + cfg.rate * cur.timestamp <= 1000 * cur.tokens + cfg.rate * next.timestamp)
  {
    hide Produced, Settled, Commensurable;
    var e, r := now - cur.timestamp, cfg.rate;
    var p := Produced(e, r);
    if p > 0 {
      ProducedPositive(e, r);
      SettlementArithmetic(e, r);
      if Commensurable(r) {
        ExactSettlement(e, r);
      }
      SettleOnce(r, p, Settled(p, r), cur.timestamp, k);
    }
  }

  lemma ProducedPositive(e: nat, r: nat)
    requires Produced(e, r) > 0
    ensures r > 0
  {
  }

  lemma SettleOnce(r: nat, p: nat, a: nat, timestamp: nat, k: nat)
    requires 1000 * p < (a + 1) * r
    ensures 1000 * p + 1 + r * (timestamp + k) <= r * (timestamp + a + k + 1)
    ensures a * r == 1000 * p ==> 1000 * p + r * timestamp == r * (timestamp + a)
  {
    Distribute(r, timestamp + k, a + 1);
    Distribute(r, timestamp, a);
  }

  ghost predicate NoUpdate(e: Event) {
    !e.Lock?
  }

  lemma StepConserves(cfg: Config, s: Bucket, e: Event)
    requires cfg.Valid() && Sound(s) && Fixed(cfg, s) && Conserved(cfg, s)
    requires NoUpdate(e) && Step(s, e).clock < U32
    ensures Fixed(cfg, Step(s, e)) && Conserved(cfg, Step(s, e))
  {
    hide Settle, Produced;
    if e.Cas? && s.Thread(e.t).Sampled? {
      var th := s.Thread(e.t);
      SettleConserves(cfg, th.cur, th.now, s.refills);
    }
  }

  lemma {:induction false} ExecConserves(cfg: Config, s: Bucket, events: seq<Event>)
    requires cfg.Valid() && Sound(s) && Fixed(cfg, s) && Conserved(cfg, s)
    requires (forall i | 0 <= i < |events| :: NoUpdate(events[i])) && Exec(s, events).clock < U32
    ensures var s' := Exec(s, events); Sound(s') && Fixed(cfg, s') && Conserved(cfg, s')
    decreases |events|
  {
    hide Step, Conserved;
    if events != [] {
      ExecClock(Step(s, events[0]), events[1..]);
      StepSound(s, events[0]);
      StepConserves(cfg, s, events[0]);
      ExecConserves(cfg, Step(s, events[0]), events[1..]);
    }
  }

  /** The rate bound of every interleaving of any number of threads under a fixed configuration. */
  lemma RateBound(cfg: Config, events: seq<Event>)
    requires cfg.Valid() && (forall i | 0 <= i < |events| :: NoUpdate(events[i]))
    requires Exec(Initial(cfg), events).clock < U32
    ensures var s := Exec(Initial(cfg), events);
            && s.cell.tokens <= cfg.capacity && s.cell.timestamp <= s.clock
            && Conserved(cfg, s)
  {
    InitialConserved(cfg);
    ExecConserves(cfg, Initial(cfg), events);
  }

  // ----- Nothing is lost -----

  /** The tokens of `elapsed` milliseconds, to the token; whole seconds give the rate's worth. */
  lemma ProducedIs(e: nat, r: nat, k: nat)
    ensures 1000 * Produced(e, r) <= e * r < 1000 * (Produced(e, r) + 1)
    ensures Produced(1000 * k, r) == k * r
  {
    DivBounds(e * r, 1000);
    assert (1000 * k) * r == (k * r) * 1000;
    DivExact(k * r, 1000);
  }

  /**
   * A settlement costs nobody a token: at any later time at least as many are available as if it had not happened, and
   * exactly as many if the rate is commensurable.
   */
  lemma SettleKeepsAvailable(cfg: Config, cur: Cell, now: nat, later: nat)
    requires cfg.Valid() && cur.tokens <= cfg.capacity && cur.timestamp <= now <= later < U32
    ensures Available(cfg, cur, later) <= Available(cfg, Settle(cfg, cur, now), later)
    ensures Commensurable(cfg.rate) ==> Available(cfg, cur, later) == Available(cfg, Settle(cfg, cur, now), later)
  {
    var e, x, r := now - cur.timestamp, later - cur.timestamp, cfg.rate;
    var p := Produced(e, r);
    if p > 0 {
      ProducedPositive(e, r);
      SettlementArithmetic(e, r);
      var a := Settled(p, r);
      assert Elapsed(cur, now) == e && Elapsed(cur, later) == x;
      assert Settle(cfg, cur, now) == Cell(cur.timestamp + a, Min(cfg.capacity, cur.tokens + p));
      assert Elapsed(Settle(cfg, cur, now), later) == x - a;
      if Commensurable(r) {
        ExactSettlement(e, r);
      }
      hide Settle, Elapsed, Commensurable;
      SplitProduction(x, a, p, r);
      ProducedGrows(e, x, r);
    }
  }

  lemma ProducedGrows(e: nat, x: nat, r: nat)
    requires e <= x
    ensures Produced(e, r) <= Produced(x, r)
  {
    ProducedIs(e, r, 0);
    ProducedIs(x, r, 0);
    MulMono(e, x, r);
  }

  /** Time split into `a` milliseconds, worth at most `p` tokens, and the rest. */
  lemma SplitProduction(x: nat, a: nat, p: nat, r: nat)
    requires a <= x && a * r <= 1000 * p
    ensures Produced(x, r) <= p + Produced(x - a, r)
    ensures a * r == 1000 * p ==> Produced(x, r) == p + Produced(x - a, r)
  {
    var q, q' := Produced(x, r), Produced(x - a, r);
    DivBounds(x * r, 1000);
    DivBounds((x - a) * r, 1000);
    assert x * r == a * r + (x - a) * r;
    hide Produced;
    assert 1000 * q <= x * r < 1000 * q + 1000;
    assert 1000 * q' <= (x - a) * r < 1000 * q' + 1000;
  }

  /** What was available just before an update, up to the new capacity, is available just after it. */
  lemma UpdateKeepsAvailable(old_: Config, new_: Config, cur: Cell, now: nat)
    requires now < U32
    ensures Available(new_, SettleForUpdate(old_, new_, cur, now), now) == Min(new_.capacity, Available(old_, cur, now))
  {
    hide Produced;
    assert Elapsed(SettleForUpdate(old_, new_, cur, now), now) == 0;
    assert Produced(0, new_.rate) == 0 by { ProducedIs(0, new_.rate, 0); }
  }

  /** An undisturbed tryAcquire gets its tokens if they are available, and takes exactly those. */
  lemma AcquireGrants(s: Bucket, t: nat, need: nat)
    requires s.config.Valid() && s.cell.tokens <= s.config.capacity && s.cell.timestamp <= s.clock < U32
    requires s.Thread(t).Ready? && need > 0
    ensures var s' := Exec(s, [Begin(t, need), LoadCell(t), Sample(t), Cas(t, false)]);
            && s'.Thread(t).Ready? && s'.config == s.config && s'.clock == s.clock
            && (if need <= Available(s.config, s.cell, s.clock) then
                  && s'.granted == s.granted + need
                  && s'.cell.tokens + need == Settle(s.config, s.cell, s.clock).tokens
                  && Available(s.config, s'.cell, s.clock) + need >= Available(s.config, s.cell, s.clock)
                else
                  s'.granted == s.granted && s'.cell == s.cell)
  {
    AcquireSteps(s, t, need);
    AvailableIsGranted(s.config, s.cell, s.clock, need);
    hide Exec, Step, Settle, Refill, Available;
    if need <= Available(s.config, s.cell, s.clock) {
      TakenFromSettled(s.config, s.cell, s.clock, need);
    }
    AvailableFits(s.config, s.cell, s.clock);
  }

  lemma AcquireSteps(s: Bucket, t: nat, need: nat)
    requires s.clock < U32 && s.Thread(t).Ready? && need > 0
    ensures var s' := Exec(s, [Begin(t, need), LoadCell(t), Sample(t), Cas(t, false)]);
            var next := Settle(s.config, s.cell, s.clock);
            && s'.Thread(t).Ready? && s'.config == s.config && s'.clock == s.clock
            && (if need <= s.config.capacity && need <= next.tokens then
                  s'.granted == s.granted + need && s'.cell == Cell(next.timestamp, next.tokens - need)
                else
                  s'.granted == s.granted && s'.cell == s.cell)
  {
    hide Exec, Settle, Refill;
    var events := [Begin(t, need), LoadCell(t), Sample(t), Cas(t, false)];
    var three := [Begin(t, need), LoadCell(t), Sample(t)];
    assert events == three + [Cas(t, false)];
    ExecConcat(s, three, [Cas(t, false)]);
    ExecThree(s, three);
    ExecOne(Exec(s, three), Cas(t, false));
  }

  lemma AvailableFits(cfg: Config, cell: Cell, now: nat)
    ensures Available(cfg, cell, now) <= cfg.capacity
  {
  }

  lemma TakenFromSettled(cfg: Config, cur: Cell, now: nat, need: nat)
    requires cfg.Valid() && cur.tokens <= cfg.capacity && cur.timestamp <= now < U32
    requires need <= Settle(cfg, cur, now).tokens
    ensures var next := Settle(cfg, cur, now);
            Available(cfg, Cell(next.timestamp, next.tokens - need), now) + need >= Available(cfg, cur, now)
  {
    SettleKeepsAvailable(cfg, cur, now, now);
    SettleBounds(cfg, cur, now);
    hide Settle, Produced;
  }

  /** An undisturbed update puts its configuration in force and keeps what was available, up to the new capacity. */
  lemma UpdateTakesEffect(s: Bucket, t: nat, new_: Config)
    requires s.Thread(t).Ready? && !s.locked && s.clock < U32
    ensures var s' := Exec(s, [Lock(t, new_), LoadCell(t), Sample(t)] + [Cas(t, false), Store(t)]);
            && s'.config == new_ && !s'.locked && s'.Thread(t).Ready? && s'.granted == s.granted && s'.clock == s.clock
            && s'.cell.timestamp == s.clock
            && Available(new_, s'.cell, s.clock) == Min(new_.capacity, Available(s.config, s.cell, s.clock))
  {
    hide Exec, Step, Available, SettleForUpdate;
    var begun, done := [Lock(t, new_), LoadCell(t), Sample(t)], [Cas(t, false), Store(t)];
    ExecConcat(s, begun, done);
    UpdateBegins(s, t, new_, begun);
    UpdateEnds(Exec(s, begun), t, s.config, new_, done);
    UpdateKeepsAvailable(s.config, new_, s.cell, s.clock);
    SettledAt(s.config, new_, s.cell, s.clock);
  }

  lemma SettledAt(old_: Config, new_: Config, cur: Cell, now: nat)
    ensures SettleForUpdate(old_, new_, cur, now).timestamp == now
  {
  }

  lemma UpdateBegins(s: Bucket, t: nat, new_: Config, begun: seq<Event>)
    requires s.Thread(t).Ready? && !s.locked && s.clock < U32 && begun == [Lock(t, new_), LoadCell(t), Sample(t)]
    ensures var s' := Exec(s, begun);
            && s'.Thread(t) == UpdateSampled(s.config, new_, s.cell, s.clock) && s'.cell == s.cell
            && s'.clock == s.clock && s'.granted == s.granted
  {
    ExecThree(s, begun);
    hide Exec;
  }

  lemma UpdateEnds(s: Bucket, t: nat, old_: Config, new_: Config, done: seq<Event>)
    requires s.Thread(t) == UpdateSampled(old_, new_, s.cell, s.clock) && done == [Cas(t, false), Store(t)]
    ensures var s' := Exec(s, done);
            && s'.config == new_ && !s'.locked && s'.Thread(t).Ready? && s'.clock == s.clock && s'.granted == s.granted
            && s'.cell == SettleForUpdate(old_, new_, s.cell, s.clock)
  {
    hide Exec, SettleForUpdate;
    assert done == [Cas(t, false)] + [Store(t)];
    ExecConcat(s, [Cas(t, false)], [Store(t)]);
    ExecOne(s, Cas(t, false));
    ExecOne(Step(s, Cas(t, false)), Store(t));
  }

  ghost predicate InUpdate(th: Thread) {
    th.Updating? || th.UpdateHolding? || th.UpdateSampled? || th.Storing?
  }

  /** At most one update is under way, and exactly while the mutex is held. */
  ghost predicate Exclusive(s: Bucket) {
    && (forall t, t' :: InUpdate(s.Thread(t)) && InUpdate(s.Thread(t')) ==> t == t')
    && (s.locked <==> exists t :: InUpdate(s.Thread(t)))
  }

  lemma OthersStay(s: Bucket, e: Event, u: nat)
    requires !e.Tick? ==> u != e.t
    ensures Step(s, e).Thread(u) == s.Thread(u)
  {
    hide Settle, SettleForUpdate, Refill;
  }

  lemma OnlyLockAndStore(s: Bucket, e: Event)
    requires !e.Lock? && !e.Store? && !e.Tick?
    ensures Step(s, e).locked == s.locked && InUpdate(Step(s, e).Thread(e.t)) == InUpdate(s.Thread(e.t))
  {
    hide Settle, SettleForUpdate, Refill;
  }

  lemma StepExclusive(s: Bucket, e: Event)
    requires Exclusive(s)
    ensures Exclusive(Step(s, e))
  {
    var s' := Step(s, e);
    forall u | !e.Tick? ==> u != e.t ensures s'.Thread(u) == s.Thread(u) {
      OthersStay(s, e, u);
    }
    if e.Tick? {
      hide Exclusive;
    } else if e.Lock? || e.Store? {
      assert s' == s || InUpdate(s'.Thread(e.t)) == s'.locked;
    } else {
      OnlyLockAndStore(s, e);
      hide Step;
      assert forall u :: InUpdate(s'.Thread(u)) == InUpdate(s.Thread(u));
    }
  }

  /** Updates never overlap, in any interleaving. */
  lemma UpdatesExcludeEachOther(cfg: Config, events: seq<Event>)
    ensures Exclusive(Exec(Initial(cfg), events))
  {
    ExecExclusive(Initial(cfg), events);
  }

  lemma {:induction false} ExecExclusive(s: Bucket, events: seq<Event>)
    requires Exclusive(s)
    ensures Exclusive(Exec(s, events))
    decreases |events|
  {
    hide Step, Exclusive;
    if events != [] {
      StepExclusive(s, events[0]);
      ExecExclusive(Step(s, events[0]), events[1..]);
    }
  }

  // ----- Runs with updates -----

  /** Rates up to `r`, all of them commensurable if `exact`. */
  ghost predicate RateUpTo(r: nat, exact: bool, cfg: Config) {
    cfg.Valid() && cfg.rate <= r && (exact ==> cfg.rate == 0 || Commensurable(cfg.rate))
  }

  ghost predicate EventUpTo(r: nat, exact: bool, e: Event) {
    e.Lock? ==> RateUpTo(r, exact, e.new_)
  }

  ghost predicate ThreadUpTo(r: nat, exact: bool, th: Thread) {
    && (th.Loaded? || th.Holding? || th.Sampled? ==> RateUpTo(r, exact, th.cfg))
    && (th.Updating? || th.UpdateHolding? || th.UpdateSampled? ==> RateUpTo(r, exact, th.old_))
    && (th.Updating? || th.UpdateHolding? || th.UpdateSampled? || th.Storing? ==> RateUpTo(r, exact, th.new_))
  }

  ghost predicate AllUpTo(r: nat, exact: bool, s: Bucket) {
    RateUpTo(r, exact, s.config) && forall t :: t in s.threads ==> ThreadUpTo(r, exact, s.threads[t])
  }

  /** Tokens given out and left never exceed those at first and the highest rate. */
  ghost predicate Limited(first: nat, r: nat, exact: bool, s: Bucket) {
    1000 * (s.granted + s.cell.tokens) <= 1000 * first + r * (s.cell.timestamp + if exact then 0 else s.refills)
  }

  lemma SettleLimited(r: nat, exact: bool, cfg: Config, cur: Cell, now: nat)
    requires RateUpTo(r, exact, cfg) && cur.timestamp <= now < U32
    ensures var next := Settle(cfg, cur, now);
            && cur.timestamp <= next.timestamp
            && var k := if exact then 0 else Refill(cfg, cur, now);
               1000 * next.tokens <= 1000 * cur.tokens + r * (next.timestamp - cur.timestamp + k)
  {
    var next, k := Settle(cfg, cur, now), if exact then 0 else Refill(cfg, cur, now);
    SettleBounds(cfg, cur, now);
    SettleConserves(cfg, cur, now, 0);
    if cfg.rate == 0 {
      assert Produced(Elapsed(cur, now), 0) == 0;
    }
    hide Settle, Produced, Elapsed, Commensurable;
    Distribute(cfg.rate, cur.timestamp, next.timestamp - cur.timestamp);
    Distribute(cfg.rate, next.timestamp, k);
    Distribute(cfg.rate, next.timestamp - cur.timestamp, k);
    MulMono(cfg.rate, r, next.timestamp - cur.timestamp + k);
  }

  lemma UpdateLimited(r: nat, old_: Config, new_: Config, cur: Cell, now: nat)
    requires old_.rate <= r && cur.timestamp <= now < U32
    ensures var next := SettleForUpdate(old_, new_, cur, now);
            next.timestamp == now && 1000 * next.tokens <= 1000 * cur.tokens + r * (now - cur.timestamp)
  {
    var e := now - cur.timestamp;
    DivBounds(e * old_.rate, 1000);
    MulMono(old_.rate, r, e);
  }

  lemma StepLimited(first: nat, r: nat, exact: bool, s: Bucket, e: Event)
    requires Sound(s) && AllUpTo(r, exact, s) && EventUpTo(r, exact, e) && Limited(first, r, exact, s)
    requires s.clock < U32
    ensures AllUpTo(r, exact, Step(s, e)) && Limited(first, r, exact, Step(s, e))
  {
    StepUpTo(r, exact, s, e);
    if e.Cas? {
      CasLimited(first, r, exact, s, e);
    } else {
      OnlyCasWrites(s, e);
    }
  }

  lemma OnlyCasWrites(s: Bucket, e: Event)
    requires !e.Cas?
    ensures var s' := Step(s, e); s'.cell == s.cell && s'.granted == s.granted && s'.refills == s.refills
  {
  }

  lemma StepUpTo(r: nat, exact: bool, s: Bucket, e: Event)
    requires AllUpTo(r, exact, s) && EventUpTo(r, exact, e)
    ensures AllUpTo(r, exact, Step(s, e))
  {
    hide RateUpTo, Settle, SettleForUpdate, Refill;
  }

  lemma CasLimited(first: nat, r: nat, exact: bool, s: Bucket, e: Event)
    requires Sound(s) && AllUpTo(r, exact, s) && Limited(first, r, exact, s) && s.clock < U32 && e.Cas?
    ensures Limited(first, r, exact, Step(s, e))
  {
    var th, s' := s.Thread(e.t), Step(s, e);
    if th.Sampled? {
      TakeEffect(s, e);
      SettleLimited(r, exact, th.cfg, th.cur, th.now);
      hide Step, Settle, Refill, Sound, AllUpTo;
      if s'.granted != s.granted || s'.cell != s.cell || s'.refills != s.refills {
        var k := if exact then 0 else Refill(th.cfg, th.cur, th.now);
        var d := s'.cell.timestamp - s.cell.timestamp + k;
        Distribute(r, s.cell.timestamp + if exact then 0 else s.refills, d);
      }
    } else if th.UpdateSampled? {
      UpdateLimited(r, th.old_, th.new_, th.cur, th.now);
      hide SettleForUpdate, Sound, AllUpTo;
      if s.cell == th.cur && !e.spurious {
        Distribute(r, s.cell.timestamp + if exact then 0 else s.refills, th.now - s.cell.timestamp);
      }
    }
  }

  lemma {:induction false} ExecLimited(first: nat, r: nat, exact: bool, s: Bucket, events: seq<Event>)
    requires Sound(s) && AllUpTo(r, exact, s) && Limited(first, r, exact, s)
    requires (forall i | 0 <= i < |events| :: EventUpTo(r, exact, events[i])) && Exec(s, events).clock < U32
    ensures Limited(first, r, exact, Exec(s, events))
    decreases |events|
  {
    if events != [] {
      assert EventUpTo(r, exact, events[0]);
      ExecClock(Step(s, events[0]), events[1..]);
      hide Step, Limited, AllUpTo, Sound;
      StepSound(s, events[0]);
      StepLimited(first, r, exact, s, events[0]);
      ExecLimited(first, r, exact, Step(s, events[0]), events[1..]);
    }
  }

  /**
   * The rate bound of every interleaving with any updates, for rates up to `r`; without the rounding of refills if all
   * rates are commensurable.
   */
  lemma UpdatedRateBound(cfg: Config, r: nat, exact: bool, events: seq<Event>)
    requires RateUpTo(r, exact, cfg) && (forall i | 0 <= i < |events| :: EventUpTo(r, exact, events[i]))
    requires Exec(Initial(cfg), events).clock < U32
    ensures var s := Exec(Initial(cfg), events);
            1000 * (s.granted + s.cell.tokens)
            <= 1000 * cfg.capacity + r * (s.cell.timestamp + if exact then 0 else s.refills)
  {
    assert r * (0 + 0) == 0;
    ExecLimited(cfg.capacity, r, exact, Initial(cfg), events);
    hide Exec;
  }

  // ----- Any window of a run -----

  /** No tryAcquire under way sampled the clock before `m`. */
  ghost predicate SampledFrom(m: nat, s: Bucket) {
    m <= s.clock && forall t :: t in s.threads && s.threads[t].Sampled? ==> m <= s.threads[t].now
  }

  /** `g` tokens given out since time `m` with `k` refills, and `cell` left: at most a full bucket and the rate. */
  ghost predicate Charged(cfg: Config, m: nat, g: nat, k: nat, cell: Cell) {
    && 1000 * (g + cell.tokens) + cfg.rate * m < 1000 * (cfg.capacity + 1) + cfg.rate * (cell.timestamp + k)
    && (Commensurable(cfg.rate) ==>
          1000 * (g + cell.tokens) + cfg.rate * m < 1000 * (cfg.capacity + 1) + cfg.rate * cell.timestamp)
  }

  /** The first settlement in a window forgets all idle time but what earns less than a token and a millisecond. */
  lemma FirstCharge(cfg: Config, cur: Cell, now: nat, m: nat)
    requires cfg.Valid() && cur.tokens <= cfg.capacity && cur.timestamp <= now < U32 && m <= now
    ensures Charged(cfg, m, 0, Refill(cfg, cur, now), Settle(cfg, cur, now))
  {
    hide Settled, Commensurable;
    var e, r := now - cur.timestamp, cfg.rate;
    var p := Produced(e, r);
    MulMono(m, now, r);
    DivBounds(e * r, 1000);
    Distribute(r, cur.timestamp, e);
    assert r * e == e * r;
    if p > 0 {
      ProducedPositive(e, r);
      SettlementArithmetic(e, r);
      var a := Settled(p, r);
      if Commensurable(r) {
        ExactSettlement(e, r);
      }
      FullCharge(cfg, cur.timestamp, e, a, p, now, m);
      assert Settle(cfg, cur, now).timestamp == cur.timestamp + a && Settle(cfg, cur, now).tokens <= cfg.capacity;
      hide Settle, Produced;
      Distribute(r, cur.timestamp + a, 1);
    } else {
      assert Settle(cfg, cur, now) == cur;
      hide Settle, Produced;
      assert cur.timestamp + 0 == cur.timestamp;
    }
  }

  lemma FullCharge(cfg: Config, timestamp: nat, e: nat, a: nat, p: nat, now: nat, m: nat)
    requires cfg.rate * m <= cfg.rate * now && now == timestamp + e && a <= e
    requires (e - a) * cfg.rate < 1000 + cfg.rate && e * cfg.rate < 1000 * p + 1000
    ensures cfg.rate * m < 1000 + cfg.rate * (timestamp + a) + cfg.rate
    ensures a * cfg.rate == 1000 * p ==> cfg.rate * m < 1000 + cfg.rate * (timestamp + a)
  {
    var r := cfg.rate;
    Distribute(r, timestamp, e);
    Distribute(r, timestamp, a);
    Distribute(r, a, e - a);
  }

  lemma NextCharge(cfg: Config, cur: Cell, now: nat, m: nat, g: nat, k: nat)
    requires cfg.Valid() && cur.timestamp <= now < U32 && Charged(cfg, m, g, k, cur)
    ensures Charged(cfg, m, g, k + Refill(cfg, cur, now), Settle(cfg, cur, now))
  {
    SettleConserves(cfg, cur, now, k);
    hide Settle, Produced, Commensurable;
  }

  /** How far a run has come since `first`. */
  ghost predicate Since(cfg: Config, m: nat, first: Bucket, s: Bucket) {
    && Sound(s) && Fixed(cfg, s) && SampledFrom(m, s)
    && s.granted >= first.granted && s.refills >= first.refills && first.cell.tokens <= cfg.capacity
    && ((s.granted == first.granted && s.refills == first.refills && s.cell == first.cell)
        || Charged(cfg, m, s.granted - first.granted, s.refills - first.refills, s.cell))
  }

  lemma TakeEffect(s: Bucket, e: Event)
    requires e.Cas? && s.Thread(e.t).Sampled?
    ensures var th, s' := s.Thread(e.t), Step(s, e);
            var next := Settle(th.cfg, th.cur, th.now);
            && s'.clock == s.clock && (forall m :: SampledFrom(m, s) ==> SampledFrom(m, s'))
            && ((s'.cell == s.cell && s'.granted == s.granted && s'.refills == s.refills)
                || (th.cur == s.cell && next.tokens >= th.need
                    && s'.cell == Cell(next.timestamp, next.tokens - th.need)
                    && s'.granted == s.granted + th.need
                    && s'.refills == s.refills + Refill(th.cfg, th.cur, th.now)))
  {
    hide Settle, Produced, Elapsed;
  }

  lemma TakeSince(cfg: Config, m: nat, first: Bucket, s: Bucket, e: Event)
    requires cfg.Valid() && Since(cfg, m, first, s) && s.clock < U32
    requires e.Cas? && s.Thread(e.t).Sampled? && Sound(Step(s, e)) && Fixed(cfg, Step(s, e))
    ensures Since(cfg, m, first, Step(s, e))
  {
    var th, s' := s.Thread(e.t), Step(s, e);
    assert th.cfg == cfg && m <= th.now && th.cur.timestamp <= th.now <= s.clock;
    TakeEffect(s, e);
    hide Step, Sound, Fixed, SampledFrom, Settle, Refill, Commensurable;
    var g, k := s.granted - first.granted, s.refills - first.refills;
    if th.cur == s.cell {
      if Charged(cfg, m, g, k, s.cell) {
        NextCharge(cfg, th.cur, th.now, m, g, k);
      } else {
        FirstCharge(cfg, th.cur, th.now, m);
      }
    }
  }

  lemma StepSince(cfg: Config, m: nat, first: Bucket, s: Bucket, e: Event)
    requires cfg.Valid() && Since(cfg, m, first, s) && NoUpdate(e) && Step(s, e).clock < U32
    requires Sound(Step(s, e)) && Fixed(cfg, Step(s, e)) && s.clock <= Step(s, e).clock
    ensures Since(cfg, m, first, Step(s, e))
  {
    if e.Cas? && s.Thread(e.t).Sampled? {
      TakeSince(cfg, m, first, s, e);
    } else {
      var s' := Step(s, e);
      QuietStep(cfg, s, e);
      hide Sound, Fixed, Charged;
      assert SampledFrom(m, s');
    }
  }

  /** Only a CAS of a tryAcquire changes state or counts, when there are no updates. */
  lemma QuietStep(cfg: Config, s: Bucket, e: Event)
    requires Sound(s) && Fixed(cfg, s) && NoUpdate(e) && !(e.Cas? && s.Thread(e.t).Sampled?)
    requires Step(s, e).clock < U32
    ensures var s' := Step(s, e); s'.cell == s.cell && s'.granted == s.granted && s'.refills == s.refills
    ensures forall m :: SampledFrom(m, s) ==> SampledFrom(m, Step(s, e))
  {
  }

  lemma {:induction false} ExecSince(cfg: Config, m: nat, first: Bucket, s: Bucket, events: seq<Event>)
    requires cfg.Valid() && Since(cfg, m, first, s) && Conserved(cfg, s)
    requires (forall i | 0 <= i < |events| :: NoUpdate(events[i])) && Exec(s, events).clock < U32
    ensures Since(cfg, m, first, Exec(s, events))
    decreases |events|
  {
    hide Step, Conserved, Charged;
    if events != [] {
      ExecClock(Step(s, events[0]), events[1..]);
      StepSound(s, events[0]);
      StepConserves(cfg, s, events[0]);
      StepSince(cfg, m, first, s, events[0]);
      hide Since;
      ExecSince(cfg, m, first, Step(s, events[0]), events[1..]);
    }
  }

  /**
   * The rate bound of any window of any run: from a moment on, a full bucket, the rate for the time since the oldest
   * clock sample still in use, a millisecond's worth for each refill, and less than one token besides.
   */
  lemma WindowBound(cfg: Config, before: seq<Event>, window: seq<Event>, m: nat)
    requires cfg.Valid() && (forall i | 0 <= i < |before| :: NoUpdate(before[i]))
    requires forall i | 0 <= i < |window| :: NoUpdate(window[i])
    requires Exec(Exec(Initial(cfg), before), window).clock < U32
    requires SampledFrom(m, Exec(Initial(cfg), before))
    ensures var s := Exec(Initial(cfg), before);
            var s' := Exec(s, window);
            && s.granted <= s'.granted && s.refills <= s'.refills && m <= s'.clock
            && 1000 * (s'.granted - s.granted)
               < 1000 * (cfg.capacity + 1) + cfg.rate * (s'.clock - m + s'.refills - s.refills)
            && (Commensurable(cfg.rate) ==>
                  1000 * (s'.granted - s.granted) < 1000 * (cfg.capacity + 1) + cfg.rate * (s'.clock - m))
  {
    hide Exec, Since, Sound, Fixed, Conserved, SampledFrom, Commensurable;
    var s := Exec(Initial(cfg), before);
    var s' := Exec(s, window);
    ExecClock(s, window);
    InitialConserved(cfg);
    ExecConserves(cfg, Initial(cfg), before);
    SinceStart(cfg, m, s);
    ExecSince(cfg, m, s, s, window);
    SinceBound(cfg, m, s, s');
  }

  lemma SinceStart(cfg: Config, m: nat, s: Bucket)
    requires Sound(s) && Fixed(cfg, s) && SampledFrom(m, s)
    ensures Since(cfg, m, s, s)
  {
  }

  lemma SinceBound(cfg: Config, m: nat, first: Bucket, s: Bucket)
    requires Since(cfg, m, first, s)
    ensures first.granted <= s.granted && first.refills <= s.refills && m <= s.clock
    ensures 1000 * (s.granted - first.granted)
            < 1000 * (cfg.capacity + 1) + cfg.rate * (s.clock - m + s.refills - first.refills)
    ensures Commensurable(cfg.rate) ==>
              1000 * (s.granted - first.granted) < 1000 * (cfg.capacity + 1) + cfg.rate * (s.clock - m)
  {
    var g, k := s.granted - first.granted, s.refills - first.refills;
    assert s.cell.timestamp <= s.clock && m <= s.clock;
    hide Sound, Fixed, SampledFrom, Commensurable;
    var spare: nat := s.clock - s.cell.timestamp;
    Distribute(cfg.rate, s.clock - m + k, m);
    Distribute(cfg.rate, s.clock - m, m);
    Distribute(cfg.rate, s.cell.timestamp + k, spare);
    Distribute(cfg.rate, s.cell.timestamp, spare);
  }

  lemma InitialConserved(cfg: Config)
    requires cfg.Valid()
    ensures Sound(Initial(cfg)) && Fixed(cfg, Initial(cfg)) && Conserved(cfg, Initial(cfg))
  {
    assert cfg.rate * (0 + 0) == 0 && cfg.rate * 0 == 0;
  }

  /**
   * The oldest sample matters: a tryAcquire suspended between sampling the clock and its CAS lets a full bucket out
   * without settling the time since, so that a second full bucket follows it at once.
   */
  lemma StaleSampleBurst(cfg: Config) returns (before: seq<Event>, window: seq<Event>)
    requires cfg.Valid() && cfg.capacity > 0 && cfg.rate > 0 && 1000 * cfg.capacity < U32
    ensures forall i | 0 <= i < |before| :: NoUpdate(before[i])
    ensures forall i | 0 <= i < |window| :: NoUpdate(window[i])
    ensures var s := Exec(Initial(cfg), before);
            var s' := Exec(s, window);
            && s'.clock == s.clock < U32 && s'.granted - s.granted == 2 * cfg.capacity && s'.refills - s.refills == 1
            && (1000 * (s'.granted - s.granted)
                < 1000 * (cfg.capacity + 1) + cfg.rate * (s'.clock - s.clock + s'.refills - s.refills)
                <==> 1000 * (cfg.capacity - 1) < cfg.rate)
  {
    hide Step, Exec;
    var c := cfg.capacity;
    var begun := [Begin(0, c), LoadCell(0), Sample(0)];
    var taken := [Cas(0, false), Begin(1, c), LoadCell(1)];
    before, window := begun + [Tick(1000 * c)], taken + [Sample(1), Cas(1, false)];
    var s := Exec(Initial(cfg), begun);
    IdleAfterSample(cfg, begun);
    ExecConcat(Initial(cfg), begun, [Tick(1000 * c)]);
    ExecOne(s, Tick(1000 * c));
    var s1 := Step(s, Tick(1000 * c));
    TickOnly(s, 1000 * c);
    StaleTake(cfg, s1, taken);
    var s2 := Exec(s1, taken);
    ExecConcat(s1, taken, [Sample(1), Cas(1, false)]);
    FreshTake(cfg, s2);
    BurstArithmetic(c, cfg.rate, Exec(s1, window), s1);
  }

  lemma TickOnly(s: Bucket, ms: nat)
    ensures Step(s, Tick(ms)) == s.(clock := s.clock + ms)
  {
  }

  lemma BurstArithmetic(c: nat, rate: nat, after: Bucket, before: Bucket)
    requires c > 0 && after.clock == before.clock
    requires after.granted - before.granted == 2 * c && after.refills - before.refills == 1
    ensures 1000 * (after.granted - before.granted)
            < 1000 * (c + 1) + rate * (after.clock - before.clock + after.refills - before.refills)
            <==> 1000 * (c - 1) < rate
  {
    assert rate * (after.clock - before.clock + after.refills - before.refills) == rate * 1 == rate;
  }

  lemma IdleAfterSample(cfg: Config, begun: seq<Event>)
    requires cfg.capacity > 0 && begun == [Begin(0, cfg.capacity), LoadCell(0), Sample(0)]
    ensures var s := Exec(Initial(cfg), begun);
            && s.Thread(0) == Sampled(cfg, cfg.capacity, Cell(0, cfg.capacity), 0) && s.Thread(1) == Ready
            && s.cell == Cell(0, cfg.capacity) && s.config == cfg && s.clock == 0 && s.granted == 0 && s.refills == 0
  {
    ExecThree(Initial(cfg), begun);
    hide Exec;
  }

  lemma StaleTake(cfg: Config, s: Bucket, taken: seq<Event>)
    requires cfg.capacity > 0 && taken == [Cas(0, false), Begin(1, cfg.capacity), LoadCell(1)]
    requires s.Thread(0) == Sampled(cfg, cfg.capacity, Cell(0, cfg.capacity), 0) && s.Thread(1) == Ready
    requires s.cell == Cell(0, cfg.capacity) && s.config == cfg
    ensures var s' := Exec(s, taken);
            && s'.Thread(1) == Holding(cfg, cfg.capacity, Cell(0, 0)) && s'.cell == Cell(0, 0)
            && s'.clock == s.clock && s'.granted == s.granted + cfg.capacity && s'.refills == s.refills
  {
    ExecThree(s, taken);
    hide Exec;
    assert Elapsed(Cell(0, cfg.capacity), 0) == 0 && Produced(0, cfg.rate) == 0;
    assert Settle(cfg, Cell(0, cfg.capacity), 0) == Cell(0, cfg.capacity);
    hide Settle, Produced, Elapsed;
  }

  lemma FreshTake(cfg: Config, s: Bucket)
    requires cfg.capacity > 0 && cfg.rate > 0 && s.clock == 1000 * cfg.capacity < U32
    requires s.Thread(1) == Holding(cfg, cfg.capacity, Cell(0, 0)) && s.cell == Cell(0, 0)
    ensures var s' := Exec(s, [Sample(1), Cas(1, false)]);
            s'.clock == s.clock && s'.granted == s.granted + cfg.capacity && s'.refills == s.refills + 1
  {
    hide Settle, Refill;
    var s1 := Step(s, Sample(1));
    assert [Sample(1), Cas(1, false)][1..] == [Cas(1, false)];
    ExecOne(s1, Cas(1, false));
    assert s1.Thread(1) == Sampled(cfg, cfg.capacity, Cell(0, 0), s.clock);
    FullAfter(cfg, s.clock);
  }

  lemma FullAfter(cfg: Config, now: nat)
    requires cfg.capacity > 0 && cfg.rate > 0 && now == 1000 * cfg.capacity < U32
    ensures Settle(cfg, Cell(0, 0), now).tokens == cfg.capacity && Refill(cfg, Cell(0, 0), now) == 1
  {
    assert Elapsed(Cell(0, 0), now) == now;
    assert now * cfg.rate == cfg.capacity * cfg.rate * 1000;
    DivExact(cfg.capacity * cfg.rate, 1000);
    MulMono(1, cfg.rate, cfg.capacity);
    assert Produced(now, cfg.rate) >= cfg.capacity;
    hide Produced, Elapsed;
  }

  // ----- When the bucket keeps its nominal rate -----

  /** What a rate limiter promises: at most the capacity plus the rate times the time passed. */
  ghost predicate WithinRate(cfg: Config, s: Bucket) {
    1000 * s.granted <= 1000 * cfg.capacity + cfg.rate * s.clock
  }

  ghost predicate KeepsRate(cfg: Config) {
    forall events: seq<Event> ::
      (forall i | 0 <= i < |events| :: NoUpdate(events[i])) && Exec(Initial(cfg), events).clock < U32
      ==> WithinRate(cfg, Exec(Initial(cfg), events))
  }

  /** The bucket keeps its nominal rate in all runs exactly for rates that divide, or are divided by, 1000. */
  lemma KeepsRateIffCommensurable(cfg: Config)
    requires cfg.Valid()
    ensures KeepsRate(cfg) <==> cfg.capacity == 0 || cfg.rate == 0 || Commensurable(cfg.rate)
  {
    if cfg.capacity == 0 || cfg.rate == 0 || Commensurable(cfg.rate) {
      forall events: seq<Event> |
        (forall i | 0 <= i < |events| :: NoUpdate(events[i])) && Exec(Initial(cfg), events).clock < U32
        ensures WithinRate(cfg, Exec(Initial(cfg), events))
      {
        StaysWithinRate(cfg, events);
      }
    } else {
      var events := Overdraw(cfg);
      assert !WithinRate(cfg, Exec(Initial(cfg), events));
    }
  }

  lemma StaysWithinRate(cfg: Config, events: seq<Event>)
    requires cfg.Valid() && (cfg.capacity == 0 || cfg.rate == 0 || Commensurable(cfg.rate))
    requires (forall i | 0 <= i < |events| :: NoUpdate(events[i])) && Exec(Initial(cfg), events).clock < U32
    ensures WithinRate(cfg, Exec(Initial(cfg), events))
  {
    var s := Exec(Initial(cfg), events);
    RateBound(cfg, events);
    if cfg.rate == 0 {
      assert cfg.rate * (s.cell.timestamp + s.refills) == 0;
    } else if cfg.capacity == 0 {
      NothingGranted(cfg, Initial(cfg), events);
    } else {
      MulMono(s.cell.timestamp, s.clock, cfg.rate);
    }
  }

  lemma {:induction false} NothingGranted(cfg: Config, s: Bucket, events: seq<Event>)
    requires cfg.capacity == 0 && s.config == cfg && s.granted == 0 && s.threads == map[]
    requires forall i | 0 <= i < |events| :: NoUpdate(events[i])
    ensures Exec(s, events).granted == 0
    decreases |events|
  {
    if events != [] {
      assert NoUpdate(events[0]);
      NothingGranted(cfg, Step(s, events[0]), events[1..]);
    }
  }

  lemma {:induction false} ExecConcat(s: Bucket, a: seq<Event>, b: seq<Event>)
    ensures Exec(s, a + b) == Exec(Exec(s, a), b)
    decreases |a|
  {
    hide Step;
    if a == [] {
      assert a + b == b;
    } else {
      assert (a + b)[1..] == a[1..] + b;
      ExecConcat(Step(s, a[0]), a[1..], b);
    }
  }

  /** One undisturbed tryAcquire(1) by thread 0. */
  const ACQUIRE_ONE: seq<Event> := [Begin(0, 1), LoadCell(0), Sample(0), Cas(0, false)]

  lemma RunAcquireOne(s: Bucket)
    requires s.Thread(0).Ready? && s.config.capacity >= 1 && s.clock < U32
    requires Settle(s.config, s.cell, s.clock).tokens >= 1
    ensures var s', next := Exec(s, ACQUIRE_ONE), Settle(s.config, s.cell, s.clock);
            && s'.cell == Cell(next.timestamp, next.tokens - 1) && s'.granted == s.granted + 1
            && s'.config == s.config && s'.clock == s.clock && s'.Thread(0).Ready?
  {
    hide Exec, Settle, Refill;
    var three := [Begin(0, 1), LoadCell(0), Sample(0)];
    assert ACQUIRE_ONE == three + [Cas(0, false)];
    ExecConcat(s, three, [Cas(0, false)]);
    ExecThree(s, three);
    ExecOne(Exec(s, three), Cas(0, false));
  }

  /** A single thread takes the whole capacity at time 0. */
  lemma {:induction false} DrainAll(cfg: Config, n: nat) returns (events: seq<Event>)
    requires cfg.Valid() && n <= cfg.capacity
    ensures forall i | 0 <= i < |events| :: NoUpdate(events[i])
    ensures var s := Exec(Initial(cfg), events);
            && s.config == cfg && s.Thread(0).Ready? && s.clock == 0
            && s.cell == Cell(0, cfg.capacity - n) && s.granted == n
  {
    if n == 0 {
      events := [];
    } else {
      var before := DrainAll(cfg, n - 1);
      events := before + ACQUIRE_ONE;
      ExecConcat(Initial(cfg), before, ACQUIRE_ONE);
      var s := Exec(Initial(cfg), before);
      assert Settle(cfg, s.cell, 0) == s.cell;
      RunAcquireOne(s);
    }
  }

  /** Waiting one millisecond more than a token settles for gains a token and keeps the millisecond. */
  lemma RoundArithmetic(rate: nat)
    requires rate > 0 && !Commensurable(rate)
    ensures var step := 1000 / rate;
            && Produced(step + 1, rate) >= 1 && Settled(Produced(step + 1, rate), rate) == step
            && rate * step < 1000
  {
    DivBounds(1000, rate);
    if rate > 1000 {
      FastRound(rate);
    } else {
      SlowRound(rate);
    }
  }

  lemma FastRound(rate: nat)
    requires rate > 1000 && rate % 1000 != 0
    ensures 1000 / rate == 0 && Produced(1, rate) >= 1 && Settled(Produced(1, rate), rate) == 0
  {
    QuotientIs(1000, rate, 0);
    DivBounds(rate, 1000);
    var p := Produced(1, rate);
    assert p == rate / 1000 && p * 1000 < rate;
    QuotientIs(p * 1000, rate, 0);
  }

  lemma SlowRound(rate: nat)
    requires 0 < rate <= 1000
    ensures var step := 1000 / rate;
            Produced(step + 1, rate) >= 1 && (Produced(step + 1, rate) == 1 || rate == 1000)
  {
    var step := 1000 / rate;
    DivBounds(1000, rate);
    assert (step + 1) * rate == step * rate + rate;
    assert 1000 <= (step + 1) * rate;
    assert rate < 1000 ==> (step + 1) * rate < 2 * 1000;
  }

  lemma QuotientIs(n: nat, d: nat, q: nat)
    requires q * d <= n < q * d + d
    ensures n / d == q
  {
    DivBounds(n, d);
    var k := n / d;
    assert (q + 1) * d == q * d + d && (k + 1) * d == k * d + d;
    Cancel(q, k + 1, d);
    Cancel(k, q + 1, d);
  }

  /** Ready for another round: the unsettled millisecond is still there. */
  ghost predicate Poised(cfg: Config, s: Bucket) {
    s.config == cfg && s.Thread(0).Ready? && s.clock == s.cell.timestamp + 1
  }

  lemma {:induction false} Rounds(cfg: Config, start: seq<Event>, step: nat, n: nat) returns (events: seq<Event>)
    requires cfg.Valid() && cfg.capacity > 0 && cfg.rate > 0 && !Commensurable(cfg.rate)
    requires (forall i | 0 <= i < |start| :: NoUpdate(start[i])) && step == 1000 / cfg.rate
    requires Poised(cfg, Exec(Initial(cfg), start)) && Exec(Initial(cfg), start).clock + step * n < U32
    ensures forall i | 0 <= i < |events| :: NoUpdate(events[i])
    ensures var s, s' := Exec(Initial(cfg), start), Exec(Initial(cfg), events);
            Poised(cfg, s') && s'.clock == s.clock + step * n && s'.granted == s.granted + n
    decreases n
  {
    hide Exec, Commensurable;
    if n == 0 {
      events := start;
    } else {
      Distribute(step, n - 1, 1);
      var before := Rounds(cfg, start, step, n - 1);
      var round := [Tick(step)] + ACQUIRE_ONE;
      assert forall i | 0 <= i < |round| :: NoUpdate(round[i]);
      ExecConcat(Initial(cfg), before, round);
      RunRound(cfg, Exec(Initial(cfg), before), step);
      events := before + round;
    }
  }

  lemma RunRound(cfg: Config, s: Bucket, step: nat)
    requires cfg.Valid() && cfg.capacity > 0 && cfg.rate > 0 && !Commensurable(cfg.rate)
    requires Poised(cfg, s) && step == 1000 / cfg.rate && s.clock + step < U32
    ensures var s' := Exec(s, [Tick(step)] + ACQUIRE_ONE);
            Poised(cfg, s') && s'.clock == s.clock + step && s'.granted == s.granted + 1
  {
    var ticked := Step(s, Tick(step));
    RoundArithmetic(cfg.rate);
    assert Elapsed(ticked.cell, ticked.clock) == step + 1;
    assert Settle(cfg, ticked.cell, ticked.clock).timestamp == s.cell.timestamp + step;
    RunAcquireOne(ticked);
    var round := [Tick(step)] + ACQUIRE_ONE;
    assert round[0] == Tick(step) && round[1..] == ACQUIRE_ONE;
  }

  /** For any other rate, one thread acting alone gets more than the nominal rate allows. */
  lemma Overdraw(cfg: Config) returns (events: seq<Event>)
    requires cfg.Valid() && cfg.capacity > 0 && cfg.rate > 0 && !Commensurable(cfg.rate)
    ensures (forall i | 0 <= i < |events| :: NoUpdate(events[i])) && Exec(Initial(cfg), events).clock < U32
    ensures !WithinRate(cfg, Exec(Initial(cfg), events))
  {
    var drained := DrainAll(cfg, cfg.capacity);
    var start := drained + [Tick(1)];
    ExecConcat(Initial(cfg), drained, [Tick(1)]);
    assert [Tick(1)][1..] == [];
    var n, step := cfg.rate + 1, 1000 / cfg.rate;
    RoundArithmetic(cfg.rate);
    Distribute(step, cfg.rate, 1);
    DivBounds(1000, cfg.rate);
    events := Rounds(cfg, start, step, n);
    OverdrawArithmetic(cfg.rate, step, n);
  }

  lemma OverdrawArithmetic(rate: nat, step: nat, n: nat)
    requires rate * step < 1000 && n == rate + 1
    ensures rate * (1 + step * n) < 1000 * n
  {
    assert rate * (1 + step * n) == rate + n * (rate * step);
    MulMono(rate * step, 1000 - 1, n);
  }

  /** Seen by one thread alone, what the bucket reports as available is exactly what it will grant. */
  lemma AvailableIsGranted(cfg: Config, cell: Cell, now: nat, need: nat)
    requires cell.tokens <= cfg.capacity && 0 < need
    ensures need <= cfg.capacity && Settle(cfg, cell, now).tokens >= need <==> need <= Available(cfg, cell, now)
  {
    hide Produced, Settled;
  }

  // ----- When an update keeps the bucket within the capacity now in force -----

  ghost predicate UpdatesTo(new_: Config, e: Event) {
    e.Lock? ==> e.new_ == new_
  }

  ghost predicate WithinCapacity(s: Bucket) {
    s.cell.tokens <= s.config.capacity
  }

  ghost predicate UpdateKeepsCapacity(cfg: Config, new_: Config) {
    forall events: seq<Event> ::
      (forall i | 0 <= i < |events| :: UpdatesTo(new_, events[i])) && Exec(Initial(cfg), events).clock < U32
      ==> WithinCapacity(Exec(Initial(cfg), events))
  }

  /**
   * A tryAcquire that began before an update may settle under the old configuration after it, so lowering the
   * capacity by more than one can leave the bucket overfilled. For any other update it never is.
   */
  lemma UpdateKeepsCapacityIff(cfg: Config, new_: Config)
    requires cfg.Valid() && new_.Valid()
    ensures UpdateKeepsCapacity(cfg, new_) <==> cfg.capacity <= new_.capacity + 1 || cfg.rate == 0
  {
    if cfg.capacity <= new_.capacity + 1 || cfg.rate == 0 {
      forall events: seq<Event> |
        (forall i | 0 <= i < |events| :: UpdatesTo(new_, events[i])) && Exec(Initial(cfg), events).clock < U32
        ensures WithinCapacity(Exec(Initial(cfg), events))
      {
        ExecCapped(cfg, new_, Initial(cfg), events);
      }
    } else {
      var events := Overfill(cfg, new_);
      assert !WithinCapacity(Exec(Initial(cfg), events));
    }
  }

  ghost predicate CappedThread(cfg: Config, new_: Config, s: Bucket, th: Thread) {
    && (th.Loaded? || th.Holding? || th.Sampled? ==> th.need > 0 && (th.cfg == s.config || th.cfg == cfg))
    && (th.Updating? || th.UpdateHolding? || th.UpdateSampled? ==>
          th.new_ == new_ && (s.config == new_ || th.old_ == s.config))
    && (th.Storing? ==> th.new_ == new_ && s.cell.tokens <= new_.capacity)
  }

  ghost predicate Capped(cfg: Config, new_: Config, s: Bucket) {
    && (s.config == cfg || s.config == new_) && WithinCapacity(s)
    && forall t :: t in s.threads ==> CappedThread(cfg, new_, s, s.threads[t])
  }

  lemma SettleCapped(cfg: Config, cur: Cell, now: nat)
    ensures var n := Settle(cfg, cur, now).tokens;
            n == cur.tokens || (n <= cfg.capacity && cfg.rate > 0)
  {
  }

  /** Replacing the state and moving one thread on keeps the caps, if both fit. */
  lemma PutCapped(cfg: Config, new_: Config, s: Bucket, t: nat, th: Thread, s': Bucket)
    requires Capped(cfg, new_, s) && s'.config == s.config && s'.threads == s.threads[t := th]
    requires WithinCapacity(s') && (s'.cell.tokens <= s.cell.tokens || s'.cell.tokens <= new_.capacity)
    requires CappedThread(cfg, new_, s', th)
    ensures Capped(cfg, new_, s')
  {
  }

  lemma TakeCapped(cfg: Config, new_: Config, s: Bucket, t: nat)
    requires cfg.capacity <= new_.capacity + 1 || cfg.rate == 0
    requires Capped(cfg, new_, s) && s.Thread(t).Sampled?
    ensures forall spurious :: Capped(cfg, new_, Step(s, Cas(t, spurious)))
  {
    var th := s.Thread(t);
    SettleCapped(th.cfg, th.cur, th.now);
    assert CappedThread(cfg, new_, s, th);
    forall spurious ensures Capped(cfg, new_, Step(s, Cas(t, spurious))) {
      hide Settle, Produced, Capped;
      var s' := Step(s, Cas(t, spurious));
      PutCapped(cfg, new_, s, t, s'.Thread(t), s');
    }
  }

  lemma CasCapped(cfg: Config, new_: Config, s: Bucket, e: Event)
    requires cfg.capacity <= new_.capacity + 1 || cfg.rate == 0
    requires Capped(cfg, new_, s) && e.Cas?
    ensures Capped(cfg, new_, Step(s, e))
  {
    var th, s' := s.Thread(e.t), Step(s, e);
    if th.Sampled? {
      TakeCapped(cfg, new_, s, e.t);
    } else if th.UpdateSampled? {
      assert CappedThread(cfg, new_, s, th);
      hide Capped, Produced;
      PutCapped(cfg, new_, s, e.t, s'.Thread(e.t), s');
    }
  }

  lemma StepCapped(cfg: Config, new_: Config, s: Bucket, e: Event)
    requires cfg.capacity <= new_.capacity + 1 || cfg.rate == 0
    requires Capped(cfg, new_, s) && UpdatesTo(new_, e)
    ensures Capped(cfg, new_, Step(s, e))
  {
    hide TryTake, SettleForUpdate;
    if e.Cas? {
      CasCapped(cfg, new_, s, e);
    }
  }

  lemma {:induction false} ExecCapped(cfg: Config, new_: Config, s: Bucket, events: seq<Event>)
    requires cfg.capacity <= new_.capacity + 1 || cfg.rate == 0
    requires Capped(cfg, new_, s) && (forall i | 0 <= i < |events| :: UpdatesTo(new_, events[i]))
    ensures Capped(cfg, new_, Exec(s, events))
    decreases |events|
  {
    hide Step, Capped;
    if events != [] {
      StepCapped(cfg, new_, s, events[0]);
      ExecCapped(cfg, new_, Step(s, events[0]), events[1..]);
    }
  }

  /** The update happens while a tryAcquire has loaded the old configuration but not yet the state. */
  lemma Overfill(cfg: Config, new_: Config) returns (events: seq<Event>)
    requires cfg.Valid() && new_.Valid() && cfg.capacity > new_.capacity + 1 && cfg.rate > 0
    ensures forall i | 0 <= i < |events| :: UpdatesTo(new_, events[i])
    ensures Exec(Initial(cfg), events).clock < U32 && !WithinCapacity(Exec(Initial(cfg), events))
  {
    var begun := [Begin(0, 1), Lock(1, new_), LoadCell(1)];
    var updated := [Sample(1), Cas(1, false), Store(1)];
    var taken := [Tick(2 * 1000), LoadCell(0), Sample(0)];
    events := begun + (updated + (taken + [Cas(0, false)]));
    var s := Initial(cfg);
    var s1 := Exec(s, begun);
    var s2 := Exec(s1, updated);
    var s3 := Exec(s2, taken);
    UpdateOverlaps(cfg, new_, begun);
    UpdateCompletes(cfg, new_, s1, updated);
    StaleAcquire(cfg, new_, s2, taken);
    StaleSettlement(cfg, new_, s3);
    ExecConcat(s, begun, updated + (taken + [Cas(0, false)]));
    ExecConcat(s1, updated, taken + [Cas(0, false)]);
    ExecConcat(s2, taken, [Cas(0, false)]);
    ExecOne(s3, Cas(0, false));
  }

  lemma UpdateOverlaps(cfg: Config, new_: Config, begun: seq<Event>)
    requires cfg.capacity >= 1 && begun == [Begin(0, 1), Lock(1, new_), LoadCell(1)]
    ensures var s := Exec(Initial(cfg), begun);
            && s.Thread(0) == Loaded(cfg, 1) && s.Thread(1) == UpdateHolding(cfg, new_, Cell(0, cfg.capacity))
            && s.cell == Cell(0, cfg.capacity) && s.clock == 0 && s.config == cfg
  {
    ExecThree(Initial(cfg), begun);
    hide Exec;
  }

  lemma UpdateCompletes(cfg: Config, new_: Config, s: Bucket, updated: seq<Event>)
    requires s.Thread(0) == Loaded(cfg, 1) && s.Thread(1) == UpdateHolding(cfg, new_, Cell(0, cfg.capacity))
    requires s.cell == Cell(0, cfg.capacity) && s.clock == 0 && cfg.capacity > new_.capacity
    requires updated == [Sample(1), Cas(1, false), Store(1)]
    ensures var s' := Exec(s, updated);
            && s'.Thread(0) == Loaded(cfg, 1) && s'.cell == Cell(0, new_.capacity)
            && s'.clock == 0 && s'.config == new_
  {
    ExecThree(s, updated);
    hide Exec;
    assert Produced(0, cfg.rate) == 0;
  }

  lemma StaleAcquire(cfg: Config, new_: Config, s: Bucket, taken: seq<Event>)
    requires s.Thread(0) == Loaded(cfg, 1) && s.cell == Cell(0, new_.capacity) && s.clock == 0 && s.config == new_
    requires taken == [Tick(2 * 1000), LoadCell(0), Sample(0)]
    ensures var s' := Exec(s, taken);
            && s'.Thread(0) == Sampled(cfg, 1, Cell(0, new_.capacity), 2 * 1000)
            && s'.cell == Cell(0, new_.capacity) && s'.clock == 2 * 1000 && s'.config == new_
  {
    ExecThree(s, taken);
    hide Exec;
  }

  lemma StaleSettlement(cfg: Config, new_: Config, s: Bucket)
    requires cfg.capacity > new_.capacity + 1 && cfg.rate > 0
    requires s.Thread(0) == Sampled(cfg, 1, Cell(0, new_.capacity), 2 * 1000)
    requires s.cell == Cell(0, new_.capacity) && s.clock == 2 * 1000 && s.config == new_
    ensures var s' := Step(s, Cas(0, false)); !WithinCapacity(s') && s'.clock == s.clock
  {
    assert Elapsed(Cell(0, new_.capacity), 2 * 1000) == 2 * 1000;
    assert Produced(2 * 1000, cfg.rate) == 2 * cfg.rate;
    assert Settle(cfg, Cell(0, new_.capacity), 2 * 1000).tokens >= new_.capacity + 2;
    hide Settle;
  }

  lemma ExecThree(s: Bucket, events: seq<Event>)
    requires |events| == 3
    ensures Exec(s, events) == Step(Step(Step(s, events[0]), events[1]), events[2])
  {
    hide Step;
    assert events == [events[0]] + ([events[1]] + [events[2]]);
    ExecConcat(s, [events[0]], [events[1]] + [events[2]]);
    ExecConcat(Step(s, events[0]), [events[1]], [events[2]]);
    ExecOne(s, events[0]);
    ExecOne(Step(s, events[0]), events[1]);
    ExecOne(Step(Step(s, events[0]), events[1]), events[2]);
  }

  lemma ExecOne(s: Bucket, e: Event)
    ensures Exec(s, [e]) == Step(s, e)
  {
    assert [e][1..] == [];
  }
}
