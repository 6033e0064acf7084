/** The bucket's retry loops as they run in one thread, whatever other threads do between their atomic operations. */
module TokenBucketLoops {
  import opened Bytes
  import opened TokenBucket

  /** What one round meets: the clock it samples, the state its CAS finds, and whether that fails spuriously. */
  datatype Round = Round(now: nat, seen: Cell, spurious: bool)

  /** `Free` takes nothing; `Took` replaced the state; `Trying` is still in the loop with the state it last saw. */
  datatype Ending = Free | Refused | Took(cell: Cell) | Trying(cur: Cell)

  /** The fields are 32 bits wide. */
  ghost predicate Word(c: Cell) {
    c.timestamp < U32 && c.tokens < U32
  }

  ghost predicate Words(rounds: seq<Round>) {
    forall i | 0 <= i < |rounds| :: rounds[i].now < U32 && Word(rounds[i].seen)
  }

  /** The loop of tryAcquire, entered with the state `cur`. */
  function Attempt(cfg: Config, need: nat, cur: Cell, rounds: seq<Round>): Ending
    decreases |rounds|
  {
    if rounds == [] then Trying(cur) else
    var next := Settle(cfg, cur, rounds[0].now);
    if next.tokens < need then Refused
    else if rounds[0].seen == cur && !rounds[0].spurious then Took(Cell(next.timestamp, next.tokens - need))
    else Attempt(cfg, need, rounds[0].seen, rounds[1..])
  }

  /** The loop of update. */
  function Reconfigure(old_: Config, new_: Config, cur: Cell, rounds: seq<Round>): Ending
    decreases |rounds|
  {
    if rounds == [] then Trying(cur)
    else if rounds[0].seen == cur && !rounds[0].spurious then Took(SettleForUpdate(old_, new_, cur, rounds[0].now))
    else Reconfigure(old_, new_, rounds[0].seen, rounds[1..])
  }

  /** The 64-bit product of a 32-bit time and a 32-bit rate does not wrap. */
  lemma NoOverflow(elapsed: nat, rate: nat)
    requires elapsed < U32 && rate < U32
    ensures Wrap64(elapsed * rate) / 1000 == Produced(elapsed, rate)
    ensures Wrap64(Produced(elapsed, rate) * 1000) == Produced(elapsed, rate) * 1000
    ensures Produced(elapsed, rate) > 0 ==> rate > 0
  {
    MulMono(elapsed, U32 - 1, rate);
    MulMono(rate, U32 - 1, U32 - 1);
    DivBounds(elapsed * rate, 1000);
  }

  /** tryAcquire's settlement in 32- and 64-bit arithmetic. */
  method SettleNow(cfg: Config, cur: Cell, now: nat) returns (tokens: nat, ts: nat)
    requires cfg.Valid() && Word(cur) && now < U32
    ensures Cell(ts, tokens) == Settle(cfg, cur, now)
  {
    NoOverflow(Elapsed(cur, now), cfg.rate);
    hide Produced;
    tokens, ts := cur.tokens, cur.timestamp;
    var produced := Wrap64(Wrap32(now - ts) * cfg.rate) / 1000;
    if produced > 0 {
      var total := tokens + produced;
      tokens := if total >= cfg.capacity then cfg.capacity else total;
      ts := Wrap32(ts + Wrap32(Wrap64(produced * 1000) / cfg.rate));
    }
  }

  method TryAcquire(cfg: Config, state: Cell, need: nat, rounds: seq<Round>) returns (e: Ending)
    requires cfg.Valid() && Word(state) && Words(rounds)
    ensures e == if need == 0 then Free else if need > cfg.capacity then Refused else Attempt(cfg, need, state, rounds)
  {
    hide Settle;
    if need == 0 {
      return Free;
    }
    if need > cfg.capacity {
      return Refused;
    }
    var cur, i := state, 0;
    assert rounds[0..] == rounds;
    while i < |rounds|
      invariant i <= |rounds| && Word(cur)
      invariant Attempt(cfg, need, state, rounds) == Attempt(cfg, need, cur, rounds[i..])
    {
      assert rounds[i..][1..] == rounds[i + 1..];
      var tokens, ts := SettleNow(cfg, cur, rounds[i].now);
      if tokens < need {
        return Refused;
      }
      if rounds[i].seen == cur && !rounds[i].spurious {
        return Took(Cell(ts, tokens - need));
      }
      cur, i := rounds[i].seen, i + 1;
    }
    return Trying(cur);
  }

  method Update(oldCfg: Config, newCfg: Config, state: Cell, rounds: seq<Round>) returns (e: Ending)
    requires oldCfg.Valid() && newCfg.Valid() && Word(state) && Words(rounds)
    ensures e == Reconfigure(oldCfg, newCfg, state, rounds)
  {
    var cur, i := state, 0;
    assert rounds[0..] == rounds;
    while i < |rounds|
      invariant i <= |rounds| && Word(cur)
      invariant Reconfigure(oldCfg, newCfg, state, rounds) == Reconfigure(oldCfg, newCfg, cur, rounds[i..])
    {
      assert rounds[i..][1..] == rounds[i + 1..];
      var now := rounds[i].now;
      NoOverflow(Elapsed(cur, now), oldCfg.rate);
      var produced := Wrap64(Wrap32(now - cur.timestamp) * oldCfg.rate) / 1000;
      assert produced == Produced(Elapsed(cur, now), oldCfg.rate);
      hide Produced;
      var total := cur.tokens + produced;
      if total > oldCfg.capacity {
        total := oldCfg.capacity;
      }
      if total > newCfg.capacity {
        total := newCfg.capacity;
      }
      if rounds[i].seen == cur && !rounds[i].spurious {
        return Took(Cell(now, total));
      }
      cur, i := rounds[i].seen, i + 1;
    }
    return Trying(cur);
  }

  method AvailableTokens(cfg: Config, cur: Cell, now: nat) returns (n: nat)
    requires cfg.Valid() && Word(cur) && now < U32
    ensures n == Available(cfg, cur, now)
  {
    NoOverflow(Elapsed(cur, now), cfg.rate);
    var total := cur.tokens + Wrap64(Wrap32(now - cur.timestamp) * cfg.rate) / 1000;
    n := if total >= cfg.capacity then cfg.capacity else total;
  }

  // ----- The loops are the machine's -----

  /** Between a thread's two steps anything may happen that leaves that thread where it is. */
  ghost predicate Meanwhile(s: Bucket, s': Bucket, t: nat) {
    s'.Thread(t) == s.Thread(t)
  }

  /** Where the machine stands when a thread's loop has come to `e`: what it took, and what that thread does next. */
  ghost predicate Reached(before: Bucket, after: Bucket, t: nat, e: Ending, again: Cell -> Thread, done: Thread,
                          need: nat)
  {
    match e
    case Free => false
    case Refused => after.Thread(t) == Ready && after.cell == before.cell && after.granted == before.granted
    case Took(c) => after.Thread(t) == done && after.cell == c && after.granted == before.granted + need
    case Trying(c) => after.Thread(t) == again(c) && after.cell == before.cell && after.granted == before.granted
  }

  /** A round of tryAcquire, with any interference between sampling the clock and the CAS. */
  lemma AttemptIsSteps(s: Bucket, s': Bucket, t: nat, spurious: bool, cfg: Config, need: nat, cur: Cell)
    requires s.Thread(t) == Holding(cfg, need, cur) && Meanwhile(Step(s, Sample(t)), s', t)
    ensures Reached(s', Step(s', Cas(t, spurious)), t,
                    Attempt(cfg, need, cur, [Round(Wrap32(s.clock), s'.cell, spurious)]),
                    c => Holding(cfg, need, c), Ready, need)
  {
    hide Settle;
    var now := Wrap32(s.clock);
    assert s'.Thread(t) == Sampled(cfg, need, cur, now);
    assert [Round(now, s'.cell, spurious)][1..] == [];
  }

  /** A round of update. */
  lemma ReconfigureIsSteps(s: Bucket, s': Bucket, t: nat, spurious: bool, old_: Config, new_: Config, cur: Cell)
    requires s.Thread(t) == UpdateHolding(old_, new_, cur) && Meanwhile(Step(s, Sample(t)), s', t)
    ensures Reached(s', Step(s', Cas(t, spurious)), t,
                    Reconfigure(old_, new_, cur, [Round(Wrap32(s.clock), s'.cell, spurious)]),
                    c => UpdateHolding(old_, new_, c), Storing(new_), 0)
  {
    hide SettleForUpdate;
    var now := Wrap32(s.clock);
    assert s'.Thread(t) == UpdateSampled(old_, new_, cur, now);
    assert [Round(now, s'.cell, spurious)][1..] == [];
  }

  /** A loop that survived its first rounds goes on from the state they left it with. */
  lemma {:induction false} AttemptContinues(cfg: Config, need: nat, cur: Cell, a: seq<Round>, b: seq<Round>)
    ensures var e := Attempt(cfg, need, cur, a);
            Attempt(cfg, need, cur, a + b) == if e.Trying? then Attempt(cfg, need, e.cur, b) else e
    decreases |a|
  {
    if a == [] {
      assert a + b == b;
    } else {
      assert (a + b)[1..] == a[1..] + b;
      AttemptContinues(cfg, need, a[0].seen, a[1..], b);
    }
  }
}
