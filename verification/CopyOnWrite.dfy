/**
 * Copy-on-write publication behind a shared pointer: readers copy the pointer under the mutex and read without it,
 * writers clone the object first if anyone else holds it.
 */
module CopyOnWrite {

  /** A writer between its steps; it holds the mutex in every phase but `Idle`. */
  datatype Writer<C> = Idle | Locked(change: C) | Cloning(change: C) | Editing(change: C)

  /**
   * `heap` holds the objects, `current` is the published pointer, `readers` the pointers readers hold, `history` all
   * changes committed so far and `since` how many there were when a reader took its pointer.
   */
  datatype Store<V, C> = Store(heap: map<nat, V>, current: nat, readers: map<nat, nat>, writer: Writer<C>,
                               history: seq<C>, since: map<nat, nat>)

  /** `Lock` to `Commit` change the object in place or in a clone; `Replace` publishes a new object outright. */
  datatype Event<C> =
    | Acquire(reader: nat)
    | Release(reader: nat)
    | Lock(change: C)
    | Check
    | Clone(fresh_: nat)
    | Commit
    | Replace(change: C, fresh_: nat)

  function Initial<V, C>(v: V): Store<V, C> {
    Store(map[0 := v], 0, map[], Idle, [], map[])
  }

  /** use_count() > 1 */
  ghost predicate Shared<V, C>(s: Store<V, C>) {
    exists r :: r in s.readers && s.readers[r] == s.current
  }

  /** One step; an event that is not enabled changes nothing. */
  ghost function Step<V, C>(apply: (C, V) -> V, s: Store<V, C>, e: Event<C>): Store<V, C>
    requires s.current in s.heap
  {
    match e
    case Acquire(r) =>
      if s.writer.Idle? && r !in s.readers then
        s.(readers := s.readers[r := s.current], since := s.since[r := |s.history|])
      else s
    case Release(r) => s.(readers := s.readers - {r}, since := s.since - {r})
    case Lock(change) => if s.writer.Idle? then s.(writer := Locked(change)) else s
    case Check =>
      if s.writer.Locked? then
        s.(writer := if Shared(s) then Cloning(s.writer.change) else Editing(s.writer.change))
      else s
    case Clone(f) =>
      if s.writer.Cloning? && f !in s.heap then
        s.(heap := s.heap[f := s.heap[s.current]], current := f, writer := Editing(s.writer.change))
      else s
    case Commit =>
      if s.writer.Editing? then
        s.(heap := s.heap[s.current := apply(s.writer.change, s.heap[s.current])], writer := Idle,
           history := s.history + [s.writer.change])
      else s
    case Replace(change, f) =>
      if s.writer.Idle? && f !in s.heap then
        s.(heap := s.heap[f := apply(change, s.heap[s.current])], current := f, history := s.history + [change])
      else s
  }

  /** The value a history of changes makes of `v`. */
  function Version<V, C>(apply: (C, V) -> V, v: V, history: seq<C>): V {
    if history == [] then v else
    apply(history[|history| - 1], Version(apply, v, history[..|history| - 1]))
  }

  lemma VersionSnoc<V, C>(apply: (C, V) -> V, v: V, history: seq<C>, change: C)
    ensures Version(apply, v, history + [change]) == apply(change, Version(apply, v, history))
    ensures forall n :: 0 <= n <= |history| ==> (history + [change])[..n] == history[..n]
  {
    assert (history + [change])[..|history|] == history;
  }

  /** What the reader sees is what the first `since` changes made. */
  ghost predicate Sees<V, C>(apply: (C, V) -> V, v: V, s: Store<V, C>, r: nat) {
    && r in s.readers && r in s.since && s.readers[r] in s.heap && s.since[r] <= |s.history|
    && s.heap[s.readers[r]] == Version(apply, v, s.history[..s.since[r]])
  }

  /**
   * The published object is what the history makes of `v`, each reader still sees the version it acquired, and an
   * object under edit is nobody else's.
   */
  ghost predicate Isolated<V, C>(apply: (C, V) -> V, v: V, s: Store<V, C>) {
    && s.current in s.heap && s.heap[s.current] == Version(apply, v, s.history)
    && s.since.Keys == s.readers.Keys
    && (forall r :: r in s.readers ==> Sees(apply, v, s, r))
    && (s.writer.Editing? ==> !Shared(s))
  }

  /** A commit in place: nobody else holds the object, and the earlier versions stay as they were. */
  lemma CommitIsolated<V, C>(apply: (C, V) -> V, v: V, s: Store<V, C>)
    requires Isolated(apply, v, s) && s.writer.Editing?
    ensures Isolated(apply, v, Step(apply, s, Commit))
  {
    var t := Step(apply, s, Commit);
    VersionSnoc(apply, v, s.history, s.writer.change);
    forall r | r in t.readers ensures Sees(apply, v, t, r) {
      assert Sees(apply, v, s, r);
      assert s.readers[r] != s.current;
    }
  }

  lemma ReplaceIsolated<V, C>(apply: (C, V) -> V, v: V, s: Store<V, C>, e: Event<C>)
    requires Isolated(apply, v, s) && e.Replace?
    ensures Isolated(apply, v, Step(apply, s, e))
  {
    var t := Step(apply, s, e);
    VersionSnoc(apply, v, s.history, e.change);
    forall r | r in t.readers ensures Sees(apply, v, t, r) {
      assert Sees(apply, v, s, r);
    }
  }

  lemma CloneIsolated<V, C>(apply: (C, V) -> V, v: V, s: Store<V, C>, e: Event<C>)
    requires Isolated(apply, v, s) && e.Clone?
    ensures Isolated(apply, v, Step(apply, s, e))
  {
    var t := Step(apply, s, e);
    forall r | r in t.readers ensures Sees(apply, v, t, r) {
      assert Sees(apply, v, s, r);
    }
    assert t.writer.Editing? && !s.writer.Editing? ==> !Shared(t);
  }

  lemma HoldIsolated<V, C>(apply: (C, V) -> V, v: V, s: Store<V, C>, e: Event<C>)
    requires Isolated(apply, v, s) && (e.Acquire? || e.Release? || e.Lock? || e.Check?)
    ensures Isolated(apply, v, Step(apply, s, e))
  {
    var t := Step(apply, s, e);
    assert s.history[..|s.history|] == s.history;
    forall r | r in t.readers ensures Sees(apply, v, t, r) {
      assert r in s.readers ==> Sees(apply, v, s, r);
    }
    assert t.since.Keys == t.readers.Keys;
  }

  /** Every step keeps isolation, only ever adds to the history, and leaves the pointers of other readers alone. */
  lemma StepIsolated<V, C>(apply: (C, V) -> V, v: V, s: Store<V, C>, e: Event<C>)
    requires Isolated(apply, v, s)
    ensures var t := Step(apply, s, e);
            && Isolated(apply, v, t) && s.history <= t.history
            && forall r :: r in s.readers && r in t.readers ==>
                 r in s.since && r in t.since && t.readers[r] == s.readers[r] && t.since[r] == s.since[r]
  {
    if e.Commit? {
      if s.writer.Editing? {
        CommitIsolated(apply, v, s);
      }
    } else if e.Replace? {
      ReplaceIsolated(apply, v, s, e);
    } else if e.Clone? {
      CloneIsolated(apply, v, s, e);
    } else {
      HoldIsolated(apply, v, s, e);
    }
    assert s.since.Keys == s.readers.Keys;
    hide Isolated;
  }

  // ----- What each step achieves -----

  /** A reader gets the latest version, and is rid of it when it lets go. */
  lemma AcquireSeesLatest<V, C>(apply: (C, V) -> V, v: V, s: Store<V, C>, r: nat)
    requires Isolated(apply, v, s) && s.writer.Idle? && r !in s.readers
    ensures var t := Step(apply, s, Acquire(r));
            && r in t.readers && t.readers[r] in t.heap && t.heap[t.readers[r]] == s.heap[s.current]
            && t.heap == s.heap && t.history == s.history
            && r !in Step(apply, t, Release(r)).readers
  {
  }

  /** A change goes through: in place if nobody else holds the object, in a clone otherwise. */
  lemma WriteTakesEffect<V, C>(apply: (C, V) -> V, v: V, s: Store<V, C>, change: C, f: nat)
    requires Isolated(apply, v, s) && s.writer.Idle? && f !in s.heap
    ensures var s1 := Step(apply, s, Lock(change));
            && s1.current in s1.heap
            && var s2 := Step(apply, s1, Check);
               && s2.current in s2.heap
               && var s3 := Step(apply, s2, Clone(f));
                  && s3.current in s3.heap
                  && var t := Step(apply, s3, Commit);
                     && t.writer.Idle? && t.current in t.heap && t.history == s.history + [change]
                     && t.heap[t.current] == apply(change, s.heap[s.current])
                     && t.readers == s.readers && t.since == s.since
                     && t.current == if Shared(s) then f else s.current
  {
  }

  /** So does a replacement, at once. */
  lemma ReplaceTakesEffect<V, C>(apply: (C, V) -> V, s: Store<V, C>, change: C, f: nat)
    requires s.current in s.heap && s.writer.Idle? && f !in s.heap
    ensures var t := Step(apply, s, Replace(change, f));
            && t.writer.Idle? && t.current == f && t.current in t.heap && t.history == s.history + [change]
            && t.heap[t.current] == apply(change, s.heap[s.current]) && t.readers == s.readers
  {
  }

  // ----- Runs -----

  ghost predicate Run<V, C>(apply: (C, V) -> V, v: V, states: seq<Store<V, C>>, events: seq<Event<C>>) {
    && |states| == |events| + 1 && states[0] == Initial(v)
    && forall i :: 0 <= i < |events| ==>
         states[i].current in states[i].heap && states[i + 1] == Step(apply, states[i], events[i])
  }

  lemma {:induction false} RunIsolated<V, C>(apply: (C, V) -> V, v: V,
                                             states: seq<Store<V, C>>, events: seq<Event<C>>, n: nat)
    requires Run(apply, v, states, events) && n < |states|
    ensures Isolated(apply, v, states[n])
  {
    if n > 0 {
      RunIsolated(apply, v, states, events, n - 1);
      StepIsolated(apply, v, states[n - 1], events[n - 1]);
    }
  }

  lemma RunStep<V, C>(apply: (C, V) -> V, v: V, states: seq<Store<V, C>>, events: seq<Event<C>>, n: nat)
    requires Run(apply, v, states, events) && 0 < n < |states|
    ensures Isolated(apply, v, states[n - 1]) && states[n] == Step(apply, states[n - 1], events[n - 1])
  {
    RunIsolated(apply, v, states, events, n - 1);
  }

  /** The reader holds its pointer from step `i` to step `j`. */
  ghost predicate Holds<V, C>(states: seq<Store<V, C>>, r: nat, i: nat, j: nat)
    requires i <= j < |states|
  {
    forall k :: i <= k <= j ==> r in states[k].readers
  }

  /** The reader's pointer is the same in `t` as in `s`, and so is the version it sees through it. */
  ghost predicate SameView<V, C>(apply: (C, V) -> V, v: V, s: Store<V, C>, t: Store<V, C>, r: nat) {
    && Isolated(apply, v, s) && Isolated(apply, v, t) && Sees(apply, v, s, r) && Sees(apply, v, t, r)
    && t.readers[r] == s.readers[r] && t.since[r] == s.since[r] && s.history <= t.history
    && t.heap[t.readers[r]] == s.heap[s.readers[r]] == Version(apply, v, s.history[..s.since[r]])
  }

  lemma StepSameView<V, C>(apply: (C, V) -> V, v: V, s: Store<V, C>, e: Event<C>, r: nat)
    requires Isolated(apply, v, s) && r in s.readers && r in Step(apply, s, e).readers
    ensures SameView(apply, v, s, Step(apply, s, e), r)
  {
    StepIsolated(apply, v, s, e);
    hide Step;
    var t := Step(apply, s, e);
    assert Sees(apply, v, s, r) && Sees(apply, v, t, r);
    assert s.history[..s.since[r]] == t.history[..s.since[r]];
  }

  /** In every interleaving, what a reader sees through a pointer it keeps never changes while it keeps it. */
  lemma {:induction false} SnapshotNeverChanges<V, C>(apply: (C, V) -> V, v: V, states: seq<Store<V, C>>,
                                                      events: seq<Event<C>>, r: nat, i: nat, j: nat)
    requires Run(apply, v, states, events) && i <= j < |states| && Holds(states, r, i, j)
    ensures SameView(apply, v, states[i], states[j], r)
    decreases j
  {
    RunIsolated(apply, v, states, events, i);
    hide Run, Step, Isolated, SameView;
    if i == j {
      NoStepSameView(apply, v, states[i], r);
    } else {
      SnapshotNeverChanges(apply, v, states, events, r, i, j - 1);
      RunStep(apply, v, states, events, j);
      StepSameView(apply, v, states[j - 1], events[j - 1], r);
      SameViewTransitive(apply, v, states[i], states[j - 1], states[j], r);
    }
  }

  lemma NoStepSameView<V, C>(apply: (C, V) -> V, v: V, s: Store<V, C>, r: nat)
    requires Isolated(apply, v, s) && r in s.readers
    ensures SameView(apply, v, s, s, r)
  {
  }

  lemma SameViewTransitive<V, C>(apply: (C, V) -> V, v: V, s: Store<V, C>, t: Store<V, C>, u: Store<V, C>, r: nat)
    requires SameView(apply, v, s, t, r) && SameView(apply, v, t, u, r)
    ensures SameView(apply, v, s, u, r)
  {
  }

  /** A property of the first value that every change keeps holds of every version. */
  lemma {:induction false} VersionKeeps<V(!new), C(!new)>(apply: (C, V) -> V, v: V, history: seq<C>, good: V -> bool)
    requires good(v) && forall c, w :: good(w) ==> good(apply(c, w))
    ensures good(Version(apply, v, history))
  {
    if history != [] {
      VersionKeeps(apply, v, history[..|history| - 1], good);
    }
  }
}
