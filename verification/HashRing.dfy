/** The consistent-hash ring: an ordered map from hash values to addresses, with an arbitrary hash. */
module HashRing {

  type Ring<A> = map<nat, A>

  /** The virtual points of an address, in insertion order. */
  function PointSet(points: seq<nat>): set<nat> {
    set p | p in points
  }

  function Add<A>(ring: Ring<A>, points: seq<nat>, a: A): Ring<A> {
    map k | k in ring.Keys + PointSet(points) :: if k in PointSet(points) then a else ring[k]
  }

  function Remove<A>(ring: Ring<A>, points: seq<nat>): Ring<A> {
    map k | k in ring && k !in points :: ring[k]
  }

  /** The loops over the virtual nodes. */
  method AddLoop<A>(ring: Ring<A>, points: seq<nat>, a: A) returns (r: Ring<A>)
    ensures r == Add(ring, points, a)
  {
    r := ring;
    var i := 0;
    while i < |points|
      invariant i <= |points| && r == Add(ring, points[..i], a)
    {
      assert points[..i + 1] == points[..i] + [points[i]];
      r := r[points[i] := a];
      i := i + 1;
    }
    assert points[..i] == points;
  }

  method RemoveLoop<A>(ring: Ring<A>, points: seq<nat>) returns (r: Ring<A>)
    ensures r == Remove(ring, points)
  {
    r := ring;
    var i := 0;
    while i < |points|
      invariant i <= |points| && r == Remove(ring, points[..i])
    {
      assert points[..i + 1] == points[..i] + [points[i]];
      r := r - {points[i]};
      i := i + 1;
    }
    assert points[..i] == points;
  }

  /** `p` is the first point at or after `h`, going round to the smallest point when there is none. */
  ghost predicate Successor(keys: set<nat>, h: nat, p: nat) {
    p in keys && forall q | q in keys :: (h <= p && (q < h || p <= q)) || (q < h && p <= q)
  }

  lemma {:induction false} LeastFrom(keys: set<nat>, h: nat) returns (p: nat)
    requires exists q :: q in keys && q >= h
    ensures p in keys && p >= h && forall q | q in keys && q >= h :: p <= q
    decreases keys
  {
    var first: nat :| first in keys && first >= h;
    p := first;
    if q :| q in keys && h <= q < first {
      assert q in keys - {first};
      p := LeastFrom(keys - {first}, h);
      forall q' | q' in keys && q' >= h ensures p <= q' {
        assert q' == first || q' in keys - {first};
      }
    }
  }

  lemma SuccessorExists(keys: set<nat>, h: nat)
    requires keys != {}
    ensures exists p :: Successor(keys, h, p)
  {
    if q :| q in keys && q >= h {
      var p := LeastFrom(keys, h);
      assert Successor(keys, h, p);
    } else {
      var q :| q in keys;
      var p := LeastFrom(keys, 0);
      assert Successor(keys, h, p);
    }
  }

  /** lower_bound, or begin() past the end. */
  ghost function Owner(keys: set<nat>, h: nat): (p: nat)
    requires keys != {}
    ensures Successor(keys, h, p)
  {
    SuccessorExists(keys, h);
    var p :| Successor(keys, h, p);
    p
  }

  datatype Answer<A> = Nobody | Server(address: A)

  ghost function Lookup<A>(ring: Ring<A>, h: nat): Answer<A> {
    if ring == map[] then Nobody else Server(ring[Owner(ring.Keys, h)])
  }

  lemma OwnerIs<A>(ring: Ring<A>, h: nat, p: nat)
    requires Successor(ring.Keys, h, p)
    ensures Lookup(ring, h) == Server(ring[p])
  {
    assert p in ring;
    var o := Owner(ring.Keys, h);
  }

  /** A key goes to the first point not below its hash. */
  lemma LookupNext<A>(ring: Ring<A>, h: nat, p: nat)
    requires p in ring && h <= p && forall q :: q in ring ==> !(h <= q < p)
    ensures Lookup(ring, h) == Server(ring[p])
  {
    OwnerIs(ring, h, p);
  }

  /** Or to the lowest point, if none is. */
  lemma LookupWraps<A>(ring: Ring<A>, h: nat, p: nat)
    requires p in ring && forall q :: q in ring ==> p <= q < h
    ensures Lookup(ring, h) == Server(ring[p])
  {
    OwnerIs(ring, h, p);
  }

  datatype Position = End | At(point: nat)

  /** std::map::lower_bound */
  method LowerBound(keys: set<nat>, h: nat) returns (it: Position)
    ensures it.End? ==> forall q | q in keys :: q < h
    ensures it.At? ==> it.point in keys && it.point >= h && forall q | q in keys && q >= h :: it.point <= q
  {
    if exists q :: q in keys && q >= h {
      ghost var least := LeastFrom(keys, h);
      var p: nat :| p in keys && p >= h && forall q | q in keys && q >= h :: p <= q;
      return At(p);
    }
    return End;
  }

  /** The lookup as coded, by lower_bound and begin(). */
  method Locate<A>(ring: Ring<A>, h: nat) returns (r: Answer<A>)
    ensures r == Lookup(ring, h)
  {
    if ring == map[] {
      return Nobody;
    }
    var it := LowerBound(ring.Keys, h);
    if it.End? {
      it := LowerBound(ring.Keys, 0);
      ghost var first: nat :| first in ring.Keys;
    }
    assert Successor(ring.Keys, h, it.point);
    OwnerIs(ring, h, it.point);
    return Server(ring[it.point]);
  }

  /** Adding an address to a non-empty ring moves keys to that address only, even where hashes collide. */
  lemma AddMovesToNewOnly<A>(ring: Ring<A>, points: seq<nat>, a: A, h: nat)
    requires ring != map[]
    ensures var after := Lookup(Add(ring, points, a), h); after == Server(a) || after == Lookup(ring, h)
  {
    var new_ := Add(ring, points, a);
    var p := Owner(ring.Keys, h);
    assert p in new_;
    var q := Owner(new_.Keys, h);
    if q !in PointSet(points) {
      assert q in ring;
      assert forall k | k in ring.Keys :: k in new_.Keys;
      assert Successor(ring.Keys, h, q);
      OwnerIs(ring, h, q);
    }
  }

  /** An address whose points nobody else holds leaves the others' keys alone when it goes. */
  lemma RemoveMovesOwnedOnly<A>(ring: Ring<A>, points: seq<nat>, a: A, h: nat)
    requires forall p | p in points && p in ring :: ring[p] == a
    requires Lookup(ring, h) != Server(a)
    ensures Lookup(Remove(ring, points), h) == Lookup(ring, h)
  {
    if ring != map[] {
      SurvivorKeepsKeys(ring, points, h);
    }
  }

  lemma SurvivorKeepsKeys<A>(ring: Ring<A>, points: seq<nat>, h: nat)
    requires ring != map[] && Owner(ring.Keys, h) !in points
    ensures Lookup(Remove(ring, points), h) == Lookup(ring, h)
  {
    var p := Owner(ring.Keys, h);
    var left := Remove(ring, points);
    assert p in left;
    assert forall k | k in left.Keys :: k in ring.Keys;
    assert Successor(left.Keys, h, p);
    OwnerIs(left, h, p);
  }

  /** Whoever takes over a removed point takes over exactly the keys it answered for. */
  lemma TakeOver<A>(ring: Ring<A>, points: seq<nat>, h: nat)
    requires ring != map[] && Remove(ring, points) != map[]
    ensures Lookup(Remove(ring, points), h) == Lookup(Remove(ring, points), Owner(ring.Keys, h))
  {
    var left := Remove(ring, points);
    var p := Owner(ring.Keys, h);
    var q := Owner(left.Keys, p);
    assert forall k | k in left.Keys :: k in ring.Keys;
    assert Successor(left.Keys, h, q);
    OwnerIs(left, h, q);
  }

  /** The points that stay when `points` are taken out. */
  function Staying<A>(ring: Ring<A>, points: seq<nat>): set<nat> {
    set k | k in ring.Keys && k !in points
  }

  /** The first point at or after `p` that stays belongs to the holder of `p`. */
  ghost predicate FallsToItsHolder<A>(ring: Ring<A>, points: seq<nat>, p: nat)
    requires p in ring
  {
    exists q :: q in Staying(ring, points) && Successor(Staying(ring, points), p, q) && ring[q] == ring[p]
  }

  lemma FallsToLookup<A>(ring: Ring<A>, points: seq<nat>, p: nat)
    requires p in ring
    ensures FallsToItsHolder(ring, points, p) <==> Lookup(Remove(ring, points), p) == Server(ring[p])
  {
    var left := Remove(ring, points);
    assert left.Keys == Staying(ring, points);
    if FallsToItsHolder(ring, points, p) {
      var q :| q in Staying(ring, points) && Successor(Staying(ring, points), p, q) && ring[q] == ring[p];
      OwnerIs(left, p, q);
    }
    if left != map[] && left[Owner(left.Keys, p)] == ring[p] {
      assert Owner(left.Keys, p) in Staying(ring, points);
    }
  }

  /**
   * With colliding points, removing an address leaves the others' keys alone exactly when, on the ring as it is, each
   * point taken from another address is followed by a point of that same address among those that stay.
   */
  lemma RemoveIsMinimalIff<A>(ring: Ring<A>, points: seq<nat>, a: A)
    ensures (forall h: nat :: Lookup(ring, h) != Server(a) ==> Lookup(Remove(ring, points), h) == Lookup(ring, h))
       <==> forall p :: p in points && p in ring && ring[p] != a ==> FallsToItsHolder(ring, points, p)
  {
    forall p | p in ring
      ensures Lookup(ring, p) == Server(ring[p])
      ensures FallsToItsHolder(ring, points, p) <==> Lookup(Remove(ring, points), p) == Server(ring[p])
    {
      assert Successor(ring.Keys, p, p);
      OwnerIs(ring, p, p);
      FallsToLookup(ring, points, p);
    }
    if forall p :: p in points && p in ring && ring[p] != a ==> FallsToItsHolder(ring, points, p) {
      forall h: nat | Lookup(ring, h) != Server(a) ensures Lookup(Remove(ring, points), h) == Lookup(ring, h) {
        if ring != map[] {
          var p := Owner(ring.Keys, h);
          if p in points {
            assert FallsToItsHolder(ring, points, p);
            TakeOver(ring, points, h);
          } else {
            SurvivorKeepsKeys(ring, points, h);
          }
        }
      }
    }
  }

  /** Removing undoes adding exactly when the added points were free. */
  lemma RemoveUndoesAdd<A>(ring: Ring<A>, points: seq<nat>, a: A)
    ensures Remove(Add(ring, points, a), points) == ring <==> forall p :: p in points ==> p !in ring
  {
    var back := Remove(Add(ring, points, a), points);
    if forall p :: p in points ==> p !in ring {
      assert back.Keys == ring.Keys;
    } else {
      var p :| p in points && p in ring;
      assert p !in back;
    }
  }

  /** The order of two insertions matters exactly when different addresses share a point. */
  lemma InsertionOrder<A>(ring: Ring<A>, ps: seq<nat>, a: A, qs: seq<nat>, b: A)
    ensures Add(Add(ring, ps, a), qs, b) == Add(Add(ring, qs, b), ps, a) <==> a == b || forall p :: p in ps ==> p !in qs
  {
    var ab, ba := Add(Add(ring, ps, a), qs, b), Add(Add(ring, qs, b), ps, a);
    if a == b || forall p :: p in ps ==> p !in qs {
      assert ab.Keys == ba.Keys;
      forall k | k in ab.Keys ensures ab[k] == ba[k] {
        assert k in PointSet(ps) <==> k in ps;
        assert k in PointSet(qs) <==> k in qs;
      }
    } else {
      var p :| p in ps && p in qs;
      assert p in PointSet(ps) && p in PointSet(qs);
      assert ab[p] == b && ba[p] == a;
    }
  }

  // ----- Whole histories -----

  datatype Change<A> = Join(address: A) | Leave(address: A)

  /** The ring after a history of additions and removals, starting empty. */
  function Built<A>(history: seq<Change<A>>, points: A -> seq<nat>): Ring<A> {
    if history == [] then map[] else
    var before, change := Built(history[..|history| - 1], points), history[|history| - 1];
    if change.Join? then Add(before, points(change.address), change.address)
    else Remove(before, points(change.address))
  }

  function Members<A(==)>(history: seq<Change<A>>): set<A> {
    if history == [] then {} else
    var before, change := Members(history[..|history| - 1]), history[|history| - 1];
    if change.Join? then before + {change.address} else before - {change.address}
  }

  ghost predicate Disjoint<A(!new)>(points: A -> seq<nat>) {
    forall a, b, p :: p in points(a) && p in points(b) ==> a == b
  }

  /** The ring holds each member at each of its points, and nothing else. */
  ghost predicate RingOf<A>(ring: Ring<A>, members: set<A>, points: A -> seq<nat>) {
    && (forall p :: p in ring ==> ring[p] in members && p in points(ring[p]))
    && (forall a, p :: a in members && p in points(a) ==> p in ring)
  }

  lemma {:induction false} BuiltIsRingOf<A(!new)>(history: seq<Change<A>>, points: A -> seq<nat>)
    requires Disjoint(points)
    ensures RingOf(Built(history, points), Members(history), points)
  {
    if history != [] {
      BuiltIsRingOf(history[..|history| - 1], points);
    }
  }

  lemma RingOfUnique<A(!new)>(r: Ring<A>, r': Ring<A>, members: set<A>, points: A -> seq<nat>)
    requires Disjoint(points) && RingOf(r, members, points) && RingOf(r', members, points)
    ensures r == r'
  {
    forall p | p in r ensures p in r' && r'[p] == r[p] {
    }
    forall p | p in r' ensures p in r {
    }
  }

  lemma OrderShows<A(!new)>(points: A -> seq<nat>, a: A, b: A, p: nat)
    requires a != b && p in points(a) && p in points(b)
    ensures var xs, ys := [Join(a), Join(b)], [Join(b), Join(a)];
            Members(xs) == Members(ys) && Built(xs, points) != Built(ys, points)
  {
    var xs, ys := [Join(a), Join(b)], [Join(b), Join(a)];
    assert xs[..1] == [Join(a)] && ys[..1] == [Join(b)];
    assert [Join(a)][..0] == [] && [Join(b)][..0] == [];
    assert Built(xs, points)[p] == b && Built(ys, points)[p] == a;
  }

  /** The ring is a function of who is in it, whatever happened before, exactly when no two addresses share a point. */
  lemma HistoryIrrelevantIff<A(!new)>(points: A -> seq<nat>)
    ensures Disjoint(points)
       <==> forall xs, ys :: Members<A>(xs) == Members(ys) ==> Built(xs, points) == Built(ys, points)
  {
    if Disjoint(points) {
      forall xs, ys | Members<A>(xs) == Members(ys) ensures Built(xs, points) == Built(ys, points) {
        BuiltIsRingOf(xs, points);
        BuiltIsRingOf(ys, points);
        RingOfUnique(Built(xs, points), Built(ys, points), Members(xs), points);
      }
    } else {
      var a, b, p :| p in points(a) && p in points(b) && a != b;
      OrderShows(points, a, b, p);
    }
  }
}
