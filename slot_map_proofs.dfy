/** What spl::slot_map promises, proved about the operations of SlotMapSpec:
    the class invariant is kept, a fresh handle resolves to its value, every other
    live handle keeps resolving to the same value across an insert or an erase,
    erase keeps the survivors in order, and a handle once erased never resolves
    again, not even after its identifier is reused. */
module SlotMapProofs {
  import opened SlotMapSpec

  // ---------------------------------------------------------------------------
  // The class invariant is kept.
  // ---------------------------------------------------------------------------

  lemma EmptyValid<T>()
    ensures Sound(Empty<T>(), {})
  {
  }

  /** emplace_back keeps the invariant: the reused or fresh identifier becomes
      live at the one position past every other live one. */
  lemma EmplaceBackValid<T>(s: State<T>, value: T)
    requires Valid(s)
    ensures Valid(EmplaceBack(s, value).0)
  {
    var (t, h) := EmplaceBack(s, value);
    if s.erased != [] {
      var n := |s.erased| - 1;
      forall id: nat | Live(t, id) && id != h.id
        ensures Live(s, id) && t.indices[id] == s.indices[id]
      {
        assert id !in s.erased[..n];
        assert id != s.erased[n];
        assert s.erased == s.erased[..n] + [s.erased[n]];
      }
      forall j, k | 0 <= j < k < |t.erased| ensures t.erased[j] != t.erased[k] {
        assert t.erased[j] == s.erased[j] && t.erased[k] == s.erased[k];
      }
      assert Live(t, h.id) by {
        assert h.id !in s.erased[..n];
      }
    }
  }

  /** erase keeps the invariant for any handle the map could have issued. On a
      generation mismatch nothing changes; otherwise the erased identifier leaves
      the live set and every later position closes the gap. */
  lemma EraseValid<T>(s: State<T>, h: Handle)
    requires Valid(s) && Admissible(s, h) && Resolvable(s, h)
    ensures Valid(Erase(s, h))
  {
    var t := Erase(s, h);
    if s.indices[h.id].generation == h.generation {
      var pos := s.indices[h.id].index;
      forall id: nat | Live(t, id)
        ensures Live(s, id) && id != h.id && s.indices[id].index != pos
        ensures t.indices[id] == ShiftEntry(s.indices[id], pos)
      {
        assert id !in s.erased;
      }
      forall j, k | 0 <= j < k < |t.erased| ensures t.erased[j] != t.erased[k] {
        if k == |s.erased| {
          assert t.erased[j] == s.erased[j];
        }
      }
    }
  }

  /** Sound is kept by emplace_back, which adds the handle it returns to the
      handles issued so far. */
  lemma EmplaceBackSound<T>(s: State<T>, issued: set<Handle>, value: T)
    requires Sound(s, issued)
    ensures Sound(EmplaceBack(s, value).0, issued + {EmplaceBack(s, value).1})
  {
    EmplaceBackValid(s, value);
    var (t, h) := EmplaceBack(s, value);
    if s.erased != [] {
      var n := |s.erased| - 1;
      forall g | g in issued && g.id != h.id
        ensures t.indices[g.id] == s.indices[g.id] && (Live(s, g.id) ==> Live(t, g.id))
      {
        assert s.erased == s.erased[..n] + [s.erased[n]];
      }
      assert Live(t, h.id) by {
        assert h.id !in s.erased[..n];
      }
    }
  }

  /** Sound is kept by erase: the erased identifier's generation moves past every
      handle issued for it. */
  lemma EraseSound<T>(s: State<T>, issued: set<Handle>, h: Handle)
    requires Sound(s, issued) && Admissible(s, h) && Resolvable(s, h)
    ensures Sound(Erase(s, h), issued)
  {
    EraseValid(s, h);
  }

  // ---------------------------------------------------------------------------
  // Lookup.
  // ---------------------------------------------------------------------------

  /** Under the invariant an admissible handle is safe to look up and to erase. */
  lemma AdmissibleResolvable<T>(s: State<T>, h: Handle)
    requires Valid(s) && Admissible(s, h)
    ensures Resolvable(s, h)
  {
  }

  /** A handle issued since the last clear() can always be looked up, and the
      lookup succeeds exactly when the handle's identifier is live with the
      handle's generation; it then yields the element at the recorded position. */
  lemma LookupIssued<T>(s: State<T>, issued: set<Handle>, h: Handle)
    requires Sound(s, issued) && h in issued
    ensures Resolvable(s, h)
    ensures Get(s, h).Found? <==> ValidHandle(s, h)
    ensures Get(s, h).Found? ==> Get(s, h).value == s.elements[s.indices[h.id].index]
  {
  }

  // ---------------------------------------------------------------------------
  // Insertion.
  // ---------------------------------------------------------------------------

  /** The handle emplace_back returns is live and resolves to the inserted value,
      which sits at the end of `elements`: there is one more element, and every
      other element stays where it was. */
  lemma EmplaceBackRoundTrip<T>(s: State<T>, value: T)
    requires Valid(s)
    ensures var (t, h) := EmplaceBack(s, value);
      ValidHandle(t, h) && Resolvable(t, h) && Get(t, h) == Found(value) &&
      t.indices[h.id].index == |s.elements| &&
      t.elements == s.elements + [value]
  {
    var (t, h) := EmplaceBack(s, value);
    EmplaceBackValid(s, value);
    if s.erased != [] {
      var n := |s.erased| - 1;
      assert h.id !in s.erased[..n];
    }
  }

  /** Inserting does not disturb any live handle: it stays live and resolves to
      the same value, and it differs from the handle just returned. */
  lemma EmplaceBackKeepsOthers<T>(s: State<T>, value: T, g: Handle)
    requires Valid(s) && ValidHandle(s, g)
    ensures var (t, h) := EmplaceBack(s, value);
      g != h && ValidHandle(t, g) && Resolvable(t, g) && Get(t, g) == Get(s, g)
  {
    var (t, h) := EmplaceBack(s, value);
    if s.erased != [] {
      var n := |s.erased| - 1;
      assert s.erased[n] in s.erased;
      assert g.id !in s.erased[..n];
    }
  }

  // ---------------------------------------------------------------------------
  // Erasure.
  // ---------------------------------------------------------------------------

  /** Erase with a stale generation changes nothing. */
  lemma EraseStaleIsNoop<T>(s: State<T>, h: Handle)
    requires Resolvable(s, h) && s.indices[h.id].generation != h.generation
    ensures Erase(s, h) == s
  {
  }

  /** Erasing the same handle twice is the same as erasing it once. */
  lemma EraseIdempotent<T>(s: State<T>, h: Handle)
    requires Resolvable(s, h)
    ensures Resolvable(Erase(s, h), h) && Erase(Erase(s, h), h) == Erase(s, h)
  {
  }

  /** Erasing a live handle removes exactly its element: one element fewer, the
      elements before its position unchanged and the ones after it moved down by
      one; its identifier goes on top of the free stack with the next generation. */
  lemma EraseRemovesElement<T>(s: State<T>, h: Handle)
    requires Valid(s) && ValidHandle(s, h)
    ensures var t := Erase(s, h); var p := s.indices[h.id].index;
      |t.elements| == |s.elements| - 1 &&
      (forall q :: 0 <= q < p ==> t.elements[q] == s.elements[q]) &&
      (forall q :: p <= q < |t.elements| ==> t.elements[q] == s.elements[q + 1]) &&
      t.erased == s.erased + [h.id] &&
      t.indices[h.id].generation == h.generation + 1 &&
      !Live(t, h.id) &&
      multiset(t.elements) + multiset{s.elements[p]} == multiset(s.elements)
  {
    var p := s.indices[h.id].index;
    assert s.elements == s.elements[..p] + [s.elements[p]] + s.elements[p + 1..];
  }

  /** After erase the handle fails lookup. */
  lemma EraseInvalidates<T>(s: State<T>, h: Handle)
    requires Resolvable(s, h) && s.indices[h.id].generation == h.generation
    ensures Resolvable(Erase(s, h), h) && Get(Erase(s, h), h) == OutOfRange
  {
  }

  /** Erasing one handle leaves every other live handle live and resolving to
      the same value, although its position may have moved down by one. */
  lemma EraseKeepsOthers<T>(s: State<T>, h: Handle, g: Handle)
    requires Valid(s) && Admissible(s, h) && Resolvable(s, h)
    requires ValidHandle(s, g) && g != h
    ensures ValidHandle(Erase(s, h), g) && Resolvable(Erase(s, h), g)
    ensures Get(Erase(s, h), g) == Get(s, g)
  {
    var t := Erase(s, h);
    if s.indices[h.id].generation == h.generation {
      var p := s.indices[h.id].index;
      var x := s.indices[g.id].index;
      assert g.id != h.id;
      assert x != p;
      assert g.id !in t.erased;
      EraseValid(s, h);
      if x > p {
        assert t.elements[x - 1] == s.elements[x];
      } else {
        assert t.elements[x] == s.elements[x];
      }
    }
  }

  /** The shift of erase's loop keeps the order of every two entries whose
      positions differ from the erased one. */
  lemma ShiftKeepsOrder(indices: seq<Entry>, pos: nat, j: nat, k: nat)
    requires j < |indices| && k < |indices|
    requires indices[j].index != pos && indices[k].index != pos
    requires indices[j].index < indices[k].index
    ensures Shift(indices, pos)[j].index < Shift(indices, pos)[k].index
  {
  }

  /** EraseKeepsOthers for every other live handle at once. */
  lemma EraseKeepsAllOthers<T>(s: State<T>, h: Handle)
    requires Valid(s) && Admissible(s, h) && Resolvable(s, h)
    ensures forall g :: ValidHandle(s, g) && g != h ==>
      ValidHandle(Erase(s, h), g) && Resolvable(Erase(s, h), g) && Get(Erase(s, h), g) == Get(s, g)
  {
    forall g | ValidHandle(s, g) && g != h
      ensures ValidHandle(Erase(s, h), g) && Resolvable(Erase(s, h), g)
      ensures Get(Erase(s, h), g) == Get(s, g)
    {
      EraseKeepsOthers(s, h, g);
    }
  }

  /** Erase preserves the relative order of the surviving elements: of two other
      live handles, the one whose element came first still comes first. */
  lemma EraseKeepsOrder<T>(s: State<T>, h: Handle, g1: Handle, g2: Handle)
    requires Valid(s) && Admissible(s, h) && Resolvable(s, h)
    requires ValidHandle(s, g1) && ValidHandle(s, g2) && g1 != h && g2 != h
    requires s.indices[g1.id].index < s.indices[g2.id].index
    ensures Erase(s, h).indices[g1.id].index < Erase(s, h).indices[g2.id].index
  {
    if s.indices[h.id].generation == h.generation {
      assert g1.id != h.id && g2.id != h.id;
      assert s.indices[g1.id].index != s.indices[h.id].index;
      assert s.indices[g2.id].index != s.indices[h.id].index;
    }
  }

  /** The freed entry's position is not kept at SIZE_MAX: the next erase of any
      live element, before or after it, decrements it like any other position
      past the erased one. */
  lemma FreedPositionDrifts<T>(s: State<T>, h: Handle, g: Handle)
    requires Valid(s) && ValidHandle(s, h) && ValidHandle(s, g) && g != h
    requires |s.elements| <= SIZE_MAX
    ensures Erase(s, h).indices[h.id].index == SIZE_MAX
    ensures ValidHandle(Erase(s, h), g) && Resolvable(Erase(s, h), g)
    ensures Erase(Erase(s, h), g).indices[h.id].index == SIZE_MAX - 1
  {
    EraseKeepsOthers(s, h, g);
    var t := Erase(s, h);
    assert t.indices[g.id].index < |t.elements| < SIZE_MAX;
  }

  /** Insert a, b, c; erase a, then c, which sits after it: the freed entry of
      a has gone from SIZE_MAX to SIZE_MAX - 1. */
  lemma FreedPositionDriftsExample()
    ensures var (s1, a) := EmplaceBack(Empty<char>(), 'a');
      var (s2, b) := EmplaceBack(s1, 'b');
      var (s3, c) := EmplaceBack(s2, 'c');
      var s4 := Erase(s3, a);
      s4.indices[a.id].index == SIZE_MAX &&
      Resolvable(s4, c) && Erase(s4, c).indices[a.id].index == SIZE_MAX - 1
  {
  }

  // ---------------------------------------------------------------------------
  // Reuse of identifiers and stale handles.
  // ---------------------------------------------------------------------------

  /** Erasing a live handle and then inserting reuses its identifier under the
      next generation: the new handle resolves to the new value while the old one
      still fails. */
  lemma ReuseGetsNewGeneration<T>(s: State<T>, h: Handle, value: T)
    requires Valid(s) && ValidHandle(s, h)
    ensures var t := Erase(s, h);
      t.erased != [] && t.erased[|t.erased| - 1] < |t.indices| &&
      var (u, h2) := EmplaceBack(t, value);
      h2.id == h.id && h2.generation == h.generation + 1 &&
      Resolvable(u, h) && Get(u, h) == OutOfRange &&
      Resolvable(u, h2) && Get(u, h2) == Found(value)
  {
    EraseValid(s, h);
    EmplaceBackRoundTrip(Erase(s, h), value);
  }

  /** One step of a client: an insertion, or an erase through a handle. */
  datatype Op<T> = Insert(value: T) | Remove(key: Handle)

  /** Every step of `ops`, run from `s`, stays within the vectors. */
  ghost predicate Runnable<T>(s: State<T>, ops: seq<Op<T>>)
    decreases |ops|
  {
    ops == [] ||
    match ops[0]
    case Insert(v) =>
      (s.erased != [] ==> s.erased[|s.erased| - 1] < |s.indices|) &&
      Runnable(EmplaceBack(s, v).0, ops[1..])
    case Remove(k) =>
      Resolvable(s, k) && Runnable(Erase(s, k), ops[1..])
  }

  ghost function Run<T>(s: State<T>, ops: seq<Op<T>>): State<T>
    requires Runnable(s, ops)
    decreases |ops|
  {
    if ops == [] then s
    else match ops[0]
      case Insert(v) => Run(EmplaceBack(s, v).0, ops[1..])
      case Remove(k) => Run(Erase(s, k), ops[1..])
  }

  /** No operation shrinks the table or lowers a generation. */
  lemma GenerationsNeverDecrease<T>(s: State<T>, op: Op<T>, id: nat)
    requires id < |s.indices|
    requires op.Insert? ==> (s.erased != [] ==> s.erased[|s.erased| - 1] < |s.indices|)
    requires op.Remove? ==> Resolvable(s, op.key)
    ensures var t := if op.Insert? then EmplaceBack(s, op.value).0 else Erase(s, op.key);
      id < |t.indices| && s.indices[id].generation <= t.indices[id].generation
  {
  }

  /** A handle whose generation is behind its identifier's stays behind, and so
      fails lookup, whatever inserts and erases follow. */
  lemma {:induction false} StaleStaysStale<T>(s: State<T>, ops: seq<Op<T>>, h: Handle)
    requires Runnable(s, ops)
    requires h.id < |s.indices| && h.generation < s.indices[h.id].generation
    ensures var t := Run(s, ops);
      h.id < |t.indices| && h.generation < t.indices[h.id].generation &&
      Resolvable(t, h) && Get(t, h) == OutOfRange
    decreases |ops|
  {
    if ops != [] {
      GenerationsNeverDecrease(s, ops[0], h.id);
      match ops[0]
      case Insert(v) => StaleStaysStale(EmplaceBack(s, v).0, ops[1..], h);
      case Remove(k) => StaleStaysStale(Erase(s, k), ops[1..], h);
    }
  }

  /** Once erased, a handle never resolves again: not after any sequence of
      further inserts and erases, including ones that reuse its identifier. */
  lemma ErasedNeverResolves<T>(s: State<T>, h: Handle, ops: seq<Op<T>>)
    requires Valid(s) && ValidHandle(s, h)
    requires Runnable(Erase(s, h), ops)
    ensures Resolvable(Run(Erase(s, h), ops), h)
    ensures Get(Run(Erase(s, h), ops), h) == OutOfRange
  {
    StaleStaysStale(Erase(s, h), ops, h);
  }

  /** After clear() the table starts over: the next insertion returns handle
      (0, 0) again, so a handle with that identifier and generation from before
      the clear resolves to the new value. */
  lemma ClearReissuesHandles<T>(value: T)
    ensures var (t, h) := EmplaceBack(Empty<T>(), value);
      h == Handle(0, 0) && Resolvable(t, h) && Get(t, h) == Found(value)
  {
  }

  // ---------------------------------------------------------------------------
  // Dense packing: the live identifiers own every position of `elements`.
  // ---------------------------------------------------------------------------

  ghost function LiveIds<T>(s: State<T>): set<nat>
  {
    set id: nat | id < |s.indices| && id !in s.erased
  }

  ghost function Positions<T>(s: State<T>): set<nat>
  {
    set id | id in LiveIds(s) :: s.indices[id].index
  }

  /** The positions 0 .. n - 1. */
  ghost function Below(n: nat): set<nat>
  {
    if n == 0 then {} else Below(n - 1) + {n - 1}
  }

  lemma {:induction false} BelowSize(n: nat)
    ensures |Below(n)| == n
    ensures forall k: nat :: k in Below(n) <==> k < n
  {
    if n > 0 {
      BelowSize(n - 1);
    }
  }

  ghost function SetOf(xs: seq<nat>): set<nat>
  {
    set x | x in xs
  }

  lemma {:induction false} DistinctSize(xs: seq<nat>)
    requires forall j, k :: 0 <= j < k < |xs| ==> xs[j] != xs[k]
    ensures |SetOf(xs)| == |xs|
  {
    if xs != [] {
      var n := |xs| - 1;
      var init := xs[..n];
      DistinctSize(init);
      assert xs == init + [xs[n]];
      assert xs[n] !in init by {
        forall j | 0 <= j < n ensures init[j] != xs[n] {
          assert init[j] == xs[j];
        }
      }
      assert SetOf(xs) == SetOf(init) + {xs[n]};
      assert SetOf(init) * {xs[n]} == {};
    }
  }

  /** A set inside another of the same finite size is all of it. */
  lemma SameSizeSubset(a: set<nat>, b: set<nat>)
    requires a <= b && |a| == |b|
    ensures a == b
  {
    assert b == a + (b - a);
    assert |b - a| == 0;
  }

  /** An image under a map that is injective on `ids` has the size of `ids`. */
  lemma {:induction false} InjectiveImageSize<T>(s: State<T>, ids: set<nat>)
    requires forall id :: id in ids ==> id < |s.indices|
    requires forall id1, id2 ::
      (id1 in ids && id2 in ids && s.indices[id1].index == s.indices[id2].index) ==> id1 == id2
    ensures |set id | id in ids :: s.indices[id].index| == |ids|
  {
    if ids != {} {
      var id :| id in ids;
      var rest := ids - {id};
      InjectiveImageSize(s, rest);
      var image := set i | i in ids :: s.indices[i].index;
      var restImage := set i | i in rest :: s.indices[i].index;
      assert image == restImage + {s.indices[id].index};
      assert s.indices[id].index !in restImage;
    }
  }

  /** There are exactly as many live identifiers as elements. */
  lemma LiveCount<T>(s: State<T>)
    requires Valid(s)
    ensures |LiveIds(s)| == |s.elements|
  {
    var erasedSet := SetOf(s.erased);
    DistinctSize(s.erased);
    BelowSize(|s.indices|);
    assert erasedSet <= Below(|s.indices|);
    assert LiveIds(s) * erasedSet == {};
    assert Below(|s.indices|) == LiveIds(s) + erasedSet;
    assert |Below(|s.indices|)| == |LiveIds(s)| + |erasedSet|;
    assert |erasedSet| == |s.erased|;
  }

  /** The live identifiers are exactly as many as the elements, and their
      positions are exactly 0 .. |elements| - 1: every element is owned by one
      live identifier, with no gaps. */
  lemma DensePacking<T>(s: State<T>)
    requires Valid(s)
    ensures |LiveIds(s)| == |s.elements|
    ensures Positions(s) == Below(|s.elements|)
  {
    LiveCount(s);
    InjectiveImageSize(s, LiveIds(s));
    BelowSize(|s.elements|);
    assert Positions(s) <= Below(|s.elements|);
    SameSizeSubset(Positions(s), Below(|s.elements|));
  }

  /** Every position of `elements` belongs to a live identifier. */
  lemma EveryElementOwned<T>(s: State<T>, p: nat)
    requires Valid(s) && p < |s.elements|
    ensures exists id: nat :: Live(s, id) && s.indices[id].index == p
  {
    DensePacking(s);
    BelowSize(|s.elements|);
    assert p in Below(|s.elements|);
    assert p in Positions(s);
  }
}
