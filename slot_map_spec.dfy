/** The state of an spl::slot_map<T> as a value, and its operations as functions.

    A slot map keeps three vectors:
    - `elements`, the dense store of live values, in insertion order;
    - `indices`, one entry per identifier ever handed out: the position of the
      identifier's value in `elements` and the identifier's current generation;
    - `erased`, a LIFO stack of identifiers whose value has been erased.
    A handle is an identifier plus the generation it was issued with; it resolves
    only while that generation is still the identifier's current one.

    The functions here are the specification that the class in module SlotMaps is
    proved against; module SlotMapProofs proves what they promise. */
module SlotMapSpec {

  /** std::numeric_limits<std::size_t>::max() on a 64-bit target: erase stores it
      as the position of a freed identifier. */
  const SIZE_MAX: nat := 0xFFFF_FFFF_FFFF_FFFF

  /** spl::slot_handle: an identifier and the generation it was issued with. */
  datatype Handle = Handle(id: nat, generation: nat)

  /** slot_map::index: where the identifier's value sits in `elements`, and the
      identifier's current generation. */
  datatype Entry = Entry(index: nat, generation: nat)

  /** The outcome of operator[]: the element, or the std::out_of_range
      ("invalid handle") it throws on a generation mismatch. */
  datatype Lookup<T> = Found(value: T) | OutOfRange

  datatype State<T> = State(elements: seq<T>, indices: seq<Entry>, erased: seq<nat>)

  /** A default-constructed slot map, and the state clear() leaves behind. */
  function Empty<T>(): (r: State<T>)
    ensures Valid(r) && forall id: nat :: !Live(r, id)
  {
    State([], [], [])
  }

  /** The identifier has an entry and is not on the free stack. */
  predicate Live<T>(s: State<T>, id: nat)
  {
    id < |s.indices| && id !in s.erased
  }

  /** The handle denotes a live value: its identifier is live and its
      generation is the identifier's current one. */
  predicate ValidHandle<T>(s: State<T>, h: Handle)
  {
    Live(s, h.id) && s.indices[h.id].generation == h.generation
  }

  /** What operator[] and erase need of a handle to stay within the vectors:
      indices[key.id] exists, and when the generations match, so does the element
      at the recorded position. Neither operation checks either bound itself. */
  predicate Resolvable<T>(s: State<T>, h: Handle)
  {
    h.id < |s.indices| &&
    (s.indices[h.id].generation == h.generation ==> s.indices[h.id].index < |s.elements|)
  }

  /** A handle the map could have issued since its last clear(): its identifier
      has an entry, and if its generation is current the identifier is live. */
  predicate Admissible<T>(s: State<T>, h: Handle)
  {
    h.id < |s.indices| &&
    (s.indices[h.id].generation == h.generation ==> Live(s, h.id))
  }

  /** The class invariant of slot_map.
      - every identifier on the free stack has an entry, and none is there twice;
      - there are as many elements as live identifiers;
      - every live identifier records a position inside `elements`, and no two
        live identifiers record the same one.
      A freed identifier's position is left unconstrained: erase stores SIZE_MAX
      there and later erases decrement it. Module SlotMapProofs derives that the
      live identifiers' positions cover all of `elements` (DensePacking). */
  ghost predicate Valid<T>(s: State<T>)
    ensures Valid(s) ==> |s.erased| <= |s.indices|
  {
    (forall k :: 0 <= k < |s.erased| ==> s.erased[k] < |s.indices|) &&
    (forall j, k :: 0 <= j < k < |s.erased| ==> s.erased[j] != s.erased[k]) &&
    |s.elements| == |s.indices| - |s.erased| &&
    (forall id: nat :: Live(s, id) ==> s.indices[id].index < |s.elements|) &&
    (forall id1: nat, id2: nat ::
       Live(s, id1) && Live(s, id2) && s.indices[id1].index == s.indices[id2].index ==> id1 == id2)
  }

  /** The invariant together with what holds of every handle in `issued`, the
      handles handed out since the last clear(): each is admissible, and its
      generation never runs ahead of its identifier's. */
  ghost predicate Sound<T>(s: State<T>, issued: set<Handle>)
  {
    Valid(s) &&
    forall h :: h in issued ==> Admissible(s, h) && h.generation <= s.indices[h.id].generation
  }

  /** slot_map::emplace_back: reuse the most recently freed identifier if there
      is one, else append a fresh entry with generation 0; either way the value
      goes to the end of `elements`. Only the top of the free stack is indexed. */
  function EmplaceBack<T>(s: State<T>, value: T): (r: (State<T>, Handle))
    requires s.erased != [] ==> s.erased[|s.erased| - 1] < |s.indices|
    ensures r.0.elements == s.elements + [value]
    ensures |s.indices| <= |r.0.indices| <= |s.indices| + 1
    ensures r.1.id < |r.0.indices| && r.0.indices[r.1.id] == Entry(|s.elements|, r.1.generation)
    ensures r.1.id !in r.0.erased ==> Live(r.0, r.1.id)
  {
    if s.erased != [] then
      var id := s.erased[|s.erased| - 1];
      var generation := s.indices[id].generation;
      (State(s.elements + [value],
             s.indices[id := Entry(|s.elements|, generation)],
             s.erased[..|s.erased| - 1]),
       Handle(id, generation))
    else
      (State(s.elements + [value], s.indices + [Entry(|s.elements|, 0)], s.erased),
       Handle(|s.indices|, 0))
  }

  /** The per-entry step of erase's loop: positions after the erased one move
      down by one. */
  function ShiftEntry(e: Entry, pos: nat): (r: Entry)
    ensures r.generation == e.generation
    ensures e.index != pos ==> (r.index < pos <==> e.index < pos) && e.index - 1 <= r.index <= e.index
  {
    if e.index > pos then e.(index := e.index - 1) else e
  }

  /** Every entry of the table after erase's loop. */
  function Shift(indices: seq<Entry>, pos: nat): (r: seq<Entry>)
    ensures |r| == |indices|
    ensures forall k :: 0 <= k < |r| ==> r[k].generation == indices[k].generation
  {
    seq(|indices|, k requires 0 <= k < |indices| => ShiftEntry(indices[k], pos))
  }

  /** slot_map::erase: a no-op on a generation mismatch; otherwise remove the
      element at the handle's position keeping the order of the rest, move every
      later position down by one, mark the entry with SIZE_MAX, bump its
      generation and push the identifier onto the free stack. */
  function Erase<T>(s: State<T>, h: Handle): (r: State<T>)
    requires Resolvable(s, h)
    ensures |r.indices| == |s.indices|
    ensures r.indices[h.id].generation != h.generation
    ensures |r.elements| == if s.indices[h.id].generation == h.generation then |s.elements| - 1 else |s.elements|
  {
    var e := s.indices[h.id];
    if e.generation != h.generation then s
    else
      State(s.elements[..e.index] + s.elements[e.index + 1..],
            Shift(s.indices, e.index)[h.id := Entry(SIZE_MAX, e.generation + 1)],
            s.erased + [h.id])
  }

  /** slot_map::operator[]: the element at the handle's position when the
      generations match, the invalid-handle error otherwise. */
  function Get<T>(s: State<T>, h: Handle): (r: Lookup<T>)
    requires Resolvable(s, h)
    ensures r.Found? <==> s.indices[h.id].generation == h.generation
    ensures r.Found? ==> r.value in s.elements
  {
    var e := s.indices[h.id];
    if e.generation != h.generation then OutOfRange else Found(s.elements[e.index])
  }
}
