/** spl::slot_map<T> as a class over its three vectors, and spl::slot_wrap<T>.

    Each method changes the fields the way the header's member function changes
    its vectors, and is proved to leave the state that the function of the same
    name in SlotMapSpec computes from the old one. The ghost field `issued` holds
    the handles handed out since the last clear(); Valid() says the invariant of
    SlotMapSpec.Sound holds of them. */
module SlotMaps {
  import opened SlotMapSpec
  import SlotMapProofs

  class SlotMap<T> {
    var elements: seq<T>
    var indices: seq<Entry>
    var erased: seq<nat>
    ghost var issued: set<Handle>

    /** The three vectors as a value of SlotMapSpec. */
    function Model(): State<T>
      reads this
    {
      State(elements, indices, erased)
    }

    ghost predicate Valid()
      reads this
    {
      Sound(Model(), issued)
    }

    /** The default constructor: all three vectors empty. */
    constructor ()
      ensures Valid() && Model() == Empty() && issued == {}
    {
      elements, indices, erased := [], [], [];
      issued := {};
    }

    /** The constructor with an initial capacity. Its reserve calls have no
        effect on the contents, so it is the same empty map. */
    constructor WithCapacity(initialCapacity: nat)
      ensures Valid() && Model() == Empty() && issued == {}
    {
      elements, indices, erased := [], [], [];
      issued := {};
    }

    /** slot_map::as_wrap: a wrapper that remembers the key and this map. */
    method AsWrap(key: Handle) returns (w: SlotWrap<T>)
      ensures w.key == key && w.owner == this
    {
      w := SlotWrap(key, this);
    }

    /** slot_map::emplace_back with a single value. */
    method EmplaceBack(value: T) returns (key: Handle)
      requires Valid()
      modifies this
      ensures Valid()
      ensures (Model(), key) == SlotMapSpec.EmplaceBack(old(Model()), value)
      ensures issued == old(issued) + {key}
      ensures elements == old(elements) + [value]
      ensures old(erased) == [] ==>
        key == Handle(old(|indices|), 0) &&
        indices == old(indices) + [Entry(old(|elements|), 0)] && erased == []
      ensures old(erased) != [] ==>
        key.id == old(erased[|erased| - 1]) &&
        key.generation == old(indices[key.id].generation) &&
        indices == old(indices[key.id := Entry(|elements|, key.generation)]) &&
        erased == old(erased[..|erased| - 1])
      ensures ValidHandle(Model(), key) && Resolvable(Model(), key) && Get(key) == Found(value)
      ensures forall g :: old(ValidHandle(Model(), g)) ==>
        g != key && ValidHandle(Model(), g) && Resolvable(Model(), g) &&
        Get(g) == old(SlotMapSpec.Get(Model(), g))
    {
      ghost var before := Model();
      SlotMapProofs.EmplaceBackSound(before, issued, value);
      SlotMapProofs.EmplaceBackRoundTrip(before, value);
      forall g | ValidHandle(before, g)
        ensures g != SlotMapSpec.EmplaceBack(before, value).1
        ensures ValidHandle(SlotMapSpec.EmplaceBack(before, value).0, g)
        ensures SlotMapSpec.Get(SlotMapSpec.EmplaceBack(before, value).0, g) == SlotMapSpec.Get(before, g)
      {
        SlotMapProofs.EmplaceBackKeepsOthers(before, value, g);
      }
      if erased != [] {
        var id := erased[|erased| - 1];
        erased := erased[..|erased| - 1];
        key := Handle(id, indices[id].generation);
        indices := indices[id := Entry(|elements|, key.generation)];
        elements := elements + [value];
      } else {
        key := Handle(|indices|, 0);
        indices := indices + [Entry(|elements|, 0)];
        elements := elements + [value];
      }
      issued := issued + {key};
    }

    /** slot_map::clear: empties all three vectors. Handles issued before are
        no longer in `issued`: their identifiers are out of range. */
    method Clear()
      modifies this
      ensures Valid() && Model() == Empty() && issued == {}
    {
      elements := [];
      indices := [];
      erased := [];
      issued := {};
    }

    /** slot_map::erase. Nothing happens on a generation mismatch. Otherwise the
        element is removed in place, the loop moves every later position down by
        one, and the entry is marked freed, bumped and pushed on the free stack. */
    method Erase(key: Handle)
      requires Valid() && Admissible(Model(), key)
      modifies this
      ensures Valid() && issued == old(issued)
      ensures Model() == SlotMapSpec.Erase(old(Model()), key)
      ensures old(indices[key.id].generation) != key.generation ==>
        elements == old(elements) && indices == old(indices) && erased == old(erased)
      ensures old(indices[key.id].generation) == key.generation ==>
        var p := old(indices[key.id].index);
        elements == old(elements[..p] + elements[p + 1..]) &&
        |indices| == old(|indices|) &&
        (forall id :: 0 <= id < |indices| && id != key.id ==>
           indices[id] == ShiftEntry(old(indices[id]), p)) &&
        indices[key.id] == Entry(SIZE_MAX, key.generation + 1) &&
        erased == old(erased) + [key.id] &&
        SlotMapSpec.Get(Model(), key) == OutOfRange
      ensures forall g :: old(ValidHandle(Model(), g)) && g != key ==>
        ValidHandle(Model(), g) && Resolvable(Model(), g) &&
        SlotMapSpec.Get(Model(), g) == old(SlotMapSpec.Get(Model(), g))
    {
      ghost var before := Model();
      SlotMapProofs.AdmissibleResolvable(before, key);
      SlotMapProofs.EraseSound(before, issued, key);
      SlotMapProofs.EraseKeepsAllOthers(before, key);
      var entry := indices[key.id];
      if entry.generation != key.generation {
        return;
      }
      var pos := entry.index;
      elements := elements[..pos] + elements[pos + 1..];
      ShiftIndices(pos);
      indices := indices[key.id := Entry(SIZE_MAX, entry.generation + 1)];
      erased := erased + [key.id];
    }

    /** The loop of slot_map::erase: every entry whose position lies after the
        erased position `pos` moves down by one, in place; nothing else changes. */
    method ShiftIndices(pos: nat)
      modifies this
      ensures indices == Shift(old(indices), pos)
      ensures elements == old(elements) && erased == old(erased) && issued == old(issued)
    {
      var i := 0;
      while i < |indices|
        invariant 0 <= i <= |indices| == old(|indices|)
        invariant forall k :: 0 <= k < i ==> indices[k] == ShiftEntry(old(indices[k]), pos)
        invariant forall k :: i <= k < |indices| ==> indices[k] == old(indices[k])
        invariant elements == old(elements) && erased == old(erased) && issued == old(issued)
      {
        if indices[i].index > pos {
          indices := indices[i := indices[i].(index := indices[i].index - 1)];
        }
        i := i + 1;
      }
    }

    /** slot_map::operator[]: reads the entry, fails on a generation mismatch,
        else yields the element at the recorded position. Only the non-const
        overload can be instantiated: the const one binds a non-const reference
        to an element of the const table. For a handle issued since the last
        clear(), the lookup succeeds exactly when the handle is live. */
    function Get(key: Handle): (r: Lookup<T>)
      reads this
      requires Resolvable(Model(), key)
      ensures r == SlotMapSpec.Get(Model(), key)
      ensures Valid() && key in issued ==> (r.Found? <==> ValidHandle(Model(), key))
    {
      var entry := indices[key.id];
      if entry.generation != key.generation then OutOfRange else Found(elements[entry.index])
    }
  }

  /** spl::slot_wrap<T>: a key and the map that issued it. It caches nothing. */
  datatype SlotWrap<T> = SlotWrap(key: Handle, owner: SlotMap<T>)
  {
    /** operator* and operator-> (const and not): look the key up in the owner
        again, on every dereference. */
    function Deref(): (r: Lookup<T>)
      reads owner
      requires Resolvable(owner.Model(), key)
      ensures r == SlotMapSpec.Get(owner.Model(), key)
    {
      owner.Get(key)
    }
  }
}
