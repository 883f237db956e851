/** Clients of SlotMaps that replay the usage the repository shows: the sample
    program in samples/test/main.cpp, and an insert that reuses an erased
    identifier. Every assertion follows from the class's contracts alone. */
module SampleTest {
  import opened SlotMapSpec
  import opened SlotMaps

  /** samples/test/main.cpp: two insertions, iteration, erase through the key of
      a wrapper, lookup of the survivor, and a dereference of the wrapper that
      now fails. */
  method SampleMain()
  {
    var sm := new SlotMap<string>();
    var h1 := sm.EmplaceBack("Hello!\n");
    var s1 := sm.AsWrap(h1);
    var s2 := sm.EmplaceBack("Buh-bye!\n");
    assert sm.elements == ["Hello!\n", "Buh-bye!\n"];

    sm.Erase(s1.key);
    assert sm.elements == ["Buh-bye!\n"];
    assert sm.Get(s2) == Found("Buh-bye!\n");
    assert s1.Deref() == OutOfRange;
  }

  /** Three insertions, an erase of the second, and a fourth insertion: it gets
      the second's identifier under a new generation, so the old handle still
      fails while the new one resolves and the others are undisturbed. Erasing
      the old handle again changes nothing. */
  method ReuseScenario()
  {
    var sm := new SlotMap<int>();
    var h1 := sm.EmplaceBack(10);
    var h2 := sm.EmplaceBack(20);
    var h3 := sm.EmplaceBack(30);
    sm.Erase(h2);
    var h4 := sm.EmplaceBack(40);
    assert h4.id == h2.id && h4.generation != h2.generation;
    assert sm.Get(h2) == OutOfRange;
    assert sm.Get(h4) == Found(40);
    assert sm.Get(h1) == Found(10) && sm.Get(h3) == Found(30);

    ghost var before := sm.Model();
    sm.Erase(h2);
    assert sm.Model() == before;
  }
}
