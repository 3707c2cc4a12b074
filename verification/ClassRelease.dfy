/** How the interface vectors of ordinary classes are given back: as the value they are, by deinit of the class
    object. */
module ClassRelease {
  import opened Store
  import opened ClassDispatch
  import opened Types
  import opened Releasing

  // ---- Interface vectors as values -------------------------------------------------------------------------

  function SlotValues(slots: Slots): Values {
    if slots == [] then Nil else Cons(Ptr(RefOf(slots[0])), SlotValues(slots[1..]))
  }

  /** An entry, with the block of its method vector; an interface without methods has no vector. */
  function EntryValue(e: Entry, block: nat): Value {
    Inline(Cons(Ptr(InterfaceRef(e)),
           Cons(Buffer(if e.slots == [] then None else Some(block), SlotValues(e.slots)), Nil)))
  }

  /** Entries, with blocks numbered from `block`. */
  function EntryValues(es: seq<Entry>, block: nat): Values {
    if es == [] then Nil else Cons(EntryValue(es[0], block), EntryValues(es[1..], block + 1))
  }

  /** The interfaceVector member of a class; a class without interfaces has no buffer. */
  function VectorsValue(es: seq<Entry>): Value {
    Buffer(if es == [] then None else Some(0), EntryValues(es, 1))
  }

  /** `f` and `g` are the flags of the classes of interfaces and of objects. */
  function VectorsType(f: Flags, g: Flags): Type {
    Sequence(Record(VectorMembers(f, g)))
  }

  lemma {:induction false} SlotsTyped(slots: Slots, g: Flags)
    ensures AllOf(SlotValues(slots), Object(g), false)
  {
    if slots != [] {
      SlotsTyped(slots[1..], g);
    }
  }

  lemma EntryTyped(e: Entry, block: nat, f: Flags, g: Flags)
    ensures HasType(EntryValue(e, block), Record(VectorMembers(f, g)))
  {
    SlotsTyped(e.slots, g);
    var buffer := Buffer(if e.slots == [] then None else Some(block), SlotValues(e.slots));
    assert HasType(buffer, Sequence(Object(g)));
    assert Fields(Cons(buffer, Nil), MembersOf([Sequence(Object(g))]));
    assert VectorMembers(f, g)[1..] == [Sequence(Object(g))];
    assert Fields(Cons(Ptr(InterfaceRef(e)), Cons(buffer, Nil)), MembersOf(VectorMembers(f, g)));
  }

  lemma {:induction false} EntriesTyped(es: seq<Entry>, block: nat, f: Flags, g: Flags)
    ensures AllOf(EntryValues(es, block), Record(VectorMembers(f, g)), false)
  {
    if es != [] {
      hide HasType, EntryValue;
      EntryTyped(es[0], block, f, g);
      EntriesTyped(es[1..], block + 1, f, g);
    }
  }

  // ---- The claims and blocks they own ----------------------------------------------------------------------

  lemma {:induction false} SlotClaims(slots: Slots, r: Ref)
    ensures OwnedAll(SlotValues(slots), Claim(r)) == if r == NULL then 0 else HeldBy(slots)[r]
    ensures forall b :: OwnedAll(SlotValues(slots), Block(b)) == 0
  {
    if slots != [] {
      SlotClaims(slots[1..], r);
      HeldByFront(slots);
    }
  }

  lemma EntryClaims(e: Entry, block: nat, r: Ref)
    ensures Owned(EntryValue(e, block), Claim(r)) ==
            if r == NULL then 0 else HeldBy(e.slots)[r] + (if InterfaceRef(e) == r then 1 else 0)
    ensures forall b :: Owned(EntryValue(e, block), Block(b)) == if e.slots != [] && b == block then 1 else 0
  {
    SlotClaims(e.slots, r);
    var iface := Ptr(InterfaceRef(e));
    var buffer := Buffer(if e.slots == [] then None else Some(block), SlotValues(e.slots));
    PairOwns(iface, buffer, Claim(r));
    forall b ensures Owned(EntryValue(e, block), Block(b)) == if e.slots != [] && b == block then 1 else 0 {
      PairOwns(iface, buffer, Block(b));
    }
  }

  lemma PairOwns(v: Value, w: Value, r: Resource)
    ensures Owned(Inline(Cons(v, Cons(w, Nil))), r) == Owned(v, r) + Owned(w, r)
  {
    OwnedOne(v, Cons(w, Nil), r);
    OwnedOne(w, Nil, r);
  }

  lemma {:induction false} InterfacesHeldFront(e: Entry, es: seq<Entry>)
    ensures InterfacesHeld([e] + es) == multiset{InterfaceRef(e)} + InterfacesHeld(es)
  {
    if es == [] {
      assert [e] + es == [] + [e];
      HeldAppend([], e);
    } else {
      var init, last := es[..|es| - 1], es[|es| - 1];
      InterfacesHeldFront(e, init);
      assert [e] + es == ([e] + init) + [last];
      HeldAppend([e] + init, last);
    }
  }

  lemma {:induction false} EntriesClaims(es: seq<Entry>, block: nat, r: Ref)
    ensures OwnedAll(EntryValues(es, block), Claim(r)) ==
            if r == NULL then 0 else MethodsHeld(es)[r] + InterfacesHeld(es)[r]
  {
    if es != [] {
      hide Owned, HeldBy, EntryValue;
      EntryClaims(es[0], block, r);
      EntriesClaims(es[1..], block + 1, r);
      assert es == [es[0]] + es[1..];
      MethodsHeldFront(es[0], es[1..]);
      InterfacesHeldFront(es[0], es[1..]);
      hide MethodsHeld, InterfacesHeld;
    }
  }

  /** Interface vectors own one claim per filled slot and one per stored interface. */
  lemma VectorsClaims(es: seq<Entry>, r: Ref)
    ensures Owned(VectorsValue(es), Claim(r)) == if r == NULL then 0 else (MethodsHeld(es) + InterfacesHeld(es))[r]
  {
    hide MethodsHeld, InterfacesHeld, EntryValues, OwnedAll;
    EntriesClaims(es, 1, r);
  }

  /** No buffer is owned twice. */
  lemma VectorsBlocks(es: seq<Entry>, b: nat)
    ensures Owned(VectorsValue(es), Block(b)) ==
            if (b == 0 && es != []) || (0 < b <= |es| && es[b - 1].slots != []) then 1 else 0
  {
    EntriesBlocks(es, 1, b);
  }

  lemma {:induction false} EntriesBlocks(es: seq<Entry>, block: nat, b: nat)
    ensures OwnedAll(EntryValues(es, block), Block(b)) ==
            if block <= b < block + |es| && es[b - block].slots != [] then 1 else 0
  {
    if es != [] {
      EntryClaims(es[0], block, NULL);
      EntriesBlocks(es[1..], block + 1, b);
    }
  }

  // ---- Deinit ------------------------------------------------------------------------------------------------

  lemma VectorsTyped(es: seq<Entry>, f: Flags, g: Flags)
    ensures HasType(VectorsValue(es), VectorsType(f, g))
  {
    hide Record, EntryValue;
    EntriesTyped(es, 1, f, g);
  }

  /** Deinit gives back exactly what interface vectors own, whatever they hold. */
  lemma VectorsReleased(es: seq<Entry>, f: Flags, g: Flags)
    ensures HasType(VectorsValue(es), VectorsType(f, g))
    ensures DeinitExact(VectorsValue(es), VectorsType(f, g))
  {
    VectorsTyped(es, f, g);
    assert Covered(Sequence(Object(g)));
    RecordReleasable(VectorMembers(f, g), VectorMembers(f, g)[0]);
    hide Record, HasType, VectorsValue, DeinitExact;
    DeinitComplete(VectorsValue(es), VectorsType(f, g));
  }

  /** The claims of a class that is not builtin come back when its object is deinitialised: whatever the
      counters accounted for in its vectors, after releasing what deinit gives back they are what everybody
      else holds, for methods and interfaces alike. */
  lemma DeinitReturnsClaims(store: ObjectStore, es: seq<Entry>, others: Ref -> int, f: Flags, g: Flags, r: Ref)
    requires Owns(store, es, |es|, others)
    ensures HasType(VectorsValue(es), VectorsType(f, g))
    ensures store.Count(r) - (if r in store.builtin then 0 else Deinit(VectorsValue(es), VectorsType(f, g), Claim(r)))
            == others(r)
  {
    VectorsReleased(es, f, g);
    VectorsClaims(es, r);
    assert es[..|es|] == es;
    assert store.Balance(MethodsHeld(es) + InterfacesHeld(es), r) == others(r);
    assert Deinit(VectorsValue(es), VectorsType(f, g), Claim(r)) == Owned(VectorsValue(es), Claim(r));
  }
}
