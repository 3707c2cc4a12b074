/** Interface dispatch of classes: checking that a class implements an interface, the per-interface method
    vectors built while doing so, the claims these vectors hold, and calls through them. */
module ClassDispatch {
  import opened Store
  import opened MethodLookup

  /** A constructed interface: its identity, its method table and its base. */
  datatype Interface = Interface(ref: Ref, methods: seq<Method>, base: Option<Interface>)

  type Slots = seq<Option<Method>>

  /** One interfaceVector entry; entries never reached by construction stay zeroed. */
  datatype Entry = Entry(iface: Option<Interface>, slots: Slots)

  // ---- Checking one interface ------------------------------------------------------------------------

  /** The method of the class that backs an interface method, if an exact and compatible one exists. */
  function Implementation(rules: Rules, table: seq<Method>, im: Method): (r: Option<Method>)
    ensures r.Some? ==> r.value in table
  {
    var k := ExactMatch(rules, table, im.id);
    if k.Some? && rules.compatible(im, table[k.value]) then Some(table[k.value]) else None
  }

  /** The vector is long enough for the methods of every base level. */
  predicate Fits(iface: Interface, n: nat) {
    |iface.methods| <= n && (iface.base.Some? ==> Fits(iface.base.value, n))
  }

  function FillLevel(rules: Rules, table: seq<Method>, ims: seq<Method>, n: nat, slots: Slots): (r: Slots)
    requires n <= |ims| <= |slots|
    ensures |r| == |slots|
  {
    seq(|slots|, i requires 0 <= i < |slots| =>
      if i < n && Implementation(rules, table, ims[i]).Some? then Implementation(rules, table, ims[i]) else slots[i])
  }

  /** The vector after the interface and then its bases have written to it. */
  function Fill(rules: Rules, table: seq<Method>, iface: Interface, slots: Slots): (r: Slots)
    requires Fits(iface, |slots|)
    ensures |r| == |slots|
    decreases iface
  {
    var s := FillLevel(rules, table, iface.methods, |iface.methods|, slots);
    if iface.base.Some? then Fill(rules, table, iface.base.value, s) else s
  }

  /** The verdict on one level as the loop leaves it: each method overwrites the one before. */
  predicate LastVerdict(rules: Rules, table: seq<Method>, ims: seq<Method>, n: nat)
    requires n <= |ims|
  {
    n == 0 || Implementation(rules, table, ims[n - 1]).Some?
  }

  predicate CodedVerdict(rules: Rules, table: seq<Method>, iface: Interface)
    decreases iface
  {
    && LastVerdict(rules, table, iface.methods, |iface.methods|)
    && (iface.base.Some? ==> CodedVerdict(rules, table, iface.base.value))
  }

  function RefOf(slot: Option<Method>): Ref {
    if slot.Some? then slot.value.ref else NULL
  }

  function SlotRefs(slots: Slots): (r: seq<Ref>)
    ensures |r| == |slots| && forall i :: 0 <= i < |slots| ==> r[i] == RefOf(slots[i])
  {
    seq(|slots|, i requires 0 <= i < |slots| => RefOf(slots[i]))
  }

  function HeldBy(slots: Slots): multiset<Ref> {
    multiset(SlotRefs(slots))
  }

  lemma HeldByUpdate(slots: Slots, k: nat, m: Option<Method>)
    requires k < |slots|
    ensures HeldBy(slots[k := m]) == HeldBy(slots) - multiset{RefOf(slots[k])} + multiset{RefOf(m)}
    ensures RefOf(slots[k]) in HeldBy(slots)
  {
    assert SlotRefs(slots[k := m]) == SlotRefs(slots)[k := RefOf(m)];
    assert SlotRefs(slots)[k] in SlotRefs(slots);
  }

  /** Everybody else keeps the methods of the class table alive, and the vector holds only such methods. */
  ghost predicate Supported(store: ObjectStore, table: seq<Method>, slots: Slots, others: Ref -> int) {
    && (forall m :: m in table ==> others(m.ref) > 0 || m.ref in store.builtin)
    && (forall i :: 0 <= i < |slots| && slots[i].Some? ==> slots[i].value in table)
  }

  method SetSlot(
    store: ObjectStore, vtable: array<Option<Method>>, k: nat, m: Method,
    ghost table: seq<Method>, ghost others: Ref -> int)
    requires k < vtable.Length && m in table
    requires store.Accounts(HeldBy(vtable[..]), others)
    modifies vtable, store
    ensures vtable[..] == old(vtable[..])[k := Some(m)]
    ensures store.Accounts(HeldBy(vtable[..]), others)
    ensures Supported(store, table, old(vtable[..]), others) ==>
              store.destructed == old(store.destructed) && Supported(store, table, vtable[..], others)
  {
    ghost var was := vtable[..];
    HeldByUpdate(was, k, Some(m));
    hide HeldBy, ObjectStore.Accounts;
    store.ReplaceHeld(RefOf(vtable[k]), m.ref, HeldBy(was), others);
    vtable[k] := Some(m);
    assert vtable[..] == was[k := Some(m)];
  }

  /** One turn of the checking loop. */
  method CheckMethod(
    rules: Rules, table: seq<Method>, im: Method, vtable: array<Option<Method>>, i: nat, store: ObjectStore,
    ghost others: Ref -> int)
    returns (compatible: bool)
    requires i < vtable.Length
    requires store.Accounts(HeldBy(vtable[..]), others)
    modifies vtable, store
    ensures compatible == Implementation(rules, table, im).Some?
    ensures vtable[..] == if compatible then old(vtable[..])[i := Implementation(rules, table, im)] else old(vtable[..])
    ensures store.Accounts(HeldBy(vtable[..]), others)
    ensures Supported(store, table, old(vtable[..]), others) ==>
              store.destructed == old(store.destructed) && Supported(store, table, vtable[..], others)
  {
    var found, d := LookupFunction(rules, table, im.id);
    if found.Some? && d == 0 {
      compatible := rules.compatible(im, table[found.value]);
      if compatible {
        SetSlot(store, vtable, i, table[found.value], table, others);
      }
    } else {
      compatible := false;
    }
  }

  lemma FillLevelNone(rules: Rules, table: seq<Method>, ims: seq<Method>, slots: Slots)
    requires |ims| <= |slots|
    ensures FillLevel(rules, table, ims, 0, slots) == slots
  {
  }

  lemma FillLevelStep(rules: Rules, table: seq<Method>, ims: seq<Method>, n: nat, slots: Slots)
    requires n < |ims| <= |slots|
    ensures var before := FillLevel(rules, table, ims, n, slots);
            var r := Implementation(rules, table, ims[n]);
            FillLevel(rules, table, ims, n + 1, slots) == if r.Some? then before[n := r] else before
  {
  }

  /** corto_class_checkInterfaceCompatibility: fills the vector and reports a verdict. Rewriting slots on
      the way down the bases moves no claim and destructs no method, whatever the bases contain. */
  method CheckInterfaceCompatibility(
    rules: Rules, table: seq<Method>, iface: Interface, vtable: array<Option<Method>>, store: ObjectStore,
    ghost others: Ref -> int)
    returns (compatible: bool)
    requires Fits(iface, vtable.Length)
    requires store.Accounts(HeldBy(vtable[..]), others)
    modifies vtable, store
    ensures vtable[..] == Fill(rules, table, iface, old(vtable[..]))
    ensures compatible == CodedVerdict(rules, table, iface)
    ensures store.Accounts(HeldBy(vtable[..]), others)
    ensures Supported(store, table, old(vtable[..]), others) ==>
              store.destructed == old(store.destructed) && Supported(store, table, vtable[..], others)
    decreases iface
  {
    hide ObjectStore.Accounts, Supported, FillLevel, HeldBy, Implementation;
    compatible := true;
    var i := 0;
    ghost var start := vtable[..];
    FillLevelNone(rules, table, iface.methods, start);
    while i < |iface.methods|
      invariant i <= |iface.methods|
      invariant vtable[..] == FillLevel(rules, table, iface.methods, i, start)
      invariant compatible == LastVerdict(rules, table, iface.methods, i)
      invariant store.Accounts(HeldBy(vtable[..]), others)
      invariant Supported(store, table, start, others) ==>
                  store.destructed == old(store.destructed) && Supported(store, table, vtable[..], others)
    {
      compatible := CheckMethod(rules, table, iface.methods[i], vtable, i, store, others);
      FillLevelStep(rules, table, iface.methods, i, start);
      i := i + 1;
    }
    if iface.base.Some? {
      var b := CheckInterfaceCompatibility(rules, table, iface.base.value, vtable, store, others);
      compatible := compatible && b;
    }
  }

  // ---- All interfaces of a class ---------------------------------------------------------------------

  function NoSlots(n: nat): (r: Slots)
    ensures |r| == n
  {
    seq(n, i => None)
  }

  /** Construction gets to interface `i` when every earlier one was accepted. */
  predicate Reached(rules: Rules, table: seq<Method>, implements: seq<Interface>, i: nat)
    requires i <= |implements|
  {
    forall j :: 0 <= j < i ==> CodedVerdict(rules, table, implements[j])
  }

  predicate AllFit(implements: seq<Interface>) {
    forall j :: 0 <= j < |implements| ==> Fits(implements[j], |implements[j].methods|)
  }

  function EntryFor(rules: Rules, table: seq<Method>, iface: Interface): Entry
    requires Fits(iface, |iface.methods|)
  {
    Entry(Some(iface), Fill(rules, table, iface, NoSlots(|iface.methods|)))
  }

  const ZEROED := Entry(None, [])

  /** The interface vectors construction leaves behind, also when it stops early. */
  function Entries(rules: Rules, table: seq<Method>, implements: seq<Interface>): (r: seq<Entry>)
    requires AllFit(implements)
    ensures |r| == |implements|
  {
    seq(|implements|, i requires 0 <= i < |implements| =>
      if Reached(rules, table, implements, i) then EntryFor(rules, table, implements[i]) else ZEROED)
  }

  /** Claims on methods held by the vectors of `es`. */
  function MethodsHeld(es: seq<Entry>): multiset<Ref> {
    if es == [] then multiset{} else MethodsHeld(es[..|es| - 1]) + HeldBy(es[|es| - 1].slots)
  }

  function InterfaceRef(e: Entry): Ref {
    if e.iface.Some? then e.iface.value.ref else NULL
  }

  /** Claims on interfaces held by the entries of `es`. */
  function InterfacesHeld(es: seq<Entry>): multiset<Ref> {
    if es == [] then multiset{} else InterfacesHeld(es[..|es| - 1]) + multiset{InterfaceRef(es[|es| - 1])}
  }

  lemma HeldAppend(es: seq<Entry>, e: Entry)
    ensures MethodsHeld(es + [e]) == MethodsHeld(es) + HeldBy(e.slots)
    ensures InterfacesHeld(es + [e]) == InterfacesHeld(es) + multiset{InterfaceRef(e)}
  {
    assert (es + [e])[..|es|] == es;
  }

  lemma NoSlotsHoldNothing(n: nat)
    ensures forall r :: r != NULL ==> HeldBy(NoSlots(n))[r] == 0
  {
    forall r | r != NULL ensures HeldBy(NoSlots(n))[r] == 0 {
      assert r !in SlotRefs(NoSlots(n));
    }
  }

  /** Entries never reached hold nothing. */
  lemma {:induction false} ZeroedHoldNothing(es: seq<Entry>, n: nat)
    requires n <= |es| && forall i :: n <= i < |es| ==> es[i] == ZEROED
    ensures MethodsHeld(es) == MethodsHeld(es[..n])
    ensures forall r :: r != NULL ==> InterfacesHeld(es)[r] == InterfacesHeld(es[..n])[r]
  {
    if n < |es| {
      var shorter := es[..|es| - 1];
      ZeroedHoldNothing(shorter, n);
      assert shorter[..n] == es[..n];
      assert HeldBy([]) == multiset{};
    } else {
      assert es[..n] == es;
    }
  }

  /** The counters account for exactly one claim per filled slot and one per stored interface in the
      first `n` entries. */
  ghost predicate Owns(store: ObjectStore, es: seq<Entry>, n: nat, others: Ref -> int)
    requires n <= |es|
    reads store
  {
    store.Accounts(MethodsHeld(es[..n]) + InterfacesHeld(es[..n]), others)
  }

  lemma OwnsAll(store: ObjectStore, es: seq<Entry>, n: nat, others: Ref -> int)
    requires n <= |es| && forall i :: n <= i < |es| ==> es[i] == ZEROED
    requires Owns(store, es, n, others)
    ensures Owns(store, es, |es|, others)
  {
    ZeroedHoldNothing(es, n);
    assert es[..|es|] == es;
    forall r ensures store.Balance(MethodsHeld(es) + InterfacesHeld(es), r) == others(r) {
      assert store.Balance(MethodsHeld(es[..n]) + InterfacesHeld(es[..n]), r) == others(r);
    }
  }

  lemma OwnsNext(store: ObjectStore, done: seq<Entry>, es: seq<Entry>, i: nat, others: Ref -> int)
    requires i < |es| && es[..i] == done && es[i].iface.Some?
    requires store.Accounts(MethodsHeld(done) + InterfacesHeld(done) + multiset{es[i].iface.value.ref}
                             + HeldBy(es[i].slots), others)
    ensures Owns(store, es, i + 1, others)
  {
    assert es[..i + 1] == done + [es[i]];
    HeldAppend(done, es[i]);
    assert MethodsHeld(es[..i + 1]) + InterfacesHeld(es[..i + 1]) ==
           MethodsHeld(done) + InterfacesHeld(done) + multiset{es[i].iface.value.ref} + HeldBy(es[i].slots);
  }

  /** The first `i` interfaces have been processed, the last of them with verdict `ok`. */
  ghost predicate Progress(
    rules: Rules, table: seq<Method>, implements: seq<Interface>, entries: seq<Entry>, i: nat, ok: bool)
  {
    && AllFit(implements) && i <= |implements| == |entries|
    && (forall j :: 0 <= j < i ==> entries[j] == EntryFor(rules, table, implements[j]))
    && (forall j :: 0 <= j < i - 1 ==> CodedVerdict(rules, table, implements[j]))
    && (forall j :: i <= j < |entries| ==> entries[j] == ZEROED)
    && (ok <==> Reached(rules, table, implements, i))
    && (!ok ==> i > 0)
  }

  lemma ProgressNext(
    rules: Rules, table: seq<Method>, implements: seq<Interface>, entries: seq<Entry>, i: nat, ok: bool)
    requires i < |implements| && Progress(rules, table, implements, entries, i, true)
    requires ok == CodedVerdict(rules, table, implements[i])
    ensures |entries| == |implements| && Fits(implements[i], |implements[i].methods|)
    ensures Progress(rules, table, implements, entries[i := EntryFor(rules, table, implements[i])], i + 1, ok)
  {
  }

  lemma ProgressDone(
    rules: Rules, table: seq<Method>, implements: seq<Interface>, entries: seq<Entry>, i: nat, ok: bool)
    requires Progress(rules, table, implements, entries, i, ok)
    requires i == |implements| || !ok
    ensures entries == Entries(rules, table, implements)
    ensures ok <==> Reached(rules, table, implements, |implements|)
    ensures forall j :: i <= j < |entries| ==> entries[j] == ZEROED
  {
    forall j | 0 <= j < |entries| ensures entries[j] == Entries(rules, table, implements)[j] {
      assert Reached(rules, table, implements, j) <==> j < i;
    }
  }

  /** The claims of everybody else together with those in `held`. */
  ghost function Plus(store: ObjectStore, others: Ref -> int, held: multiset<Ref>): Ref -> int {
    (r: Ref) => others(r) + store.Weight(held, r)
  }

  lemma RegroupAccounts(store: ObjectStore, others: Ref -> int, kept: multiset<Ref>, held: multiset<Ref>)
    requires store.Accounts(held, Plus(store, others, kept))
    ensures store.Accounts(kept + held, others)
  {
    forall r ensures store.Balance(kept + held, r) == others(r) {
      assert store.Balance(held, r) == Plus(store, others, kept)(r);
    }
  }

  /** One turn of the loop in corto_class_construct: claims the interface, allocates its vector and checks
      it, on top of the pointers `held` so far. */
  method BuildVector(
    rules: Rules, table: seq<Method>, iface: Interface, ghost held: multiset<Ref>, store: ObjectStore,
    ghost others: Ref -> int)
    returns (e: Entry, ok: bool)
    requires Fits(iface, |iface.methods|) && iface.ref != NULL
    requires store.Accounts(held, others)
    modifies store
    ensures e == EntryFor(rules, table, iface)
    ensures ok == CodedVerdict(rules, table, iface)
    ensures store.Accounts(held + multiset{iface.ref} + HeldBy(e.slots), others)
    ensures Supported(store, table, [], others) ==> store.destructed == old(store.destructed)
  {
    store.ClaimHeld(iface.ref, held, others);
    ghost var kept := held + multiset{iface.ref};
    ghost var theirs := Plus(store, others, kept);
    var slots := new Option<Method>[|iface.methods|](_ => None);
    assert slots[..] == NoSlots(|iface.methods|);
    assert store.Accounts(HeldBy(slots[..]), theirs) by {
      NoSlotsHoldNothing(|iface.methods|);
    }
    ok := CheckInterfaceCompatibility(rules, table, iface, slots, store, theirs);
    e := Entry(Some(iface), slots[..]);
    RegroupAccounts(store, others, kept, HeldBy(slots[..]));
  }

  /** A class object. A vector is filled in place in an array by CheckInterfaceCompatibility; the finished
      vectors are kept here. */
  class ClassType {
    const ref: Ref
    const base: ClassType?
    const table: seq<Method>
    const implements: seq<Interface>
    var interfaceVector: seq<Entry>

    constructor (ref: Ref, base: ClassType?, table: seq<Method>, implements: seq<Interface>)
      ensures this.ref == ref && this.base == base && this.table == table && this.implements == implements
      ensures interfaceVector == []
    {
      this.ref, this.base, this.table, this.implements := ref, base, table, implements;
      interfaceVector := [];
    }

    /** corto_class_construct, from the point where the struct part has been constructed with outcome
        `structOk`. The counters account for exactly one claim per filled slot and one per stored
        interface, also when an interface is rejected halfway. */
    method Construct(rules: Rules, structOk: bool, store: ObjectStore, ghost others: Ref -> int) returns (ok: bool)
      requires interfaceVector == []
      requires AllFit(implements) && forall i :: 0 <= i < |implements| ==> implements[i].ref != NULL
      requires store.Accounts(multiset{}, others)
      modifies this, store
      ensures interfaceVector == if structOk then Entries(rules, table, implements) else []
      ensures ok <==> structOk && Reached(rules, table, implements, |implements|)
      ensures Owns(store, interfaceVector, |interfaceVector|, others)
      ensures Supported(store, table, [], others) ==> store.destructed == old(store.destructed)
    {
      if !structOk {
        return false;
      }
      interfaceVector := seq(|implements|, _ => ZEROED);
      assert Owns(store, interfaceVector, 0, others);
      hide Progress, Owns, ObjectStore.Accounts, Supported, Reached, Entries, EntryFor, Fill;
      ok := true;
      var i := 0;
      while i < |implements| && ok
        invariant i <= |implements| == |interfaceVector|
        invariant Progress(rules, table, implements, interfaceVector, i, ok)
        invariant Owns(store, interfaceVector, i, others)
        invariant Supported(store, table, [], others) ==> store.destructed == old(store.destructed)
      {
        ghost var done := interfaceVector[..i];
        ghost var held := MethodsHeld(done) + InterfacesHeld(done);
        var e;
        e, ok := BuildVector(rules, table, implements[i], held, store, others);
        ProgressNext(rules, table, implements, interfaceVector, i, ok);
        interfaceVector := interfaceVector[i := e];
        OwnsNext(store, done, interfaceVector, i, others);
        i := i + 1;
      }
      ProgressDone(rules, table, implements, interfaceVector, i, ok);
      OwnsAll(store, interfaceVector, i, others);
    }

    /** The vector part of corto_class_destruct. Only builtin classes take the freeing path; it returns
        every claim on a method but none of the claims on interfaces, whose pointers it just zeroes. */
    method Destruct(store: ObjectStore, ghost others: Ref -> int)
      requires Owns(store, interfaceVector, |interfaceVector|, others)
      modifies this, store
      ensures interfaceVector == if ref in store.builtin then Cleared(old(interfaceVector)) else old(interfaceVector)
      ensures if ref in store.builtin then store.Accounts(InterfacesHeld(old(interfaceVector)), others)
              else Owns(store, interfaceVector, |interfaceVector|, others)
    {
      if ref in store.builtin {
        ghost var kept := InterfacesHeld(interfaceVector);
        assert interfaceVector[..|interfaceVector|] == interfaceVector;
        FreeVectors(store, kept, others);
      }
    }

    method FreeVectors(store: ObjectStore, ghost kept: multiset<Ref>, ghost others: Ref -> int)
      requires store.Accounts(MethodsHeld(interfaceVector) + kept, others)
      modifies this, store
      ensures interfaceVector == Cleared(old(interfaceVector))
      ensures store.Accounts(kept, others)
    {
      hide MethodsHeld, HeldBy, ObjectStore.Accounts;
      ghost var es := interfaceVector;
      assert es[0..] == es;
      var i := 0;
      while i < |interfaceVector|
        invariant i <= |interfaceVector| == |es|
        invariant interfaceVector[i..] == es[i..] && interfaceVector[..i] == Cleared(es[..i])
        invariant store.Accounts(MethodsHeld(es[i..]) + kept, others)
      {
        assert interfaceVector[i] == es[i];
        var slots := interfaceVector[i].slots;
        MethodsHeldFrom(es, i, kept);
        ReleaseSlots(slots, store, MethodsHeld(es[i + 1..]) + kept, others);
        interfaceVector := interfaceVector[i := Entry(None, NoSlots(|slots|))];
        i := i + 1;
      }
      NothingHeld(es[i..], kept);
      assert es[..i] == es && interfaceVector[..i] == interfaceVector;
    }
  }

  lemma NothingHeld(es: seq<Entry>, kept: multiset<Ref>)
    requires es == []
    ensures MethodsHeld(es) + kept == kept
  {
  }

  lemma MethodsHeldFrom(es: seq<Entry>, i: nat, kept: multiset<Ref>)
    requires i < |es|
    ensures MethodsHeld(es[i..]) + kept == HeldBy(es[i].slots) + (MethodsHeld(es[i + 1..]) + kept)
  {
    assert es[i..] == [es[i]] + es[i + 1..];
    MethodsHeldFront(es[i], es[i + 1..]);
  }

  /** The vectors with every pointer zeroed, as the freeing path leaves them. */
  function Cleared(es: seq<Entry>): (r: seq<Entry>)
    ensures |r| == |es|
  {
    seq(|es|, i requires 0 <= i < |es| => Entry(None, NoSlots(|es[i].slots|)))
  }

  lemma {:induction false} MethodsHeldFront(e: Entry, es: seq<Entry>)
    ensures MethodsHeld([e] + es) == HeldBy(e.slots) + MethodsHeld(es)
  {
    if es == [] {
      assert [e] + es == [] + [e];
      HeldAppend([], e);
    } else {
      var init, last := es[..|es| - 1], es[|es| - 1];
      MethodsHeldFront(e, init);
      assert [e] + es == ([e] + init) + [last];
      HeldAppend([e] + init, last);
    }
  }

  lemma HeldByFront(slots: Slots)
    requires slots != []
    ensures HeldBy(slots) == multiset{RefOf(slots[0])} + HeldBy(slots[1..])
  {
    assert SlotRefs(slots) == [RefOf(slots[0])] + SlotRefs(slots[1..]);
  }

  /** Releases the method in every filled slot. */
  method ReleaseSlots(slots: Slots, store: ObjectStore, ghost held: multiset<Ref>, ghost others: Ref -> int)
    requires store.Accounts(HeldBy(slots) + held, others)
    modifies store
    ensures store.Accounts(held, others)
  {
    assert slots[0..] == slots;
    var j := 0;
    while j < |slots|
      invariant j <= |slots|
      invariant store.Accounts(HeldBy(slots[j..]) + held, others)
    {
      ghost var before := HeldBy(slots[j..]) + held;
      HeldByFront(slots[j..]);
      assert before - multiset{RefOf(slots[j])} == HeldBy(slots[j + 1..]) + held;
      if slots[j].Some? {
        store.ReleaseHeld(slots[j].value.ref, before, others);
      } else {
        DropNull(store, before, others);
      }
      j := j + 1;
    }
    assert HeldBy(slots[j..]) + held == held;
  }

  lemma DropNull(store: ObjectStore, held: multiset<Ref>, others: Ref -> int)
    requires store.Accounts(held, others)
    ensures store.Accounts(held - multiset{NULL}, others)
  {
    forall r ensures store.Balance(held - multiset{NULL}, r) == others(r) {
      assert store.Balance(held, r) == others(r);
    }
  }

  lemma {:induction false} InterfacesHeldMeaning(es: seq<Entry>, r: Ref)
    ensures r in InterfacesHeld(es) <==> exists i :: 0 <= i < |es| && InterfaceRef(es[i]) == r
  {
    if es != [] {
      var init := es[..|es| - 1];
      InterfacesHeldMeaning(init, r);
      assert forall i :: 0 <= i < |init| ==> init[i] == es[i];
      assert InterfaceRef(es[|es| - 1]) == r ==> r in InterfacesHeld(es);
    }
  }

  /** Claims on interfaces that nobody returns weigh nothing exactly if the interfaces are builtin. */
  lemma UnreturnedClaims(store: ObjectStore, es: seq<Entry>, others: Ref -> int)
    requires store.Accounts(InterfacesHeld(es), others)
    ensures store.Accounts(multiset{}, others) <==>
              forall i :: 0 <= i < |es| ==> InterfaceRef(es[i]) == NULL || InterfaceRef(es[i]) in store.builtin
  {
    if forall i :: 0 <= i < |es| ==> InterfaceRef(es[i]) == NULL || InterfaceRef(es[i]) in store.builtin {
      forall r ensures store.Balance(multiset{}, r) == others(r) {
        InterfacesHeldMeaning(es, r);
        assert store.Balance(InterfacesHeld(es), r) == others(r);
      }
    } else {
      var i :| 0 <= i < |es| && InterfaceRef(es[i]) != NULL && InterfaceRef(es[i]) !in store.builtin;
      var r := InterfaceRef(es[i]);
      InterfacesHeldMeaning(es, r);
      assert store.Balance(InterfacesHeld(es), r) == others(r);
      assert store.Balance(multiset{}, r) != others(r);
    }
  }

  /** Construction followed by destruction of a builtin class: every method counter is back where it was, and
      every interface got to keeps one claim that nobody will release. So all counters are back exactly if
      these interfaces are builtin and exempt from counting. */
  method ConstructAndDestruct(c: ClassType, rules: Rules, store: ObjectStore, ghost others: Ref -> int)
    requires c.interfaceVector == [] && c.ref in store.builtin
    requires AllFit(c.implements) && forall i :: 0 <= i < |c.implements| ==> c.implements[i].ref != NULL
    requires store.Accounts(multiset{}, others)
    modifies c, store
    ensures store.Accounts(InterfacesHeld(Entries(rules, c.table, c.implements)), others)
    ensures store.Accounts(multiset{}, others) <==>
              forall i :: 0 <= i < |c.implements| && Reached(rules, c.table, c.implements, i) ==>
                c.implements[i].ref in store.builtin
  {
    var _ := c.Construct(rules, true, store, others);
    c.Destruct(store, others);
    ghost var es := Entries(rules, c.table, c.implements);
    UnreturnedClaims(store, es, others);
    hide ObjectStore.Accounts, InterfacesHeld, Reached;
    assert forall i :: 0 <= i < |es| ==>
      InterfaceRef(es[i]) == if Reached(rules, c.table, c.implements, i) then c.implements[i].ref else NULL;
  }

  // ---- Calling through an interface ------------------------------------------------------------------

  /** `chain` is `c` followed by its bases up to the root. */
  ghost predicate IsChain(c: ClassType, chain: seq<ClassType>) {
    && chain != [] && chain[0] == c
    && (forall k :: 0 <= k < |chain| - 1 ==> chain[k].base == chain[k + 1])
    && chain[|chain| - 1].base == null
  }

  ghost function Vectors(chain: seq<ClassType>): (r: seq<seq<Entry>>)
    reads chain
    ensures |r| == |chain| && forall k :: 0 <= k < |chain| ==> r[k] == chain[k].interfaceVector
  {
    if chain == [] then [] else [chain[0].interfaceVector] + Vectors(chain[1..])
  }

  /** The first entry of a class for the interface. */
  function FirstEntry(es: seq<Entry>, iface: Interface): (r: Option<Entry>)
    ensures r.Some? ==> r.value in es && r.value.iface == Some(iface)
    ensures r.None? ==> forall e :: e in es ==> e.iface != Some(iface)
  {
    if es == [] then None
    else if es[0].iface == Some(iface) then Some(es[0])
    else FirstEntry(es[1..], iface)
  }

  /** The entry found by going up the chain from class `k`. */
  function NearestEntry(vectors: seq<seq<Entry>>, iface: Interface, k: nat): (r: Option<Entry>)
    requires k <= |vectors|
    ensures r.Some? ==> r.value.iface == Some(iface)
    decreases |vectors| - k
  {
    if k == |vectors| then None
    else
      var e := FirstEntry(vectors[k], iface);
      if e.Some? then e else NearestEntry(vectors, iface, k + 1)
  }

  /** Every vector for the interface is long enough for the method number. */
  ghost predicate LongEnough(vectors: seq<seq<Entry>>, iface: Interface, n: nat) {
    forall k, i :: 0 <= k < |vectors| && 0 <= i < |vectors[k]| && vectors[k][i].iface == Some(iface) ==>
      n <= |vectors[k][i].slots|
  }

  lemma {:induction false} NearestLongEnough(vectors: seq<seq<Entry>>, iface: Interface, n: nat, k: nat)
    requires LongEnough(vectors, iface, n) && k <= |vectors|
    ensures var e := NearestEntry(vectors, iface, k); e.Some? ==> n <= |e.value.slots|
    decreases |vectors| - k
  {
    if k < |vectors| {
      NearestLongEnough(vectors, iface, n, k + 1);
    }
  }

  /** corto_class_resolveInterfaceMethod; methods are numbered from 1. */
  method ResolveInterfaceMethod(c: ClassType, iface: Interface, n: nat, ghost chain: seq<ClassType>)
    returns (m: Option<Method>)
    requires IsChain(c, chain) && 1 <= n && LongEnough(Vectors(chain), iface, n)
    ensures var e := NearestEntry(Vectors(chain), iface, 0);
            if e.Some? then n <= |e.value.slots| && m == e.value.slots[n - 1] else m.None?
  {
    ghost var vectors := Vectors(chain);
    NearestLongEnough(vectors, iface, n, 0);
    hide LongEnough;
    var base: ClassType? := c;
    var v: Option<Entry> := None;
    ghost var k := 0;
    while v.None? && base != null
      invariant k <= |chain| && base == (if k < |chain| then chain[k] else null)
      invariant NearestEntry(vectors, iface, 0) == if v.Some? then v else NearestEntry(vectors, iface, k)
      decreases |chain| - k, v.None?
    {
      v := ScanEntries(base.interfaceVector, iface);
      if v.None? {
        base := base.base;
        k := k + 1;
      }
    }
    if v.None? {
      return None;
    }
    return v.value.slots[n - 1];
  }

  /** The inner loop: stops at the first entry for the interface. */
  method ScanEntries(es: seq<Entry>, iface: Interface) returns (v: Option<Entry>)
    ensures v == FirstEntry(es, iface)
  {
    v := None;
    var i := 0;
    assert es[0..] == es;
    while i < |es|
      invariant i <= |es| && v.None?
      invariant FirstEntry(es, iface) == FirstEntry(es[i..], iface)
    {
      assert es[i..][1..] == es[i + 1..];
      v := Some(es[i]);
      if v.value.iface == Some(iface) {
        return;
      } else {
        v := None;
      }
      i := i + 1;
    }
  }

  // ---- Instances ---------------------------------------------------------------------------------------

  /** corto_class_instanceof for an object of type `t`; only objects whose type is a class qualify. */
  method InstanceOf(c: ClassType, t: ClassType, isClass: bool, ghost chain: seq<ClassType>) returns (result: bool)
    requires IsChain(t, chain)
    ensures result <==> isClass && c in chain
  {
    result := false;
    if isClass {
      var p: ClassType? := t;
      ghost var k := 0;
      while p != null && !result
        invariant k <= |chain| && p == (if k < |chain| then chain[k] else null)
        invariant result <==> c in chain[..k]
        decreases |chain| - k
      {
        assert chain[..k + 1] == chain[..k] + [chain[k]];
        result := p == c;
        p := p.base;
        k := k + 1;
      }
      assert k == |chain| ==> chain[..k] == chain;
    }
  }

  lemma ChainRest(c: ClassType, chain: seq<ClassType>)
    requires IsChain(c, chain)
    ensures chain == [c] + chain[1..]
    ensures if |chain| == 1 then c.base == null else c.base == chain[1] && IsChain(chain[1], chain[1..])
  {
    assert |chain| > 1 ==> chain[0].base == chain[0 + 1];
    var rest := chain[1..];
    forall k | 0 <= k < |rest| - 1 ensures rest[k].base == rest[k + 1] {
      assert chain[k + 1].base == chain[k + 1 + 1];
    }
  }

  /** The chain of an ancestor is the rest of the chain of the descendant. */
  lemma {:induction false} ChainsNest(c: ClassType, cs: seq<ClassType>, b: ClassType, bs: seq<ClassType>, k: nat)
    requires IsChain(c, cs) && IsChain(b, bs) && k < |cs| && cs[k] == b
    ensures bs == cs[k..]
    decreases |cs| - k
  {
    assert cs[k].base == if k < |cs| - 1 then cs[k + 1] else null;
    ChainRest(b, bs);
    if k < |cs| - 1 {
      ChainsNest(c, cs, bs[1], bs[1..], k + 1);
    }
  }

  /** Being an instance is a partial order on classes: reflexive, transitive and, since chains end, only
      mutual between a class and itself. */
  lemma InstanceOfIsPartialOrder(
    a: ClassType, as_: seq<ClassType>, b: ClassType, bs: seq<ClassType>, c: ClassType, cs: seq<ClassType>)
    requires IsChain(a, as_) && IsChain(b, bs) && IsChain(c, cs)
    ensures a in as_
    ensures a in bs && b in cs ==> a in cs
    ensures a in bs && b in as_ ==> a == b
  {
    assert as_[0] in as_;
    if a in bs && b in cs {
      var k :| 0 <= k < |cs| && cs[k] == b;
      ChainsNest(c, cs, b, bs, k);
    }
    if a in bs && b in as_ {
      var i :| 0 <= i < |bs| && bs[i] == a;
      var j :| 0 <= j < |as_| && as_[j] == b;
      ChainsNest(b, bs, a, as_, i);
      ChainsNest(a, as_, b, bs, j);
      assert |as_| == |bs| - i && |bs| == |as_| - j;
    }
  }
}
