/** What interface dispatch guarantees: the meaning of the checking verdict, of every vector slot, and of a
    call through an interface, relative to lookup by signature. */
module DispatchLaws {
  import opened Store
  import opened MethodLookup
  import opened VTable
  import opened ClassDispatch

  // ---- The verdict -----------------------------------------------------------------------------------

  /** What the error message promises: no method of the interface or of its bases lacks an exact and
      compatible implementation. */
  ghost predicate IntendedVerdict(rules: Rules, table: seq<Method>, iface: Interface)
    decreases iface
  {
    && (forall i :: 0 <= i < |iface.methods| ==> Implementation(rules, table, iface.methods[i]).Some?)
    && (iface.base.Some? ==> IntendedVerdict(rules, table, iface.base.value))
  }

  /** A method other than the last of its level has no implementation. */
  ghost predicate Gap(rules: Rules, table: seq<Method>, iface: Interface)
    decreases iface
  {
    || (exists i :: 0 <= i < |iface.methods| - 1 && Implementation(rules, table, iface.methods[i]).None?)
    || (iface.base.Some? && Gap(rules, table, iface.base.value))
  }

  /** The coded verdict is the intended one exactly when no such method exists; it is never stricter. */
  lemma {:induction false} VerdictExact(rules: Rules, table: seq<Method>, iface: Interface)
    ensures IntendedVerdict(rules, table, iface) <==> CodedVerdict(rules, table, iface) && !Gap(rules, table, iface)
    decreases iface
  {
    if iface.base.Some? {
      VerdictExact(rules, table, iface.base.value);
    }
  }

  /** A class that implements only the second of two methods is accepted, and its first slot is empty. */
  lemma CodedVerdictMissesGap()
    ensures exists rules, table: seq<Method>, iface: Interface ::
              && iface.base.None? && |iface.methods| == 2
              && CodedVerdict(rules, table, iface) && !IntendedVerdict(rules, table, iface)
              && Fill(rules, table, iface, NoSlots(2))[0].None?
  {
    var rules := Rules((a: Method, r: string) => if a.id == r then At(0) else At(NOMATCH), (a, b) => true);
    var first := Method(1, "a()", 10, true, false);
    var second := Method(2, "b()", 10, true, false);
    var own := Method(3, "b()", 20, true, false);
    var iface := Interface(10, [first, second], None);
    var table := [own];
    assert WalkTo(rules, table, "a()", 1).result.None?;
    assert WalkTo(rules, table, "b()", 1).result == Some(0);
    assert Implementation(rules, table, iface.methods[0]).None?;
    assert Step(WalkTo(rules, table, "b()", 0), At(0), 0) == WalkTo(rules, table, "b()", 1);
    assert Implementation(rules, table, iface.methods[1]) == Some(own);
    assert CodedVerdict(rules, table, iface);
    assert Fill(rules, table, iface, NoSlots(2))[0].None?;
  }

  // ---- The slots -------------------------------------------------------------------------------------

  /** The last write to slot `i`: by the deepest base level that has an implementation for it. */
  ghost function Filler(rules: Rules, table: seq<Method>, iface: Interface, i: nat): Option<Method>
    decreases iface
  {
    var deeper := if iface.base.Some? then Filler(rules, table, iface.base.value, i) else None;
    if deeper.Some? then deeper
    else if i < |iface.methods| then Implementation(rules, table, iface.methods[i]) else None
  }

  lemma {:induction false} FillMeaning(rules: Rules, table: seq<Method>, iface: Interface, slots: Slots, i: nat)
    requires Fits(iface, |slots|) && i < |slots|
    ensures Fill(rules, table, iface, slots)[i] ==
            if Filler(rules, table, iface, i).Some? then Filler(rules, table, iface, i) else slots[i]
    decreases iface
  {
    if iface.base.Some? {
      FillMeaning(rules, table, iface.base.value, FillLevel(rules, table, iface.methods, |iface.methods|, slots), i);
    }
  }

  /** The method table of an interface extends that of its base, slot by slot: what VTable.LevelsGood
      proves of constructed interfaces. */
  ghost predicate Carries(sig: Method -> int, iface: Interface, ms: set<Method>)
    decreases iface
  {
    && Within(iface.methods, ms)
    && (iface.base.Some? ==> SameSlots(sig, iface.base.value.methods, iface.methods) && Carries(sig, iface.base.value, ms))
  }

  lemma {:induction false} CarriesFits(sig: Method -> int, iface: Interface, ms: set<Method>, n: nat)
    requires Carries(sig, iface, ms) && |iface.methods| <= n
    ensures Fits(iface, n)
    decreases iface
  {
    if iface.base.Some? {
      CarriesFits(sig, iface.base.value, ms, n);
    }
  }

  /** An interface as its construction on its bases leaves it. */
  function InterfaceAt(levels: seq<Level>, k: nat): Interface
    requires k < |levels|
  {
    Interface(levels[k].owner, levels[k].table, if k == 0 then None else Some(InterfaceAt(levels, k - 1)))
  }

  /** Constructed interfaces carry the table of their base as a prefix. */
  lemma {:induction false} ConstructedInterfacesCarry(
    rules: Rules, sig: Method -> int, levels: seq<Level>, ms: set<Method>, k: nat)
    requires Hierarchy(rules, sig, levels, ms) && k < |levels|
    ensures Carries(sig, InterfaceAt(levels, k), ms)
  {
    LevelsGood(rules, sig, levels, ms, k);
    hide WellDeclared, Hierarchy, SameSlots;
    if k > 0 {
      ConstructedInterfacesCarry(rules, sig, levels, ms, k - 1);
    }
  }

  /** Some level that declares slot `i` accepts `c` for it. */
  ghost predicate Accepts(rules: Rules, iface: Interface, i: nat, c: Method)
    decreases iface
  {
    || (i < |iface.methods| && rules.compatible(iface.methods[i], c))
    || (iface.base.Some? && Accepts(rules, iface.base.value, i, c))
  }

  /** What name lookup gives for method `i` of the interface, if some level accepts it. */
  ghost function Backing(rules: Rules, table: seq<Method>, iface: Interface, im: Method, i: nat): Option<Method> {
    var k := ExactMatch(rules, table, im.id);
    if k.Some? && Accepts(rules, iface, i, table[k.value]) then Some(table[k.value]) else None
  }

  /** Lookups of one signature agree, whichever level's id is used. */
  lemma SameLookup(rules: Rules, sig: Method -> int, table: seq<Method>, ms: set<Method>, a: Method, b: Method)
    requires Canonical(rules, sig, ms) && GoodTable(sig, table, ms) && a in ms && b in ms && sig(a) == sig(b)
    ensures ExactMatch(rules, table, a.id) == ExactMatch(rules, table, b.id)
  {
    ExactMatchMeaning(rules, sig, table, a, ms);
    ExactMatchMeaning(rules, sig, table, b, ms);
    var ka := ExactMatch(rules, table, a.id);
    var kb := ExactMatch(rules, table, b.id);
    if ka.Some? {
      assert kb == Some(ka.value);
    } else if kb.Some? {
      assert ka == Some(kb.value);
    }
  }

  /** However many levels rewrote it, a slot holds what looking up the interface's own method gives. */
  lemma {:induction false} FillerIsLookup(
    rules: Rules, sig: Method -> int, table: seq<Method>, ms: set<Method>, iface: Interface, im: Method, i: nat)
    requires Canonical(rules, sig, ms) && GoodTable(sig, table, ms) && Carries(sig, iface, ms)
    requires im in ms && (i < |iface.methods| ==> sig(im) == sig(iface.methods[i]))
    ensures Filler(rules, table, iface, i) == Backing(rules, table, iface, im, i)
    decreases iface
  {
    hide Canonical, GoodTable, ExactMatch;
    if iface.base.Some? {
      assert i < |iface.base.value.methods| ==> sig(iface.methods[i]) == sig(iface.base.value.methods[i]);
      if i < |iface.methods| {
        FillerIsLookup(rules, sig, table, ms, iface.base.value, im, i);
      } else {
        OutOfRange(rules, sig, table, ms, iface.base.value, im, i);
      }
    }
    if i < |iface.methods| {
      SameLookup(rules, sig, table, ms, im, iface.methods[i]);
    }
  }

  lemma {:induction false} OutOfRange(
    rules: Rules, sig: Method -> int, table: seq<Method>, ms: set<Method>, iface: Interface, im: Method, i: nat)
    requires Carries(sig, iface, ms) && i >= |iface.methods|
    ensures Filler(rules, table, iface, i).None? && Backing(rules, table, iface, im, i).None?
    decreases iface
  {
    if iface.base.Some? {
      OutOfRange(rules, sig, table, ms, iface.base.value, im, i);
    }
  }

  // ---- The call --------------------------------------------------------------------------------------

  /** A class as construction sees it. */
  datatype Description = Description(table: seq<Method>, implements: seq<Interface>)

  /** Construction of the class succeeded. */
  ghost predicate Constructed(rules: Rules, sig: Method -> int, ms: set<Method>, c: Description) {
    && GoodTable(sig, c.table, ms)
    && (forall j :: 0 <= j < |c.implements| ==> Carries(sig, c.implements[j], ms))
    && Reached(rules, c.table, c.implements, |c.implements|)
  }

  /** Carrying the tables of their bases, the interfaces fit their vectors. */
  lemma ConstructedFits(rules: Rules, sig: Method -> int, ms: set<Method>, c: Description)
    requires Constructed(rules, sig, ms, c)
    ensures AllFit(c.implements)
  {
    forall j | 0 <= j < |c.implements| ensures Fits(c.implements[j], |c.implements[j].methods|) {
      CarriesFits(sig, c.implements[j], ms, |c.implements[j].methods|);
    }
  }

  ghost predicate AllConstructed(rules: Rules, sig: Method -> int, ms: set<Method>, chain: seq<Description>) {
    forall k :: 0 <= k < |chain| ==> Constructed(rules, sig, ms, chain[k])
  }

  function VectorOf(rules: Rules, c: Description): seq<Entry> {
    if AllFit(c.implements) then Entries(rules, c.table, c.implements) else []
  }

  function BuiltVectors(rules: Rules, chain: seq<Description>): (r: seq<seq<Entry>>)
    ensures |r| == |chain|
  {
    seq(|chain|, k requires 0 <= k < |chain| => VectorOf(rules, chain[k]))
  }

  /** Class `k` of the chain is the nearest one that lists the interface. */
  ghost predicate NearestLister(chain: seq<Description>, iface: Interface, k: nat) {
    && k < |chain| && iface in chain[k].implements
    && forall j :: 0 <= j < k ==> iface !in chain[j].implements
  }

  lemma FirstEntryOfClass(rules: Rules, sig: Method -> int, ms: set<Method>, c: Description, iface: Interface)
    requires Constructed(rules, sig, ms, c)
    ensures var e := FirstEntry(VectorOf(rules, c), iface);
            if iface in c.implements then Fits(iface, |iface.methods|) && e == Some(EntryFor(rules, c.table, iface))
            else e.None?
  {
    ConstructedFits(rules, sig, ms, c);
    var es := Entries(rules, c.table, c.implements);
    forall j | 0 <= j < |es| ensures es[j] == EntryFor(rules, c.table, c.implements[j]) {
    }
    if iface in c.implements {
      var j :| 0 <= j < |c.implements| && c.implements[j] == iface;
      assert es[j] in es && es[j].iface == Some(iface);
    }
  }

  lemma {:induction false} NearestEntryIsNearest(
    rules: Rules, sig: Method -> int, ms: set<Method>, chain: seq<Description>, iface: Interface, from: nat, k: nat)
    requires AllConstructed(rules, sig, ms, chain) && from <= k <= |chain|
    requires forall j :: from <= j < k ==> iface !in chain[j].implements
    requires k < |chain| ==> iface in chain[k].implements
    ensures var e := NearestEntry(BuiltVectors(rules, chain), iface, from);
            if k < |chain| then Fits(iface, |iface.methods|) && e == Some(EntryFor(rules, chain[k].table, iface))
            else e.None?
    decreases k - from
  {
    hide VectorOf, Constructed, EntryFor, FirstEntry;
    if from < |chain| {
      assert Constructed(rules, sig, ms, chain[from]);
      FirstEntryOfClass(rules, sig, ms, chain[from], iface);
      if from < k {
        NearestEntryIsNearest(rules, sig, ms, chain, iface, from + 1, k);
      }
    }
  }

  /** A slot of a constructed class, against lookup in the class table. */
  lemma SlotOfClass(
    rules: Rules, sig: Method -> int, ms: set<Method>, table: seq<Method>, iface: Interface, i: nat)
    requires Canonical(rules, sig, ms) && GoodTable(sig, table, ms) && Carries(sig, iface, ms)
    requires Fits(iface, |iface.methods|) && i < |iface.methods|
    ensures var slots := EntryFor(rules, table, iface).slots;
            var slot := slots[i];
            && |slots| == |iface.methods|
            && slot == Backing(rules, table, iface, iface.methods[i], i)
            && (IntendedVerdict(rules, table, iface) ==>
                  var m := ExactMatch(rules, table, iface.methods[i].id);
                  m.Some? && slot == Some(table[m.value]))
  {
    FillMeaning(rules, table, iface, NoSlots(|iface.methods|), i);
    FillerIsLookup(rules, sig, table, ms, iface, iface.methods[i], i);
    hide Canonical, GoodTable, ExactMatch;
    if IntendedVerdict(rules, table, iface) {
      assert Implementation(rules, table, iface.methods[i]).Some?;
    }
  }

  /** The dispatch cache agrees with lookup. Through any chain of constructed classes, method `n` of an
      interface resolves to the exact match of its signature in the table of the nearest class that lists
      the interface, and to nothing only if that class left the slot unbacked. */
  lemma DispatchIsLookup(
    rules: Rules, sig: Method -> int, ms: set<Method>, chain: seq<Description>, iface: Interface, n: nat, k: nat)
    requires Canonical(rules, sig, ms) && AllConstructed(rules, sig, ms, chain)
    requires 1 <= n <= |iface.methods|
    requires NearestLister(chain, iface, k)
    ensures var e := NearestEntry(BuiltVectors(rules, chain), iface, 0);
            && e.Some? && |e.value.slots| == |iface.methods|
            && e.value.slots[n - 1] == Backing(rules, chain[k].table, iface, iface.methods[n - 1], n - 1)
            && (IntendedVerdict(rules, chain[k].table, iface) ==>
                  var m := ExactMatch(rules, chain[k].table, iface.methods[n - 1].id);
                  m.Some? && e.value.slots[n - 1] == Some(chain[k].table[m.value]))
  {
    hide Canonical, GoodTable, Constructed, Carries, Backing, IntendedVerdict, ExactMatch, BuiltVectors, EntryFor;
    NearestEntryIsNearest(rules, sig, ms, chain, iface, 0, k);
    ListedCarries(rules, sig, ms, chain[k], iface);
    SlotOfClass(rules, sig, ms, chain[k].table, iface, n - 1);
  }

  lemma ListedCarries(rules: Rules, sig: Method -> int, ms: set<Method>, c: Description, iface: Interface)
    requires Constructed(rules, sig, ms, c) && iface in c.implements
    ensures GoodTable(sig, c.table, ms) && Carries(sig, iface, ms)
  {
    var j :| 0 <= j < |c.implements| && c.implements[j] == iface;
  }

  /** A call through an interface finds nothing to dispatch to exactly when no class in the chain lists it. */
  lemma NotImplemented(rules: Rules, sig: Method -> int, ms: set<Method>, chain: seq<Description>, iface: Interface)
    requires AllConstructed(rules, sig, ms, chain)
    ensures NearestEntry(BuiltVectors(rules, chain), iface, 0).None? <==>
            forall k :: 0 <= k < |chain| ==> iface !in chain[k].implements
  {
    if k: nat :| NearestLister(chain, iface, k) {
      NearestEntryIsNearest(rules, sig, ms, chain, iface, 0, k);
    } else {
      NoNearest(chain, iface, |chain|);
      NearestEntryIsNearest(rules, sig, ms, chain, iface, 0, |chain|);
    }
  }

  lemma {:induction false} NoNearest(chain: seq<Description>, iface: Interface, n: nat)
    requires n <= |chain| && forall k: nat :: !NearestLister(chain, iface, k)
    ensures forall j :: 0 <= j < n ==> iface !in chain[j].implements
  {
    if n > 0 {
      NoNearest(chain, iface, n - 1);
      assert !NearestLister(chain, iface, n - 1);
    }
  }

  /** A class object as construction saw it. */
  function Describe(chain: seq<ClassType>): (r: seq<Description>)
    ensures |r| == |chain|
  {
    seq(|chain|, k requires 0 <= k < |chain| => Description(chain[k].table, chain[k].implements))
  }

  /** Every class of the chain still has the vectors its construction built. */
  ghost predicate Built(rules: Rules, chain: seq<ClassType>)
    reads chain
  {
    forall k :: 0 <= k < |chain| ==> chain[k].interfaceVector == VectorOf(rules, Describe(chain)[k])
  }

  lemma BuiltLongEnough(
    rules: Rules, sig: Method -> int, ms: set<Method>, chain: seq<Description>, iface: Interface, n: nat)
    requires AllConstructed(rules, sig, ms, chain) && n <= |iface.methods|
    ensures LongEnough(BuiltVectors(rules, chain), iface, n)
  {
    var vectors: seq<seq<Entry>> := BuiltVectors(rules, chain);
    forall k: int, i: int | 0 <= k < |vectors| && 0 <= i < |vectors[k]| && vectors[k][i].iface == Some(iface)
      ensures n <= |vectors[k][i].slots|
    {
      assert Constructed(rules, sig, ms, chain[k]);
      ConstructedFits(rules, sig, ms, chain[k]);
      assert vectors[k][i] == EntryFor(rules, chain[k].table, chain[k].implements[i]);
    }
  }

  lemma BuiltVectorsStored(rules: Rules, chain: seq<ClassType>)
    requires Built(rules, chain)
    ensures Vectors(chain) == BuiltVectors(rules, Describe(chain))
  {
    hide VectorOf;
  }

  /** DispatchIsLookup and NotImplemented together. */
  lemma ResolutionMeaning(
    rules: Rules, sig: Method -> int, ms: set<Method>, chain: seq<Description>, iface: Interface, n: nat, k: nat)
    requires Canonical(rules, sig, ms) && AllConstructed(rules, sig, ms, chain)
    requires 1 <= n <= |iface.methods|
    requires k <= |chain| && forall j :: 0 <= j < k ==> iface !in chain[j].implements
    requires k < |chain| ==> iface in chain[k].implements
    ensures var e := NearestEntry(BuiltVectors(rules, chain), iface, 0);
            if k < |chain| then
              && e.Some? && |e.value.slots| == |iface.methods|
              && e.value.slots[n - 1] == Backing(rules, chain[k].table, iface, iface.methods[n - 1], n - 1)
              && (IntendedVerdict(rules, chain[k].table, iface) ==>
                    var own := ExactMatch(rules, chain[k].table, iface.methods[n - 1].id);
                    own.Some? && e.value.slots[n - 1] == Some(chain[k].table[own.value]))
            else e.None?
  {
    hide Canonical, AllConstructed, Backing, BuiltVectors, IntendedVerdict, ExactMatch, NearestEntry, Fits, EntryFor;
    if k < |chain| {
      DispatchIsLookup(rules, sig, ms, chain, iface, n, k);
    } else {
      NearestEntryIsNearest(rules, sig, ms, chain, iface, 0, k);
    }
  }

  /** A call through an interface on an object: what the runtime resolves is what name lookup in the nearest
      implementing class gives, and nothing if there is no such class; nothing else, if that class implements
      every method. */
  method ResolveIsLookup(
    rules: Rules, c: ClassType, iface: Interface, n: nat,
    ghost sig: Method -> int, ghost ms: set<Method>, ghost chain: seq<ClassType>, ghost k: nat)
    returns (m: Option<Method>)
    requires IsChain(c, chain) && Built(rules, chain)
    requires Canonical(rules, sig, ms) && AllConstructed(rules, sig, ms, Describe(chain))
    requires 1 <= n <= |iface.methods|
    requires k <= |chain| && forall j :: 0 <= j < k ==> iface !in chain[j].implements
    requires k < |chain| ==> iface in chain[k].implements
    ensures m == if k < |chain| then Backing(rules, chain[k].table, iface, iface.methods[n - 1], n - 1) else None
    ensures k < |chain| && IntendedVerdict(rules, chain[k].table, iface) ==>
              var own := ExactMatch(rules, chain[k].table, iface.methods[n - 1].id);
              own.Some? && m == Some(chain[k].table[own.value])
  {
    hide Canonical, AllConstructed, Backing, BuiltVectors, Vectors, LongEnough, Built, NearestEntry, IsChain,
         IntendedVerdict, ExactMatch;
    BuiltVectorsStored(rules, chain);
    BuiltLongEnough(rules, sig, ms, Describe(chain), iface, n);
    ResolutionMeaning(rules, sig, ms, Describe(chain), iface, n, k);
    m := ResolveInterfaceMethod(c, iface, n, chain);
  }

  // ---- Overriding below the implementing class ---------------------------------------------------------

  ghost predicate DistinctOwners(levels: seq<Level>) {
    forall p, q :: 0 <= p < |levels| && 0 <= q < |levels| && levels[p].owner == levels[q].owner ==> p == q
  }

  /** A class between `a` (exclusive) and `b` declares a method with the signature of `im`. */
  ghost predicate Redeclared(sig: Method -> int, levels: seq<Level>, a: nat, b: nat, im: Method)
    requires b < |levels|
  {
    exists c, m :: a < c <= b && m in levels[c].scope && sig(m) == sig(im)
  }

  /** Every method in the table of a class comes from one of the classes up to it. */
  lemma {:induction false} EntryOwner(
    rules: Rules, sig: Method -> int, levels: seq<Level>, ms: set<Method>, k: nat, i: nat)
    requires Hierarchy(rules, sig, levels, ms) && k < |levels| && i < |levels[k].table|
    ensures exists c :: 0 <= c <= k && levels[c].owner == levels[k].table[i].scope
  {
    hide WellDeclared, GoodTable, BindUpTo, SameSlots;
    LevelsGood(rules, sig, levels, ms, k);
    if k > 0 {
      LevelsGood(rules, sig, levels, ms, k - 1);
    }
    var l := levels[k];
    assert LevelBuilt(rules, levels, ms, k);
    EmptyTableGood(sig, ms);
    BindUpToSound(rules, sig, l.isInterface, BaseTable(levels, k), l.scope, |l.scope|, l.owner, ms);
    if l.table[i] in l.scope[..|l.scope|] {
      assert levels[k].owner == l.table[i].scope;
    } else {
      EntryOwner(rules, sig, levels, ms, k - 1, i);
    }
  }

  lemma EmptyTableGood(sig: Method -> int, ms: set<Method>)
    ensures GoodTable(sig, [], ms)
  {
  }

  /** One level below: the slot changes exactly when the class declares the signature. */
  lemma SlotStep(
    rules: Rules, sig: Method -> int, levels: seq<Level>, ms: set<Method>, k: nat, i: nat)
    requires Hierarchy(rules, sig, levels, ms) && 0 < k < |levels| && i < |levels[k - 1].table|
    ensures i < |levels[k].table|
    ensures (exists m :: m in levels[k].scope && sig(m) == sig(levels[k - 1].table[i])) ==>
              levels[k].table[i].scope == levels[k].owner
    ensures (forall m :: m in levels[k].scope ==> sig(m) != sig(levels[k - 1].table[i])) ==>
              levels[k].table[i] == levels[k - 1].table[i]
  {
    hide WellDeclared, GoodTable, BindUpTo;
    LevelsGood(rules, sig, levels, ms, k - 1);
    assert LevelBuilt(rules, levels, ms, k);
    var l := levels[k];
    OverrideMeaning(rules, sig, l.isInterface, BaseTable(levels, k), l.scope, l.owner, ms, i);
  }

  /** For a class `b` below `a` a signature is still at the same index, and there is still the method of `a`
      exactly when no class from below `a` down to `b` declares the signature again. */
  lemma {:induction false} OverridesInTables(
    rules: Rules, sig: Method -> int, levels: seq<Level>, ms: set<Method>, a: nat, b: nat, im: Method, i: nat)
    requires Hierarchy(rules, sig, levels, ms) && DistinctOwners(levels)
    requires a <= b < |levels| && im in ms
    requires ExactMatch(rules, levels[a].table, im.id) == Some(i)
    ensures ExactMatch(rules, levels[b].table, im.id) == Some(i)
    ensures levels[b].table[i] == levels[a].table[i] <==> !Redeclared(sig, levels, a, b, im)
    ensures Redeclared(sig, levels, a, b, im) ==>
              exists c :: a < c <= b && levels[b].table[i].scope == levels[c].owner
    decreases b - a
  {
    hide WellDeclared, Canonical, ExactMatch, Hierarchy, LevelBuilt;
    LevelsGood(rules, sig, levels, ms, a);
    LevelsGood(rules, sig, levels, ms, b);
    ExactMatchInTables(rules, sig, levels, ms, a, im);
    ExactMatchInTables(rules, sig, levels, ms, b, im);
    if a < b {
      OverridesInTables(rules, sig, levels, ms, a, b - 1, im, i);
      ExactMatchInTables(rules, sig, levels, ms, b - 1, im);
      SlotStep(rules, sig, levels, ms, b, i);
      EntryOwner(rules, sig, levels, ms, a, i);
      if m :| m in levels[b].scope && sig(m) == sig(im) {
        assert Redeclared(sig, levels, a, b, im);
      } else {
        assert Redeclared(sig, levels, a, b, im) <==> Redeclared(sig, levels, a, b - 1, im);
      }
    }
  }

  lemma ExactMatchInTables(
    rules: Rules, sig: Method -> int, levels: seq<Level>, ms: set<Method>, k: nat, im: Method)
    requires Hierarchy(rules, sig, levels, ms) && k < |levels| && im in ms
    ensures forall i: nat :: ExactMatch(rules, levels[k].table, im.id) == Some(i) <==>
              i < |levels[k].table| && sig(levels[k].table[i]) == sig(im)
  {
    hide ExactMatch, Hierarchy, LevelBuilt;
    LevelsGood(rules, sig, levels, ms, k);
    ExactMatchMeaning(rules, sig, levels[k].table, im, ms);
  }

  /** Class `j` of the chain has the table of level `b - j`: the chain runs from level `b` to the root. */
  ghost predicate ChainOfLevels(chain: seq<Description>, levels: seq<Level>, b: nat) {
    b < |levels| && |chain| == b + 1 && forall j :: 0 <= j <= b ==> chain[j].table == levels[b - j].table
  }

  /** Interface calls against virtual calls. Let the nearest class listing the interface be `k` classes above
      the class of the object. The method an interface call resolves to is the one a lookup in the object's
      own class finds if and only if the slot of the listing class is backed at all and no class below that
      one declares the signature again: overrides below the listing class are not seen. */
  lemma InterfaceCallsIgnoreOverrides(
    rules: Rules, sig: Method -> int, levels: seq<Level>, ms: set<Method>, chain: seq<Description>,
    iface: Interface, n: nat, b: nat, k: nat)
    requires Hierarchy(rules, sig, levels, ms) && DistinctOwners(levels) && ChainOfLevels(chain, levels, b)
    requires AllConstructed(rules, sig, ms, chain) && NearestLister(chain, iface, k) && 1 <= n <= |iface.methods|
    ensures var e := NearestEntry(BuiltVectors(rules, chain), iface, 0);
            var im := iface.methods[n - 1];
            var own := ExactMatch(rules, levels[b].table, im.id);
            && e.Some? && |e.value.slots| == |iface.methods|
            && (own.Some? && e.value.slots[n - 1] == Some(levels[b].table[own.value]) <==>
                  Backing(rules, levels[b - k].table, iface, im, n - 1).Some? && !Redeclared(sig, levels, b - k, b, im))
  {
    hide Canonical, GoodTable, Hierarchy, AllConstructed, Carries, Accepts, ExactMatch, Redeclared, BuiltVectors, NearestEntry,
         IntendedVerdict, DistinctOwners;
    var im := iface.methods[n - 1];
    HierarchyCanonical(rules, sig, levels, ms);
    DispatchIsLookup(rules, sig, ms, chain, iface, n, k);
    ListedMethod(rules, sig, ms, chain, iface, n, k);
    var i := ExactMatch(rules, levels[b - k].table, im.id);
    if i.Some? {
      OverridesInTables(rules, sig, levels, ms, b - k, b, im, i.value);
    }
  }

  lemma ListedMethod(
    rules: Rules, sig: Method -> int, ms: set<Method>, chain: seq<Description>, iface: Interface, n: nat, k: nat)
    requires AllConstructed(rules, sig, ms, chain) && NearestLister(chain, iface, k) && 1 <= n <= |iface.methods|
    ensures iface.methods[n - 1] in ms
  {
    ListedCarries(rules, sig, ms, chain[k], iface);
  }

  lemma HierarchyCanonical(rules: Rules, sig: Method -> int, levels: seq<Level>, ms: set<Method>)
    requires Hierarchy(rules, sig, levels, ms)
    ensures Canonical(rules, sig, ms)
  {
  }

  /** The same of a call on an object. */
  method CallReachesOwnMethod(
    rules: Rules, c: ClassType, iface: Interface, n: nat,
    ghost sig: Method -> int, ghost ms: set<Method>, ghost chain: seq<ClassType>, ghost levels: seq<Level>,
    ghost b: nat, ghost k: nat)
    returns (m: Option<Method>)
    requires IsChain(c, chain) && Built(rules, chain)
    requires Hierarchy(rules, sig, levels, ms) && DistinctOwners(levels) && ChainOfLevels(Describe(chain), levels, b)
    requires AllConstructed(rules, sig, ms, Describe(chain)) && NearestLister(Describe(chain), iface, k)
    requires 1 <= n <= |iface.methods|
    ensures var im := iface.methods[n - 1];
            var own := ExactMatch(rules, levels[b].table, im.id);
            own.Some? && m == Some(levels[b].table[own.value]) <==>
              Backing(rules, levels[b - k].table, iface, im, n - 1).Some? && !Redeclared(sig, levels, b - k, b, im)
  {
    ghost var descriptions := Describe(chain);
    HierarchyCanonical(rules, sig, levels, ms);
    InterfaceCallsIgnoreOverrides(rules, sig, levels, ms, descriptions, iface, n, b, k);
    ListedAbove(chain, iface, k);
    hide Canonical, Hierarchy, AllConstructed, Backing, BuiltVectors, Built, NearestEntry, IsChain, Redeclared, ExactMatch;
    ResolutionMeaning(rules, sig, ms, descriptions, iface, n, k);
    m := ResolveIsLookup(rules, c, iface, n, sig, ms, chain, k);
  }

  lemma ListedAbove(chain: seq<ClassType>, iface: Interface, k: nat)
    requires NearestLister(Describe(chain), iface, k)
    ensures k < |chain| && iface in chain[k].implements
    ensures forall j :: 0 <= j < k ==> iface !in chain[j].implements
  {
    forall j | 0 <= j < k ensures iface !in chain[j].implements {
      assert iface !in Describe(chain)[j].implements;
    }
  }

  // ---- An override that interface calls do not see -------------------------------------------------------

  const DECLARED := Method(1, "f()", 10, true, false)
  const FIRST := Method(2, "f()", 20, true, false)
  const OVERRIDE := Method(3, "f()", 30, true, true)

  function ById(): Rules {
    Rules((a: Method, r: string) => if a.id == r then At(0) else At(NOMATCH), (a, b) => true)
  }

  lemma OneEntryLookup(m: Method, request: string)
    ensures ExactMatch(ById(), [m], request) == if m.id == request then Some(0) else None
    ensures LookupIn(ById(), [], request) == Lookup(None, INT_MAX)
    ensures m.id == request ==> LookupIn(ById(), [m], request) == Lookup(Some(0), 0)
  {
    assert WalkTo(ById(), [m], request, 0) == Walk(None, INT_MAX, INT_MAX, false, false);
    var one: nat := 1;
    assert |[m]| == one;
    assert WalkTo(ById(), [m], request, one) == Step(WalkTo(ById(), [m], request, 0), ById().overload(m, request), 0);
  }

  /** A class that lists an interface, and a class below it that overrides the one method: both are constructed
      without complaint, and on an object of the second the interface call reaches the first class's method
      where a lookup finds the override. */
  lemma OverrideNotSeen()
    ensures var rules := ById();
            var iface := Interface(10, [DECLARED], None);
            var chain := [Description([OVERRIDE], []), Description([FIRST], [iface])];
            && BindUpTo(rules, false, [], [FIRST], 1) == Bound([FIRST], 1)
            && BindUpTo(rules, false, [FIRST], [OVERRIDE], 1) == Bound([OVERRIDE], 1)
            && AllFit([iface]) && Reached(rules, [FIRST], [iface], 1)
            && ExactMatch(rules, [OVERRIDE], DECLARED.id) == Some(0)
            && NearestEntry(BuiltVectors(rules, chain), iface, 0) == Some(Entry(Some(iface), [Some(FIRST)]))
  {
    var rules := ById();
    var iface := Interface(10, [DECLARED], None);
    var chain := [Description([OVERRIDE], []), Description([FIRST], [iface])];
    OneEntryLookup(FIRST, "f()");
    OneEntryLookup(OVERRIDE, "f()");
    hide LookupIn;
    assert Insert([], FIRST) == [FIRST];
    assert [FIRST][0 := OVERRIDE] == [OVERRIDE];
    var vectors := BuiltVectors(rules, chain);
    var entry := Entry(Some(iface), [Some(FIRST)]);
    assert FillLevel(rules, [FIRST], [DECLARED], 1, NoSlots(1)) == [Some(FIRST)];
    assert EntryFor(rules, [FIRST], iface) == entry;
    assert vectors[0] == [] && vectors[1] == [entry];
    assert NearestEntry(vectors, iface, 1) == Some(entry);
  }
}
