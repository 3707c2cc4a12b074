/** Method tables of interfaces: inheritance from the base table, binding of declared methods, and the
    promise that makes calls by index possible: a slot keeps its signature in every descendant. */
module VTable {
  import opened Store
  import opened MethodLookup

  /** Outcome of binding; every outcome carries the table as it stands afterwards. `Broken` is the failed
      assertion that the bound method can be found back. Indices start at 1. */
  datatype Binding = Bound(table: seq<Method>, index: nat) | Rejected(table: seq<Method>) | Broken(table: seq<Method>)

  function Refs(table: seq<Method>): (r: seq<Ref>)
    ensures |r| == |table| && forall i :: 0 <= i < |table| ==> r[i] == table[i].ref
  {
    seq(|table|, i requires 0 <= i < |table| => table[i].ref)
  }

  /** The pointers a table holds, one per slot. */
  function Held(table: seq<Method>): multiset<Ref> {
    multiset(Refs(table))
  }

  lemma HeldAfterUpdate(table: seq<Method>, k: nat, m: Method)
    requires k < |table|
    ensures Held(table[k := m]) == Held(table) - multiset{table[k].ref} + multiset{m.ref}
    ensures table[k].ref in Held(table)
  {
    assert Refs(table[k := m]) == Refs(table)[k := m.ref];
    assert Refs(table)[k] in Refs(table);
  }

  lemma HeldAfterAppend(table: seq<Method>, m: Method)
    ensures Held(table + [m]) == Held(table) + multiset{m.ref}
  {
    assert Refs(table + [m]) == Refs(table) + [m.ref];
  }

  function Insert(table: seq<Method>, m: Method): seq<Method> {
    if m in table then table else table + [m]
  }

  function Settle(rules: Rules, table: seq<Method>, m: Method): Binding {
    var l := LookupIn(rules, table, m.id);
    if l.found.Some? then Bound(table, l.found.value + 1) else Broken(table)
  }

  /** An override must find an overridable method with its signature or a compatible one. */
  predicate OverridesNothing(table: seq<Method>, m: Method, l: Lookup)
    requires l.found.Some? ==> l.found.value < |table|
  {
    || l.found.None?
    || l.d < 0
    || (table[l.found.value] != m && !table[l.found.value].overridable)
  }

  function Bind(rules: Rules, isInterface: bool, table: seq<Method>, m: Method): Binding {
    var l := LookupIn(rules, table, m.id);
    if isInterface && !m.overridable then Rejected(table)
    else if m.isOverride && OverridesNothing(table, m, l) then Rejected(table)
    else if l.found.Some? && table[l.found.value] != m && l.d == 0 then
      var k := l.found.value;
      if table[k].scope != m.scope then
        if table[k].overridable && !rules.compatible(table[k], m) then Rejected(table)
        else Settle(rules, table[k := m], m)
      else if table[k].id != m.id then Rejected(table)
      else Settle(rules, Insert(table, m), m)
    else Settle(rules, Insert(table, m), m)
  }

  /** The table after the first `n` methods of a scope were bound, stopping at the first failure. */
  function BindUpTo(rules: Rules, isInterface: bool, base: seq<Method>, scope: seq<Method>, n: nat): Binding
    requires n <= |scope|
  {
    if n == 0 then Bound(base, 0)
    else
      var b := BindUpTo(rules, isInterface, base, scope, n - 1);
      if b.Bound? then Bind(rules, isInterface, b.table, scope[n - 1]) else b
  }

  class InterfaceType {
    const isInterface: bool
    const base: InterfaceType?
    var methods: seq<Method>
    var index: map<Method, nat>

    constructor (isInterface: bool, base: InterfaceType?)
      ensures this.isInterface == isInterface && this.base == base && methods == [] && index == map[]
    {
      this.isInterface := isInterface;
      this.base := base;
      methods := [];
      index := map[];
    }

    /** Returns whether the method was added, which is when the caller must claim it. */
    method VtableInsert(m: Method) returns (added: bool)
      modifies this`methods
      ensures methods == Insert(old(methods), m)
      ensures added <==> m !in old(methods)
    {
      var i := 0;
      while i < |methods|
        invariant i <= |methods| && m !in methods[..i]
        invariant methods == old(methods)
      {
        if methods[i] == m {
          return false;
        }
        i := i + 1;
      }
      assert methods[..i] == methods;
      methods := methods + [m];
      return true;
    }

    /** Copies the table of the base and claims every entry. */
    method VtableFromBase(store: ObjectStore, ghost others: Ref -> int)
      requires base != this
      requires base != null ==> forall i :: 0 <= i < |base.methods| ==> base.methods[i].ref != NULL
      requires store.Accounts(multiset{}, others)
      modifies this`methods, store
      ensures methods == if base == null then [] else base.methods
      ensures store.Accounts(Held(methods), others)
      ensures store.destructed == old(store.destructed)
    {
      methods := [];
      if base != null {
        methods := base.methods;
        var i := 0;
        while i < |methods|
          invariant i <= |methods| && methods == old(base.methods)
          invariant store.Accounts(Held(methods[..i]), others)
          invariant store.destructed == old(store.destructed)
        {
          store.ClaimHeld(methods[i].ref, Held(methods[..i]), others);
          HeldAfterAppend(methods[..i], methods[i]);
          assert methods[..i + 1] == methods[..i] + [methods[i]];
          i := i + 1;
        }
        assert methods[..i] == methods;
      }
    }

    /** corto_set_ref on a slot. */
    method TakeSlot(store: ObjectStore, k: nat, m: Method, ghost others: Ref -> int)
      requires k < |methods|
      requires store.Accounts(Held(methods), others)
      modifies this`methods, store
      ensures methods == old(methods)[k := m]
      ensures store.Accounts(Held(methods), others)
      ensures KeptAlive(store, old(methods), others) ==> store.destructed == old(store.destructed)
    {
      ghost var held := Held(methods);
      HeldAfterUpdate(methods, k, m);
      hide Held, ObjectStore.Accounts;
      store.ReplaceHeld(methods[k].ref, m.ref, held, others);
      methods := methods[k := m];
    }

    /** vtableInsert and the claim its callers add. */
    method AddMethod(store: ObjectStore, m: Method, ghost others: Ref -> int)
      requires m.ref != NULL
      requires store.Accounts(Held(methods), others)
      modifies this`methods, store
      ensures methods == Insert(old(methods), m)
      ensures store.Accounts(Held(methods), others)
      ensures store.destructed == old(store.destructed)
    {
      ghost var held := Held(methods);
      HeldAfterAppend(methods, m);
      var inserted := VtableInsert(m);
      if inserted {
        store.ClaimHeld(m.ref, held, others);
      }
    }

    method BindMethod(rules: Rules, store: ObjectStore, m: Method, ghost others: Ref -> int) returns (ok: bool)
      requires m.ref != NULL
      requires store.Accounts(Held(methods), others)
      modifies this, store
      ensures var b := Bind(rules, isInterface, old(methods), m);
              && methods == b.table
              && ok == b.Bound?
              && index == if b.Bound? then old(index)[m := b.index] else old(index)
      ensures store.Accounts(Held(methods), others)
      ensures KeptAlive(store, old(methods), others) ==> store.destructed == old(store.destructed)
    {
      hide Held, ObjectStore.Accounts, KeptAlive, LookupIn, Insert;
      if isInterface && !m.overridable {
        return false;
      }
      var found, d := LookupFunction(rules, methods, m.id);
      if m.isOverride {
        if found.None? || d < 0 {
          return false;
        } else if methods[found.value] != m && !methods[found.value].overridable {
          return false;
        }
      }
      var added := false;
      if found.Some? && methods[found.value] != m && d == 0 {
        var k := found.value;
        if methods[k].scope != m.scope {
          if methods[k].overridable {
            if !rules.compatible(methods[k], m) {
              return false;
            }
          }
          TakeSlot(store, k, m, others);
          added := true;
        } else if methods[k].id != m.id {
          return false;
        }
      }
      if !added {
        AddMethod(store, m, others);
      }
      var again, _ := LookupFunction(rules, methods, m.id);
      ok := again.Some?;
      if again.Some? {
        index := index[m := again.value + 1];
      }
    }

    /** Binds the methods of the scope in order, stopping at the first failure. */
    method BindScope(rules: Rules, store: ObjectStore, scope: seq<Method>, ghost others: Ref -> int) returns (ok: bool)
      requires forall i :: 0 <= i < |scope| ==> scope[i].ref != NULL
      requires store.Accounts(Held(methods), others)
      modifies this, store
      ensures var b := BindUpTo(rules, isInterface, old(methods), scope, |scope|); ok == b.Bound? && methods == b.table
      ensures store.Accounts(Held(methods), others)
      ensures KeptAlive(store, old(methods), others) && KeptAlive(store, scope, others) ==>
                store.destructed == old(store.destructed) && KeptAlive(store, methods, others)
    {
      hide Held, ObjectStore.Accounts, Bind, KeptAlive;
      var i := 0;
      while i < |scope|
        invariant i <= |scope|
        invariant var b := BindUpTo(rules, isInterface, old(methods), scope, i); b.Bound? && methods == b.table
        invariant store.Accounts(Held(methods), others)
        invariant KeptAlive(store, old(methods), others) && KeptAlive(store, scope, others) ==>
                    store.destructed == old(store.destructed) && KeptAlive(store, methods, others)
      {
        BindKeepsAlive(rules, isInterface, methods, scope, i, store, others);
        var bound := BindMethod(rules, store, scope[i], others);
        i := i + 1;
        if !bound {
          RejectionIsFinal(rules, isInterface, old(methods), scope, i);
          return false;
        }
      }
      return true;
    }

    /** Builds the table of an interface: inherit, then bind. Each slot holds one claim on its method,
        also when binding stops early; no method that others keep alive is destructed on the way. */
    method Construct(rules: Rules, store: ObjectStore, scope: seq<Method>, ghost others: Ref -> int) returns (ok: bool)
      requires base != this && methods == []
      requires forall i :: 0 <= i < |scope| ==> scope[i].ref != NULL
      requires base != null ==> forall i :: 0 <= i < |base.methods| ==> base.methods[i].ref != NULL
      requires store.Accounts(multiset{}, others)
      modifies this, store
      ensures var inherited := if base == null then [] else old(base.methods);
              var b := BindUpTo(rules, isInterface, inherited, scope, |scope|);
              ok == b.Bound? && methods == b.table
      ensures store.Accounts(Held(methods), others)
      ensures (base != null ==> KeptAlive(store, old(base.methods), others)) && KeptAlive(store, scope, others) ==>
                store.destructed == old(store.destructed)
    {
      VtableFromBase(store, others);
      ok := BindScope(rules, store, scope, others);
    }
  }

  /** Somebody other than the table keeps the methods in it alive. */
  ghost predicate KeptAlive(store: ObjectStore, table: seq<Method>, others: Ref -> int) {
    forall i :: 0 <= i < |table| ==> others(table[i].ref) > 0 || table[i].ref == NULL || table[i].ref in store.builtin
  }

  /** Binding puts nothing into the table but the method it binds. */
  lemma BindKeepsAlive(
    rules: Rules, isInterface: bool, table: seq<Method>, scope: seq<Method>, i: nat, store: ObjectStore, others: Ref -> int)
    requires i < |scope|
    ensures KeptAlive(store, table, others) && KeptAlive(store, scope, others) ==>
              KeptAlive(store, Bind(rules, isInterface, table, scope[i]).table, others)
  {
    hide LookupIn;
  }

  lemma {:induction false} RejectionIsFinal(rules: Rules, isInterface: bool, base: seq<Method>, scope: seq<Method>, n: nat)
    requires n <= |scope| && !BindUpTo(rules, isInterface, base, scope, n).Bound?
    ensures BindUpTo(rules, isInterface, base, scope, n) == BindUpTo(rules, isInterface, base, scope, |scope|)
    decreases |scope| - n
  {
    if n < |scope| {
      RejectionIsFinal(rules, isInterface, base, scope, n + 1);
    }
  }

  // ---- Slots keep their signature -------------------------------------------------------------------

  /** A scope maps an id to one object. */
  ghost predicate OnePerId(ms: set<Method>) {
    forall a, b :: a in ms && b in ms && a.scope == b.scope && a.id == b.id ==> a == b
  }

  /** The methods the theorems range over: signatures are an equivalence, scopes are maps. */
  ghost predicate WellDeclared(rules: Rules, sig: Method -> int, ms: set<Method>) {
    Canonical(rules, sig, ms) && OnePerId(ms)
  }

  ghost predicate GoodTable(sig: Method -> int, table: seq<Method>, ms: set<Method>) {
    Within(table, ms) && Distinct(sig, table)
  }

  ghost predicate SameSlots(sig: Method -> int, from: seq<Method>, to: seq<Method>) {
    |from| <= |to| && forall i :: 0 <= i < |from| ==> sig(to[i]) == sig(from[i])
  }

  lemma UpdateGood(sig: Method -> int, table: seq<Method>, k: nat, m: Method, ms: set<Method>)
    requires GoodTable(sig, table, ms) && m in ms && k < |table| && sig(table[k]) == sig(m)
    ensures GoodTable(sig, table[k := m], ms) && SameSlots(sig, table, table[k := m])
  {
    var t := table[k := m];
    forall i, j | 0 <= i < |t| && 0 <= j < |t| && sig(t[i]) == sig(t[j]) ensures i == j {
      assert sig(table[i]) == sig(table[j]);
    }
  }

  lemma AppendGood(sig: Method -> int, table: seq<Method>, m: Method, ms: set<Method>)
    requires GoodTable(sig, table, ms) && m in ms && forall i :: 0 <= i < |table| ==> sig(table[i]) != sig(m)
    ensures GoodTable(sig, table + [m], ms) && SameSlots(sig, table, table + [m])
  {
  }

  /** In a good table the assertion after binding holds, and the index is that of the method. */
  lemma SettleFinds(rules: Rules, sig: Method -> int, table: seq<Method>, k: nat, m: Method, ms: set<Method>)
    requires WellDeclared(rules, sig, ms) && GoodTable(sig, table, ms) && m in ms
    requires k < |table| && table[k] == m
    ensures Settle(rules, table, m) == Bound(table, k + 1)
  {
    ExactMatchMeaning(rules, sig, table, m, ms);
    assert ExactMatch(rules, table, m.id) == Some(k);
  }

  /** The forms a binding can take, by what an exact lookup of the method finds. */
  lemma BindForms(rules: Rules, isInterface: bool, table: seq<Method>, m: Method)
    ensures var e := ExactMatch(rules, table, m.id);
            var b := Bind(rules, isInterface, table, m);
            || b == Rejected(table)
            || (if e.None? || table[e.value] == m then b == Settle(rules, Insert(table, m), m)
                else if table[e.value].scope != m.scope then b == Settle(rules, table[e.value := m], m)
                else table[e.value].id == m.id)
  {
  }

  /** What one binding leaves behind, given the table before it. */
  ghost predicate BoundWell(sig: Method -> int, table: seq<Method>, m: Method, ms: set<Method>, b: Binding) {
    && b.Bound?
    && GoodTable(sig, b.table, ms)
    && SameSlots(sig, table, b.table)
    && 1 <= b.index <= |b.table| && b.table[b.index - 1] == m
    && (forall i :: 0 <= i < |table| && b.table[i] != table[i] ==> b.table[i] == m && table[i].scope != m.scope)
    && (forall i :: |table| <= i < |b.table| ==> b.table[i] == m)
  }

  /** One binding: the assertion holds, the method is at the index it is told, no signature appears
      twice, and only a slot with the same signature in another scope is taken over. */
  lemma BindSound(rules: Rules, sig: Method -> int, isInterface: bool, table: seq<Method>, m: Method, ms: set<Method>)
    requires WellDeclared(rules, sig, ms) && GoodTable(sig, table, ms) && m in ms
    ensures var b := Bind(rules, isInterface, table, m);
            b.Rejected? || BoundWell(sig, table, m, ms, b)
  {
    BindForms(rules, isInterface, table, m);
    ExactMatchMeaning(rules, sig, table, m, ms);
    var e := ExactMatch(rules, table, m.id);
    if e.Some? && table[e.value] != m {
      if table[e.value].scope != m.scope {
        UpdateGood(sig, table, e.value, m, ms);
        SettleFinds(rules, sig, table[e.value := m], e.value, m, ms);
      }
    } else if e.Some? {
      SettleFinds(rules, sig, table, e.value, m, ms);
    } else {
      forall i | 0 <= i < |table| ensures sig(table[i]) != sig(m) {
        assert ExactMatch(rules, table, m.id) != Some(i);
      }
      AppendGood(sig, table, m, ms);
      SettleFinds(rules, sig, table + [m], |table|, m, ms);
    }
  }

  /** The table offers something `m` may override: itself, or an overridable method that is the one closest
      to it. */
  ghost predicate Overrides(rules: Rules, table: seq<Method>, m: Method)
    requires Comparable(rules, table, m.id)
  {
    exists k: nat ::
      && Closest(rules, table, m.id, |table|, k)
      && !Tied(rules, table, m.id, |table|, k)
      && (table[k] == m || table[k].overridable)
  }

  /** The table has another method with the signature of `m` that `m` may not take the place of: one from its
      own scope, or an overridable one it is not compatible with. */
  ghost predicate Clashes(rules: Rules, sig: Method -> int, table: seq<Method>, m: Method) {
    exists k ::
      && 0 <= k < |table| && table[k] != m && sig(table[k]) == sig(m)
      && (table[k].scope == m.scope || (table[k].overridable && !rules.compatible(table[k], m)))
  }

  /** A method is rejected for these reasons and no other. A method that is not overridable may be replaced,
      and then without a compatibility check, if the new one is not marked as an override. */
  lemma BindRejects(rules: Rules, sig: Method -> int, isInterface: bool, table: seq<Method>, m: Method, ms: set<Method>)
    requires WellDeclared(rules, sig, ms) && GoodTable(sig, table, ms) && m in ms
    ensures Comparable(rules, table, m.id)
    ensures Bind(rules, isInterface, table, m).Rejected? <==>
            || (isInterface && !m.overridable)
            || (m.isOverride && !Overrides(rules, table, m))
            || Clashes(rules, sig, table, m)
  {
    OverridesMeaning(rules, table, m);
    ClashMeaning(rules, sig, table, m, ms);
    hide WellDeclared, GoodTable, LookupIn, ExactMatch, Overrides, Clashes;
  }

  /** Where a method that is not overridable stands in the way, a method of the same signature from another
      scope takes its slot if and only if it is not marked as an override; only interfaces ask for more, and
      compatibility is not asked for. */
  lemma FinalIsReplaced(
    rules: Rules, sig: Method -> int, isInterface: bool, table: seq<Method>, k: nat, m: Method, ms: set<Method>)
    requires WellDeclared(rules, sig, ms) && GoodTable(sig, table, ms) && m in ms && k < |table|
    requires !table[k].overridable && sig(table[k]) == sig(m) && table[k].scope != m.scope
    ensures var t := Bind(rules, isInterface, table, m).table;
            k < |t| && (t[k] == m <==> !m.isOverride && (isInterface ==> m.overridable))
  {
    ExactMatchMeaning(rules, sig, table, m, ms);
    BindSound(rules, sig, isInterface, table, m, ms);
    assert ExactMatch(rules, table, m.id) == Some(k);
  }

  /** A table whose one method is not overridable, and an incompatible method that replaces it. */
  lemma FinalReplacedByIncompatible()
    ensures var rules := Rules((a: Method, r: string) => if a.id == r then At(0) else At(NOMATCH), (a, b) => false);
            var final := Method(1, "f()", 10, false, false);
            var m := Method(2, "f()", 20, true, false);
            !rules.compatible(final, m) && Bind(rules, false, [final], m) == Bound([m], 1)
  {
    var rules := Rules((a: Method, r: string) => if a.id == r then At(0) else At(NOMATCH), (a, b) => false);
    var final := Method(1, "f()", 10, false, false);
    var m := Method(2, "f()", 20, true, false);
    var sig: Method -> int := _ => 0;
    FinalIsReplaced(rules, sig, false, [final], 0, m, {final, m});
    BindSound(rules, sig, false, [final], m, {final, m});
    BindRejects(rules, sig, false, [final], m, {final, m});
    assert BoundWell(sig, [final], m, {final, m}, Bind(rules, false, [final], m));
  }

  lemma OverridesMeaning(rules: Rules, table: seq<Method>, m: Method)
    requires Comparable(rules, table, m.id)
    ensures OverridesNothing(table, m, LookupIn(rules, table, m.id)) <==> !Overrides(rules, table, m)
  {
    LookupMeaning(rules, table, m.id);
    var l := LookupIn(rules, table, m.id);
    var n: nat := |table|;
    if AnyMatch(rules, table, m.id, n) {
      if l.found.Some? {
        var k := l.found.value;
        assert Closest(rules, table, m.id, n, k) && !Tied(rules, table, m.id, n, k);
        forall j: nat | Closest(rules, table, m.id, n, j) ensures j == k {
        }
      } else {
        forall k: nat | Closest(rules, table, m.id, n, k) ensures Tied(rules, table, m.id, n, k) {
          assert l.found != Some(k);
        }
      }
    } else {
      forall k: nat ensures !Closest(rules, table, m.id, n, k) {
      }
    }
  }

  lemma ClashMeaning(rules: Rules, sig: Method -> int, table: seq<Method>, m: Method, ms: set<Method>)
    requires WellDeclared(rules, sig, ms) && GoodTable(sig, table, ms) && m in ms
    ensures Comparable(rules, table, m.id)
    ensures Clashes(rules, sig, table, m) <==>
            var e := ExactMatch(rules, table, m.id);
            && e.Some? && table[e.value] != m
            && if table[e.value].scope != m.scope then table[e.value].overridable && !rules.compatible(table[e.value], m)
               else table[e.value].id != m.id
  {
    ExactMatchMeaning(rules, sig, table, m, ms);
  }

  /** What binding the first `n` methods of a scope leaves behind. */
  ghost predicate ScopeBound(
    sig: Method -> int, base: seq<Method>, scope: seq<Method>, n: nat, ms: set<Method>, table: seq<Method>)
    requires n <= |scope|
  {
    && GoodTable(sig, table, ms)
    && SameSlots(sig, base, table)
    && (forall j :: 0 <= j < n ==> scope[j] in table)
    && (forall i :: 0 <= i < |table| ==> (i < |base| && table[i] == base[i]) || table[i] in scope[..n])
  }

  lemma ScopeBoundStep(
    sig: Method -> int, base: seq<Method>, scope: seq<Method>, n: nat, owner: Ref, ms: set<Method>,
    table: seq<Method>, b: Binding)
    requires 0 < n <= |scope| && ScopeBound(sig, base, scope, n - 1, ms, table)
    requires forall j :: 0 <= j < |scope| ==> scope[j].scope == owner
    requires BoundWell(sig, table, scope[n - 1], ms, b)
    ensures ScopeBound(sig, base, scope, n, ms, b.table)
  {
    var m := scope[n - 1];
    assert scope[..n] == scope[..n - 1] + [m];
    forall j | 0 <= j < n ensures scope[j] in b.table {
      if j < n - 1 {
        var k :| 0 <= k < |table| && table[k] == scope[j];
        assert b.table[k] == scope[j];
      } else {
        assert b.table[b.index - 1] == m;
      }
    }
  }

  lemma {:induction false} BindUpToSound(
    rules: Rules, sig: Method -> int, isInterface: bool, base: seq<Method>, scope: seq<Method>, n: nat,
    owner: Ref, ms: set<Method>)
    requires WellDeclared(rules, sig, ms) && GoodTable(sig, base, ms) && Within(scope, ms) && n <= |scope|
    requires forall j :: 0 <= j < |scope| ==> scope[j].scope == owner
    ensures var b := BindUpTo(rules, isInterface, base, scope, n);
            b.Rejected? || (b.Bound? && ScopeBound(sig, base, scope, n, ms, b.table))
  {
    if n > 0 {
      BindUpToSound(rules, sig, isInterface, base, scope, n - 1, owner, ms);
      var b := BindUpTo(rules, isInterface, base, scope, n - 1);
      if b.Bound? {
        BindSound(rules, sig, isInterface, b.table, scope[n - 1], ms);
        var b' := Bind(rules, isInterface, b.table, scope[n - 1]);
        if b'.Bound? {
          ScopeBoundStep(sig, base, scope, n, owner, ms, b.table, b');
        }
      }
    }
  }

  /** What one level of inheritance does to each inherited slot: it now holds the method of this scope
      with that signature if there is one, and is otherwise untouched. */
  lemma OverrideMeaning(
    rules: Rules, sig: Method -> int, isInterface: bool, base: seq<Method>, scope: seq<Method>, owner: Ref, ms: set<Method>, i: nat)
    requires WellDeclared(rules, sig, ms) && GoodTable(sig, base, ms) && Within(scope, ms)
    requires forall j :: 0 <= j < |scope| ==> scope[j].scope == owner
    requires BindUpTo(rules, isInterface, base, scope, |scope|).Bound?
    requires i < |base|
    ensures var table := BindUpTo(rules, isInterface, base, scope, |scope|).table;
            && i < |table|
            && (forall m :: m in scope && sig(m) == sig(base[i]) ==> table[i] == m)
            && ((forall m :: m in scope ==> sig(m) != sig(base[i])) ==> table[i] == base[i])
  {
    BindUpToSound(rules, sig, isInterface, base, scope, |scope|, owner, ms);
    assert scope[..|scope|] == scope;
    var table := BindUpTo(rules, isInterface, base, scope, |scope|).table;
    forall m | m in scope && sig(m) == sig(base[i]) ensures table[i] == m {
      var j :| 0 <= j < |scope| && scope[j] == m;
      assert scope[j] in table;
      var k :| 0 <= k < |table| && table[k] == m;
      assert sig(table[i]) == sig(base[i]);
      assert sig(table[i]) == sig(table[k]);
    }
  }

  /** One type in a chain of bases, from the root down: what it declares and the table it ended up with. */
  datatype Level = Level(isInterface: bool, owner: Ref, scope: seq<Method>, table: seq<Method>)

  function BaseTable(levels: seq<Level>, k: nat): seq<Method>
    requires k < |levels|
  {
    if k == 0 then [] else levels[k - 1].table
  }

  ghost predicate LevelBuilt(rules: Rules, levels: seq<Level>, ms: set<Method>, k: nat)
    requires k < |levels|
  {
    var l := levels[k];
    && Within(l.scope, ms)
    && (forall j :: 0 <= j < |l.scope| ==> l.scope[j].scope == l.owner)
    && BindUpTo(rules, l.isInterface, BaseTable(levels, k), l.scope, |l.scope|).Bound?
    && BindUpTo(rules, l.isInterface, BaseTable(levels, k), l.scope, |l.scope|).table == l.table
  }

  ghost predicate Hierarchy(rules: Rules, sig: Method -> int, levels: seq<Level>, ms: set<Method>) {
    && WellDeclared(rules, sig, ms)
    && forall k :: 0 <= k < |levels| ==> LevelBuilt(rules, levels, ms, k)
  }

  lemma {:induction false} LevelsGood(rules: Rules, sig: Method -> int, levels: seq<Level>, ms: set<Method>, k: nat)
    requires Hierarchy(rules, sig, levels, ms) && k < |levels|
    ensures WellDeclared(rules, sig, ms) && GoodTable(sig, levels[k].table, ms)
    ensures SameSlots(sig, BaseTable(levels, k), levels[k].table)
  {
    assert LevelBuilt(rules, levels, ms, k);
    if k > 0 {
      LevelsGood(rules, sig, levels, ms, k - 1);
    }
    LevelGood(rules, sig, levels, ms, k);
  }

  lemma LevelGood(rules: Rules, sig: Method -> int, levels: seq<Level>, ms: set<Method>, k: nat)
    requires k < |levels| && WellDeclared(rules, sig, ms) && LevelBuilt(rules, levels, ms, k)
    requires GoodTable(sig, BaseTable(levels, k), ms)
    ensures GoodTable(sig, levels[k].table, ms)
    ensures SameSlots(sig, BaseTable(levels, k), levels[k].table)
  {
    hide WellDeclared, GoodTable, SameSlots, BindUpTo;
    var l := levels[k];
    BindUpToSound(rules, sig, l.isInterface, BaseTable(levels, k), l.scope, |l.scope|, l.owner, ms);
  }

  /** A method index resolved against an ancestor addresses, in every descendant, the one method that a
      lookup of the ancestor's signature in the descendant finds: dispatch by index is dispatch by name. */
  lemma {:induction false} IndexStability(rules: Rules, sig: Method -> int, levels: seq<Level>, ms: set<Method>, a: nat, b: nat, i: nat)
    requires Hierarchy(rules, sig, levels, ms) && a <= b < |levels| && i < |levels[a].table|
    ensures i < |levels[b].table|
    ensures sig(levels[b].table[i]) == sig(levels[a].table[i])
    ensures ExactMatch(rules, levels[b].table, levels[a].table[i].id) == Some(i)
    decreases b - a
  {
    hide Hierarchy, Canonical, OnePerId, ExactMatch, LevelBuilt;
    LevelsGood(rules, sig, levels, ms, a);
    LevelsGood(rules, sig, levels, ms, b);
    if a < b {
      IndexStability(rules, sig, levels, ms, a, b - 1, i);
      LevelsGood(rules, sig, levels, ms, b - 1);
    }
    ExactMatchMeaning(rules, sig, levels[b].table, levels[a].table[i], ms);
  }
}
