/** Enum and bitmask constants: numbering while they are declared, lookup by value, the claims an enum holds
    on them, and the masks a bitmask can express. */
module Constants {
  import opened Store

  const I32 := 0x8000_0000

  /** Conversion of a uint32 count to int32. */
  function ToInt32(n: nat): int {
    var w := n % (2 * I32);
    if w < I32 then w else w - 2 * I32
  }

  function Pow2(n: nat): nat {
    if n == 0 then 1 else 2 * Pow2(n - 1)
  }

  /** 1 << n in an int, which reaches the sign bit at 31. */
  function Shifted(n: nat): int
    requires n <= 31
  {
    if n < 31 then Pow2(n) else -I32
  }

  class EnumType {
    const isBitmask: bool
    var constants: seq<Ref>
    var values: map<Ref, int>      // the int32 stored in each constant object
    var scopeSize: nat             // objects in the scope of the type

    constructor (isBitmask: bool)
      ensures this.isBitmask == isBitmask && constants == [] && values == map[] && scopeSize == 0
    {
      this.isBitmask := isBitmask;
      constants, values, scopeSize := [], map[], 0;
    }

    /** Every constant has its value. */
    ghost predicate Valid()
      reads this
    {
      forall i :: 0 <= i < |constants| ==> constants[i] != NULL && constants[i] in values
    }

    /** The scope has held constants only, all of them bound in order, each object once. */
    ghost predicate Numbered()
      reads this
    {
      && Valid() && scopeSize == |constants|
      && (forall i, j :: 0 <= i < j < |constants| ==> constants[i] != constants[j])
      && (forall i :: 0 <= i < |constants| ==>
            if isBitmask then i <= 31 && values[constants[i]] == Shifted(i) else values[constants[i]] == ToInt32(i))
    }

    /** Declaring a constant: the store adds it to the scope, then corto_constant_init dispatches on the
        kind of the parent. */
    method DeclareConstant(c: Ref, store: ObjectStore, ghost others: Ref -> int)
      requires Valid() && c != NULL && c !in constants
      requires isBitmask ==> scopeSize <= 31
      requires store.Accounts(multiset(constants), others)
      modifies this, store
      ensures constants == old(constants) + [c]
      ensures scopeSize == old(scopeSize) + 1
      ensures values == old(values)[c := if isBitmask then Shifted(old(scopeSize)) else ToInt32(old(scopeSize))]
      ensures Valid() && (old(Numbered()) ==> Numbered())
      ensures store.Accounts(multiset(constants), others)
      ensures store.destructed == old(store.destructed)
    {
      scopeSize := scopeSize + 1;
      if isBitmask {
        values := values[c := Shifted(scopeSize - 1)];
      } else {
        values := values[c := ToInt32(scopeSize - 1)];
      }
      store.ClaimHeld(c, multiset(constants), others);
      constants := constants + [c];
    }

    /** An object that is not a constant joins the scope. */
    method DeclareOther()
      modifies this`scopeSize
      ensures scopeSize == old(scopeSize) + 1
    {
      scopeSize := scopeSize + 1;
    }

    /** corto_enum_constant_from_value. */
    method ConstantFromValue(value: int) returns (c: Ref)
      requires Valid()
      ensures c != NULL ==> exists i ::
                && 0 <= i < |constants| && constants[i] == c && values[c] == value
                && forall j :: 0 <= j < i ==> values[constants[j]] != value
      ensures c == NULL ==> forall i :: 0 <= i < |constants| ==> values[constants[i]] != value
    {
      var i := 0;
      while i < |constants|
        invariant i <= |constants|
        invariant forall j :: 0 <= j < i ==> values[constants[j]] != value
      {
        if values[constants[i]] == value {
          return constants[i];
        }
        i := i + 1;
      }
      return NULL;
    }

    /** On a numbered enum the lookup is the inverse of the numbering: value v leads to constant v, and every
        other value to nothing. */
    method ConstantOfNumber(value: int) returns (c: Ref)
      requires Numbered() && !isBitmask && |constants| <= I32
      ensures c == if 0 <= value < |constants| then constants[value] else NULL
    {
      c := ConstantFromValue(value);
      assert forall i :: 0 <= i < |constants| ==> values[constants[i]] == i;
    }

    /** corto_enum_destruct. */
    method Destruct(store: ObjectStore, ghost others: Ref -> int)
      requires store.Accounts(multiset(constants), others)
      modifies this, store
      ensures constants == []
      ensures store.Accounts(multiset{}, others)
    {
      hide ObjectStore.Accounts;
      var i := 0;
      assert constants[0..] == constants;
      while i < |constants|
        invariant i <= |constants| && constants == old(constants)
        invariant store.Accounts(multiset(constants[i..]), others)
      {
        assert constants[i..] == [constants[i]] + constants[i + 1..];
        assert multiset(constants[i..]) - multiset{constants[i]} == multiset(constants[i + 1..]);
        store.ReleaseHeld(constants[i], multiset(constants[i..]), others);
        i := i + 1;
      }
      assert constants[i..] == [];
      constants := [];
    }
  }

  /** Declares constants one after the other in a fresh scope. */
  method DeclareAll(isBitmask: bool, cs: seq<Ref>, store: ObjectStore, ghost others: Ref -> int) returns (e: EnumType)
    requires forall i :: 0 <= i < |cs| ==> cs[i] != NULL
    requires forall i, j :: 0 <= i < j < |cs| ==> cs[i] != cs[j]
    requires isBitmask ==> |cs| <= 32
    requires store.Accounts(multiset{}, others)
    modifies store
    ensures fresh(e) && e.isBitmask == isBitmask && e.constants == cs && e.Numbered()
    ensures store.Accounts(multiset(cs), others)
  {
    e := new EnumType(isBitmask);
    var i := 0;
    assert cs[..0] == [];
    while i < |cs|
      invariant i <= |cs| && fresh(e) && e.isBitmask == isBitmask
      invariant e.constants == cs[..i] && e.Numbered()
      invariant store.Accounts(multiset(e.constants), others)
    {
      e.DeclareConstant(cs[i], store, others);
      assert cs[..i + 1] == cs[..i] + [cs[i]];
      i := i + 1;
    }
    assert cs[..i] == cs;
  }

  /** Declaring and then destructing an enum leaves every counter as it was. */
  method DeclareAndDestruct(isBitmask: bool, cs: seq<Ref>, store: ObjectStore, ghost others: Ref -> int)
    requires forall i :: 0 <= i < |cs| ==> cs[i] != NULL
    requires forall i, j :: 0 <= i < j < |cs| ==> cs[i] != cs[j]
    requires isBitmask ==> |cs| <= 32
    requires store.Accounts(multiset{}, others)
    modifies store
    ensures store.Accounts(multiset{}, others)
  {
    var e := DeclareAll(isBitmask, cs, store, others);
    e.Destruct(store, others);
  }

  /** The constants among the first `n` objects of a scope. */
  function ConstantsAmong(scope: seq<Option<Ref>>, n: nat): seq<Ref>
    requires n <= |scope|
  {
    if n == 0 then []
    else ConstantsAmong(scope, n - 1) + (if scope[n - 1].Some? then [scope[n - 1].value] else [])
  }

  lemma {:induction false} ConstantsCounted(scope: seq<Option<Ref>>, n: nat)
    requires n <= |scope|
    ensures |ConstantsAmong(scope, n)| <= n
    ensures |ConstantsAmong(scope, n)| == n <==> forall i :: 0 <= i < n ==> scope[i].Some?
    ensures forall c :: c in ConstantsAmong(scope, n) <==> Some(c) in scope[..n]
  {
    if n > 0 {
      ConstantsCounted(scope, n - 1);
      assert scope[..n] == scope[..n - 1] + [scope[n - 1]];
    } else {
      assert scope[..n] == [];
    }
  }

  function NumberAt(isBitmask: bool, i: nat): int
    requires isBitmask ==> i <= 31
  {
    if isBitmask then Shifted(i) else ToInt32(i)
  }

  /** Each constant among the first `n` objects is numbered by its place. */
  ghost predicate ByPlace(values: map<Ref, int>, isBitmask: bool, scope: seq<Option<Ref>>, n: nat)
    requires n <= |scope| && (isBitmask ==> |scope| <= 32)
  {
    forall i :: 0 <= i < n && scope[i].Some? ==>
      scope[i].value in values && values[scope[i].value] == NumberAt(isBitmask, i)
  }

  ghost predicate OncePerConstant(scope: seq<Option<Ref>>) {
    && Some(NULL) !in scope
    && forall i, j :: 0 <= i < j < |scope| && scope[i].Some? ==> scope[i] != scope[j]
  }

  lemma NextByPlace(values: map<Ref, int>, isBitmask: bool, scope: seq<Option<Ref>>, i: nat)
    requires i < |scope| && (isBitmask ==> |scope| <= 32) && ByPlace(values, isBitmask, scope, i) && OncePerConstant(scope)
    ensures scope[i].None? ==> ByPlace(values, isBitmask, scope, i + 1)
    ensures scope[i].Some? ==>
              && scope[i].value != NULL && scope[i].value !in ConstantsAmong(scope, i)
              && ByPlace(values[scope[i].value := NumberAt(isBitmask, i)], isBitmask, scope, i + 1)
  {
    ConstantsCounted(scope, i);
    assert scope[i] in scope;
    assert forall j :: 0 <= j < i && scope[j].Some? ==> scope[j] != scope[i];
  }

  /** Fills a fresh scope with constants and, where `scope` says None, other objects. Each constant is numbered
      by its place in the scope, so the constants are numbered in order if and only if nothing else is there. */
  method DeclareScope(isBitmask: bool, scope: seq<Option<Ref>>, store: ObjectStore, ghost others: Ref -> int)
    returns (e: EnumType)
    requires OncePerConstant(scope) && (isBitmask ==> |scope| <= 32)
    requires store.Accounts(multiset{}, others)
    modifies store
    ensures fresh(e) && e.isBitmask == isBitmask && e.constants == ConstantsAmong(scope, |scope|) && e.Valid()
    ensures ByPlace(e.values, isBitmask, scope, |scope|)
    ensures e.Numbered() <==> forall i :: 0 <= i < |scope| ==> scope[i].Some?
    ensures store.Accounts(multiset(e.constants), others)
  {
    e := new EnumType(isBitmask);
    hide ObjectStore.Accounts, ByPlace, OncePerConstant, ConstantsAmong, EnumType.Numbered;
    NothingDeclared(e, scope);
    var i := 0;
    while i < |scope|
      invariant i <= |scope| && fresh(e) && e.isBitmask == isBitmask && e.Valid() && e.scopeSize == i
      invariant e.constants == ConstantsAmong(scope, i) && ByPlace(e.values, isBitmask, scope, i)
      invariant (forall j :: 0 <= j < i ==> scope[j].Some?) ==> e.Numbered()
      invariant store.Accounts(multiset(e.constants), others)
    {
      NextByPlace(e.values, isBitmask, scope, i);
      NextConstant(scope, i);
      if scope[i].Some? {
        e.DeclareConstant(scope[i].value, store, others);
      } else {
        e.DeclareOther();
      }
      i := i + 1;
    }
    ConstantsCounted(scope, |scope|);
    NumberedCounts(e);
  }

  lemma NextConstant(scope: seq<Option<Ref>>, i: nat)
    requires i < |scope|
    ensures ConstantsAmong(scope, i + 1) ==
            ConstantsAmong(scope, i) + (if scope[i].Some? then [scope[i].value] else [])
  {
  }

  lemma NothingDeclared(e: EnumType, scope: seq<Option<Ref>>)
    requires e.constants == [] && e.scopeSize == 0 && (e.isBitmask ==> |scope| <= 32)
    ensures e.Numbered() && ConstantsAmong(scope, 0) == [] && ByPlace(e.values, e.isBitmask, scope, 0)
  {
  }

  lemma NumberedCounts(e: EnumType)
    ensures e.Numbered() ==> e.scopeSize == |e.constants|
  {
  }

  /** The numbers of the first n constants are 0 to n - 1, as long as they fit an int32; beyond, they do not. */
  lemma NumberingExact(n: nat)
    ensures (forall i :: 0 <= i < n ==> ToInt32(i) == i) <==> n <= I32
  {
    if n > I32 {
      assert ToInt32(I32) != I32;
    }
  }

  /** Beyond that the number wraps: it is the int32 congruent to the place. */
  lemma ToInt32Meaning(n: nat)
    ensures -I32 <= ToInt32(n) < I32 && (n - ToInt32(n)) % (2 * I32) == 0
  {
  }

  // ---- Masks ----------------------------------------------------------------------------------------------------

  /** Bitwise operators on naturals. */
  function Or(a: nat, b: nat): nat
    decreases a + b
  {
    if a == 0 && b == 0 then 0
    else (if a % 2 == 1 || b % 2 == 1 then 1 else 0) + 2 * Or(a / 2, b / 2)
  }

  function And(a: nat, b: nat): nat
    decreases a + b
  {
    if a == 0 && b == 0 then 0
    else (if a % 2 == 1 && b % 2 == 1 then 1 else 0) + 2 * And(a / 2, b / 2)
  }

  lemma {:induction false} AndWithZero(a: nat)
    ensures And(0, a) == 0 && And(a, 0) == 0
  {
    if a > 0 {
      AndWithZero(a / 2);
    }
  }

  lemma {:induction false} OrWithZero(a: nat)
    ensures Or(0, a) == a && Or(a, 0) == a
  {
    if a > 0 {
      OrWithZero(a / 2);
    }
  }

  /** Bit `i` of a number. */
  predicate Bit(n: nat, i: nat) {
    if i == 0 then n % 2 == 1 else Bit(n / 2, i - 1)
  }

  /** The operators work bit by bit. */
  lemma {:induction false} BitsOf(a: nat, b: nat, i: nat)
    ensures Bit(Or(a, b), i) <==> Bit(a, i) || Bit(b, i)
    ensures Bit(And(a, b), i) <==> Bit(a, i) && Bit(b, i)
  {
    hide Or, And;
    LowestBit(a, b);
    if i > 0 {
      BitsOf(a / 2, b / 2, i - 1);
    }
  }

  lemma LowestBit(a: nat, b: nat)
    ensures Or(a, b) / 2 == Or(a / 2, b / 2) && (Or(a, b) % 2 == 1 <==> a % 2 == 1 || b % 2 == 1)
    ensures And(a, b) / 2 == And(a / 2, b / 2) && (And(a, b) % 2 == 1 <==> a % 2 == 1 && b % 2 == 1)
  {
  }

  /** Different constants of a bitmask have no bit in common. */
  lemma {:induction false} ConstantsDisjoint(i: nat, j: nat)
    requires i != j
    ensures And(Pow2(i), Pow2(j)) == 0
  {
    if i > 0 && j > 0 {
      ConstantsDisjoint(i - 1, j - 1);
    } else {
      AndWithZero(Pow2(if i == 0 then j - 1 else i - 1));
    }
  }

  /** The union of the constants chosen, in order of declaration. */
  function Union(chosen: seq<bool>): nat {
    if chosen == [] then 0
    else
      var n := |chosen| - 1;
      var rest := Union(chosen[..n]);
      if chosen[n] then Or(rest, Pow2(n)) else rest
  }

  /** A constant above all bits of a mask simply adds to it. */
  lemma {:induction false} OrAbove(m: nat, n: nat)
    requires m < Pow2(n)
    ensures Or(m, Pow2(n)) == m + Pow2(n)
  {
    if n == 0 {
      OrWithZero(1);
    } else {
      OrAbove(m / 2, n - 1);
    }
  }

  lemma {:induction false} UnionBelow(chosen: seq<bool>)
    ensures Union(chosen) < Pow2(|chosen|)
  {
    if chosen != [] {
      var n := |chosen| - 1;
      UnionBelow(chosen[..n]);
      OrAbove(Union(chosen[..n]), n);
    }
  }

  /** Different subsets of the constants have different unions. */
  lemma {:induction false} UnionInjective(a: seq<bool>, b: seq<bool>)
    requires |a| == |b| && Union(a) == Union(b)
    ensures a == b
  {
    if a != [] {
      var n := |a| - 1;
      UnionBelow(a[..n]);
      UnionBelow(b[..n]);
      OrAbove(Union(a[..n]), n);
      OrAbove(Union(b[..n]), n);
      UnionInjective(a[..n], b[..n]);
      assert a == a[..n] + [a[n]] && b == b[..n] + [b[n]];
    }
  }

  /** Every mask below 2^n is the union of a subset of n constants; with UnionInjective, of exactly one. */
  lemma {:induction false} EveryMaskIsUnion(mask: nat, n: nat) returns (chosen: seq<bool>)
    requires mask < Pow2(n)
    ensures |chosen| == n && Union(chosen) == mask
  {
    if n == 0 {
      chosen := [];
    } else {
      var top := mask >= Pow2(n - 1);
      var below := if top then mask - Pow2(n - 1) else mask;
      var rest := EveryMaskIsUnion(below, n - 1);
      chosen := rest + [top];
      assert chosen[..n - 1] == rest;
      OrAbove(below, n - 1);
    }
  }

  // ---- The constants of a bitmask -----------------------------------------------------------------------------

  /** The first n constants are the powers of two in order if and only if n is at most 31: the 32nd reaches the
      sign bit. */
  lemma ShiftedExact(n: nat)
    requires n <= 32
    ensures (forall i :: 0 <= i < n ==> Shifted(i) == Pow2(i)) <==> n <= 31
    ensures n == 32 ==> Shifted(31) + Pow2(31) == 0
  {
    assert Pow2(31) == I32 by {
      PowersOfTwo();
    }
    if n == 32 {
      assert Shifted(31) != Pow2(31);
    }
  }

  lemma PowersOfTwo()
    ensures Pow2(31) == I32
  {
    assert Pow2(8) == 256;
    assert Pow2(16) == 65536;
    assert Pow2(24) == 16777216;
  }

  /** The values stored in the constants of a type, in order. */
  function ValuesOf(e: EnumType): (r: seq<int>)
    requires forall i :: 0 <= i < |e.constants| ==> e.constants[i] in e.values
    reads e
    ensures |r| == |e.constants| && forall i :: 0 <= i < |r| ==> r[i] == e.values[e.constants[i]]
  {
    seq(|e.constants|, i requires 0 <= i < |e.constants| reads e
                         requires e.constants[i] in e.values => e.values[e.constants[i]])
  }

  /** The union of the values chosen. */
  function MaskOf(values: seq<int>, chosen: seq<bool>): nat
    requires |values| == |chosen| && forall i :: 0 <= i < |values| ==> values[i] >= 0
  {
    if values == [] then 0
    else
      var n := |values| - 1;
      var rest := MaskOf(values[..n], chosen[..n]);
      if chosen[n] then Or(rest, values[n]) else rest
  }

  ghost predicate Powers(values: seq<int>) {
    forall i :: 0 <= i < |values| ==> values[i] == Pow2(i)
  }

  lemma {:induction false} MaskOfPowers(values: seq<int>, chosen: seq<bool>)
    requires |values| == |chosen| && Powers(values)
    ensures MaskOf(values, chosen) == Union(chosen)
  {
    if values != [] {
      var n := |values| - 1;
      MaskOfPowers(values[..n], chosen[..n]);
    }
  }

  /** Exactly one choice among the values gives the mask. */
  ghost predicate ExactlyOneChoice(values: seq<int>, mask: nat)
    requires forall i :: 0 <= i < |values| ==> values[i] >= 0
  {
    exists chosen: seq<bool> ::
      && |chosen| == |values| && MaskOf(values, chosen) == mask
      && forall other: seq<bool> :: |other| == |values| && MaskOf(values, other) == mask ==> other == chosen
  }

  lemma PowersChoose(values: seq<int>, mask: nat)
    requires Powers(values) && mask < Pow2(|values|)
    ensures ExactlyOneChoice(values, mask)
  {
    var chosen := EveryMaskIsUnion(mask, |values|);
    MaskOfPowers(values, chosen);
    forall other: seq<bool> | |other| == |values| && MaskOf(values, other) == mask ensures other == chosen {
      MaskOfPowers(values, other);
      UnionInjective(other, chosen);
    }
  }

  /** Bitmask independence. The constants of a bitmask are the powers of two in order exactly if there are at
      most 31; then no two share a bit, and every mask of their width is the union of exactly one choice of
      them. */
  lemma BitmaskIndependent(e: EnumType)
    requires e.Numbered() && e.isBitmask
    ensures Powers(ValuesOf(e)) <==> |e.constants| <= 31
    ensures |e.constants| <= 31 ==>
              && (forall i, j :: 0 <= i < j < |e.constants| ==>
                    And(e.values[e.constants[i]], e.values[e.constants[j]]) == 0)
              && forall mask: nat :: mask < Pow2(|e.constants|) ==> ExactlyOneChoice(ValuesOf(e), mask)
  {
    var n := |e.constants|;
    AtMost32(e);
    ShiftedExact(n);
    if n <= 31 {
      forall i, j | 0 <= i < j < n ensures And(e.values[e.constants[i]], e.values[e.constants[j]]) == 0 {
        ConstantsDisjoint(i, j);
      }
      forall mask: nat | mask < Pow2(n) ensures ExactlyOneChoice(ValuesOf(e), mask) {
        PowersChoose(ValuesOf(e), mask);
      }
    } else {
      assert ValuesOf(e)[31] != Pow2(31);
    }
  }

  lemma AtMost32(e: EnumType)
    requires e.Numbered() && e.isBitmask
    ensures |e.constants| <= 32
  {
    if e.constants != [] {
      assert e.constants[|e.constants| - 1] != NULL;
    }
  }
}
