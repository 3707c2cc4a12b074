/** Function objects: the size of their argument block, the procedure type that decides about `this`, and
    the check for conflicting overloads. */
module Functions {
  import MethodLookup
  import Overload
  import opened Sizes
  import opened Store
  import TypeConstruct
  import Types

  // ---- Argument block --------------------------------------------------------------------------------------

  /** What the size computation distinguishes in a parameter type; a primitive comes with its size. */
  datatype ParameterType = AnyType | PrimitiveType(size: nat) | SequenceType | OtherType

  datatype InOut = In | Out | Both

  datatype SizedParameter = SizedParameter(ptype: ParameterType, inout: InOut, byReference: bool)

  /** Whether functions of a procedure type have a `this`, and its size if they say. */
  datatype Procedure = Procedure(hasThis: bool, thisSize: Option<nat>)

  function SlotSize(p: SizedParameter): nat {
    if p.byReference || !p.inout.In? then ADDRESS_SIZE
    else match p.ptype
      case AnyType => ANY_SIZE
      case PrimitiveType(size) => size
      case SequenceType => SEQUENCE_SIZE
      case OtherType => ADDRESS_SIZE
  }

  function ThisSize(p: Procedure): nat {
    if !p.hasThis then 0 else if p.thisSize.Some? then p.thisSize.value else ADDRESS_SIZE
  }

  function Total(ps: seq<SizedParameter>): nat {
    if ps == [] then 0 else SlotSize(ps[0]) + Total(ps[1..])
  }

  /** The size as it is stored: 16 bits wide. */
  function BlockSize(p: Procedure, ps: seq<SizedParameter>): nat {
    (ThisSize(p) + Total(ps)) % U16
  }

  class FunctionObject {
    const parameterCount: nat
    const parameters: Option<seq<SizedParameter>>   // None is a NULL buffer
    var size: nat
    var returnType: Ref
    var returnsReference: bool

    constructor (count: nat, parameters: Option<seq<SizedParameter>>, returnType: Ref)
      ensures this.parameterCount == count && this.parameters == parameters
      ensures size == 0 && this.returnType == returnType && !returnsReference
    {
      this.parameterCount, this.parameters, this.returnType := count, parameters, returnType;
      size, returnsReference := 0, false;
    }

    predicate Valid()
      reads this
    {
      size < U16 && (parameters.Some? ==> |parameters.value| == parameterCount)
    }

    function Parameters(): seq<SizedParameter> {
      if parameters.Some? then parameters.value else []
    }

    /** The part of corto_function_construct that determines return type and argument size. A block that
        was sized before is left alone; a missing buffer fails after `this` was counted. */
    method Construct(procedure: Procedure, voidType: Ref, isReference: Ref -> bool) returns (ok: bool)
      requires Valid()
      modifies this
      ensures Valid()
      ensures ok <==> old(size) != 0 || parameterCount == 0 || parameters.Some?
      ensures returnType == if old(returnType) == NULL then voidType else old(returnType)
      ensures returnsReference == (old(returnsReference) || (old(returnType) != NULL && isReference(old(returnType))))
      ensures size == if old(size) != 0 then old(size)
                      else if ok then BlockSize(procedure, Parameters())
                      else ThisSize(procedure) % U16
    {
      if returnType == NULL {
        returnType := voidType;
      } else if isReference(returnType) {
        returnsReference := true;
      }
      if size == 0 {
        if procedure.hasThis {
          if procedure.thisSize.Some? {
            size := (size + procedure.thisSize.value) % U16;
          } else {
            size := (size + ADDRESS_SIZE) % U16;
          }
        }
        if parameterCount != 0 && parameters.None? {
          return false;
        }
        var ps := Parameters();
        var i := 0;
        assert ps[..0] == [];
        while i < |ps|
          modifies this`size
          invariant i <= |ps| && size == BlockSize(procedure, ps[..i])
        {
          BlockSizeNext(procedure, ps, i);
          size := (size + SlotSize(ps[i])) % U16;
          i := i + 1;
        }
        assert ps[..i] == ps;
      }
      return true;
    }
  }

  /** One more parameter. */
  lemma BlockSizeNext(p: Procedure, ps: seq<SizedParameter>, i: nat)
    requires i < |ps|
    ensures BlockSize(p, ps[..i + 1]) == (BlockSize(p, ps[..i]) + SlotSize(ps[i])) % U16
  {
    TotalOfConcat(ps[..i], [ps[i]]);
    assert ps[..i + 1] == ps[..i] + [ps[i]];
    AddInside(ThisSize(p) + Total(ps[..i]), SlotSize(ps[i]));
  }

  lemma AddInside(a: nat, b: nat)
    ensures (a % U16 + b) % U16 == (a + b) % U16
  {
  }

  lemma {:induction false} TotalOfConcat(a: seq<SizedParameter>, b: seq<SizedParameter>)
    ensures Total(a + b) == Total(a) + Total(b)
  {
    if a == [] {
      assert a + b == b;
    } else {
      assert (a + b)[1..] == a[1..] + b;
      TotalOfConcat(a[1..], b);
    }
  }

  lemma WithoutOne(b: seq<SizedParameter>, i: nat)
    requires i < |b|
    ensures var rest := b[..i] + b[i + 1..];
            multiset(rest) == multiset(b) - multiset{b[i]} && Total(b) == SlotSize(b[i]) + Total(rest)
  {
    assert b == (b[..i] + [b[i]]) + b[i + 1..];
    TotalOfConcat(b[..i] + [b[i]], b[i + 1..]);
    TotalOfConcat(b[..i], [b[i]]);
    TotalOfConcat(b[..i], b[i + 1..]);
  }

  /** The order of parameters does not matter. */
  lemma {:induction false} TotalOfPermutation(a: seq<SizedParameter>, b: seq<SizedParameter>)
    requires multiset(a) == multiset(b)
    ensures Total(a) == Total(b)
    decreases |a|
  {
    if a == [] {
      assert |multiset(b)| == 0;
    } else {
      var i := IndexOf(b, a[0]);
      var rest, rest' := a[..0] + a[1..], b[..i] + b[i + 1..];
      WithoutOne(a, 0);
      WithoutOne(b, i);
      TotalOfPermutation(rest, rest');
    }
  }

  lemma IndexOf(b: seq<SizedParameter>, x: SizedParameter) returns (i: nat)
    requires x in multiset(b)
    ensures i < |b| && b[i] == x
  {
    i :| 0 <= i < |b| && b[i] == x;
  }

  /** Reordering parameters keeps the stored size; it is the true size exactly if that fits in 16 bits. */
  lemma BlockSizeLaws(p: Procedure, a: seq<SizedParameter>, b: seq<SizedParameter>)
    requires multiset(a) == multiset(b)
    ensures BlockSize(p, a) == BlockSize(p, b)
    ensures BlockSize(p, a) == ThisSize(p) + Total(a) <==> ThisSize(p) + Total(a) < U16
  {
    TotalOfPermutation(a, b);
  }

  // ---- The slots against the values they carry -------------------------------------------------------------

  /** What the size computation distinguishes of a runtime type. A text is a primitive. */
  function Distinguished(t: Types.Type): ParameterType {
    match t
    case Any => AnyType
    case Primitive(_) => PrimitiveType(TypeConstruct.SizeOf(t))
    case Text => PrimitiveType(TypeConstruct.SizeOf(t))
    case Sequence(_) => SequenceType
    case _ => OtherType
  }

  /** A parameter of a type, as the size computation sees it. */
  predicate HasParameterType(p: SizedParameter, t: Types.Type) {
    p.ptype == Distinguished(t)
  }

  /** What is handed over for a parameter: the value itself if it is passed by value, goes in and is no array
      or struct, else its address. */
  function CarriedSize(p: SizedParameter, t: Types.Type): nat {
    if p.byReference || p.inout != In || t.Array? || t.Struct? then ADDRESS_SIZE else TypeConstruct.SizeOf(t)
  }

  /** A slot is as wide as what it carries: 1, 2, 4 or 8 bytes for a primitive of 8, 16, 32 or 64 bits, 24 for
      an any, 16 for a sequence, and 8 for everything else. */
  lemma SlotMeaning(p: SizedParameter, t: Types.Type)
    requires HasParameterType(p, t)
    ensures SlotSize(p) == CarriedSize(p, t)
    ensures SlotSize(p) ==
            if p.byReference || p.inout.Out? || p.inout.Both? then 8
            else if t == Types.Primitive(Types.W8) then 1
            else if t == Types.Primitive(Types.W16) then 2
            else if t == Types.Primitive(Types.W32) then 4
            else if t.Any? then 24
            else if t.Sequence? then 16
            else 8
  {
  }

  function CarriedTotal(ps: seq<SizedParameter>, ts: seq<Types.Type>): nat
    requires |ps| == |ts|
  {
    if ps == [] then 0 else CarriedSize(ps[0], ts[0]) + CarriedTotal(ps[1..], ts[1..])
  }

  lemma {:induction false} TotalMeaning(ps: seq<SizedParameter>, ts: seq<Types.Type>)
    requires |ps| == |ts| && forall i :: 0 <= i < |ps| ==> HasParameterType(ps[i], ts[i])
    ensures Total(ps) == CarriedTotal(ps, ts)
  {
    if ps != [] {
      SlotMeaning(ps[0], ts[0]);
      TotalMeaning(ps[1..], ts[1..]);
    }
  }

  /** The block holds `this`, as wide as the procedure says or else a pointer, and everything carried. */
  lemma BlockMeaning(p: Procedure, ps: seq<SizedParameter>, ts: seq<Types.Type>)
    requires |ps| == |ts| && forall i :: 0 <= i < |ps| ==> HasParameterType(ps[i], ts[i])
    ensures var self := if !p.hasThis then 0 else if p.thisSize == None then ADDRESS_SIZE else p.thisSize.value;
            BlockSize(p, ps) == (self + CarriedTotal(ps, ts)) % U16
  {
    TotalMeaning(ps, ts);
  }

  /** No runtime type is wider than an any, so up to 2730 parameters beside an object `this` always fit, and
      2731 need not. */
  lemma {:induction false} TotalBound(ps: seq<SizedParameter>)
    requires forall i :: 0 <= i < |ps| && ps[i].ptype.PrimitiveType? ==> ps[i].ptype.size <= ADDRESS_SIZE
    ensures Total(ps) <= ANY_SIZE * |ps|
  {
    if ps != [] {
      TotalBound(ps[1..]);
    }
  }

  lemma {:induction false} TotalOfAnys(n: nat)
    ensures Total(seq(n, i => SizedParameter(AnyType, In, false))) == ANY_SIZE * n
  {
    if n > 0 {
      var ps := seq(n, i => SizedParameter(AnyType, In, false));
      assert ps[1..] == seq(n - 1, i => SizedParameter(AnyType, In, false));
      TotalOfAnys(n - 1);
    }
  }

  lemma SafeParameterCount(n: nat)
    ensures (forall ps: seq<SizedParameter> ::
               |ps| == n && (forall i :: 0 <= i < |ps| && ps[i].ptype.PrimitiveType? ==> ps[i].ptype.size <= ADDRESS_SIZE)
               ==> BlockSize(Procedure(true, None), ps) == ADDRESS_SIZE + Total(ps))
            <==> n <= 2730
  {
    if n <= 2730 {
      forall ps: seq<SizedParameter> |
        |ps| == n && (forall i :: 0 <= i < |ps| && ps[i].ptype.PrimitiveType? ==> ps[i].ptype.size <= ADDRESS_SIZE)
        ensures BlockSize(Procedure(true, None), ps) == ADDRESS_SIZE + Total(ps)
      {
        TotalBound(ps);
      }
    } else {
      var ps := seq(n, i => SizedParameter(AnyType, In, false));
      TotalOfAnys(n);
      assert BlockSize(Procedure(true, None), ps) != ADDRESS_SIZE + Total(ps);
    }
  }

  /** Constructing a function again changes nothing, even if the size had wrapped to zero. */
  method ConstructAgain(f: FunctionObject, procedure: Procedure, voidType: Ref, isReference: Ref -> bool)
    requires f.Valid() && f.size == 0 && voidType != NULL && !isReference(voidType)
    requires f.parameterCount == 0 || f.parameters.Some?
    modifies f
    ensures f.size == BlockSize(procedure, f.Parameters())
  {
    var first := f.Construct(procedure, voidType, isReference);
    label once:
    var second := f.Construct(procedure, voidType, isReference);
    assert f.size == old@once(f.size) && f.returnType == old@once(f.returnType);
    assert f.returnsReference == old@once(f.returnsReference) && first && second;
  }

  // ---- The procedure type ------------------------------------------------------------------------------------

  /** A type in the inheritance chain of a function's type; only instances of `procedure` carry `hasThis`,
      and `declaresThis` is what the definition says. */
  datatype FunctionType = FunctionType(isProcedure: bool, declaresThis: bool, base: Option<FunctionType>)

  /** hasThis after corto_procedure_construct ran on the bases first. */
  function HasThis(t: FunctionType): bool {
    t.declaresThis || (t.base.Some? && t.base.value.isProcedure && HasThis(t.base.value))
  }

  class ProcedureObject {
    const base: ProcedureObject?     // null unless the base is a procedure
    var hasThis: bool

    constructor (base: ProcedureObject?, declaresThis: bool)
      ensures this.base == base && hasThis == declaresThis
    {
      this.base := base;
      hasThis := declaresThis;
    }

    /** corto_procedure_construct, against the description of the procedure. */
    method Construct(ghost t: FunctionType)
      requires base != this && hasThis == t.declaresThis
      requires base != null <==> t.base.Some? && t.base.value.isProcedure
      requires base != null ==> base.hasThis == HasThis(t.base.value)
      modifies this
      ensures hasThis == HasThis(t)
    {
      if !hasThis {
        if base != null {
          hasThis := base.hasThis;
        }
      }
    }
  }

  function Ancestor(t: FunctionType, k: nat): Option<FunctionType> {
    if k == 0 then Some(t) else if t.base.Some? then Ancestor(t.base.value, k - 1) else None
  }

  /** Ancestor `k` exists and all types from the first base up to it are procedures. */
  predicate Unbroken(t: FunctionType, k: nat) {
    k == 0 || (t.base.Some? && t.base.value.isProcedure && Unbroken(t.base.value, k - 1))
  }

  /** A procedure has a `this` if and only if some procedure on its unbroken chain of bases declares it. */
  lemma {:induction false} HasThisMeaning(t: FunctionType) returns (at: nat)
    ensures HasThis(t) ==> Unbroken(t, at) && Ancestor(t, at).Some? && Ancestor(t, at).value.declaresThis
    ensures !HasThis(t) ==>
              forall k: nat :: Unbroken(t, k) && Ancestor(t, k).Some? ==> !Ancestor(t, k).value.declaresThis
  {
    at := 0;
    if !t.declaresThis && t.base.Some? && t.base.value.isProcedure {
      var inner := HasThisMeaning(t.base.value);
      at := inner + 1;
      if !HasThis(t) {
        forall k: nat | Unbroken(t, k) && Ancestor(t, k).Some? ensures !Ancestor(t, k).value.declaresThis {
          if k > 0 {
            assert Unbroken(t.base.value, k - 1) && Ancestor(t, k) == Ancestor(t.base.value, k - 1);
          }
        }
      }
    }
  }

  /** corto_function_getProcedureType: the nearest procedure at or above the type; None is the failed
      assertion. */
  method GetProcedureType(t: FunctionType) returns (p: Option<FunctionType>, ghost at: nat)
    ensures p.Some? ==> p == Ancestor(t, at) && p.value.isProcedure
    ensures forall k: nat :: k < at && Ancestor(t, k).Some? ==> !Ancestor(t, k).value.isProcedure
    ensures p.None? ==> forall k: nat :: Ancestor(t, k).Some? ==> !Ancestor(t, k).value.isProcedure
  {
    p := Some(t);
    at := 0;
    while p.Some? && !p.value.isProcedure
      invariant p == Ancestor(t, at)
      invariant forall k: nat :: k < at && Ancestor(t, k).Some? ==> !Ancestor(t, k).value.isProcedure
      decreases p
    {
      AncestorStep(t, at);
      p := p.value.base;
      at := at + 1;
    }
    if p.None? {
      forall k: nat | Ancestor(t, k).Some? ensures k < at {
        NoneAbove(t, at, k);
      }
    }
  }

  lemma {:induction false} AncestorStep(t: FunctionType, k: nat)
    requires Ancestor(t, k).Some?
    ensures Ancestor(t, k + 1) == Ancestor(t, k).value.base
  {
    if k > 0 {
      AncestorStep(t.base.value, k - 1);
    } else if t.base.Some? {
      assert Ancestor(t.base.value, 0) == t.base;
    }
  }

  lemma {:induction false} NoneAbove(t: FunctionType, at: nat, k: nat)
    requires Ancestor(t, at).None?
    ensures k >= at ==> Ancestor(t, k).None?
  {
    if at > 0 && k >= at && t.base.Some? {
      NoneAbove(t.base.value, at - 1, k - 1);
    }
  }

  // ---- Conflicting overloads -----------------------------------------------------------------------------------

  /** How an object in the scope compares with the new function: the comparison fails, or yields a distance
      and whether the ids are equal. */
  datatype ScopeComparison = Incomparable | Compared(distance: int, sameId: bool)

  predicate Conflicts(c: ScopeComparison) {
    c.Incomparable? || (c.distance == 0 && !c.sameId)
  }

  predicate Overloads(c: ScopeComparison) {
    c.Compared? && (c.distance > 0 || c.distance == MethodLookup.NOMATCH_OVERLOAD)
  }

  /** The overload check of corto_function_init on the objects of a scope. All of them are claimed first.
      Without a conflict every claim is released again; with one, the claims stay. */
  method CheckOverloads(
    f: Ref, scope: seq<Ref>, compare: Ref -> ScopeComparison, store: ObjectStore, ghost others: Ref -> int)
    returns (ok: bool, overloaded: set<Ref>)
    requires forall i :: 0 <= i < |scope| ==> scope[i] != NULL
    requires store.Accounts(multiset{}, others)
    modifies store
    ensures ok <==> forall i :: 0 <= i < |scope| && scope[i] != f ==> !Conflicts(compare(scope[i]))
    ensures store.Accounts(if ok then multiset{} else multiset(scope), others)
    ensures ok ==> forall o :: o in overloaded <==>
              exists i :: 0 <= i < |scope| && scope[i] != f && Overloads(compare(scope[i])) && (o == scope[i] || o == f)
  {
    ClaimAll(scope, store, others);
    ok := true;
    overloaded := {};
    var i := 0;
    while i < |scope|
      invariant i <= |scope|
      invariant forall j :: 0 <= j < i && scope[j] != f ==> !Conflicts(compare(scope[j]))
      invariant forall o :: o in overloaded <==>
                  exists j :: 0 <= j < i && scope[j] != f && Overloads(compare(scope[j])) && (o == scope[j] || o == f)
    {
      var o := scope[i];
      if o != f {
        var c := compare(o);
        if Conflicts(c) {
          return false, overloaded;
        }
        if Overloads(c) {
          overloaded := overloaded + {o, f};
        }
      }
      i := i + 1;
    }
    ReleaseAll(scope, store, others);
  }

  /** What corto_overload tells the check, with the id comparison made on distance zero. */
  function Told(outcome: Overload.Outcome, sameId: bool): ScopeComparison {
    match outcome
    case Matched(d) => Compared(d, sameId)
    case OtherName => Compared(MethodLookup.NOMATCH, sameId)
    case OtherParameters => Compared(MethodLookup.NOMATCH_OVERLOAD, sameId)
    case Failure => Incomparable
  }

  /** Name up to case and parameter keys agree. */
  predicate Equal(o: Overload.SpelledSignature, r: Overload.SpelledSignature) {
    Overload.SettledSignature(o) && Overload.SettledSignature(r) && Overload.SameSignature(o, r)
  }

  /** The same name with another signature. */
  predicate Overloading(o: Overload.SpelledSignature, r: Overload.SpelledSignature) {
    Overload.Lower(o.name) == Overload.Lower(r.name) && !Equal(o, r)
  }

  lemma ToldMeaning(o: Overload.SpelledSignature, r: Overload.SpelledSignature, sameId: bool)
    requires Overload.Consistent(o, r)
    ensures Conflicts(Told(Overload.OverloadOutcome(o, r), sameId)) <==> Equal(o, r) && !sameId
    ensures Overloads(Told(Overload.OverloadOutcome(o, r), sameId)) <==> Overloading(o, r)
  {
    Overload.ZeroDistanceExact(o, r);
  }

  /** Without settled parameters a conflict is a failed comparison, or distance zero under another id. */
  lemma ToldConflicts(outcome: Overload.Outcome, sameId: bool)
    ensures Conflicts(Told(outcome, sameId)) <==>
              outcome == Overload.Failure || (outcome == Overload.Matched(0) && !sameId)
    ensures Overloads(Told(outcome, sameId)) <==>
              outcome != Overload.Failure && outcome != Overload.OtherName && outcome != Overload.Matched(0)
  {
  }

  /** The check with signatures in place of an arbitrary comparison: a function is accepted if and only if no
      other function of the scope has the same signature under another id, and the overloads marked are the
      functions of the same name with another signature. */
  method CheckDeclaredOverloads(
    f: Ref, scope: seq<Ref>, declared: Ref -> Overload.SpelledSignature, id: Ref -> string,
    store: ObjectStore, ghost others: Ref -> int)
    returns (ok: bool, overloaded: set<Ref>)
    requires forall i :: 0 <= i < |scope| ==> scope[i] != NULL && Overload.Consistent(declared(scope[i]), declared(f))
    requires store.Accounts(multiset{}, others)
    modifies store
    ensures ok <==> forall i :: 0 <= i < |scope| && scope[i] != f && Equal(declared(scope[i]), declared(f)) ==>
                                  id(scope[i]) == id(f)
    ensures store.Accounts(if ok then multiset{} else multiset(scope), others)
    ensures ok ==> forall o :: o in overloaded <==>
              exists i :: 0 <= i < |scope| && scope[i] != f && Overloading(declared(scope[i]), declared(f))
                          && (o == scope[i] || o == f)
  {
    var compare := (o: Ref) => Told(Overload.OverloadOutcome(declared(o), declared(f)), id(o) == id(f));
    forall i | 0 <= i < |scope|
      ensures Conflicts(compare(scope[i])) <==> Equal(declared(scope[i]), declared(f)) && id(scope[i]) != id(f)
      ensures Overloads(compare(scope[i])) <==> Overloading(declared(scope[i]), declared(f))
    {
      ToldMeaning(declared(scope[i]), declared(f), id(scope[i]) == id(f));
    }
    hide Equal, Overloading, Overload.OverloadOutcome, Conflicts, Overloads;
    ok, overloaded := CheckOverloads(f, scope, compare, store, others);
  }

  method ClaimAll(scope: seq<Ref>, store: ObjectStore, ghost others: Ref -> int)
    requires forall i :: 0 <= i < |scope| ==> scope[i] != NULL
    requires store.Accounts(multiset{}, others)
    modifies store
    ensures store.Accounts(multiset(scope), others)
  {
    hide ObjectStore.Accounts;
    var i := 0;
    assert scope[..0] == [];
    while i < |scope|
      invariant i <= |scope| && store.Accounts(multiset(scope[..i]), others)
    {
      store.ClaimHeld(scope[i], multiset(scope[..i]), others);
      assert scope[..i + 1] == scope[..i] + [scope[i]];
      i := i + 1;
    }
    assert scope[..i] == scope;
  }

  method ReleaseAll(scope: seq<Ref>, store: ObjectStore, ghost others: Ref -> int)
    requires store.Accounts(multiset(scope), others)
    modifies store
    ensures store.Accounts(multiset{}, others)
  {
    hide ObjectStore.Accounts;
    var i := 0;
    assert scope[0..] == scope;
    while i < |scope|
      invariant i <= |scope| && store.Accounts(multiset(scope[i..]), others)
    {
      assert scope[i..] == [scope[i]] + scope[i + 1..];
      assert multiset(scope[i..]) - multiset{scope[i]} == multiset(scope[i + 1..]);
      store.ReleaseHeld(scope[i], multiset(scope[i..]), others);
      i := i + 1;
    }
    assert scope[i..] == [];
  }
}
