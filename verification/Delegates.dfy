/** Delegate types: conformance of procedures, compatibility as coded, the flag that filters delegate
    lookup, and the typing of bound delegate slots. */
module Delegates {
  import opened Store

  datatype TypedParameter = TypedParameter(ptype: Ref, byReference: bool)

  datatype Signature = Signature(returnType: Ref, returnsReference: bool, parameters: seq<TypedParameter>)

  // ---- Conformance -------------------------------------------------------------------------------------

  /** corto_delegate_matchParameter. */
  predicate MatchParameter(t1: Ref, isRef1: bool, t2: Ref, isRef2: bool) {
    !(t1 != t2 || (isRef1 && !isRef2))
  }

  /** A procedure with signature `call` may stand in for a delegate with signature `d`. */
  predicate Conforms(d: Signature, call: Signature) {
    && MatchParameter(d.returnType, d.returnsReference, call.returnType, call.returnsReference)
    && |d.parameters| == |call.parameters|
    && forall i :: 0 <= i < |d.parameters| ==>
         MatchParameter(d.parameters[i].ptype, d.parameters[i].byReference,
                        call.parameters[i].ptype, call.parameters[i].byReference)
  }

  /** corto_delegate_instanceof. The loop runs over the delegate's parameters whatever the arity of the
      procedure; `beyond` stands for what it meets behind the procedure's parameters. */
  method InstanceOf(d: Signature, isProcedure: bool, call: Signature, beyond: nat -> TypedParameter) returns (result: bool)
    ensures result <==> isProcedure && Conforms(d, call)
  {
    result := true;
    if isProcedure {
      if !MatchParameter(d.returnType, d.returnsReference, call.returnType, call.returnsReference) {
        result := false;
      }
      if |d.parameters| != |call.parameters| {
        result := false;
      }
      var i := 0;
      while i < |d.parameters|
        invariant i <= |d.parameters|
        invariant result <==>
                    && MatchParameter(d.returnType, d.returnsReference, call.returnType, call.returnsReference)
                    && |d.parameters| == |call.parameters|
                    && forall j :: 0 <= j < i ==>
                         MatchParameter(d.parameters[j].ptype, d.parameters[j].byReference,
                                        call.parameters[j].ptype, call.parameters[j].byReference)
      {
        var p1 := d.parameters[i];
        var p2 := if i < |call.parameters| then call.parameters[i] else beyond(i);
        if !MatchParameter(p1.ptype, p1.byReference, p2.ptype, p2.byReference) {
          result := false;
        }
        i := i + 1;
      }
    } else {
      result := false;
    }
  }

  /** The signature without its reference marks. */
  function Shape(s: Signature): (Ref, seq<Ref>) {
    (s.returnType, seq(|s.parameters|, i requires 0 <= i < |s.parameters| => s.parameters[i].ptype))
  }

  /** The positions passed by reference; -1 is the result. */
  function References(s: Signature): set<int> {
    (if s.returnsReference then {-1} else {})
    + (set i | 0 <= i < |s.parameters| && s.parameters[i].byReference)
  }

  /** Conformance compares types exactly and only lets references be added. */
  lemma ConformsMeaning(d: Signature, call: Signature)
    ensures Conforms(d, call) <==> Shape(d) == Shape(call) && References(d) <= References(call)
  {
    if Conforms(d, call) {
      assert Shape(d).1 == Shape(call).1;
    }
    if Shape(d) == Shape(call) && References(d) <= References(call) {
      assert |Shape(d).1| == |Shape(call).1|;
      assert d.returnsReference ==> -1 in References(call);
      forall i | 0 <= i < |d.parameters|
        ensures MatchParameter(d.parameters[i].ptype, d.parameters[i].byReference,
                               call.parameters[i].ptype, call.parameters[i].byReference)
      {
        assert Shape(d).1[i] == Shape(call).1[i];
        assert d.parameters[i].byReference ==> i in References(call);
      }
    }
  }

  /** Conformance is a partial order on signatures, so a procedure may be replaced by any that conforms to it. */
  lemma ConformsIsPartialOrder(a: Signature, b: Signature, c: Signature)
    ensures Conforms(a, a)
    ensures Conforms(a, b) && Conforms(b, c) ==> Conforms(a, c)
    ensures Conforms(a, b) && Conforms(b, a) ==> a == b
  {
    if Conforms(a, b) && Conforms(b, a) {
      assert a.parameters == b.parameters;
    }
  }

  // ---- Compatibility as coded ----------------------------------------------------------------------------

  datatype TypeShape = DelegateType(sig: Signature) | ProcedureType | OtherType

  /** corto_delegate_compatible_v. Its parameter loop is guarded by `!result`, so it runs only once the
      result is already false. */
  method CompatibleV(d: Signature, t: TypeShape, beyond: nat -> TypedParameter) returns (result: bool)
    ensures result <==> CodedCompatible(d, t)
  {
    result := false;
    if t.DelegateType? {
      result := true;
      if d.returnType != t.sig.returnType || d.returnsReference != t.sig.returnsReference {
        result := false;
      }
      if |d.parameters| != |t.sig.parameters| {
        result := false;
      }
      var i := 0;
      while !result && i < |d.parameters|
        invariant result <==> CodedCompatible(d, t)
      {
        var p := if i < |t.sig.parameters| then t.sig.parameters[i] else beyond(i);
        if d.parameters[i].ptype != p.ptype {
          result := false;
        }
        if d.parameters[i].byReference != p.byReference {
          result := false;
        }
        i := i + 1;
      }
    } else if t.ProcedureType? {
      result := true;
    }
  }

  predicate CodedCompatible(d: Signature, t: TypeShape) {
    match t
    case DelegateType(s) =>
      d.returnType == s.returnType && d.returnsReference == s.returnsReference && |d.parameters| == |s.parameters|
    case ProcedureType => true
    case OtherType => false
  }

  /** What the coded relation asks for and what it does not: between delegates every parameter may differ, in
      type and in reference mark, but no return type, return reference or arity; procedure types always are
      compatible, others never. */
  lemma CodedCompatibleExact(d: Signature, t: TypeShape)
    ensures t.ProcedureType? ==> CodedCompatible(d, t)
    ensures t.OtherType? ==> !CodedCompatible(d, t)
    ensures t.DelegateType? ==>
              (CodedCompatible(d, t) <==>
                 exists ps: seq<TypedParameter> ::
                   |ps| == |d.parameters| && t.sig == Signature(d.returnType, d.returnsReference, ps))
  {
    if t.DelegateType? && CodedCompatible(d, t) {
      var ps := t.sig.parameters;
      assert |ps| == |d.parameters| && t.sig == Signature(d.returnType, d.returnsReference, ps);
    }
  }

  /** On delegates the coded relation is an equivalence, coarser than conformance both ways; it is conformance
      both ways exactly for pairs whose parameters are equal. */
  lemma CodedCompatibleMeaning(a: Signature, b: Signature, c: Signature)
    ensures CodedCompatible(a, DelegateType(a))
    ensures CodedCompatible(a, DelegateType(b)) ==> CodedCompatible(b, DelegateType(a))
    ensures CodedCompatible(a, DelegateType(b)) && CodedCompatible(b, DelegateType(c)) ==> CodedCompatible(a, DelegateType(c))
    ensures Conforms(a, b) && Conforms(b, a) <==> CodedCompatible(a, DelegateType(b)) && a.parameters == b.parameters
  {
    ConformsIsPartialOrder(a, b, a);
    if CodedCompatible(a, DelegateType(b)) && a.parameters == b.parameters {
      assert a == b;
    }
  }

  // ---- The HAS_DELEGATE filter -----------------------------------------------------------------------------

  /** A member: its name, and the signature of its type if that is a delegate. */
  datatype NamedMember = NamedMember(name: string, delegateType: Option<Signature>)

  /** A composite type under construction, or finished. */
  datatype Composite = Composite(members: seq<NamedMember>, hasDelegate: bool, base: Option<Composite>)

  function FirstNamed(members: seq<NamedMember>, name: string): Option<NamedMember> {
    if members == [] then None
    else if members[0].name == name then Some(members[0])
    else FirstNamed(members[1..], name)
  }

  /** Member resolution: the type's own members, then the base's. */
  function ResolveMember(c: Composite, name: string): Option<NamedMember>
    decreases c
  {
    var m := FirstNamed(c.members, name);
    if m.Some? then m
    else if c.base.Some? then ResolveMember(c.base.value, name)
    else None
  }

  function AsDelegate(m: Option<NamedMember>): (r: Option<NamedMember>)
    ensures r.Some? ==> r.value.delegateType.Some?
  {
    if m.Some? && m.value.delegateType.Some? then m else None
  }

  /** corto_delegate_find, which looks no further when the flag is clear. */
  function FindDelegate(c: Composite, name: string): (r: Option<NamedMember>)
    ensures r.Some? ==> r.value.delegateType.Some?
  {
    if c.hasDelegate then AsDelegate(ResolveMember(c, name)) else None
  }

  predicate DeclaresDelegate(members: seq<NamedMember>) {
    exists i :: 0 <= i < |members| && members[i].delegateType.Some?
  }

  /** A type whose members were constructed in some order on a finished base, then finished itself. */
  ghost predicate Finished(c: Composite)
    decreases c
  {
    && c.hasDelegate == (DeclaresDelegate(c.members) || (c.base.Some? && c.base.value.hasDelegate))
    && (c.base.Some? ==> Finished(c.base.value))
  }

  class CompositeType {
    const base: Option<Composite>
    var members: seq<NamedMember>
    var hasDelegate: bool

    constructor (base: Option<Composite>)
      ensures this.base == base && View() == Composite([], false, base)
    {
      this.base := base;
      members, hasDelegate := [], false;
    }

    function View(): Composite
      reads this
    {
      Composite(members, hasDelegate, base)
    }

    /** corto_member_construct: marks the parent type when the member is a delegate. From an empty type on,
        the flag is exactly "a delegate member has been constructed", in any order. */
    method MemberConstruct(m: NamedMember)
      requires hasDelegate == DeclaresDelegate(members)
      modifies this
      ensures members == old(members) + [m]
      ensures hasDelegate == DeclaresDelegate(members)
    {
      ghost var was := members;
      members := members + [m];
      if m.delegateType.Some? {
        hasDelegate := true;
        assert members[|was|].delegateType.Some?;
      } else {
        assert forall i :: 0 <= i < |was| ==> was[i] == members[i];
      }
    }

    /** The flag part of corto_interface_construct. */
    method Finish()
      requires hasDelegate == DeclaresDelegate(members) && (base.Some? ==> Finished(base.value))
      modifies this`hasDelegate
      ensures Finished(View())
    {
      if base.Some? {
        if base.value.hasDelegate {
          hasDelegate := true;
        }
      }
    }
  }

  /** A composite followed by its bases up to the root. */
  function Chain(c: Composite): (r: seq<Composite>)
    ensures |r| > 0 && r[0] == c
    decreases c
  {
    [c] + if c.base.Some? then Chain(c.base.value) else []
  }

  /** Member `i` at level `k` of the chain is the first of its name there, and no nearer level has the name. */
  ghost predicate NearestMember(chain: seq<Composite>, name: string, k: nat, i: nat) {
    && k < |chain| && i < |chain[k].members| && chain[k].members[i].name == name
    && (forall j :: 0 <= j < i ==> chain[k].members[j].name != name)
    && forall l, j :: 0 <= l < k && 0 <= j < |chain[l].members| ==> chain[l].members[j].name != name
  }

  lemma {:induction false} FirstNamedMeaning(members: seq<NamedMember>, name: string) returns (i: nat)
    ensures i <= |members| && forall j :: 0 <= j < i ==> members[j].name != name
    ensures FirstNamed(members, name) == if i < |members| then Some(members[i]) else None
    ensures i < |members| ==> members[i].name == name
  {
    i := 0;
    if members != [] && members[0].name != name {
      var rest := FirstNamedMeaning(members[1..], name);
      i := rest + 1;
    }
  }

  /** Resolution finds the first member of the name at the nearest level that declares it, and nothing if and
      only if no level does. */
  lemma {:induction false} ResolveMeaning(c: Composite, name: string) returns (k: nat, i: nat)
    ensures k <= |Chain(c)|
    ensures if k < |Chain(c)| then NearestMember(Chain(c), name, k, i) && ResolveMember(c, name) == Some(Chain(c)[k].members[i])
            else ResolveMember(c, name).None?
                 && forall l, j :: 0 <= l < |Chain(c)| && 0 <= j < |Chain(c)[l].members| ==> Chain(c)[l].members[j].name != name
    decreases c
  {
    k := 0;
    i := FirstNamedMeaning(c.members, name);
    if i == |c.members| {
      k := 1;
      if c.base.Some? {
        var inner;
        inner, i := ResolveMeaning(c.base.value, name);
        k := inner + 1;
        assert Chain(c)[1..] == Chain(c.base.value);
        assert forall l :: 0 < l < |Chain(c)| ==> Chain(c)[l] == Chain(c.base.value)[l - 1];
      }
    }
  }

  lemma NearestUnique(chain: seq<Composite>, name: string, k: nat, i: nat, l: nat, j: nat)
    requires NearestMember(chain, name, k, i) && NearestMember(chain, name, l, j)
    ensures k == l && i == j
  {
    var near, far := chain[k].members[i], chain[l].members[j];
    assert near.name == name && far.name == name;
  }

  /** corto_struct_resolveMember, which goes up the chain and at each level through the members. */
  method LookupMember(c: Composite, name: string) returns (m: Option<NamedMember>)
    ensures m == ResolveMember(c, name)
  {
    var base := Some(c);
    m := None;
    while m.None? && base.Some?
      invariant ResolveMember(c, name) == if m.Some? || base.None? then m else ResolveMember(base.value, name)
      decreases base, m.None?
    {
      m := LookupOwn(base.value.members, name);
      if m.None? {
        base := base.value.base;
      }
    }
  }

  method LookupOwn(members: seq<NamedMember>, name: string) returns (m: Option<NamedMember>)
    ensures m == FirstNamed(members, name)
  {
    var i := 0;
    assert members[0..] == members;
    while i < |members|
      invariant i <= |members| && FirstNamed(members, name) == FirstNamed(members[i..], name)
    {
      assert members[i..][1..] == members[i + 1..];
      if members[i].name == name {
        return Some(members[i]);
      }
      i := i + 1;
    }
    return None;
  }

  /** A type without the flag declares no delegate at any level. */
  lemma {:induction false} UnflaggedDeclaresNone(c: Composite, l: nat, j: nat)
    requires Finished(c) && !c.hasDelegate && l < |Chain(c)| && j < |Chain(c)[l].members|
    ensures Chain(c)[l].members[j].delegateType.None?
    decreases c
  {
    if l > 0 {
      assert Chain(c)[l] == Chain(c.base.value)[l - 1];
      UnflaggedDeclaresNone(c.base.value, l - 1, j);
    }
  }

  /** Skipping the lookup when the flag is clear never hides a delegate: what is found is exactly the nearest
      member of the name, if that is a delegate; so an inherited one that is not declared again is found. */
  lemma FilterHidesNothing(c: Composite, name: string, k: nat, i: nat)
    requires Finished(c)
    ensures FindDelegate(c, name) == AsDelegate(ResolveMember(c, name))
    ensures NearestMember(Chain(c), name, k, i) && Chain(c)[k].members[i].delegateType.Some? ==>
              FindDelegate(c, name) == Some(Chain(c)[k].members[i])
    ensures FindDelegate(c, name).Some? ==>
              exists l: nat, j: nat :: NearestMember(Chain(c), name, l, j) && FindDelegate(c, name) == Some(Chain(c)[l].members[j])
  {
    var l, j := ResolveMeaning(c, name);
    if l < |Chain(c)| {
      if NearestMember(Chain(c), name, k, i) {
        NearestUnique(Chain(c), name, k, i, l, j);
      }
      if !c.hasDelegate {
        UnflaggedDeclaresNone(c, l, j);
      }
    }
  }

  // ---- Bound slots -------------------------------------------------------------------------------------------

  /** A function object declared in the scope of an instance. */
  datatype Function = Function(ref: Ref, name: string, named: bool, hasThis: bool, sig: Signature)

  /** The delegate slots of one instance by member name, and the functions constructed successfully. */
  datatype Slots = Slots(procedures: map<string, Function>, constructed: set<Function>)

  datatype Step = Init(f: Function) | Construct(f: Function)

  function Target(c: Composite, f: Function): (r: Option<NamedMember>)
    ensures r.Some? ==> r.value.delegateType.Some?
  {
    if f.named && f.hasThis then FindDelegate(c, f.name) else None
  }

  /** Validation finds nothing to complain about. */
  predicate Accepted(c: Composite, f: Function) {
    var m := Target(c, f);
    m.Some? ==> Conforms(m.value.delegateType.value, f.sig)
  }

  /** Initialising a function binds it to the delegate member of its name without looking at its signature;
      constructing it validates the signature, and a failure leaves the slot as it is. */
  function Apply(c: Composite, s: Slots, step: Step): Slots {
    match step
    case Init(f) => if Target(c, f).Some? then s.(procedures := s.procedures[f.name := f]) else s
    case Construct(f) =>
      if !Accepted(c, f) then s
      else s.(constructed := s.constructed + {f})
  }

  function Run(c: Composite, steps: seq<Step>): Slots {
    if steps == [] then Slots(map[], {})
    else Apply(c, Run(c, steps[..|steps| - 1]), steps[|steps| - 1])
  }

  class Instance {
    const composite: Composite
    var slots: Slots

    constructor (composite: Composite)
      ensures this.composite == composite && slots == Run(composite, [])
    {
      this.composite := composite;
      slots := Slots(map[], {});
    }

    /** The binding part of corto_function_init. */
    method InitFunction(f: Function)
      modifies this
      ensures slots == Apply(composite, old(slots), Init(f))
    {
      if f.named {
        if f.hasThis {
          var m := FindDelegate(composite, f.name);
          if m.Some? {
            slots := slots.(procedures := slots.procedures[f.name := f]);
          }
        }
      }
    }

    /** The validating part of corto_function_construct. */
    method ConstructFunction(f: Function, beyond: nat -> TypedParameter) returns (ok: bool)
      modifies this
      ensures slots == Apply(composite, old(slots), Construct(f))
      ensures ok <==> Accepted(composite, f)
    {
      if f.named && f.hasThis {
        var m := FindDelegate(composite, f.name);
        if m.Some? {
          var fits := InstanceOf(m.value.delegateType.value, true, f.sig, beyond);
          if !fits {
            return false;
          }
        }
      }
      slots := slots.(constructed := slots.constructed + {f});
      return true;
    }
  }

  /** After any run of initialisations and constructions, a slot whose function was constructed holds a
      procedure that conforms to the delegate type of the member. */
  lemma {:induction false} SlotsConform(c: Composite, steps: seq<Step>, name: string)
    ensures var s := Run(c, steps);
            name in s.procedures ==>
              && s.procedures[name].name == name
              && FindDelegate(c, name).Some?
              && (s.procedures[name] in s.constructed ==>
                    Conforms(FindDelegate(c, name).value.delegateType.value, s.procedures[name].sig))
  {
    BoundWell(c, steps, name);
    if name in Run(c, steps).procedures {
      ConstructedConform(c, steps, Run(c, steps).procedures[name]);
    }
  }

  lemma {:induction false} BoundWell(c: Composite, steps: seq<Step>, name: string)
    ensures var s := Run(c, steps);
            name in s.procedures ==>
              s.procedures[name].name == name && Target(c, s.procedures[name]).Some?
  {
    if steps != [] {
      BoundWell(c, steps[..|steps| - 1], name);
    }
  }

  lemma {:induction false} ConstructedConform(c: Composite, steps: seq<Step>, f: Function)
    ensures f in Run(c, steps).constructed && Target(c, f).Some? ==> Conforms(Target(c, f).value.delegateType.value, f.sig)
  {
    if steps != [] {
      ConstructedConform(c, steps[..|steps| - 1], f);
    }
  }

  /** The function that was initialised last into the delegate of a name. */
  function LastBound(c: Composite, steps: seq<Step>, name: string): Option<Function> {
    if steps == [] then None
    else
      var step := steps[|steps| - 1];
      if step.Init? && step.f.name == name && Target(c, step.f).Some? then Some(step.f)
      else LastBound(c, steps[..|steps| - 1], name)
  }

  /** A slot is bound if and only if some initialisation targeted it, and then holds the last function that
      did, constructed or not. */
  lemma {:induction false} SlotsExact(c: Composite, steps: seq<Step>, name: string)
    ensures var s := Run(c, steps);
            LastBound(c, steps, name) == if name in s.procedures then Some(s.procedures[name]) else None
  {
    if steps != [] {
      SlotsExact(c, steps[..|steps| - 1], name);
    }
  }

  lemma {:induction false} LastBoundTargets(c: Composite, steps: seq<Step>, name: string)
    ensures var f := LastBound(c, steps, name);
            f.Some? ==> Target(c, f.value).Some? && FindDelegate(c, name) == Target(c, f.value)
  {
    if steps != [] {
      LastBoundTargets(c, steps[..|steps| - 1], name);
    }
  }

  /** A bound slot holds a procedure that conforms to its delegate. */
  predicate SlotConforms(c: Composite, s: Slots, name: string) {
    name in s.procedures ==>
      var m := FindDelegate(c, name);
      m.Some? && Conforms(m.value.delegateType.value, s.procedures[name].sig)
  }

  /** A slot conforms if and only if it is unbound or validation accepts the last function initialised into it.
      Whether validation was run on that function, and with what outcome, makes no difference. */
  lemma {:induction false} ConformanceExact(c: Composite, steps: seq<Step>, name: string)
    ensures var f := LastBound(c, steps, name);
            SlotConforms(c, Run(c, steps), name) <==> f.None? || Accepted(c, f.value)
  {
    SlotsExact(c, steps, name);
    LastBoundTargets(c, steps, name);
    hide Run, LastBound, Target, Conforms;
  }

  /** Until then it need not: binding comes first, and a rejected function stays bound. */
  lemma RejectedStaysBound(c: Composite, f: Function)
    requires Target(c, f).Some? && !Conforms(Target(c, f).value.delegateType.value, f.sig)
    ensures var s := Run(c, [Init(f), Construct(f)]);
            f.name in s.procedures && s.procedures[f.name] == f && f !in s.constructed
  {
    var steps := [Init(f), Construct(f)];
    assert steps[..1] == [Init(f)];
    assert [Init(f)][..0] == [];
    assert Run(c, []) == Slots(map[], {});
    assert Run(c, [Init(f)]) == Apply(c, Run(c, []), Init(f));
  }
}
