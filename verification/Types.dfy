/** Types of the runtime, the values stored under them, what such values own, and the flags derived from
    type metadata. */
module Types {
  import opened Store

  datatype Width = W8 | W16 | W32 | W64 | Word

  /** CORTO_TYPE_HAS_RESOURCES, CORTO_TYPE_HAS_REFERENCES, CORTO_TYPE_NEEDS_INIT. */
  datatype Flags = Flags(resources: bool, references: bool, needsInit: bool)

  const NO_FLAGS := Flags(false, false, false)

  /** `Object` is any reference type: its values are counted pointers, whatever flags the type itself has.
      A map without key type is initialised by the application. A struct keeps its base as a
      first member. */
  datatype Type =
    | Primitive(width: Width)
    | Text
    | Any
    | Object(own: Flags)
    | Array(element: Type, max: nat)
    | Sequence(element: Type)
    | List(element: Type)
    | Map(element: Type, keyed: bool)
    | Struct(members: Members)

  /** `initial` is what the text of a default value stands for. */
  datatype Members =
    | End
    | Member(mtype: Type, optional: bool, notNull: bool, initial: Option<Value>, rest: Members)

  /** Arrays are only constructed with a size; default values are values of their member. */
  predicate WellFormed(t: Type) {
    match t
    case Array(e, max) => max > 0 && WellFormed(e)
    case Sequence(e) => WellFormed(e)
    case List(e) => WellFormed(e)
    case Map(e, _) => WellFormed(e)
    case Struct(ms) => WellFormedMembers(ms)
    case _ => true
  }

  predicate WellFormedMembers(ms: Members) {
    ms.Member? ==>
      && WellFormed(ms.mtype) && (ms.initial.Some? ==> HasType(ms.initial.value, ms.mtype))
      && WellFormedMembers(ms.rest)
  }

  // ---- Values ----------------------------------------------------------------------------------------

  /** Heap blocks are numbered. A NULL pointer owns no block. */
  datatype Value =
    | Bits(n: int)
    | Str(block: Option<nat>, text: string)
    | AnyBox(owner: bool, held: Option<Held>)       // the value, and whether it belongs to the any
    | Ptr(ref: Ref)
    | Inline(elems: Values)                         // arrays and structs: stored in place
    | Buffer(block: Option<nat>, elems: Values)     // sequences
    | Handle(block: Option<nat>, elems: Values)     // lists and maps
    | Cell(cell: nat, content: Value)               // an element or optional member in a block of its own
    | Absent                                        // an optional member that is not set

  datatype Values = Nil | Cons(head: Value, tail: Values)

  /** A value of any type in a block of its own. */
  datatype Held = Held(block: nat, htype: Type, content: Value)

  function Length(vs: Values): nat {
    if vs.Nil? then 0 else 1 + Length(vs.tail)
  }

  /** corto_collection_requiresAlloc: whether list and map elements live in blocks of their own. */
  predicate RequiresAlloc(t: Type) {
    match t
    case Object(_) => false
    case Primitive(w) => w == W64
    case Text => false
    case List(_) => false
    case Map(_, _) => false
    case _ => true
  }

  predicate HasType(v: Value, t: Type)
    decreases v
  {
    match t
    case Primitive(_) => v.Bits?
    case Text => v.Str?
    case Any => v.AnyBox? && (v.held.Some? ==> HasType(v.held.value.content, v.held.value.htype))
    case Object(_) => v.Ptr?
    case Array(e, max) => v.Inline? && Length(v.elems) == max && AllOf(v.elems, e, false)
    case Sequence(e) => v.Buffer? && AllOf(v.elems, e, false) && (v.block.None? ==> v.elems.Nil?)
    case List(e) => v.Handle? && AllOf(v.elems, e, RequiresAlloc(e)) && (v.block.None? ==> v.elems.Nil?)
    case Map(e, _) => v.Handle? && AllOf(v.elems, e, RequiresAlloc(e)) && (v.block.None? ==> v.elems.Nil?)
    case Struct(ms) => v.Inline? && Fields(v.elems, ms)
  }

  predicate AllOf(vs: Values, e: Type, celled: bool)
    decreases vs
  {
    vs.Cons? ==>
      && (if celled then vs.head.Cell? && HasType(vs.head.content, e) else HasType(vs.head, e))
      && AllOf(vs.tail, e, celled)
  }

  predicate Fields(vs: Values, ms: Members)
    decreases vs
  {
    if ms.End? then vs.Nil?
    else
      && vs.Cons?
      && (if ms.optional then vs.head.Absent? || (vs.head.Cell? && HasType(vs.head.content, ms.mtype))
          else HasType(vs.head, ms.mtype))
      && Fields(vs.tail, ms.rest)
  }

  /** What must be given back when a value goes away. */
  datatype Resource = Block(id: nat) | Claim(ref: Ref)

  function Is(b: Option<nat>, r: Resource): nat {
    if b.Some? && r == Block(b.value) then 1 else 0
  }

  /** How often a value owns a resource: a heap block, or a claim on an object. */
  function Owned(v: Value, r: Resource): nat {
    match v
    case Bits(_) => 0
    case Str(b, _) => Is(b, r)
    case AnyBox(owner, h) => if owner && h.Some? then Is(Some(h.value.block), r) + Owned(h.value.content, r) else 0
    case Ptr(o) => if o != NULL && r == Claim(o) then 1 else 0
    case Inline(es) => OwnedAll(es, r)
    case Buffer(b, es) => Is(b, r) + OwnedAll(es, r)
    case Handle(b, es) => Is(b, r) + OwnedAll(es, r)
    case Cell(b, x) => Is(Some(b), r) + Owned(x, r)
    case Absent => 0
  }

  function OwnedAll(vs: Values, r: Resource): nat {
    if vs.Nil? then 0 else Owned(vs.head, r) + OwnedAll(vs.tail, r)
  }

  lemma OwnedOne(v: Value, vs: Values, r: Resource)
    ensures OwnedAll(Cons(v, vs), r) == Owned(v, r) + OwnedAll(vs, r) && OwnedAll(Nil, r) == 0
  {
  }

  // ---- Derived flags ---------------------------------------------------------------------------------

  /** The flags the construct functions of the types set. */
  function FlagsOf(t: Type): Flags {
    match t
    case Primitive(_) => NO_FLAGS
    case Text => Flags(true, false, false)
    case Any => Flags(false, false, true)
    case Object(own) => own
    case Array(e, _) => Flags(FlagsOf(e).resources, FlagsOf(e).references || e.Object?, FlagsOf(e).needsInit)
    case Sequence(e) => Flags(true, FlagsOf(e).references || e.Object?, false)
    case List(e) => Flags(true, FlagsOf(e).references || e.Object?, true)
    case Map(e, _) => Flags(true, FlagsOf(e).references || e.Object?, true)
    case Struct(ms) => MemberFlags(ms)
  }

  function MemberFlags(ms: Members): Flags {
    if ms.End? then NO_FLAGS
    else
      var f, r := FlagsOf(ms.mtype), MemberFlags(ms.rest);
      var byReference := ms.mtype.Object?;
      Flags(
        f.resources || byReference || r.resources,
        f.references || byReference || r.references,
        (!byReference && f.needsInit && (ms.notNull || ms.mtype.Struct?)) || ms.initial.Some? || r.needsInit)
  }

  /** Whether the flags ask for more than a bitwise copy. */
  predicate Flagged(t: Type) {
    t.Object? || FlagsOf(t).resources || FlagsOf(t).references
  }

  /** Storage the flags do not know about: an any, or an optional member, outside of buffers. */
  predicate Hidden(t: Type) {
    match t
    case Any => true
    case Array(e, _) => Hidden(e)
    case Struct(ms) => HiddenMember(ms)
    case _ => false
  }

  predicate HiddenMember(ms: Members) {
    ms.Member? && (ms.optional || Hidden(ms.mtype) || HiddenMember(ms.rest))
  }

  /** A value of the type in which everything that can be present is. */
  function Sample(t: Type): Value {
    match t
    case Primitive(_) => Bits(0)
    case Text => Str(Some(0), "")
    case Any => AnyBox(true, Some(Held(0, Text, Str(Some(0), ""))))
    case Object(_) => Ptr(1)
    case Array(e, max) => Inline(Repeat(Sample(e), max))
    case Sequence(e) => Buffer(Some(0), Cons(Sample(e), Nil))
    case List(e) => Handle(Some(0), Cons(if RequiresAlloc(e) then Cell(0, Sample(e)) else Sample(e), Nil))
    case Map(e, _) => Handle(Some(0), Cons(if RequiresAlloc(e) then Cell(0, Sample(e)) else Sample(e), Nil))
    case Struct(ms) => Inline(SampleFields(ms))
  }

  function SampleFields(ms: Members): Values {
    if ms.End? then Nil
    else Cons(if ms.optional then Cell(0, Sample(ms.mtype)) else Sample(ms.mtype), SampleFields(ms.rest))
  }

  function Repeat(v: Value, n: nat): (r: Values)
    ensures Length(r) == n
  {
    if n == 0 then Nil else Cons(v, Repeat(v, n - 1))
  }

  lemma {:induction false} RepeatTyped(v: Value, n: nat, e: Type)
    requires HasType(v, e)
    ensures AllOf(Repeat(v, n), e, false)
  {
    if n > 0 {
      RepeatTyped(v, n - 1, e);
    }
  }

  lemma {:induction false} SampleTyped(t: Type)
    ensures HasType(Sample(t), t)
  {
    match t
    case Array(e, max) => SampleTyped(e); RepeatTyped(Sample(e), max, e);
    case Sequence(e) => SampleTyped(e);
    case List(e) => SampleTyped(e);
    case Map(e, _) => SampleTyped(e);
    case Struct(ms) => SampleFieldsTyped(ms);
    case _ =>
  }

  lemma {:induction false} SampleFieldsTyped(ms: Members)
    ensures Fields(SampleFields(ms), ms)
  {
    if ms.Member? {
      SampleTyped(ms.mtype);
      SampleFieldsTyped(ms.rest);
    }
  }

  // ---- Shallow copies: when no flag is set -------------------------------------------------------------

  /** A value of an unflagged type without hidden storage owns nothing. */
  lemma {:induction false} UnflaggedOwnsNothing(v: Value, t: Type, r: Resource)
    requires HasType(v, t) && !Flagged(t) && !Hidden(t)
    ensures Owned(v, r) == 0
    decreases v
  {
    match t
    case Array(e, _) => AllOwnNothing(v.elems, e, r);
    case Struct(ms) => FieldsOwnNothing(v.elems, ms, r);
    case _ =>
  }

  lemma {:induction false} AllOwnNothing(vs: Values, e: Type, r: Resource)
    requires AllOf(vs, e, false) && !Flagged(e) && !Hidden(e)
    ensures OwnedAll(vs, r) == 0
    decreases vs
  {
    if vs.Cons? {
      UnflaggedOwnsNothing(vs.head, e, r);
      AllOwnNothing(vs.tail, e, r);
    }
  }

  lemma {:induction false} FieldsOwnNothing(vs: Values, ms: Members, r: Resource)
    requires Fields(vs, ms) && !MemberFlags(ms).resources && !MemberFlags(ms).references && !HiddenMember(ms)
    ensures OwnedAll(vs, r) == 0
    decreases vs
  {
    if ms.Member? {
      UnflaggedOwnsNothing(vs.head, ms.mtype, r);
      FieldsOwnNothing(vs.tail, ms.rest, r);
    }
  }

  /** What a sample owns in all: its blocks are numbered 0 and its pointers point to object 1. */
  function Weight(v: Value): nat {
    Owned(v, Block(0)) + Owned(v, Claim(1))
  }

  function WeightAll(vs: Values): nat {
    OwnedAll(vs, Block(0)) + OwnedAll(vs, Claim(1))
  }

  /** A flagged type, or one with hidden storage, has a value that owns something. */
  lemma {:induction false} SampleOwns(t: Type)
    requires WellFormed(t) && (Flagged(t) || Hidden(t))
    ensures Weight(Sample(t)) > 0
  {
    match t
    case Array(e, max) =>
      SampleOwns(e);
      var es := Cons(Sample(e), Repeat(Sample(e), max - 1));
      assert Sample(t) == Inline(es);
      assert WeightAll(es) == Weight(Sample(e)) + WeightAll(es.tail);
    case Struct(ms) => SampleMemberOwns(ms);
    case _ =>
  }

  lemma {:induction false} SampleMemberOwns(ms: Members)
    requires WellFormedMembers(ms)
    requires MemberFlags(ms).resources || MemberFlags(ms).references || HiddenMember(ms)
    ensures WeightAll(SampleFields(ms)) > 0
  {
    var vs := SampleFields(ms);
    OwnedOne(vs.head, vs.tail, Block(0));
    OwnedOne(vs.head, vs.tail, Claim(1));
    if !ms.optional {
      if Flagged(ms.mtype) || Hidden(ms.mtype) {
        SampleOwns(ms.mtype);
      } else {
        SampleMemberOwns(ms.rest);
      }
    }
  }

  /** An any can occur in values of the type, at any depth. */
  predicate HoldsAny(t: Type) {
    match t
    case Any => true
    case Array(e, _) => HoldsAny(e)
    case Sequence(e) => HoldsAny(e)
    case List(e) => HoldsAny(e)
    case Map(e, _) => HoldsAny(e)
    case Struct(ms) => MembersHoldAny(ms)
    case _ => false
  }

  predicate MembersHoldAny(ms: Members) {
    ms.Member? && (HoldsAny(ms.mtype) || MembersHoldAny(ms.rest))
  }

  /** A value of the type that owns a claim on the object. */
  predicate OwnsClaim(v: Value, t: Type, o: Ref) {
    HasType(v, t) && Owned(v, Claim(o)) > 0
  }

  /** Some value of a non-reference type owns a claim on an object, at any depth and through any container, if
      and only if HAS_REFERENCES is set or an any can occur in it. So the flag is exact for exactly those
      types that have it or cannot hold an any. */
  lemma ReferencesExact(t: Type)
    requires WellFormed(t) && !t.Object?
    ensures (exists v, o :: OwnsClaim(v, t, o)) <==> FlagsOf(t).references || HoldsAny(t)
  {
    if FlagsOf(t).references || HoldsAny(t) {
      var v := CountedValue(t);
      var o := HoldsClaimMeaning(v);
      assert OwnsClaim(v, t, o);
    } else if v, o :| OwnsClaim(v, t, o) {
      var _ := HoldsClaimMeaning(v);
      ClaimsAreFlagged(v, t);
    }
  }

  /** The flag misses what anys hold. */
  lemma AnyHidesReference(o: Ref)
    requires o != NULL
    ensures var v := AnyBox(true, Some(Held(0, Object(NO_FLAGS), Ptr(o))));
            HasType(v, Any) && Owned(v, Claim(o)) == 1 && !FlagsOf(Any).references && !FlagsOf(Any).resources
  {
    assert Owned(Ptr(o), Claim(o)) == 1;
    assert HasType(Ptr(o), Object(NO_FLAGS));
  }

  predicate HoldsClaim(v: Value) {
    match v
    case Ptr(r) => r != NULL
    case AnyBox(owner, h) => owner && h.Some? && HoldsClaim(h.value.content)
    case Inline(es) => AnyHoldsClaim(es)
    case Buffer(_, es) => AnyHoldsClaim(es)
    case Handle(_, es) => AnyHoldsClaim(es)
    case Cell(_, x) => HoldsClaim(x)
    case _ => false
  }

  predicate AnyHoldsClaim(vs: Values) {
    vs.Cons? && (HoldsClaim(vs.head) || AnyHoldsClaim(vs.tail))
  }

  /** Holding a counted pointer is owning a claim. */
  lemma {:induction false} HoldsClaimMeaning(v: Value) returns (o: Ref)
    ensures HoldsClaim(v) ==> Owned(v, Claim(o)) > 0
    ensures !HoldsClaim(v) ==> forall r :: Owned(v, Claim(r)) == 0
  {
    match v
    case Ptr(r) => o := r;
    case AnyBox(owner, h) =>
      o := NULL;
      if owner && h.Some? {
        o := HoldsClaimMeaning(h.value.content);
      }
    case Inline(es) => o := AnyHoldsClaimMeaning(es);
    case Buffer(_, es) => o := AnyHoldsClaimMeaning(es);
    case Handle(_, es) => o := AnyHoldsClaimMeaning(es);
    case Cell(_, x) => o := HoldsClaimMeaning(x);
    case _ => o := NULL;
  }

  lemma {:induction false} AnyHoldsClaimMeaning(vs: Values) returns (o: Ref)
    ensures AnyHoldsClaim(vs) ==> OwnedAll(vs, Claim(o)) > 0
    ensures !AnyHoldsClaim(vs) ==> forall r :: OwnedAll(vs, Claim(r)) == 0
  {
    o := NULL;
    if vs.Cons? {
      o := HoldsClaimMeaning(vs.head);
      if !HoldsClaim(vs.head) {
        o := AnyHoldsClaimMeaning(vs.tail);
      }
    }
  }

  lemma {:induction false} ClaimsAreFlagged(v: Value, t: Type)
    requires HasType(v, t) && HoldsClaim(v)
    ensures FlagsOf(t).references || t.Object? || HoldsAny(t)
    decreases v
  {
    match t
    case Array(e, _) => ElementClaimsAreFlagged(v.elems, e, false);
    case Sequence(e) => ElementClaimsAreFlagged(v.elems, e, false);
    case List(e) => ElementClaimsAreFlagged(v.elems, e, RequiresAlloc(e));
    case Map(e, _) => ElementClaimsAreFlagged(v.elems, e, RequiresAlloc(e));
    case Struct(ms) => MemberClaimsAreFlagged(v.elems, ms);
    case _ =>
  }

  lemma {:induction false} ElementClaimsAreFlagged(vs: Values, e: Type, celled: bool)
    requires AllOf(vs, e, celled) && AnyHoldsClaim(vs)
    ensures FlagsOf(e).references || e.Object? || HoldsAny(e)
    decreases vs
  {
    if HoldsClaim(vs.head) {
      ClaimsAreFlagged(if celled then vs.head.content else vs.head, e);
    } else {
      ElementClaimsAreFlagged(vs.tail, e, celled);
    }
  }

  lemma {:induction false} MemberClaimsAreFlagged(vs: Values, ms: Members)
    requires Fields(vs, ms) && AnyHoldsClaim(vs)
    ensures MemberFlags(ms).references || MembersHoldAny(ms)
    decreases vs
  {
    if HoldsClaim(vs.head) {
      ClaimsAreFlagged(if ms.optional then vs.head.content else vs.head, ms.mtype);
    } else {
      MemberClaimsAreFlagged(vs.tail, ms.rest);
    }
  }

  lemma {:induction false} CountedValue(t: Type) returns (v: Value)
    requires WellFormed(t) && (FlagsOf(t).references || t.Object? || HoldsAny(t))
    ensures HasType(v, t) && HoldsClaim(v)
  {
    match t
    case Any => v := AnyBox(true, Some(Held(0, Object(NO_FLAGS), Ptr(1))));
    case Object(_) => v := Ptr(1);
    case Array(e, max) =>
      var x := CountedValue(e);
      RepeatTyped(x, max, e);
      v := Inline(Repeat(x, max));
      assert Repeat(x, max) == Cons(x, Repeat(x, max - 1));
    case Sequence(e) =>
      var x := CountedValue(e);
      v := Buffer(Some(0), Cons(x, Nil));
    case List(e) =>
      var x := CountedValue(e);
      v := Handle(Some(0), Cons(if RequiresAlloc(e) then Cell(0, x) else x, Nil));
    case Map(e, _) =>
      var x := CountedValue(e);
      v := Handle(Some(0), Cons(if RequiresAlloc(e) then Cell(0, x) else x, Nil));
    case Struct(ms) =>
      var xs := CountedFields(ms);
      v := Inline(xs);
  }

  lemma {:induction false} CountedFields(ms: Members) returns (vs: Values)
    requires WellFormedMembers(ms) && (MemberFlags(ms).references || MembersHoldAny(ms))
    ensures Fields(vs, ms) && AnyHoldsClaim(vs)
  {
    if FlagsOf(ms.mtype).references || ms.mtype.Object? || HoldsAny(ms.mtype) {
      var x := CountedValue(ms.mtype);
      SampleFieldsTyped(ms.rest);
      vs := Cons(if ms.optional then Cell(0, x) else x, SampleFields(ms.rest));
    } else {
      SampleTyped(ms.mtype);
      var rest := CountedFields(ms.rest);
      vs := Cons(if ms.optional then Cell(0, Sample(ms.mtype)) else Sample(ms.mtype), rest);
    }
  }

  // ---- Zero-filled storage ------------------------------------------------------------------------------

  /** What memset(0) leaves. */
  function Zero(t: Type): Value {
    match t
    case Primitive(_) => Bits(0)
    case Text => Str(None, "")
    case Any => AnyBox(false, None)
    case Object(_) => Ptr(NULL)
    case Array(e, max) => Inline(Repeat(Zero(e), max))
    case Sequence(_) => Buffer(None, Nil)
    case List(_) => Handle(None, Nil)
    case Map(_, _) => Handle(None, Nil)
    case Struct(ms) => Inline(ZeroFields(ms))
  }

  function ZeroFields(ms: Members): Values {
    if ms.End? then Nil
    else Cons(if ms.optional then Absent else Zero(ms.mtype), ZeroFields(ms.rest))
  }

  lemma {:induction false} ZeroTyped(t: Type)
    ensures HasType(Zero(t), t)
  {
    match t
    case Array(e, max) => ZeroTyped(e); RepeatTyped(Zero(e), max, e);
    case Struct(ms) => ZeroFieldsTyped(ms);
    case _ =>
  }

  lemma {:induction false} ZeroFieldsTyped(ms: Members)
    ensures Fields(ZeroFields(ms), ms)
  {
    if ms.Member? {
      ZeroTyped(ms.mtype);
      ZeroFieldsTyped(ms.rest);
    }
  }

  lemma {:induction false} ZeroOwnsNothing(t: Type, r: Resource)
    ensures Owned(Zero(t), r) == 0
  {
    match t
    case Array(e, max) => ZeroOwnsNothing(e, r); RepeatOwnsNothing(Zero(e), max, r);
    case Struct(ms) => ZeroFieldsOwnNothing(ms, r);
    case _ =>
  }

  lemma {:induction false} ZeroFieldsOwnNothing(ms: Members, r: Resource)
    ensures OwnedAll(ZeroFields(ms), r) == 0
  {
    if ms.Member? {
      ZeroOwnsNothing(ms.mtype, r);
      ZeroFieldsOwnNothing(ms.rest, r);
    }
  }

  lemma {:induction false} RepeatOwnsNothing(v: Value, n: nat, r: Resource)
    requires Owned(v, r) == 0
    ensures OwnedAll(Repeat(v, n), r) == 0
  {
    if n > 0 {
      RepeatOwnsNothing(v, n - 1, r);
    }
  }
}
