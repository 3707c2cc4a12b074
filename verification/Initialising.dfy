/** Initialising storage: what the init serializer writes into zero-filled storage, and when the flag that
    lets corto_ptr_init skip it is right. */
module Initialising {
  import opened Store
  import opened Types
  import opened Copying

  // ---- The init serializer -------------------------------------------------------------------------------

  /** Runs the serializer on a value; new blocks are numbered from `next`. Anys are always made owners. Lists
      and maps get a handle unless they are struct members that may be NULL (`handles`); a map without key
      type never does. References are not followed. */
  function Init(v: Value, t: Type, handles: bool, next: nat): Copied
    requires HasType(v, t)
    decreases v, 0
  {
    match t
    case Any => Copied(v.(owner := true), next)
    case List(_) => if handles then Copied(Handle(Some(next), Nil), next + 1) else Copied(v, next)
    case Map(_, keyed) => if handles && keyed then Copied(Handle(Some(next), Nil), next + 1) else Copied(v, next)
    case Array(e, _) => var c := InitAll(v.elems, e, next); Copied(Inline(c.values), c.next)
    case Struct(ms) => var c := InitFields(v.elems, ms, next); Copied(Inline(c.values), c.next)
    case _ => Copied(v, next)
  }

  function InitAll(vs: Values, e: Type, next: nat): CopiedAll
    requires AllOf(vs, e, false)
    decreases vs
  {
    if vs.Nil? then CopiedAll(Nil, next)
    else
      var h := Init(vs.head, e, true, next);
      var t := InitAll(vs.tail, e, h.next);
      CopiedAll(Cons(h.value, t.values), t.next)
  }

  /** A default value replaces what the member holds. An optional member is skipped, and its default value with
      it: in the zero-filled storage the serializer runs on none is set. */
  function InitFields(vs: Values, ms: Members, next: nat): CopiedAll
    requires Fields(vs, ms)
    decreases vs
  {
    if ms.End? then CopiedAll(Nil, next)
    else
      var h := if ms.optional then Copied(vs.head, next) else InitMember(vs.head, ms, next);
      var t := InitFields(vs.tail, ms.rest, h.next);
      CopiedAll(Cons(h.value, t.values), t.next)
  }

  function InitMember(v: Value, ms: Members, next: nat): Copied
    requires ms.Member? && HasType(v, ms.mtype)
    decreases v, 1
  {
    if ms.initial.Some? then Copied(ms.initial.value, next) else Init(v, ms.mtype, ms.notNull, next)
  }

  /** corto_ptr_init: the serializer runs only if the flag says so. */
  function PtrInit(t: Type, next: nat): Value {
    ZeroTyped(t);
    if !t.Object? && FlagsOf(t).needsInit then Init(Zero(t), t, true, next).value else Zero(t)
  }

  // ---- What the serializer writes ------------------------------------------------------------------------

  /** The serializer changes zero-filled storage of the type. */
  predicate Written(t: Type, handles: bool) {
    match t
    case Any => true
    case List(_) => handles
    case Map(_, keyed) => handles && keyed
    case Array(e, _) => Written(e, true)
    case Struct(ms) => WrittenMember(ms)
    case _ => false
  }

  predicate WrittenMember(ms: Members) {
    ms.Member? &&
    (|| (!ms.optional
         && if ms.initial.Some? then ms.initial.value != Zero(ms.mtype) else Written(ms.mtype, ms.notNull))
     || WrittenMember(ms.rest))
  }

  lemma {:induction false} InitWrites(t: Type, handles: bool, next: nat)
    requires WellFormed(t)
    ensures HasType(Zero(t), t)
    ensures Init(Zero(t), t, handles, next).value != Zero(t) <==> Written(t, handles)
    decreases t, 0
  {
    ZeroTyped(t);
    match t
    case Array(e, max) => ElementsWritten(e, max, next);
    case Struct(ms) => MembersWritten(ms, next);
    case _ =>
  }

  lemma {:induction false} ElementsWritten(e: Type, n: nat, next: nat)
    requires n > 0 && WellFormed(e)
    ensures var vs := Repeat(Zero(e), n);
            AllOf(vs, e, false) && (InitAll(vs, e, next).values != vs <==> Written(e, true))
    decreases e, n
  {
    ZeroTyped(e);
    RepeatTyped(Zero(e), n, e);
    InitWrites(e, true, next);
    if n > 1 {
      ElementsWritten(e, n - 1, Init(Zero(e), e, true, next).next);
    }
  }

  lemma {:induction false} MembersWritten(ms: Members, next: nat)
    requires WellFormedMembers(ms)
    ensures Fields(ZeroFields(ms), ms)
    ensures InitFields(ZeroFields(ms), ms, next).values != ZeroFields(ms) <==> WrittenMember(ms)
  {
    ZeroFieldsTyped(ms);
    if ms.Member? {
      ZeroTyped(ms.mtype);
      InitWrites(ms.mtype, ms.notNull, next);
      var h := if ms.optional then next else InitMember(Zero(ms.mtype), ms, next).next;
      MembersWritten(ms.rest, h);
    }
  }

  // ---- What the serializer leaves behind -----------------------------------------------------------------

  /** Zero-filled storage after initialisation, but for where handles are: every any is an owner, every list
      and keyed map that must have a handle has one and is empty, set members hold their default value, and
      all else is still zero. */
  predicate Initialised(w: Value, t: Type, handles: bool)
    decreases w, 0
  {
    match t
    case Any => w == AnyBox(true, None)
    case List(_) => if handles then w.Handle? && w.block.Some? && w.elems.Nil? else w == Handle(None, Nil)
    case Map(_, keyed) => if handles && keyed then w.Handle? && w.block.Some? && w.elems.Nil? else w == Handle(None, Nil)
    case Array(e, max) => w.Inline? && Length(w.elems) == max && AllInitialised(w.elems, e)
    case Struct(ms) => w.Inline? && MembersInitialised(w.elems, ms)
    case Primitive(_) => w == Bits(0)
    case Text => w == Str(None, "")
    case Object(_) => w == Ptr(NULL)
    case Sequence(_) => w == Buffer(None, Nil)
  }

  predicate AllInitialised(ws: Values, e: Type)
    decreases ws
  {
    ws.Cons? ==> Initialised(ws.head, e, true) && AllInitialised(ws.tail, e)
  }

  predicate MembersInitialised(ws: Values, ms: Members)
    decreases ws
  {
    if ms.End? then ws.Nil?
    else
      && ws.Cons?
      && (if ms.optional then ws.head.Absent?
          else if ms.initial.Some? then ws.head == ms.initial.value
          else Initialised(ws.head, ms.mtype, ms.notNull))
      && MembersInitialised(ws.tail, ms.rest)
  }

  lemma {:induction false} InitLeaves(t: Type, handles: bool, next: nat)
    requires WellFormed(t)
    ensures HasType(Zero(t), t)
    ensures var w := Init(Zero(t), t, handles, next).value; HasType(w, t) && Initialised(w, t, handles)
    decreases t, 0
  {
    ZeroTyped(t);
    match t
    case Array(e, max) => InitAllLeaves(e, max, next);
    case Struct(ms) => InitMembersLeave(ms, next);
    case _ =>
  }

  lemma {:induction false} InitAllLeaves(e: Type, n: nat, next: nat)
    requires WellFormed(e)
    ensures AllOf(Repeat(Zero(e), n), e, false)
    ensures var ws := InitAll(Repeat(Zero(e), n), e, next).values;
            AllOf(ws, e, false) && Length(ws) == n && AllInitialised(ws, e)
    decreases e, n + 1
  {
    ZeroTyped(e);
    RepeatTyped(Zero(e), n, e);
    if n > 0 {
      InitLeaves(e, true, next);
      InitAllLeaves(e, n - 1, Init(Zero(e), e, true, next).next);
    }
  }

  lemma {:induction false} InitMembersLeave(ms: Members, next: nat)
    requires WellFormedMembers(ms)
    ensures Fields(ZeroFields(ms), ms)
    ensures var ws := InitFields(ZeroFields(ms), ms, next).values; Fields(ws, ms) && MembersInitialised(ws, ms)
  {
    ZeroFieldsTyped(ms);
    if ms.Member? {
      ZeroTyped(ms.mtype);
      InitLeaves(ms.mtype, ms.notNull, next);
      InitMembersLeave(ms.rest, if ms.optional then next else InitMember(Zero(ms.mtype), ms, next).next);
    }
  }

  /** No member stored in place has a default value. */
  predicate NoDefaults(t: Type) {
    match t
    case Array(e, _) => NoDefaults(e)
    case Struct(ms) => NoMemberDefaults(ms)
    case _ => true
  }

  predicate NoMemberDefaults(ms: Members) {
    ms.Member? ==> (ms.optional || (ms.initial.None? && NoDefaults(ms.mtype))) && NoMemberDefaults(ms.rest)
  }

  /** The handles are all different: initialised storage owns each block from `next` to where numbering has
      got to exactly once, and nothing else. */
  lemma {:induction false} InitOwnsFreshBlocks(t: Type, handles: bool, next: nat, r: Resource)
    requires NoDefaults(t)
    ensures HasType(Zero(t), t)
    ensures var c := Init(Zero(t), t, handles, next);
            next <= c.next && Owned(c.value, r) == Allocated(r, next, c.next)
    decreases t, 0
  {
    ZeroTyped(t);
    match t
    case Array(e, max) => InitAllOwnsFreshBlocks(e, max, next, r);
    case Struct(ms) => InitMembersOwnFreshBlocks(ms, next, r);
    case _ =>
  }

  lemma {:induction false} InitAllOwnsFreshBlocks(e: Type, n: nat, next: nat, r: Resource)
    requires NoDefaults(e)
    ensures AllOf(Repeat(Zero(e), n), e, false)
    ensures var c := InitAll(Repeat(Zero(e), n), e, next);
            next <= c.next && OwnedAll(c.values, r) == Allocated(r, next, c.next)
    decreases e, n + 1
  {
    ZeroTyped(e);
    RepeatTyped(Zero(e), n, e);
    if n > 0 {
      InitOwnsFreshBlocks(e, true, next, r);
      InitAllOwnsFreshBlocks(e, n - 1, Init(Zero(e), e, true, next).next, r);
    }
  }

  lemma {:induction false} InitMembersOwnFreshBlocks(ms: Members, next: nat, r: Resource)
    requires NoMemberDefaults(ms)
    ensures Fields(ZeroFields(ms), ms)
    ensures var c := InitFields(ZeroFields(ms), ms, next);
            next <= c.next && OwnedAll(c.values, r) == Allocated(r, next, c.next)
  {
    ZeroFieldsTyped(ms);
    if ms.Member? {
      ZeroTyped(ms.mtype);
      if !ms.optional {
        InitOwnsFreshBlocks(ms.mtype, ms.notNull, next, r);
      }
      InitMembersOwnFreshBlocks(ms.rest, if ms.optional then next else InitMember(Zero(ms.mtype), ms, next).next, r);
    }
  }

  // ---- The flag ------------------------------------------------------------------------------------------

  /** Something is written that the flag does not know about. A member that is neither a struct nor NOT_NULL
      passes no flag on, as fits a list or map that may be NULL; but the serializer also writes to an any, and
      to the elements of an array, in such a member. */
  predicate Missed(t: Type) {
    match t
    case Array(e, _) => Missed(e)
    case Struct(ms) => MissedMember(ms)
    case _ => false
  }

  predicate MissedMember(ms: Members) {
    ms.Member? &&
    (|| (!ms.optional && ms.initial.None?
         && if ms.notNull || ms.mtype.Struct? then Missed(ms.mtype) else Written(ms.mtype, false))
     || MissedMember(ms.rest))
  }

  lemma {:induction false} UnflaggedWrites(t: Type)
    requires !t.Object? && !FlagsOf(t).needsInit
    ensures Written(t, true) <==> Missed(t)
  {
    match t
    case Array(e, _) => if !e.Object? { UnflaggedWrites(e); }
    case Struct(ms) => UnflaggedMembersWrite(ms);
    case _ =>
  }

  lemma {:induction false} UnflaggedMembersWrite(ms: Members)
    requires !MemberFlags(ms).needsInit
    ensures WrittenMember(ms) <==> MissedMember(ms)
  {
    if ms.Member? {
      UnflaggedMembersWrite(ms.rest);
      if !ms.mtype.Object? && (ms.notNull || ms.mtype.Struct?) {
        UnflaggedWrites(ms.mtype);
      }
    }
  }

  /** NEEDS_INIT against the serializer it decides about. Skipping the serializer is right exactly if the
      type is flagged or nothing is missed; where the flag is set, running it changes something exactly if
      the type holds something it writes. So these two tell when the flag is exact. */
  lemma NeedsInitExact(t: Type, next: nat)
    requires WellFormed(t) && !t.Object?
    ensures HasType(Zero(t), t)
    ensures var all := Init(Zero(t), t, true, next).value;
            && (PtrInit(t, next) == all <==> FlagsOf(t).needsInit || !Missed(t))
            && ((FlagsOf(t).needsInit <==> all != Zero(t)) <==>
                  if FlagsOf(t).needsInit then Written(t, true) else !Missed(t))
  {
    InitWrites(t, true, next);
    if !FlagsOf(t).needsInit {
      UnflaggedWrites(t);
    }
  }

  /** Zero-filled storage is initialised exactly where the serializer has nothing to write. */
  lemma {:induction false} ZeroInitialised(t: Type, handles: bool)
    requires WellFormed(t)
    ensures Initialised(Zero(t), t, handles) <==> !Written(t, handles)
  {
    match t
    case Array(e, max) => ZeroInitialised(e, true); RepeatInitialised(Zero(e), max, e);
    case Struct(ms) => ZeroMembersInitialised(ms);
    case _ =>
  }

  lemma {:induction false} RepeatInitialised(w: Value, n: nat, e: Type)
    requires n > 0
    ensures AllInitialised(Repeat(w, n), e) <==> Initialised(w, e, true)
  {
    if n > 1 {
      RepeatInitialised(w, n - 1, e);
    } else {
      assert Repeat(w, n) == Cons(w, Nil);
    }
  }

  lemma {:induction false} ZeroMembersInitialised(ms: Members)
    requires WellFormedMembers(ms)
    ensures MembersInitialised(ZeroFields(ms), ms) <==> !WrittenMember(ms)
  {
    if ms.Member? {
      ZeroInitialised(ms.mtype, ms.notNull);
      ZeroMembersInitialised(ms.rest);
    }
  }

  /** corto_ptr_init leaves a value of the type that is initialised if and only if the type is flagged or
      nothing is missed, and that shares no handle. */
  lemma PtrInitLeaves(t: Type, next: nat)
    requires WellFormed(t) && !t.Object?
    ensures HasType(PtrInit(t, next), t)
    ensures Initialised(PtrInit(t, next), t, true) <==> FlagsOf(t).needsInit || !Missed(t)
    ensures NoDefaults(t) ==> forall b :: Owned(PtrInit(t, next), Block(b)) <= 1
  {
    ZeroTyped(t);
    InitLeaves(t, true, next);
    ZeroInitialised(t, true);
    if !FlagsOf(t).needsInit {
      UnflaggedWrites(t);
    }
    if NoDefaults(t) {
      forall b ensures Owned(PtrInit(t, next), Block(b)) <= 1 {
        InitOwnsFreshBlocks(t, true, next, Block(b));
        ZeroOwnsNothing(t, Block(b));
      }
    }
  }

  /** The type of the elements an array nested to any depth consists of. */
  function Innermost(t: Type): (r: Type)
    ensures !r.Array?
  {
    if t.Array? then Innermost(t.element) else t
  }

  /** Without structs the flag says exactly that the storage consists of lists, maps or anys, in place or
      through arrays, but for maps that the application initialises and arrays of references to a flagged
      class. */
  lemma {:induction false} NeedsInitOfCollections(t: Type, next: nat)
    requires WellFormed(t) && !t.Object? && !Innermost(t).Struct?
    ensures HasType(Zero(t), t)
    ensures var i := Innermost(t);
            && (Init(Zero(t), t, true, next).value != Zero(t) <==> i.Any? || i.List? || (i.Map? && i.keyed))
            && (FlagsOf(t).needsInit <==> i.Any? || i.List? || i.Map? || (i.Object? && i.own.needsInit))
  {
    InitWrites(t, true, next);
    CollectionFlag(t);
  }

  lemma {:induction false} CollectionFlag(t: Type)
    requires !Innermost(t).Struct?
    ensures var i := Innermost(t);
            && (Written(t, true) <==> i.Any? || i.List? || (i.Map? && i.keyed))
            && (FlagsOf(t).needsInit <==> i.Any? || i.List? || i.Map? || (i.Object? && i.own.needsInit))
  {
    if t.Array? {
      CollectionFlag(t.element);
    }
  }

  /** The smallest missed case: an any in a plain member never becomes owner of its value. */
  lemma PlainAnyIsMissed(next: nat)
    ensures var t := Struct(Member(Any, false, false, None, End));
            && WellFormed(t) && !FlagsOf(t).needsInit && HasType(Zero(t), t)
            && PtrInit(t, next) == Inline(Cons(AnyBox(false, None), Nil))
            && Init(Zero(t), t, true, next).value == Inline(Cons(AnyBox(true, None), Nil))
  {
    var ms := Member(Any, false, false, None, End);
    var vs := Cons(AnyBox(false, None), Nil);
    assert ZeroFields(ms) == vs && Fields(vs, ms);
    assert InitFields(Nil, End, next) == CopiedAll(Nil, next);
    assert Init(AnyBox(false, None), Any, false, next) == Copied(AnyBox(true, None), next);
  }

  /** Lists in an array are missed as well unless the member is NOT_NULL. */
  lemma PlainArrayOfListsIsMissed(e: Type, max: nat, next: nat)
    requires WellFormed(e) && max > 0
    ensures var t := Struct(Member(Array(List(e), max), false, false, None, End));
            && WellFormed(t) && !FlagsOf(t).needsInit && HasType(Zero(t), t)
            && PtrInit(t, next) != Init(Zero(t), t, true, next).value
  {
    var ms := Member(Array(List(e), max), false, false, None, End);
    assert WellFormed(List(e)) && WellFormed(Array(List(e), max)) && WellFormedMembers(End);
    assert WellFormedMembers(ms);
    assert Written(Array(List(e), max), false);
    assert MissedMember(ms);
    assert !MemberFlags(ms).needsInit;
    NeedsInitExact(Struct(ms), next);
  }
}
