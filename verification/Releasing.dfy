/** Releasing what a value owns: the typecache instruction chosen for a type, what executing it gives
    back, and for exactly which types that is everything. */
module Releasing {
  import opened Store
  import opened Types
  import opened Copying

  /** Element classes of the typecache. CORTO_TC_SUB_SIMPLE exists but is never chosen. */
  datatype SubKind = SubString | SubReference | SubResource | SubAlloc | SubComplex | SubSimplePtr

  /** corto_typecache_get_subkind. */
  function SubKindOf(e: Type, isList: bool): SubKind {
    if e.Text? then SubString
    else if e.Object? then SubReference
    else if FlagsOf(e).resources then SubResource
    else if isList && RequiresAlloc(e) then SubAlloc
    else if e.Primitive? then SubSimplePtr
    else SubComplex
  }

  /** corto_free on a value, by the field kinds of its typecache: how often it gives back `r`. */
  function Freed(v: Value, t: Type, r: Resource): nat
    requires HasType(v, t)
    decreases v, 0
  {
    match t
    case Text => Is(v.block, r)
    case Array(e, _) =>
      (match SubKindOf(e, false)
       case SubString => FreedAll(v.elems, e, false, r)
       case SubReference => FreedAll(v.elems, e, false, r)
       case SubResource => FreedAll(v.elems, e, false, r)
       case _ => 0)
    case Sequence(e) =>
      (match SubKindOf(e, false)
       case SubString => FreedAll(v.elems, e, false, r) + Is(v.block, r)
       case SubReference => FreedAll(v.elems, e, false, r) + Is(v.block, r)
       case SubResource => FreedAll(v.elems, e, false, r) + Is(v.block, r)
       case _ => 0)
    case List(e) =>
      (match SubKindOf(e, true)
       case SubSimplePtr => Is(v.block, r)
       case SubAlloc => FreedCells(v.elems, e, r) + Is(v.block, r)
       case SubString => FreedAll(v.elems, e, false, r) + Is(v.block, r)
       case SubReference => FreedAll(v.elems, e, false, r) + Is(v.block, r)
       case SubResource => if RequiresAlloc(e) then FreedAll(v.elems, e, true, r) + Is(v.block, r) else Is(v.block, r)
       case SubComplex => 0)
    case Struct(ms) => FreedFields(v.elems, ms, r)
    case _ => 0
  }

  /** Gives back what each element holds and, for `celled` elements, their blocks. */
  function FreedAll(vs: Values, e: Type, celled: bool, r: Resource): nat
    requires AllOf(vs, e, celled)
    decreases vs
  {
    if vs.Nil? then 0
    else
      (if e.Object? then (if celled then 0 else Owned(vs.head, r))
       else if celled then Freed(vs.head.content, e, r) + Is(Some(vs.head.cell), r)
       else Freed(vs.head, e, r))
      + FreedAll(vs.tail, e, celled, r)
  }

  /** Frees element blocks without looking inside. */
  function FreedCells(vs: Values, e: Type, r: Resource): nat
    requires AllOf(vs, e, true)
    decreases vs
  {
    if vs.Nil? then 0 else Is(Some(vs.head.cell), r) + FreedCells(vs.tail, e, r)
  }

  function FreedFields(vs: Values, ms: Members, r: Resource): nat
    requires Fields(vs, ms)
    decreases vs
  {
    if ms.End? then 0 else FreedField(vs.head, ms, r) + FreedFields(vs.tail, ms.rest, r)
  }

  predicate IsField(v: Value, ms: Members)
    requires ms.Member?
  {
    if ms.optional then v.Absent? || (v.Cell? && HasType(v.content, ms.mtype)) else HasType(v, ms.mtype)
  }

  function FreedField(v: Value, ms: Members, r: Resource): nat
    requires ms.Member? && IsField(v, ms)
    decreases v, 1
  {
    if !ms.optional then (if ms.mtype.Object? then Owned(v, r) else Freed(v, ms.mtype, r))
    else if v.Absent? then 0
    else
      match SubKindOf(ms.mtype, false)
      case SubString => Freed(v.content, ms.mtype, r) + Is(Some(v.cell), r)
      case SubReference => Owned(v, r)
      case SubResource => Freed(v.content, ms.mtype, r) + Is(Some(v.cell), r)
      case _ => 0
  }

  /** The instruction for lists of resources takes the element pointer for the address of the element,
      also where the pointer is the element: some list of lists or maps is reached. */
  predicate Misread(v: Value, t: Type)
    requires HasType(v, t)
    decreases v, 0
  {
    match t
    case Array(e, _) => SubKindOf(e, false).SubResource? && MisreadAll(v.elems, e, false)
    case Sequence(e) => SubKindOf(e, false).SubResource? && MisreadAll(v.elems, e, false)
    case List(e) =>
      SubKindOf(e, true).SubResource?
      && (if RequiresAlloc(e) then MisreadAll(v.elems, e, true) else v.elems.Cons?)
    case Struct(ms) => MisreadFields(v.elems, ms)
    case _ => false
  }

  predicate MisreadAll(vs: Values, e: Type, celled: bool)
    requires AllOf(vs, e, celled)
    decreases vs
  {
    vs.Cons? && (Misread(if celled then vs.head.content else vs.head, e) || MisreadAll(vs.tail, e, celled))
  }

  predicate MisreadFields(vs: Values, ms: Members)
    requires Fields(vs, ms)
    decreases vs
  {
    ms.Member? &&
    (|| (!ms.optional && !ms.mtype.Object? && Misread(vs.head, ms.mtype))
     || (ms.optional && vs.head.Cell? && SubKindOf(ms.mtype, false).SubResource? && Misread(vs.head.content, ms.mtype))
     || MisreadFields(vs.tail, ms.rest))
  }

  /** corto_ptr_deinit, less the user's deinit delegate. */
  function Deinit(v: Value, t: Type, r: Resource): nat
    requires HasType(v, t)
  {
    if t.Object? then Owned(v, r)
    else if FlagsOf(t).resources then Freed(v, t, r)
    else 0
  }

  /** Deinit reads only what is there and gives back exactly what the value owns. */
  ghost predicate DeinitExact(v: Value, t: Type)
    requires HasType(v, t)
  {
    && (t.Object? || !FlagsOf(t).resources || !Misread(v, t))
    && forall r :: Deinit(v, t, r) == Owned(v, r)
  }

  // ---- The types for which nothing is left behind --------------------------------------------------------

  /** Nothing of a value needs giving back. */
  predicate Bare(t: Type) {
    !Flagged(t) && !Hidden(t)
  }

  /** corto_free gives back all that is stored in place in a value. */
  predicate Covered(t: Type)
    decreases t
  {
    match t
    case Primitive(_) => true
    case Text => true
    case Any => false
    case Object(_) => false
    case Array(e, _) => if e.Text? || e.Object? then true else if FlagsOf(e).resources then Covered(e) else Bare(e)
    case Sequence(e) => e.Text? || e.Object? || (FlagsOf(e).resources && Covered(e))
    case List(e) =>
      if e.Text? || e.Object? then true
      else if FlagsOf(e).resources then RequiresAlloc(e) && Covered(e)
      else Bare(e)
    case Map(_, _) => false
    case Struct(ms) => CoveredMembers(ms)
  }

  predicate CoveredMembers(ms: Members) {
    ms.Member? ==>
      && (if ms.mtype.Text? || ms.mtype.Object? then true
          else if ms.optional then FlagsOf(ms.mtype).resources && Covered(ms.mtype)
          else Covered(ms.mtype))
      && CoveredMembers(ms.rest)
  }

  /** The types whose values corto_ptr_deinit releases completely. */
  predicate Releasable(t: Type) {
    t.Object? || (if FlagsOf(t).resources then Covered(t) else Bare(t))
  }

  // ---- Soundness: nothing is given back that is not owned, nor twice -------------------------------------

  lemma {:induction false} FreedAtMost(v: Value, t: Type, r: Resource)
    requires HasType(v, t)
    ensures Freed(v, t, r) <= Owned(v, r)
    decreases v
  {
    match t
    case Array(e, _) => FreedAllAtMost(v.elems, e, false, r);
    case Sequence(e) => FreedAllAtMost(v.elems, e, false, r);
    case List(e) =>
      FreedAllAtMost(v.elems, e, RequiresAlloc(e), r);
      if RequiresAlloc(e) {
        FreedCellsAtMost(v.elems, e, r);
      }
    case Struct(ms) => FreedFieldsAtMost(v.elems, ms, r);
    case _ =>
  }

  lemma {:induction false} FreedAllAtMost(vs: Values, e: Type, celled: bool, r: Resource)
    requires AllOf(vs, e, celled)
    ensures FreedAll(vs, e, celled, r) <= OwnedAll(vs, r)
    decreases vs
  {
    if vs.Cons? {
      FreedAtMost(if celled then vs.head.content else vs.head, e, r);
      FreedAllAtMost(vs.tail, e, celled, r);
    }
  }

  lemma {:induction false} FreedCellsAtMost(vs: Values, e: Type, r: Resource)
    requires AllOf(vs, e, true)
    ensures FreedCells(vs, e, r) <= OwnedAll(vs, r)
    decreases vs
  {
    if vs.Cons? {
      FreedCellsAtMost(vs.tail, e, r);
    }
  }

  lemma {:induction false} FreedFieldsAtMost(vs: Values, ms: Members, r: Resource)
    requires Fields(vs, ms)
    ensures FreedFields(vs, ms, r) <= OwnedAll(vs, r)
    decreases vs
  {
    if ms.Member? {
      if !ms.optional {
        FreedAtMost(vs.head, ms.mtype, r);
      } else if vs.head.Cell? {
        FreedAtMost(vs.head.content, ms.mtype, r);
      }
      FreedFieldsAtMost(vs.tail, ms.rest, r);
    }
  }

  /** For every type, whatever deinit gives back the value did own, and nothing is given back twice. */
  lemma DeinitAtMost(v: Value, t: Type, r: Resource)
    requires HasType(v, t)
    ensures Deinit(v, t, r) <= Owned(v, r)
  {
    FreedAtMost(v, t, r);
  }

  // ---- What stays behind -----------------------------------------------------------------------------------

  /** Elements of the type are given back one by one: texts, references, and whatever has resources. */
  predicate Visited(e: Type) {
    e.Text? || e.Object? || FlagsOf(e).resources
  }

  /** How often corto_free leaves a resource behind that the value owns: all of an any and of a map; a sequence
      whose elements are not visited, with its buffer; the contents of other elements not visited; elements
      with resources that are kept in the list itself; and a set optional member that is not visited. */
  function Kept(v: Value, t: Type, r: Resource): nat
    requires HasType(v, t)
    decreases v
  {
    match t
    case Primitive(_) => 0
    case Text => 0
    case Array(e, _) => if Visited(e) then KeptAll(v.elems, e, false, r) else OwnedAll(v.elems, r)
    case Sequence(e) => if Visited(e) then KeptAll(v.elems, e, false, r) else Owned(v, r)
    case List(e) =>
      if Visited(e) && (RequiresAlloc(e) || e.Text? || e.Object?) then KeptAll(v.elems, e, RequiresAlloc(e), r)
      else if RequiresAlloc(e) then Contents(v.elems, e, r)
      else OwnedAll(v.elems, r)
    case Struct(ms) => KeptFields(v.elems, ms, r)
    case _ => Owned(v, r)
  }

  function KeptAll(vs: Values, e: Type, celled: bool, r: Resource): nat
    requires AllOf(vs, e, celled)
    decreases vs
  {
    if vs.Nil? || e.Object? then 0
    else Kept(if celled then vs.head.content else vs.head, e, r) + KeptAll(vs.tail, e, celled, r)
  }

  function Contents(vs: Values, e: Type, r: Resource): nat
    requires AllOf(vs, e, true)
    decreases vs
  {
    if vs.Nil? then 0 else Owned(vs.head.content, r) + Contents(vs.tail, e, r)
  }

  function KeptFields(vs: Values, ms: Members, r: Resource): nat
    requires Fields(vs, ms)
    decreases vs
  {
    if ms.End? then 0
    else
      (if ms.mtype.Object? || vs.head.Absent? then 0
       else if !ms.optional then Kept(vs.head, ms.mtype, r)
       else if Visited(ms.mtype) then Kept(vs.head.content, ms.mtype, r)
       else Owned(vs.head, r))
      + KeptFields(vs.tail, ms.rest, r)
  }

  /** For every type: what a value owns is given back or left behind, exactly. */
  lemma {:induction false} FreedAndKept(v: Value, t: Type, r: Resource)
    requires HasType(v, t)
    ensures Freed(v, t, r) + Kept(v, t, r) == Owned(v, r)
    decreases v, 0
  {
    hide FreedAll, FreedCells, FreedFields, KeptAll, Contents, KeptFields, OwnedAll, Fields;
    match t
    case Array(e, _) => FreedAllAndKept(v.elems, e, false, r);
    case Sequence(e) => FreedAllAndKept(v.elems, e, false, r);
    case List(e) =>
      FreedAllAndKept(v.elems, e, RequiresAlloc(e), r);
      if RequiresAlloc(e) {
        FreedCellsAndContents(v.elems, e, r);
      }
    case Struct(ms) => FreedFieldsAndKept(v.elems, ms, r);
    case _ =>
  }

  lemma {:induction false} FreedAllAndKept(vs: Values, e: Type, celled: bool, r: Resource)
    requires AllOf(vs, e, celled) && (e.Object? ==> !celled)
    ensures FreedAll(vs, e, celled, r) + KeptAll(vs, e, celled, r) == OwnedAll(vs, r)
    decreases vs
  {
    if vs.Cons? {
      FreedAndKept(if celled then vs.head.content else vs.head, e, r);
      FreedAllAndKept(vs.tail, e, celled, r);
    }
  }

  lemma {:induction false} FreedCellsAndContents(vs: Values, e: Type, r: Resource)
    requires AllOf(vs, e, true)
    ensures FreedCells(vs, e, r) + Contents(vs, e, r) == OwnedAll(vs, r)
    decreases vs
  {
    if vs.Cons? {
      FreedCellsAndContents(vs.tail, e, r);
    }
  }

  lemma {:induction false} FreedFieldsAndKept(vs: Values, ms: Members, r: Resource)
    requires Fields(vs, ms)
    ensures FreedFields(vs, ms, r) + KeptFields(vs, ms, r) == OwnedAll(vs, r)
    decreases vs
  {
    if ms.Member? {
      FreedFieldAndKept(vs.head, ms, r);
      FreedFieldsAndKept(vs.tail, ms.rest, r);
    }
  }

  lemma {:induction false} FreedFieldAndKept(v: Value, ms: Members, r: Resource)
    requires ms.Member? && IsField(v, ms)
    ensures FreedField(v, ms, r) +
            (if ms.mtype.Object? || v.Absent? then 0
             else if !ms.optional then Kept(v, ms.mtype, r)
             else if Visited(ms.mtype) then Kept(v.content, ms.mtype, r)
             else Owned(v, r)) == Owned(v, r)
    decreases v, 1
  {
    if !ms.optional {
      FreedAndKept(v, ms.mtype, r);
    } else if v.Cell? {
      FreedAndKept(v.content, ms.mtype, r);
    }
  }

  /** Deinit leaves behind what corto_free does and, of an unflagged type, everything. */
  lemma DeinitLeaves(v: Value, t: Type, r: Resource)
    requires HasType(v, t)
    ensures Deinit(v, t, r) +
            (if t.Object? then 0 else if FlagsOf(t).resources then Kept(v, t, r) else Owned(v, r)) == Owned(v, r)
  {
    FreedAndKept(v, t, r);
  }

  /** Zero-filled storage owns nothing, so deinitialising it gives nothing back: growing a sequence may
      deinitialise the slots it has just zeroed. */
  lemma ZeroDeinit(t: Type, r: Resource)
    ensures HasType(Zero(t), t) && Owned(Zero(t), r) == 0 && Deinit(Zero(t), t, r) == 0
  {
    ZeroTyped(t);
    ZeroOwnsNothing(t, r);
    DeinitAtMost(Zero(t), t, r);
  }

  // ---- Completeness on releasable types ------------------------------------------------------------------

  lemma {:induction false} FreedComplete(v: Value, t: Type, r: Resource)
    requires HasType(v, t) && Covered(t)
    ensures Freed(v, t, r) == Owned(v, r) && !Misread(v, t)
    decreases v
  {
    match t
    case Array(e, _) =>
      if e.Text? || e.Object? || FlagsOf(e).resources {
        FreedAllComplete(v.elems, e, false, r);
      } else {
        AllOwnNothing(v.elems, e, r);
      }
    case Sequence(e) => FreedAllComplete(v.elems, e, false, r);
    case List(e) =>
      if e.Text? || e.Object? || FlagsOf(e).resources {
        FreedAllComplete(v.elems, e, RequiresAlloc(e), r);
      } else if RequiresAlloc(e) {
        FreedCellsComplete(v.elems, e, r);
      } else {
        AllOwnNothing(v.elems, e, r);
      }
    case Struct(ms) => FreedFieldsComplete(v.elems, ms, r);
    case _ =>
  }

  lemma {:induction false} FreedAllComplete(vs: Values, e: Type, celled: bool, r: Resource)
    requires AllOf(vs, e, celled) && (e.Object? ==> !celled) && (e.Object? || Covered(e))
    ensures FreedAll(vs, e, celled, r) == OwnedAll(vs, r) && (e.Object? || !MisreadAll(vs, e, celled))
    decreases vs
  {
    if vs.Cons? {
      if !e.Object? {
        FreedComplete(if celled then vs.head.content else vs.head, e, r);
      }
      FreedAllComplete(vs.tail, e, celled, r);
    }
  }

  lemma {:induction false} FreedCellsComplete(vs: Values, e: Type, r: Resource)
    requires AllOf(vs, e, true) && Bare(e)
    ensures FreedCells(vs, e, r) == OwnedAll(vs, r)
    decreases vs
  {
    if vs.Cons? {
      UnflaggedOwnsNothing(vs.head.content, e, r);
      FreedCellsComplete(vs.tail, e, r);
    }
  }

  lemma {:induction false} FreedFieldsComplete(vs: Values, ms: Members, r: Resource)
    requires Fields(vs, ms) && CoveredMembers(ms)
    ensures FreedFields(vs, ms, r) == OwnedAll(vs, r) && !MisreadFields(vs, ms)
    decreases vs
  {
    if ms.Member? {
      if !ms.mtype.Object? {
        if !ms.optional {
          FreedComplete(vs.head, ms.mtype, r);
        } else if vs.head.Cell? {
          FreedComplete(vs.head.content, ms.mtype, r);
        }
      }
      FreedFieldsComplete(vs.tail, ms.rest, r);
    }
  }

  lemma DeinitComplete(v: Value, t: Type)
    requires HasType(v, t) && Releasable(t)
    ensures DeinitExact(v, t)
  {
    if !t.Object? && FlagsOf(t).resources {
      FreedComplete(v, t, Block(0));
    }
    forall r ensures Deinit(v, t, r) == Owned(v, r) {
      if !t.Object? {
        if FlagsOf(t).resources {
          FreedComplete(v, t, r);
        } else {
          UnflaggedOwnsNothing(v, t, r);
        }
      }
    }
  }

  // ---- ...and on no other ---------------------------------------------------------------------------------

  function FreedWeight(v: Value, t: Type): nat
    requires HasType(v, t)
  {
    Freed(v, t, Block(0)) + Freed(v, t, Claim(1))
  }

  /** A sample of a type that is not covered is misread or not given back in full. */
  ghost predicate Short(v: Value, t: Type)
    requires HasType(v, t)
  {
    Misread(v, t) || FreedWeight(v, t) < Weight(v)
  }

  lemma {:induction false} FreedShort(t: Type)
    requires WellFormed(t) && !Covered(t) && !t.Object?
    ensures HasType(Sample(t), t) && Short(Sample(t), t)
    decreases t, 0
  {
    hide Freed, Owned, Misread, HasType, Sample;
    match t
    case Any => UnreadShort(t);
    case Map(_, _) => UnreadShort(t);
    case Array(e, max) => ArrayShort(e, max);
    case Sequence(e) => SequenceShort(e);
    case List(e) => ListShort(e);
    case Struct(ms) => FieldsShort(ms); StructShort(ms);
  }

  /** Anys and maps are not looked at. */
  lemma UnreadShort(t: Type)
    requires t.Any? || t.Map?
    ensures HasType(Sample(t), t) && Short(Sample(t), t)
  {
    hide HasType, Sample, Freed, Weight, Misread;
    SampleTyped(t);
    UnreadFreed(Sample(t), t, Block(0));
    UnreadFreed(Sample(t), t, Claim(1));
    UnreadWeight(t);
  }

  lemma UnreadWeight(t: Type)
    requires t.Any? || t.Map?
    ensures Weight(Sample(t)) > 0
  {
    assert Is(Some(0), Block(0)) == 1;
    if t.Map? {
      var b := Sample(t);
      assert b == Handle(Some(0), b.elems);
      assert Owned(b, Block(0)) == Is(b.block, Block(0)) + OwnedAll(b.elems, Block(0));
    }
  }

  lemma UnreadFreed(v: Value, t: Type, r: Resource)
    requires (t.Any? || t.Map?) && HasType(v, t)
    ensures Freed(v, t, r) == 0
  {
  }

  lemma StructShort(ms: Members)
    requires Fields(SampleFields(ms), ms)
    requires var vs := SampleFields(ms);
             MisreadFields(vs, ms)
             || FreedFields(vs, ms, Block(0)) + FreedFields(vs, ms, Claim(1)) < WeightAll(vs)
    ensures HasType(Sample(Struct(ms)), Struct(ms)) && Short(Sample(Struct(ms)), Struct(ms))
  {
    hide Fields, FreedFields, MisreadFields, SampleFields, OwnedAll;
  }

  lemma {:induction false} ArrayShort(e: Type, max: nat)
    requires WellFormed(Array(e, max)) && !Covered(Array(e, max))
    ensures HasType(Sample(Array(e, max)), Array(e, max)) && Short(Sample(Array(e, max)), Array(e, max))
    decreases e, 1
  {
    SampleTyped(e);
    SampleTyped(Array(e, max));
    var vs := Cons(Sample(e), Repeat(Sample(e), max - 1));
    assert Sample(Array(e, max)) == Inline(vs);
    FreedAllAtMost(vs.tail, e, false, Block(0));
    FreedAllAtMost(vs.tail, e, false, Claim(1));
    OwnedOne(Sample(e), vs.tail, Block(0));
    OwnedOne(Sample(e), vs.tail, Claim(1));
    if FlagsOf(e).resources {
      FreedShort(e);
      assert FreedAll(vs, e, false, Block(0)) == Freed(Sample(e), e, Block(0)) + FreedAll(vs.tail, e, false, Block(0));
      assert FreedAll(vs, e, false, Claim(1)) == Freed(Sample(e), e, Claim(1)) + FreedAll(vs.tail, e, false, Claim(1));
    } else {
      SampleOwns(Array(e, max));
    }
  }

  /** A stretch of one element. */
  lemma FreedOne(v: Value, e: Type, celled: bool, r: Resource)
    requires !e.Object? && (if celled then v.Cell? && HasType(v.content, e) else HasType(v, e))
    ensures var vs := Cons(v, Nil);
            && AllOf(vs, e, celled)
            && FreedAll(vs, e, celled, r) == (if celled then Freed(v.content, e, r) + Is(Some(v.cell), r) else Freed(v, e, r))
            && (celled ==> FreedCells(vs, e, r) == Is(Some(v.cell), r))
  {
    hide Freed, HasType;
    var none := Nil;
    assert AllOf(none, e, celled);
    assert FreedAll(none, e, celled, r) == 0;
    assert celled ==> FreedCells(none, e, r) == 0;
  }

  lemma MisreadOne(v: Value, e: Type, celled: bool)
    requires if celled then v.Cell? && HasType(v.content, e) else HasType(v, e)
    ensures var vs := Cons(v, Nil);
            && AllOf(vs, e, celled)
            && (MisreadAll(vs, e, celled) <==> Misread(if celled then v.content else v, e))
  {
    hide Misread, HasType;
    var none := Nil;
    assert AllOf(none, e, celled);
    assert !MisreadAll(none, e, celled);
  }

  /** A sequence of one element. */
  lemma BufferOfOne(v: Value, e: Type, r: Resource)
    requires HasType(v, e) && !e.Text? && !e.Object?
    ensures var b := Buffer(Some(0), Cons(v, Nil));
            && HasType(b, Sequence(e)) && Owned(b, r) == Is(Some(0), r) + Owned(v, r)
            && Freed(b, Sequence(e), r) == (if FlagsOf(e).resources then Is(Some(0), r) + Freed(v, e, r) else 0)
            && (FlagsOf(e).resources && Misread(v, e) ==> Misread(b, Sequence(e)))
  {
    OwnedOne(v, Nil, r);
    FreedOne(v, e, false, r);
    MisreadOne(v, e, false);
  }

  lemma BufferShort(v: Value, e: Type)
    requires HasType(v, e) && !e.Text? && !e.Object? && (FlagsOf(e).resources ==> Short(v, e))
    ensures var b := Buffer(Some(0), Cons(v, Nil)); HasType(b, Sequence(e)) && Short(b, Sequence(e))
  {
    hide HasType, Freed, Owned, Misread, FlagsOf;
    BufferOfOne(v, e, Block(0));
    BufferOfOne(v, e, Claim(1));
  }

  lemma {:induction false} SequenceShort(e: Type)
    requires WellFormed(e) && !Covered(Sequence(e))
    ensures HasType(Sample(Sequence(e)), Sequence(e)) && Short(Sample(Sequence(e)), Sequence(e))
    decreases e, 1
  {
    SampleTyped(e);
    if FlagsOf(e).resources {
      FreedShort(e);
    }
    BufferShort(Sample(e), e);
  }

  /** A list of one element in a block of its own. */
  lemma CelledListOfOne(v: Value, e: Type, r: Resource)
    requires HasType(v, e) && !e.Text? && !e.Object? && RequiresAlloc(e)
    ensures var b := Handle(Some(0), Cons(Cell(0, v), Nil));
            && HasType(b, List(e)) && Owned(b, r) == 2 * Is(Some(0), r) + Owned(v, r)
            && Freed(b, List(e), r) == 2 * Is(Some(0), r) + (if FlagsOf(e).resources then Freed(v, e, r) else 0)
            && (FlagsOf(e).resources && Misread(v, e) ==> Misread(b, List(e)))
  {
    assert Owned(Cell(0, v), r) == Is(Some(0), r) + Owned(v, r);
    hide HasType, Freed, Misread, FreedAll, FreedCells, MisreadAll, OwnedAll, AllOf, FlagsOf;
    OwnedOne(Cell(0, v), Nil, r);
    FreedOne(Cell(0, v), e, true, r);
    MisreadOne(Cell(0, v), e, true);
    CelledList(Cons(Cell(0, v), Nil), e, r);
  }

  lemma CelledList(vs: Values, e: Type, r: Resource)
    requires AllOf(vs, e, true) && !e.Text? && !e.Object? && RequiresAlloc(e)
    ensures var b := Handle(Some(0), vs);
            && HasType(b, List(e)) && Owned(b, r) == Is(Some(0), r) + OwnedAll(vs, r)
            && Freed(b, List(e), r) ==
               Is(Some(0), r) + (if FlagsOf(e).resources then FreedAll(vs, e, true, r) else FreedCells(vs, e, r))
            && (Misread(b, List(e)) <==> FlagsOf(e).resources && MisreadAll(vs, e, true))
  {
    hide FreedAll, FreedCells, MisreadAll, OwnedAll, AllOf, FlagsOf;
  }

  lemma CelledListShort(v: Value, e: Type)
    requires HasType(v, e) && !e.Text? && !e.Object? && RequiresAlloc(e)
    requires if FlagsOf(e).resources then Short(v, e) else Weight(v) > 0
    ensures var b := Handle(Some(0), Cons(Cell(0, v), Nil)); HasType(b, List(e)) && Short(b, List(e))
  {
    hide HasType, Freed, Owned, Misread, FlagsOf;
    CelledListOfOne(v, e, Block(0));
    CelledListOfOne(v, e, Claim(1));
  }

  lemma DirectListShort(v: Value, e: Type)
    requires HasType(v, e) && !e.Text? && !e.Object? && !RequiresAlloc(e)
    requires !FlagsOf(e).resources ==> Weight(v) > 0
    ensures var b := Handle(Some(0), Cons(v, Nil)); HasType(b, List(e)) && Short(b, List(e))
  {
    OwnedOne(v, Nil, Block(0));
    OwnedOne(v, Nil, Claim(1));
  }

  lemma {:induction false} ListShort(e: Type)
    requires WellFormed(e) && !Covered(List(e))
    ensures HasType(Sample(List(e)), List(e)) && Short(Sample(List(e)), List(e))
    decreases e, 1
  {
    SampleTyped(e);
    if !FlagsOf(e).resources {
      SampleOwns(e);
    } else if RequiresAlloc(e) {
      FreedShort(e);
    }
    if RequiresAlloc(e) {
      CelledListShort(Sample(e), e);
    } else {
      DirectListShort(Sample(e), e);
    }
  }

  /** An optional member that is set. */
  lemma OptionalShort(v: Value, ms: Members)
    requires ms.Member? && ms.optional && HasType(v, ms.mtype) && !ms.mtype.Text? && !ms.mtype.Object?
    requires FlagsOf(ms.mtype).resources ==> Short(v, ms.mtype)
    ensures IsField(Cell(0, v), ms)
    ensures FreedField(Cell(0, v), ms, Block(0)) + FreedField(Cell(0, v), ms, Claim(1)) < Weight(Cell(0, v))
            || (FlagsOf(ms.mtype).resources && Misread(v, ms.mtype))
  {
    hide HasType, Freed, Misread, FlagsOf, Weight;
    CellWeight(v);
  }

  lemma CellWeight(v: Value)
    ensures Weight(Cell(0, v)) == 1 + Weight(v)
  {
    hide Owned;
    CellOwns(0, v, Block(0));
    CellOwns(0, v, Claim(1));
  }

  lemma CellOwns(block: nat, v: Value, r: Resource)
    ensures Owned(Cell(block, v), r) == Is(Some(block), r) + Owned(v, r)
  {
  }

  /** One member of a struct. */
  lemma {:induction false} FieldShort(ms: Members)
    requires ms.Member? && WellFormed(ms.mtype) && !ms.mtype.Text? && !ms.mtype.Object?
    requires if ms.optional then !(FlagsOf(ms.mtype).resources && Covered(ms.mtype)) else !Covered(ms.mtype)
    ensures Fields(SampleFields(ms), ms)
    ensures var v := SampleFields(ms).head;
            || FreedField(v, ms, Block(0)) + FreedField(v, ms, Claim(1)) < Weight(v)
            || (!ms.optional && Misread(v, ms.mtype))
            || (ms.optional && FlagsOf(ms.mtype).resources && Misread(v.content, ms.mtype))
    decreases ms, 0
  {
    SampleFieldsTyped(ms);
    SampleTyped(ms.mtype);
    if !ms.optional || FlagsOf(ms.mtype).resources {
      FreedShort(ms.mtype);
    }
    if ms.optional {
      OptionalShort(Sample(ms.mtype), ms);
    }
    hide Freed, Owned, Misread, Covered;
  }

  lemma {:induction false} FieldsShort(ms: Members)
    requires WellFormedMembers(ms) && !CoveredMembers(ms)
    ensures Fields(SampleFields(ms), ms)
    ensures var vs := SampleFields(ms);
            MisreadFields(vs, ms)
            || FreedFields(vs, ms, Block(0)) + FreedFields(vs, ms, Claim(1)) < WeightAll(vs)
    decreases ms, 1
  {
    SampleFieldsTyped(ms);
    SampleTyped(ms.mtype);
    var vs := SampleFields(ms);
    FreedFieldsAtMost(vs.tail, ms.rest, Block(0));
    FreedFieldsAtMost(vs.tail, ms.rest, Claim(1));
    FieldAtMost(vs.head, ms, Block(0));
    FieldAtMost(vs.head, ms, Claim(1));
    if !CoveredMembers(ms.rest) {
      FieldsShort(ms.rest);
    } else {
      FieldShort(ms);
    }
  }

  lemma FieldAtMost(v: Value, ms: Members, r: Resource)
    requires ms.Member? && IsField(v, ms)
    ensures FreedField(v, ms, r) <= Owned(v, r)
  {
    if !ms.optional {
      FreedAtMost(v, ms.mtype, r);
    } else if v.Cell? {
      FreedAtMost(v.content, ms.mtype, r);
    }
  }

  /** corto_ptr_deinit gives back everything every value of a type owns exactly when the type is
      releasable. The rest: maps; anys; sequences whose elements hold no resource (their buffer stays);
      optional members of such types; arrays of references to a class that has no resources of its own;
      lists of lists or maps; and whatever contains one of these. */
  lemma ReleaseExact(t: Type)
    requires WellFormed(t)
    ensures (forall v | HasType(v, t) :: DeinitExact(v, t)) <==> Releasable(t)
  {
    if Releasable(t) {
      forall v | HasType(v, t) ensures DeinitExact(v, t) {
        DeinitComplete(v, t);
      }
    } else {
      SampleTyped(t);
      var v := Sample(t);
      if FlagsOf(t).resources {
        FreedShort(t);
      } else {
        SampleOwns(t);
      }
      assert Misread(v, t) || Deinit(v, t, Block(0)) != Owned(v, Block(0)) || Deinit(v, t, Claim(1)) != Owned(v, Claim(1));
      assert !DeinitExact(v, t);
    }
  }

  /** The smallest case: deinit of a sequence of integers keeps the buffer. */
  lemma IntegerSequenceKeepsBuffer(buffer: nat)
    ensures var t := Sequence(Primitive(W32));
            var v := Buffer(Some(buffer), Cons(Bits(0), Nil));
            HasType(v, t) && Owned(v, Block(buffer)) == 1 && forall r :: Deinit(v, t, r) == 0
  {
    var vs := Cons(Bits(0), Nil);
    assert AllOf(vs, Primitive(W32), false);
    assert OwnedAll(vs, Block(buffer)) == 0;
  }

  lemma {:induction false} CoveredCopyable(v: Value, t: Type)
    requires HasType(v, t) && Covered(t)
    ensures Copyable(v, t)
    decreases v
  {
    match t
    case Array(e, _) => ElementsCopyable(v.elems, e, false);
    case Sequence(e) => ElementsCopyable(v.elems, e, false);
    case List(e) => ElementsCopyable(v.elems, e, RequiresAlloc(e));
    case Struct(ms) => MembersCopyable(v.elems, ms);
    case _ =>
  }

  lemma {:induction false} ElementsCopyable(vs: Values, e: Type, celled: bool)
    requires AllOf(vs, e, celled) && (e.Object? || Covered(e) || Bare(e))
    ensures CopyableAll(vs, e, celled)
    decreases vs
  {
    if vs.Cons? {
      var x := if celled then vs.head.content else vs.head;
      if Covered(e) {
        CoveredCopyable(x, e);
      } else if Bare(e) {
        UnflaggedCopyIsBitwise(x, e, 0);
      }
      ElementsCopyable(vs.tail, e, celled);
    }
  }

  lemma {:induction false} MembersCopyable(vs: Values, ms: Members)
    requires Fields(vs, ms) && CoveredMembers(ms)
    ensures CopyableFields(vs, ms)
    decreases vs
  {
    if ms.Member? {
      if !ms.mtype.Object? && !vs.head.Absent? {
        CoveredCopyable(if ms.optional then vs.head.content else vs.head, ms.mtype);
      }
      MembersCopyable(vs.tail, ms.rest);
    }
  }

  lemma ReleasableCopyable(v: Value, t: Type)
    requires HasType(v, t) && Releasable(t)
    ensures Copyable(v, t)
  {
    if !t.Object? {
      if FlagsOf(t).resources {
        CoveredCopyable(v, t);
      } else {
        UnflaggedCopyIsBitwise(v, t, 0);
      }
    }
  }

  /** Copying a value and releasing the copy returns every block that copying allocated, each once. */
  lemma CopyThenDeinit(v: Value, t: Type, next: nat, r: Resource)
    requires HasType(v, t) && Releasable(t) && r.Block?
    ensures Copyable(v, t)
    ensures var c := Copy(v, t, next);
            HasType(c.value, t) && Deinit(c.value, t, r) == Allocated(r, next, c.next)
  {
    ReleasableCopyable(v, t);
    CopyOwnsFreshBlocks(v, t, next, r);
    DeinitComplete(Copy(v, t, next).value, t);
  }

  // ---- The elements of the owning containers ---------------------------------------------------------------

  /** A struct whose members carry no modifiers. */
  function Record(ts: seq<Type>): Type {
    Struct(MembersOf(ts))
  }

  function MembersOf(ts: seq<Type>): Members {
    if ts == [] then End else Member(ts[0], false, false, None, MembersOf(ts[1..]))
  }

  lemma {:induction false} MembersOfCovered(ts: seq<Type>)
    requires forall t :: t in ts ==> t.Object? || Covered(t)
    ensures CoveredMembers(MembersOf(ts))
    ensures (exists t :: t in ts && (t.Object? || FlagsOf(t).resources)) ==> MemberFlags(MembersOf(ts)).resources
  {
    if ts != [] {
      assert ts[0] in ts;
      MembersOfCovered(ts[1..]);
    }
  }

  lemma RecordReleasable(ts: seq<Type>, t: Type)
    requires t in ts && (t.Object? || FlagsOf(t).resources)
    requires forall t :: t in ts ==> t.Object? || Covered(t)
    ensures Covered(Record(ts)) && FlagsOf(Record(ts)).resources && Releasable(Record(ts))
  {
    MembersOfCovered(ts);
  }

  // `f` and `g` are the flags of classes that are referred to.

  /** corto_parameter: name, type, direction and reference mark. */
  function ParameterMembers(f: Flags): seq<Type> {
    [Text, Object(f), Primitive(W32), Primitive(W8)]
  }

  /** corto_interfaceVector: an interface and its methods. */
  function VectorMembers(f: Flags, g: Flags): seq<Type> {
    [Object(f), Sequence(Object(g))]
  }

  /** corto_query: texts, bounds, the frames of a time window, and marks. */
  function QueryMembers(): seq<Type> {
    var frame := Record([Primitive(W32), Primitive(W64)]);
    [Text, Text, Text, Text, Text, Text, Primitive(W64), Primitive(W64), Primitive(W64), Primitive(W64),
      frame, frame, Primitive(W8), Primitive(W8)]
  }

  /** corto_mountSubscription: a query, counts and contexts. */
  function SubscriptionMembers(): seq<Type> {
    [Record(QueryMembers()), Primitive(W32), Primitive(W32), Primitive(Word), Primitive(Word)]
  }

  /** Deinit gives back everything that elements of parameter and interface vector sequences and of lists of
      mount subscriptions own. */
  lemma ElementsReleasable(f: Flags, g: Flags)
    ensures Releasable(Record(ParameterMembers(f)))
    ensures Releasable(Record(VectorMembers(f, g)))
    ensures Releasable(Record(SubscriptionMembers()))
  {
    hide Record;
    RecordReleasable(ParameterMembers(f), Text);
    assert Object(f) in VectorMembers(f, g) && Covered(Sequence(Object(g)));
    RecordReleasable(VectorMembers(f, g), Object(f));
    QueryReleasable();
    assert Record(QueryMembers()) in SubscriptionMembers();
    RecordReleasable(SubscriptionMembers(), Record(QueryMembers()));
  }

  lemma QueryReleasable()
    ensures Covered(Record(QueryMembers())) && FlagsOf(Record(QueryMembers())).resources
  {
    MembersOfCovered([Primitive(W32), Primitive(W64)]);
    assert Covered(Record([Primitive(W32), Primitive(W64)]));
    hide Record;
    RecordReleasable(QueryMembers(), Text);
  }
}
