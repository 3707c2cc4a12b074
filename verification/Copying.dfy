/** Deep copies (the copy serializer) against bitwise copies. */
module Copying {
  import opened Store
  import opened Types

  /** A copy and the next unused block number. */
  datatype Copied = Copied(value: Value, next: nat)
  datatype CopiedAll = CopiedAll(values: Values, next: nat)

  function Fresh(b: Option<nat>, next: nat): (Option<nat>, nat) {
    if b.Some? then (Some(next), next + 1) else (None, next)
  }

  /** Every any that copying comes to holds a primitive value: for others the serializer provides no storage
      and writes through a NULL pointer, and it looks at the type of an any that holds nothing. */
  predicate Copyable(v: Value, t: Type)
    requires HasType(v, t)
    decreases v
  {
    match t
    case Any => v.held.Some? && (v.held.value.htype.Primitive? || v.held.value.htype.Text?)
    case Array(e, _) => CopyableAll(v.elems, e, false)
    case Sequence(e) => CopyableAll(v.elems, e, false)
    case List(e) => CopyableAll(v.elems, e, RequiresAlloc(e))
    case Struct(ms) => CopyableFields(v.elems, ms)
    case _ => true
  }

  predicate CopyableAll(vs: Values, e: Type, celled: bool)
    requires AllOf(vs, e, celled)
    decreases vs
  {
    vs.Cons? ==> Copyable(if celled then vs.head.content else vs.head, e) && CopyableAll(vs.tail, e, celled)
  }

  predicate CopyableFields(vs: Values, ms: Members)
    requires Fields(vs, ms)
    decreases vs
  {
    ms.Member? ==>
      && (if !ms.optional then Copyable(vs.head, ms.mtype)
          else vs.head.Absent? || Copyable(vs.head.content, ms.mtype))
      && CopyableFields(vs.tail, ms.rest)
  }

  /** Copies a value into zero-filled storage. New blocks are numbered from `next`. An empty sequence gets
      no buffer; maps are not copied at all; the copy of an any always owns its value. */
  function Copy(v: Value, t: Type, next: nat): Copied
    requires HasType(v, t) && Copyable(v, t)
    decreases v
  {
    match t
    case Primitive(_) => Copied(v, next)
    case Text => var (b, n) := Fresh(v.block, next); Copied(Str(b, v.text), n)
    case Any =>
      var h := v.held.value;
      var c := Copy(h.content, h.htype, next + 1);
      Copied(AnyBox(true, Some(Held(next, h.htype, c.value))), c.next)
    case Object(_) => Copied(v, next)
    case Array(e, _) => var c := CopyAll(v.elems, e, false, next); Copied(Inline(c.values), c.next)
    case Sequence(e) =>
      if v.elems.Nil? then Copied(Buffer(None, Nil), next)
      else var c := CopyAll(v.elems, e, false, next + 1); Copied(Buffer(Some(next), c.values), c.next)
    case List(e) =>
      if v.block.None? then Copied(Handle(None, Nil), next)
      else var c := CopyAll(v.elems, e, RequiresAlloc(e), next + 1); Copied(Handle(Some(next), c.values), c.next)
    case Map(_, _) => Copied(Handle(None, Nil), next)
    case Struct(ms) => var c := CopyFields(v.elems, ms, next); Copied(Inline(c.values), c.next)
  }

  function CopyAll(vs: Values, e: Type, celled: bool, next: nat): CopiedAll
    requires AllOf(vs, e, celled) && CopyableAll(vs, e, celled)
    decreases vs
  {
    if vs.Nil? then CopiedAll(Nil, next)
    else
      var h := if celled then CopyCell(vs.head, e, next) else Copy(vs.head, e, next);
      var t := CopyAll(vs.tail, e, celled, h.next);
      CopiedAll(Cons(h.value, t.values), t.next)
  }

  function CopyCell(v: Value, e: Type, next: nat): Copied
    requires v.Cell? && HasType(v.content, e) && Copyable(v.content, e)
    decreases v
  {
    var c := Copy(v.content, e, next + 1);
    Copied(Cell(next, c.value), c.next)
  }

  function CopyFields(vs: Values, ms: Members, next: nat): CopiedAll
    requires Fields(vs, ms) && CopyableFields(vs, ms)
    decreases vs
  {
    if ms.End? then CopiedAll(Nil, next)
    else
      var h :=
        if !ms.optional then Copy(vs.head, ms.mtype, next)
        else if vs.head.Absent? then Copied(Absent, next)
        else CopyCell(vs.head, ms.mtype, next);
      var t := CopyFields(vs.tail, ms.rest, h.next);
      CopiedAll(Cons(h.value, t.values), t.next)
  }

  // ---- The shortcut ----------------------------------------------------------------------------------

  /** A deep copy that is bit for bit the original and allocated nothing. */
  predicate BitwiseFrom(v: Value, t: Type, next: nat)
    requires HasType(v, t) && Copyable(v, t)
  {
    Copy(v, t, next) == Copied(v, next)
  }

  lemma {:induction false} UnflaggedCopyIsBitwise(v: Value, t: Type, next: nat)
    requires HasType(v, t) && !Flagged(t) && !Hidden(t)
    ensures Copyable(v, t) && BitwiseFrom(v, t, next)
    decreases v
  {
    match t
    case Array(e, _) => UnflaggedCopyAll(v.elems, e, next);
    case Struct(ms) => UnflaggedCopyFields(v.elems, ms, next);
    case _ =>
  }

  lemma {:induction false} UnflaggedCopyAll(vs: Values, e: Type, next: nat)
    requires AllOf(vs, e, false) && !Flagged(e) && !Hidden(e)
    ensures CopyableAll(vs, e, false) && CopyAll(vs, e, false, next) == CopiedAll(vs, next)
    decreases vs
  {
    if vs.Cons? {
      UnflaggedCopyIsBitwise(vs.head, e, next);
      UnflaggedCopyAll(vs.tail, e, next);
    }
  }

  lemma {:induction false} UnflaggedCopyFields(vs: Values, ms: Members, next: nat)
    requires Fields(vs, ms) && !MemberFlags(ms).resources && !MemberFlags(ms).references && !HiddenMember(ms)
    ensures CopyableFields(vs, ms) && CopyFields(vs, ms, next) == CopiedAll(vs, next)
    decreases vs
  {
    if ms.Member? {
      UnflaggedCopyIsBitwise(vs.head, ms.mtype, next);
      UnflaggedCopyFields(vs.tail, ms.rest, next);
    }
  }

  /** Copying never gives back block numbers. */
  lemma {:induction false} CopyAdvances(v: Value, t: Type, next: nat)
    requires HasType(v, t) && Copyable(v, t)
    ensures next <= Copy(v, t, next).next
    decreases v
  {
    match t
    case Array(e, _) => CopyAllAdvances(v.elems, e, false, next);
    case Sequence(e) => if v.elems.Cons? { CopyAllAdvances(v.elems, e, false, next + 1); }
    case List(e) => if v.block.Some? { CopyAllAdvances(v.elems, e, RequiresAlloc(e), next + 1); }
    case Struct(ms) => CopyFieldsAdvance(v.elems, ms, next);
    case Any => CopyAdvances(v.held.value.content, v.held.value.htype, next + 1);
    case _ =>
  }

  lemma {:induction false} CopyAllAdvances(vs: Values, e: Type, celled: bool, next: nat)
    requires AllOf(vs, e, celled) && CopyableAll(vs, e, celled)
    ensures next <= CopyAll(vs, e, celled, next).next
    decreases vs
  {
    if vs.Cons? {
      if celled {
        CopyAdvances(vs.head.content, e, next + 1);
        CopyAllAdvances(vs.tail, e, celled, CopyCell(vs.head, e, next).next);
      } else {
        CopyAdvances(vs.head, e, next);
        CopyAllAdvances(vs.tail, e, celled, Copy(vs.head, e, next).next);
      }
    }
  }

  lemma {:induction false} CopyFieldsAdvance(vs: Values, ms: Members, next: nat)
    requires Fields(vs, ms) && CopyableFields(vs, ms)
    ensures next <= CopyFields(vs, ms, next).next
    decreases vs
  {
    if ms.Member? {
      if !ms.optional {
        CopyAdvances(vs.head, ms.mtype, next);
        CopyFieldsAdvance(vs.tail, ms.rest, Copy(vs.head, ms.mtype, next).next);
      } else if vs.head.Absent? {
        CopyFieldsAdvance(vs.tail, ms.rest, next);
      } else {
        CopyAdvances(vs.head.content, ms.mtype, next + 1);
        CopyFieldsAdvance(vs.tail, ms.rest, CopyCell(vs.head, ms.mtype, next).next);
      }
    }
  }

  lemma {:induction false} SampleCopyable(t: Type)
    ensures HasType(Sample(t), t) && Copyable(Sample(t), t)
  {
    SampleTyped(t);
    match t
    case Array(e, max) => SampleCopyable(e); RepeatCopyable(Sample(e), max, e);
    case Sequence(e) => SampleCopyable(e);
    case List(e) => SampleCopyable(e);
    case Struct(ms) => SampleFieldsCopyable(ms);
    case _ =>
  }

  lemma {:induction false} RepeatCopyable(v: Value, n: nat, e: Type)
    requires HasType(v, e) && Copyable(v, e) && AllOf(Repeat(v, n), e, false)
    ensures CopyableAll(Repeat(v, n), e, false)
  {
    if n > 0 {
      RepeatCopyable(v, n - 1, e);
    }
  }

  lemma {:induction false} SampleFieldsCopyable(ms: Members)
    ensures Fields(SampleFields(ms), ms) && CopyableFields(SampleFields(ms), ms)
  {
    SampleFieldsTyped(ms);
    if ms.Member? {
      SampleCopyable(ms.mtype);
      SampleFieldsCopyable(ms.rest);
    }
  }

  /** With hidden storage, copying the sample allocates. */
  lemma {:induction false} HiddenCopyAllocates(t: Type, next: nat)
    requires WellFormed(t) && Hidden(t)
    ensures HasType(Sample(t), t) && Copyable(Sample(t), t) && Copy(Sample(t), t, next).next > next
  {
    SampleCopyable(t);
    match t
    case Array(e, max) =>
      HiddenCopyAllocates(e, next);
      var es := Repeat(Sample(e), max);
      assert es == Cons(Sample(e), Repeat(Sample(e), max - 1));
      CopyAllAdvances(es.tail, e, false, Copy(es.head, e, next).next);
    case Struct(ms) => HiddenFieldsAllocate(ms, next);
    case Any => CopyAdvances(Sample(t).held.value.content, Text, next + 1);
  }

  lemma {:induction false} HiddenFieldsAllocate(ms: Members, next: nat)
    requires WellFormedMembers(ms) && HiddenMember(ms)
    ensures Fields(SampleFields(ms), ms) && CopyableFields(SampleFields(ms), ms)
    ensures CopyFields(SampleFields(ms), ms, next).next > next
  {
    SampleFieldsCopyable(ms);
    var vs := SampleFields(ms);
    assert vs.tail == SampleFields(ms.rest);
    if ms.optional {
      CopyAdvances(vs.head.content, ms.mtype, next + 1);
      CopyFieldsAdvance(vs.tail, ms.rest, CopyCell(vs.head, ms.mtype, next).next);
    } else {
      CopyAdvances(vs.head, ms.mtype, next);
      if Hidden(ms.mtype) {
        HiddenCopyAllocates(ms.mtype, next);
        CopyFieldsAdvance(vs.tail, ms.rest, Copy(vs.head, ms.mtype, next).next);
      } else {
        HiddenFieldsAllocate(ms.rest, Copy(vs.head, ms.mtype, next).next);
      }
    }
  }

  /** The promise behind the flags: where neither flag is set, copying can be reduced to a memcopy. It holds
      for a type exactly when no any and no optional member is stored in place in it; then a value also
      owns nothing. */
  lemma ShallowCopySound(t: Type)
    requires WellFormed(t) && !Flagged(t)
    ensures (forall v, next | HasType(v, t) && Copyable(v, t) :: BitwiseFrom(v, t, next)) <==> !Hidden(t)
    ensures (forall v, r | HasType(v, t) :: Owned(v, r) == 0) <==> !Hidden(t)
  {
    if Hidden(t) {
      HiddenCopyAllocates(t, 0);
      SampleOwns(t);
      var v := Sample(t);
      assert !BitwiseFrom(v, t, 0);
      assert Owned(v, Block(0)) != 0 || Owned(v, Claim(1)) != 0;
    } else {
      forall v, next | HasType(v, t) && Copyable(v, t) ensures BitwiseFrom(v, t, next) {
        UnflaggedCopyIsBitwise(v, t, next);
      }
      forall v, r | HasType(v, t) ensures Owned(v, r) == 0 {
        UnflaggedOwnsNothing(v, t, r);
      }
    }
  }

  // ---- The full operation ------------------------------------------------------------------------------

  predicate MapFree(t: Type) {
    match t
    case Array(e, _) => MapFree(e)
    case Sequence(e) => MapFree(e)
    case List(e) => MapFree(e)
    case Map(_, _) => false
    case Struct(ms) => MapFreeMembers(ms)
    case _ => true
  }

  predicate MapFreeMembers(ms: Members) {
    ms.Member? ==> MapFree(ms.mtype) && MapFreeMembers(ms.rest)
  }

  /** A copy of a value: equal but for where things are stored, for who owns the value of an any, and for the
      buffer of a sequence, which a copy has only if there are elements. */
  predicate Alike(v: Value, w: Value) {
    match v
    case Str(b, text) => w.Str? && w.text == text && (w.block.Some? <==> b.Some?)
    case AnyBox(_, h) =>
      && w.AnyBox? && w.owner && (w.held.Some? <==> h.Some?)
      && (h.Some? ==> w.held.value.htype == h.value.htype && Alike(h.value.content, w.held.value.content))
    case Inline(es) => w.Inline? && AllAlike(es, w.elems)
    case Buffer(_, es) => w.Buffer? && (w.block.Some? <==> es.Cons?) && AllAlike(es, w.elems)
    case Handle(b, es) => w.Handle? && (w.block.Some? <==> b.Some?) && AllAlike(es, w.elems)
    case Cell(_, x) => w.Cell? && Alike(x, w.content)
    case _ => v == w
  }

  predicate AllAlike(vs: Values, ws: Values) {
    if vs.Nil? then ws.Nil? else ws.Cons? && Alike(vs.head, ws.head) && AllAlike(vs.tail, ws.tail)
  }

  /** A block is in the range of those allocated. */
  function Allocated(r: Resource, from: nat, to: nat): nat {
    if r.Block? && from <= r.id < to then 1 else 0
  }

  /** What a copy owns of `r`: a block exactly if copying allocated it; a claim as often as the original,
      unless maps dropped out. */
  predicate OwnsAsCopy(original: nat, copy: nat, exact: bool, r: Resource, from: nat, to: nat) {
    if r.Block? then copy == Allocated(r, from, to) else exact ==> copy == original
  }

  /** A deep copy is a value of the type; it owns exactly the blocks that copying allocated, each once, so
      it shares nothing with the original; and unless maps drop out it equals the original but for the
      storage, with the same counted pointers. */
  lemma {:induction false} CopyOwnsFreshBlocks(v: Value, t: Type, next: nat, r: Resource)
    requires HasType(v, t) && Copyable(v, t)
    ensures var c := Copy(v, t, next);
            && next <= c.next && HasType(c.value, t)
            && OwnsAsCopy(Owned(v, r), Owned(c.value, r), MapFree(t), r, next, c.next)
            && (MapFree(t) ==> Alike(v, c.value))
    decreases v
  {
    hide CopyAll, CopyFields, CopyableAll, CopyableFields, Fields, MapFreeMembers;
    match t
    case Array(e, _) => CopyAllOwnsFreshBlocks(v.elems, e, false, next, r);
    case Sequence(e) =>
      if v.elems.Cons? {
        CopyAllOwnsFreshBlocks(v.elems, e, false, next + 1, r);
      }
    case List(e) =>
      if v.block.Some? {
        CopyAllOwnsFreshBlocks(v.elems, e, RequiresAlloc(e), next + 1, r);
      }
    case Struct(ms) => CopyFieldsOwnFreshBlocks(v.elems, ms, next, r);
    case Any => CopyOwnsFreshBlocks(v.held.value.content, v.held.value.htype, next + 1, r);
    case _ =>
  }

  /** The block around an element or optional member is copied with its content. */
  lemma {:induction false} CopyCellOwnsFreshBlocks(v: Value, e: Type, next: nat, r: Resource)
    requires v.Cell? && HasType(v.content, e) && Copyable(v.content, e)
    ensures var c := CopyCell(v, e, next);
            && next <= c.next && c.value.Cell? && HasType(c.value.content, e)
            && OwnsAsCopy(Owned(v, r), Owned(c.value, r), MapFree(e), r, next, c.next)
            && (MapFree(e) ==> Alike(v, c.value))
    decreases v
  {
    CopyOwnsFreshBlocks(v.content, e, next + 1, r);
    hide Copy, Copyable, MapFree, HasType;
  }

  lemma {:induction false} CopyAllOwnsFreshBlocks(vs: Values, e: Type, celled: bool, next: nat, r: Resource)
    requires AllOf(vs, e, celled) && CopyableAll(vs, e, celled)
    ensures var c := CopyAll(vs, e, celled, next);
            && next <= c.next && AllOf(c.values, e, celled) && Length(c.values) == Length(vs)
            && OwnsAsCopy(OwnedAll(vs, r), OwnedAll(c.values, r), MapFree(e), r, next, c.next)
            && (MapFree(e) ==> AllAlike(vs, c.values))
    decreases vs
  {
    if vs.Cons? {
      hide Copy, CopyCell, Copyable, MapFree, Owned, HasType, Alike;
      if celled {
        CopyCellOwnsFreshBlocks(vs.head, e, next, r);
        CopyAllOwnsFreshBlocks(vs.tail, e, celled, CopyCell(vs.head, e, next).next, r);
      } else {
        CopyOwnsFreshBlocks(vs.head, e, next, r);
        CopyAllOwnsFreshBlocks(vs.tail, e, celled, Copy(vs.head, e, next).next, r);
      }
    }
  }

  lemma {:induction false} CopyFieldsOwnFreshBlocks(vs: Values, ms: Members, next: nat, r: Resource)
    requires Fields(vs, ms) && CopyableFields(vs, ms)
    ensures var c := CopyFields(vs, ms, next);
            && next <= c.next && Fields(c.values, ms)
            && OwnsAsCopy(OwnedAll(vs, r), OwnedAll(c.values, r), MapFreeMembers(ms), r, next, c.next)
            && (MapFreeMembers(ms) ==> AllAlike(vs, c.values))
    decreases vs
  {
    if ms.Member? {
      hide Copy, CopyCell, Copyable, MapFree, Owned, HasType, Alike;
      if !ms.optional {
        CopyOwnsFreshBlocks(vs.head, ms.mtype, next, r);
        CopyFieldsOwnFreshBlocks(vs.tail, ms.rest, Copy(vs.head, ms.mtype, next).next, r);
      } else if vs.head.Absent? {
        CopyFieldsOwnFreshBlocks(vs.tail, ms.rest, next, r);
      } else {
        CopyCellOwnsFreshBlocks(vs.head, ms.mtype, next, r);
        CopyFieldsOwnFreshBlocks(vs.tail, ms.rest, CopyCell(vs.head, ms.mtype, next).next, r);
      }
    }
  }

  /** No map that copying comes to is in the copy. */
  predicate MapsDropped(w: Value, t: Type)
    requires HasType(w, t)
    decreases w
  {
    match t
    case Array(e, _) => AllMapsDropped(w.elems, e, false)
    case Sequence(e) => AllMapsDropped(w.elems, e, false)
    case List(e) => AllMapsDropped(w.elems, e, RequiresAlloc(e))
    case Map(_, _) => w == Handle(None, Nil)
    case Struct(ms) => MemberMapsDropped(w.elems, ms)
    case _ => true
  }

  predicate AllMapsDropped(ws: Values, e: Type, celled: bool)
    requires AllOf(ws, e, celled)
    decreases ws
  {
    ws.Cons? ==> MapsDropped(if celled then ws.head.content else ws.head, e) && AllMapsDropped(ws.tail, e, celled)
  }

  predicate MemberMapsDropped(ws: Values, ms: Members)
    requires Fields(ws, ms)
    decreases ws
  {
    ms.Member? ==>
      && (if !ms.optional then MapsDropped(ws.head, ms.mtype)
          else ws.head.Absent? || MapsDropped(ws.head.content, ms.mtype))
      && MemberMapsDropped(ws.tail, ms.rest)
  }

  /** Copying leaves out maps, wherever they are. */
  lemma {:induction false} CopyDropsMaps(v: Value, t: Type, next: nat)
    requires HasType(v, t) && Copyable(v, t)
    ensures var w := Copy(v, t, next).value; HasType(w, t) && MapsDropped(w, t)
    decreases v
  {
    hide Owned, Alike, MapFree, CopyAll, CopyFields, CopyableAll, CopyableFields, Fields;
    CopyOwnsFreshBlocks(v, t, next, Block(0));
    match t
    case Array(e, _) => CopyAllDropsMaps(v.elems, e, false, next);
    case Sequence(e) => if v.elems.Cons? { CopyAllDropsMaps(v.elems, e, false, next + 1); }
    case List(e) => if v.block.Some? { CopyAllDropsMaps(v.elems, e, RequiresAlloc(e), next + 1); }
    case Struct(ms) => CopyFieldsDropMaps(v.elems, ms, next);
    case _ =>
  }

  lemma {:induction false} CopyAllDropsMaps(vs: Values, e: Type, celled: bool, next: nat)
    requires AllOf(vs, e, celled) && CopyableAll(vs, e, celled)
    ensures var ws := CopyAll(vs, e, celled, next).values; AllOf(ws, e, celled) && AllMapsDropped(ws, e, celled)
    decreases vs
  {
    if vs.Cons? {
      if celled {
        CopyDropsMaps(vs.head.content, e, next + 1);
        CopyAllDropsMaps(vs.tail, e, celled, CopyCell(vs.head, e, next).next);
      } else {
        CopyDropsMaps(vs.head, e, next);
        CopyAllDropsMaps(vs.tail, e, celled, Copy(vs.head, e, next).next);
      }
    }
  }

  lemma {:induction false} CopyFieldsDropMaps(vs: Values, ms: Members, next: nat)
    requires Fields(vs, ms) && CopyableFields(vs, ms)
    ensures var ws := CopyFields(vs, ms, next).values; Fields(ws, ms) && MemberMapsDropped(ws, ms)
    decreases vs
  {
    if ms.Member? {
      if !ms.optional {
        CopyDropsMaps(vs.head, ms.mtype, next);
        CopyFieldsDropMaps(vs.tail, ms.rest, Copy(vs.head, ms.mtype, next).next);
      } else if vs.head.Absent? {
        CopyFieldsDropMaps(vs.tail, ms.rest, next);
      } else {
        CopyDropsMaps(vs.head.content, ms.mtype, next + 1);
        CopyFieldsDropMaps(vs.tail, ms.rest, CopyCell(vs.head, ms.mtype, next).next);
      }
    }
  }
}
