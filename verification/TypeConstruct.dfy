/** Type objects and the construct functions of collections, structs and classes that fill in their flags,
    size and alignment. Each is proved against the description of the type it builds, so a type nested from
    successfully constructed types has exactly the flags the laws about copying and releasing are stated for. */
module TypeConstruct {
  import opened Layout
  import opened Sizes
  import opened Store
  import opened Types

  function WidthSize(w: Width): nat {
    match w
    case W8 => 1
    case W16 => 2
    case W32 => 4
    case W64 => 8
    case Word => 8
  }

  /** corto_type_sizeof; 0 marks a type that cannot be stored. */
  function SizeOf(t: Type): nat {
    match t
    case Primitive(w) => WidthSize(w)
    case Text => ADDRESS_SIZE
    case Any => ANY_SIZE
    case Object(_) => ADDRESS_SIZE
    case Array(e, max) => Wrap(SizeOf(e) * max)
    case Sequence(_) => SEQUENCE_SIZE
    case List(_) => ADDRESS_SIZE
    case Map(_, _) => ADDRESS_SIZE
    case Struct(ms) =>
      var infos := Infos(ms);
      if Sizable(infos) && Widest(infos) > 0 then Wrap(Align(EndOffset(infos, 0, |infos|), Widest(infos))) else 0
  }

  /** corto_type_alignmentof. */
  function AlignmentOf(t: Type): nat {
    match t
    case Primitive(w) => WidthSize(w)
    case Array(e, _) => AlignmentOf(e)
    case Struct(ms) => Widest(Infos(ms))
    case _ => ADDRESS_SIZE
  }

  function Infos(ms: Members): (r: seq<MemberInfo>) {
    if ms.End? then []
    else [MemberInfo(SizeOf(ms.mtype), AlignmentOf(ms.mtype), ms.optional)] + Infos(ms.rest)
  }

  function Widest(ms: seq<MemberInfo>): nat {
    if ms == [] then 0
    else
      var rest := Widest(ms[1..]);
      if SlotAlignment(ms[0]) > rest then SlotAlignment(ms[0]) else rest
  }

  /** What an array takes over from its elements. */
  lemma ArrayDescription(e: Type, max: nat)
    ensures FlagsOf(Array(e, max)) ==
            Flags(FlagsOf(e).resources, FlagsOf(e).references || e.Object?, FlagsOf(e).needsInit)
    ensures SizeOf(Array(e, max)) == Wrap(SizeOf(e) * max) && AlignmentOf(Array(e, max)) == AlignmentOf(e)
  {
  }

  // ---- Structs: their description ------------------------------------------------------------------------

  function Or(a: Flags, b: Flags): Flags {
    Flags(a.resources || b.resources, a.references || b.references, a.needsInit || b.needsInit)
  }

  /** The members of a struct in storage: a base comes first, as a struct of its own; an empty struct gets a
      dummy member. */
  function Whole(base: Option<Type>, ms: Members): Members {
    if base.Some? then Member(base.value, false, false, None, ms)
    else if ms.End? then Member(Primitive(W8), false, false, None, End)
    else ms
  }

  /** If the struct can be laid out at all, its size fits 32 bits. */
  ghost predicate SizeFits(ms: Members) {
    var infos := Infos(ms);
    Sizable(infos) && Widest(infos) > 0 ==> Align(EndOffset(infos, 0, |infos|), Widest(infos)) < U32
  }

  lemma {:induction false} WidestMeaning(ms: seq<MemberInfo>, a: nat)
    requires forall i :: 0 <= i < |ms| ==> SlotAlignment(ms[i]) <= a
    requires exists i :: 0 <= i < |ms| && SlotAlignment(ms[i]) == a
    ensures Widest(ms) == a
  {
    WidestBounds(ms);
    var i :| 0 <= i < |ms| && SlotAlignment(ms[i]) == a;
    assert SlotAlignment(ms[i]) <= Widest(ms);
  }

  lemma {:induction false} WidestBounds(ms: seq<MemberInfo>)
    ensures forall i :: 0 <= i < |ms| ==> SlotAlignment(ms[i]) <= Widest(ms)
    ensures ms != [] ==> exists i :: 0 <= i < |ms| && SlotAlignment(ms[i]) == Widest(ms)
  {
    if ms != [] {
      var rest := ms[1..];
      WidestBounds(rest);
      assert forall i :: 0 < i < |ms| ==> ms[i] == rest[i - 1];
      assert rest == [] ==> Widest(rest) == 0;
      if Widest(ms) != SlotAlignment(ms[0]) {
        var i :| 0 <= i < |rest| && SlotAlignment(rest[i]) == Widest(rest);
        assert SlotAlignment(ms[i + 1]) == Widest(ms);
      }
    }
  }

  /** Laying members out behind a base is laying them out behind a first member like it. */
  lemma {:induction false} EndWithBase(b: MemberInfo, own: seq<MemberInfo>, n: nat)
    requires b.size > 0 && b.alignment > 0 && !b.byPointer && Sizable(own) && n <= |own|
    ensures Sizable([b] + own)
    ensures EndOffset([b] + own, 0, n + 1) == EndOffset(own, b.size, n)
  {
    var all := [b] + own;
    assert Sizable(all) by {
      assert forall i :: 0 < i < |all| ==> all[i] == own[i - 1];
    }
    if n == 0 {
      AlignMeaning(0, b.alignment);
      SmallestMultiples(Align(0, b.alignment) / b.alignment, b.alignment);
      assert Offset(all, 0, 0) == 0;
    } else {
      EndWithBase(b, own, n - 1);
      assert all[n] == own[n - 1];
    }
  }

  /** The alignments that occur. */
  predicate Natural(a: nat) {
    a == 1 || a == 2 || a == 4 || a == 8
  }

  lemma {:induction false} AlignmentsNatural(t: Type)
    ensures AlignmentOf(t) == 0 || Natural(AlignmentOf(t))
  {
    match t
    case Array(e, _) => AlignmentsNatural(e);
    case Struct(ms) => WidestNatural(ms);
    case _ =>
  }

  lemma {:induction false} WidestNatural(ms: Members)
    ensures Widest(Infos(ms)) == 0 || Natural(Widest(Infos(ms)))
  {
    if ms.Member? {
      AlignmentsNatural(ms.mtype);
      WidestNatural(ms.rest);
      assert Infos(ms)[1..] == Infos(ms.rest);
    }
  }

  lemma WrapKeepsMultiple(n: nat, a: nat)
    requires Natural(a) && n % a == 0
    ensures Wrap(n) % a == 0
  {
  }

  /** The size of a struct is a multiple of its alignment, also if it wrapped. */
  lemma StructSizeMultiple(ms: Members)
    requires AlignmentOf(Struct(ms)) > 0
    ensures SizeOf(Struct(ms)) % AlignmentOf(Struct(ms)) == 0
  {
    WidestNatural(ms);
    var infos := Infos(ms);
    if Sizable(infos) {
      AlignMeaning(EndOffset(infos, 0, |infos|), Widest(infos));
      WrapKeepsMultiple(Align(EndOffset(infos, 0, |infos|), Widest(infos)), Widest(infos));
    }
  }

  lemma AlignedStays(n: nat, a: nat)
    requires a > 0 && n % a == 0
    ensures Align(n, a) == n
  {
    ModUnique(n / a, a - 1, a);
  }

  /** Size and alignment of a struct with a base, from those of the base and the own members. */
  lemma WithBase(base: Type, ms: Members)
    requires base.Struct? && SizeOf(base) > 0
    ensures var own := Infos(ms);
            var t := Struct(Whole(Some(base), ms));
            && AlignmentOf(base) > 0
            && AlignmentOf(t) == (if AlignmentOf(base) > Widest(own) then AlignmentOf(base) else Widest(own))
            && |Infos(t.members)| == |own| + 1
            && (Sizable(own) <==> Sizable(Infos(t.members)))
            && (Sizable(own) ==> EndOffset(Infos(t.members), 0, |own| + 1) == EndOffset(own, SizeOf(base), |own|))
            && (ms.End? ==> Align(SizeOf(base), AlignmentOf(base)) == SizeOf(base))
  {
    hide SizeOf, Align, EndOffset, Infos, Widest, Sizable;
    assert base == Struct(base.members);
    SizedAligned(base.members);
    StructSizeMultiple(base.members);
    AlignedStays(SizeOf(base), AlignmentOf(base));
    var all := Whole(Some(base), ms);
    NextInfo(all);
    assert AlignmentOf(Struct(all)) == Widest(Infos(all));
    hide AlignmentOf;
    BaseInFront(MemberInfo(SizeOf(base), AlignmentOf(base), false), Infos(ms));
  }

  lemma SizedAligned(ms: Members)
    requires SizeOf(Struct(ms)) > 0
    ensures AlignmentOf(Struct(ms)) > 0
  {
  }

  lemma BaseInFront(b: MemberInfo, own: seq<MemberInfo>)
    requires b.size > 0 && b.alignment > 0 && !b.byPointer
    ensures var all := [b] + own;
            && (Sizable(own) <==> Sizable(all))
            && (Sizable(own) ==> EndOffset(all, 0, |own| + 1) == EndOffset(own, b.size, |own|))
            && Widest(all) == if b.alignment > Widest(own) then b.alignment else Widest(own)
  {
    hide EndOffset;
    var all := [b] + own;
    assert all[1..] == own;
    if Sizable(own) {
      EndWithBase(b, own, |own|);
    } else {
      assert forall i :: 0 <= i < |own| ==> all[i + 1] == own[i];
    }
  }

  /** What the layout reads of the own members, the dummy included. */
  function OwnInfos(base: Option<Type>, ms: Members): seq<MemberInfo> {
    if base.None? && ms.End? then [MemberInfo(1, 1, false)] else Infos(ms)
  }

  function BaseSize(base: Option<Type>): nat {
    if base.Some? then SizeOf(base.value) else 0
  }

  function BaseAlignment(base: Option<Type>): nat {
    if base.Some? then AlignmentOf(base.value) else 0
  }

  lemma WholeLayout(base: Option<Type>, ms: Members)
    requires base.Some? ==> base.value.Struct? && SizeOf(base.value) > 0
    ensures var own, all := OwnInfos(base, ms), Infos(Whole(base, ms));
            && (Sizable(own) <==> Sizable(all))
            && (Sizable(own) ==> EndOffset(all, 0, |all|) == EndOffset(own, BaseSize(base), |own|))
            && Widest(all) == (if BaseAlignment(base) > Widest(own) then BaseAlignment(base) else Widest(own))
            && (own == [] ==> BaseAlignment(base) > 0 && Align(BaseSize(base), BaseAlignment(base)) == BaseSize(base))
  {
    var all := Infos(Whole(base, ms));
    if base.Some? {
      WithBase(base.value, ms);
      assert |all| == |Infos(ms)| + 1;
    } else if ms.End? {
      assert all == OwnInfos(base, ms);
    }
  }

  lemma WholeFlags(base: Option<Type>, ms: Members)
    requires base.Some? ==> base.value.Struct?
    ensures MemberFlags(Whole(base, ms)) ==
            Or(MemberFlags(ms), if base.Some? then FlagsOf(base.value) else NO_FLAGS)
  {
  }

  /** The size of the whole struct, from what its construction computes. */
  lemma WholeSize(base: Option<Type>, ms: Members)
    requires base.Some? ==> base.value.Struct? && SizeOf(base.value) > 0
    requires SizeFits(Whole(base, ms))
    ensures var own := OwnInfos(base, ms);
            var widest := AlignmentOf(Struct(Whole(base, ms)));
            && (Sizable(own) && widest > 0 ==>
                  && Align(EndOffset(own, BaseSize(base), |own|), widest) < U32
                  && SizeOf(Struct(Whole(base, ms))) == Align(EndOffset(own, BaseSize(base), |own|), widest))
            && (!Sizable(own) || widest == 0 ==> SizeOf(Struct(Whole(base, ms))) == 0)
  {
    WholeLayout(base, ms);
  }

  /** Calculated alignments: zero only where no layout exists, and otherwise the widest. */
  method WidestAlignment(infos: seq<MemberInfo>) returns (widest: nat)
    requires infos != []
    ensures if widest == 0 then !Sizable(infos) else widest == Widest(infos)
  {
    widest := CalculateAlignment(infos);
    if widest > 0 {
      WidestMeaning(infos, widest);
    }
  }

  /** A member of a struct object: its type object and what decides about flags and layout. */
  datatype MemberRef = MemberRef(mtype: TypeObject?, optional: bool, notNull: bool, hasDefault: bool)

  predicate Typed(members: seq<MemberRef>) {
    forall i :: 0 <= i < |members| ==> members[i].mtype != null
  }

  /** A member object is as the first of the members described. Of a reference type only that it is one
      matters, so a class may have members of its own type; all other member types are among `types`. */
  ghost predicate MemberDescribed(m: MemberRef, ms: Members, types: set<TypeObject>)
    reads types
  {
    && ms.Member? && m.mtype != null
    && m.optional == ms.optional && m.notNull == ms.notNull && m.hasDefault == ms.initial.Some?
    && (if m.mtype.reference then ms.mtype.Object? else m.mtype in types && m.mtype.Describes(ms.mtype))
  }

  ghost predicate MembersDescribed(members: seq<MemberRef>, ms: Members, types: set<TypeObject>)
    reads types
  {
    if members == [] then ms.End?
    else MemberDescribed(members[0], ms, types) && MembersDescribed(members[1..], ms.rest, types)
  }

  lemma MemberKind(m: MemberRef, ms: Members, types: set<TypeObject>)
    ensures MemberDescribed(m, ms, types) ==> ms.Member?
  {
  }

  /** Elements that lists and maps keep in place of a pointer are no wider than one; every type that is kept
      elsewhere is a 64-bit primitive or could be wider. */
  lemma DirectElementsFit(t: Type)
    ensures !RequiresAlloc(t) ==> SizeOf(t) <= ADDRESS_SIZE
    ensures RequiresAlloc(t) <==> t == Primitive(W64) || t.Any? || t.Array? || t.Sequence? || t.Struct?
  {
  }

  class TypeObject {
    const reference: bool
    const composite: bool
    var valid: bool
    var flags: Flags
    var size: nat
    var alignment: nat

    // Fields of collections; `ownElement` and `ownMax` are the fields arrays and maps declare themselves.
    var elementType: TypeObject?
    var ownElement: TypeObject?
    var max: nat
    var ownMax: nat

    constructor (reference: bool, composite: bool)
      ensures this.reference == reference && this.composite == composite && !valid && flags == NO_FLAGS && size == 0 && alignment == 0
      ensures elementType == null && ownElement == null && max == 0 && ownMax == 0
    {
      this.reference, this.composite := reference, composite;
      valid, flags, size, alignment := false, NO_FLAGS, 0, 0;
      elementType, ownElement, max, ownMax := null, null, 0, 0;
    }

    function Sizeof(): nat
      reads this
    {
      if reference then ADDRESS_SIZE else size
    }

    function Alignmentof(): nat
      reads this
    {
      if reference then ADDRESS_SIZE else alignment
    }

    /** The object carries what the description asks for. */
    ghost predicate Describes(t: Type)
      reads this
    {
      && (reference <==> t.Object?)
      && (!reference ==> (composite <==> t.Struct?))
      && flags == FlagsOf(t)
      && Sizeof() == SizeOf(t)
      && Alignmentof() == AlignmentOf(t)
    }

    /** What struct construction determines, of structs and of the objects of classes alike. */
    ghost predicate LaidOut(t: Type)
      reads this
    {
      flags == FlagsOf(t) && size == SizeOf(t) && alignment == AlignmentOf(t)
    }

    /** The element type an array or map ends up with: the collection's if it is set, else its own. */
    function Element(): TypeObject?
      reads this
    {
      if elementType != null then elementType else ownElement
    }

    /** The reference flag: inherited, or set because the elements are references. */
    method InheritReferences(e: TypeObject)
      modifies this`flags
      ensures flags == old(flags).(references := old(flags.references || e.flags.references || e.reference))
    {
      if e.flags.references || e.reference {
        flags := flags.(references := true);
      }
    }

    /** corto_primitive_construct. A text is a primitive of the width of a word, marked when it is initialised. */
    method PrimitiveConstruct(width: Width, text: bool)
      requires !reference && !composite && flags == NO_FLAGS && (text ==> width == Word)
      modifies this
      ensures Describes(if text then Text else Primitive(width))
    {
      if text {
        flags := flags.(resources := true);
      }
      match width {
        case W8 => size := 1; alignment := 1;
        case W16 => size := 2; alignment := 2;
        case W32 => size := 4; alignment := 4;
        case W64 => size := 8; alignment := 8;
        case Word => size := ADDRESS_SIZE; alignment := ADDRESS_SIZE;
      }
    }

    /** corto_type_construct, as far as it sizes anys: a type, an address and an owner mark. */
    method AnyConstruct()
      requires !reference && !composite && flags == NO_FLAGS
      modifies this
      ensures Describes(Any)
    {
      size := 8 + 8 + 8;
      alignment := 8;
      flags := flags.(needsInit := true);
    }

    method ArrayConstruct(ghost e: Type) returns (ok: bool)
      requires !reference && !composite && flags == NO_FLAGS && elementType != this && ownElement != this
      requires Element() != null ==> Element().Describes(e)
      modifies this
      ensures ok <==> old(Element()) != null && old(Element().valid || Element().reference) && SizeOf(e) != 0 && max != 0
      ensures ok ==> Describes(Array(e, max))
      ensures max == old(max)
      ensures old(Element()) != null ==> elementType == old(Element())
      ensures ok ==> elementType != null && ownElement == if old(ownElement) != null then old(ownElement) else elementType
    {
      ArrayDescription(e, max);
      hide FlagsOf, SizeOf, AlignmentOf;
      if ownElement != null {
        if elementType == null {
          elementType := ownElement;
        }
      } else if elementType != null {
        ownElement := elementType;
      } else {
        return false;
      }
      if !elementType.valid {
        if !elementType.reference {
          return false;
        }
      }
      var element := elementType;
      var elementTypeSize := element.Sizeof();
      if elementTypeSize != 0 {
        if max != 0 {
          size := Wrap(elementTypeSize * max);
          alignment := element.Alignmentof();
        } else {
          return false;
        }
      } else {
        return false;
      }
      if element.flags.resources {
        flags := flags.(resources := true);
      }
      InheritReferences(element);
      if element.flags.needsInit {
        flags := flags.(needsInit := true);
      }
      return true;
    }

    method SequenceConstruct(ghost e: Type) returns (ok: bool)
      requires !reference && !composite && flags == NO_FLAGS && elementType != this
      requires elementType != null ==> elementType.Describes(e)
      modifies this
      ensures ok <==> old(elementType) != null
      ensures ok ==> Describes(Sequence(e))
    {
      if elementType == null {
        return false;
      }
      flags := flags.(resources := true);
      size := SEQUENCE_SIZE;
      alignment := ADDRESS_SIZE;
      InheritReferences(elementType);
      return true;
    }

    method ListConstruct(ghost e: Type) returns (ok: bool)
      requires !reference && !composite && flags == NO_FLAGS && elementType != this
      requires elementType != null ==> elementType.Describes(e)
      modifies this
      ensures ok <==> old(elementType) != null
      ensures ok ==> Describes(List(e))
    {
      flags := flags.(resources := true);
      flags := flags.(needsInit := true);
      size := ADDRESS_SIZE;
      alignment := ADDRESS_SIZE;
      if elementType == null {
        return false;
      }
      InheritReferences(elementType);
      return true;
    }

    /** Also mirrors the map's own element type and bound into its collection part. */
    method MapConstruct(ghost e: Type, ghost keyed: bool) returns (ok: bool)
      requires !reference && !composite && flags == NO_FLAGS && ownElement != this
      requires ownElement != null ==> ownElement.Describes(e)
      modifies this
      ensures ok <==> old(ownElement) != null
      ensures ok ==> Describes(Map(e, keyed)) && elementType == old(ownElement) && max == ownMax == old(ownMax)
    {
      flags := flags.(resources := true);
      flags := flags.(needsInit := true);
      size := ADDRESS_SIZE;
      alignment := ADDRESS_SIZE;
      if ownElement == null {
        return false;
      }
      InheritReferences(ownElement);
      elementType := ownElement;
      max := ownMax;
      return true;
    }

    method OrFlags(resources: bool, references: bool, needsInit: bool)
      modifies this`flags
      ensures flags == Or(old(flags), Flags(resources, references, needsInit))
    {
      if resources {
        flags := flags.(resources := true);
      }
      if references {
        flags := flags.(references := true);
      }
      if needsInit {
        flags := flags.(needsInit := true);
      }
    }

    /** The flag part of corto_interface_insertMemberAction, and what the layout reads of the member later. */
    method InsertMember(m: MemberRef, ghost ms: Members, ghost types: set<TypeObject>) returns (info: MemberInfo)
      requires this !in types && m.mtype != null
      modifies this`flags
      ensures MemberDescribed(m, ms, types) ==>
                && Or(flags, MemberFlags(ms.rest)) == Or(old(flags), MemberFlags(ms))
                && Infos(ms) == [info] + Infos(ms.rest)
    {
      hide FlagsOf, SizeOf, AlignmentOf, Infos;
      ghost var before := flags;
      var t := m.mtype;
      var inFlags := t.flags;
      OrFlags(
        inFlags.resources || t.reference, inFlags.references || t.reference,
        (!t.reference && inFlags.needsInit && (m.notNull || t.composite)) || m.hasDefault);
      info := MemberInfo(t.Sizeof(), t.Alignmentof(), m.optional);
      if MemberDescribed(m, ms, types) {
        NextMember(before, inFlags, m, ms);
        NextInfo(ms);
      }
    }

    /** The members in order, up to the first without a type. */
    method InsertMembers(members: seq<MemberRef>, ghost ms: Members, ghost types: set<TypeObject>)
      returns (ok: bool, infos: seq<MemberInfo>)
      requires this !in types && (Typed(members) ==> MembersDescribed(members, ms, types))
      modifies this`flags
      ensures ok <==> Typed(members)
      ensures ok ==> flags == Or(old(flags), MemberFlags(ms)) && infos == Infos(ms)
    {
      infos := [];
      ok := true;
      var i := 0;
      ghost var left := ms;
      assert members[0..] == members;
      hide MemberDescribed, MemberFlags, Infos;
      while i < |members|
        invariant i <= |members| && Typed(members[..i])
        invariant Typed(members) ==> MembersDescribed(members[i..], left, types)
        invariant Typed(members) ==> Or(flags, MemberFlags(left)) == Or(old(flags), MemberFlags(ms))
        invariant Typed(members) ==> infos + Infos(left) == Infos(ms)
      {
        var m := members[i];
        if m.mtype == null {
          return false, infos;
        }
        assert members[i..][0] == m && members[i..][1..] == members[i + 1..];
        MemberKind(m, left, types);
        var info := InsertMember(m, left, types);
        infos := infos + [info];
        left := if left.Member? then left.rest else left;
        i := i + 1;
      }
      assert members[..i] == members && members[i..] == [];
      NothingLeft();
    }

    /** corto_struct_construct up to keys and methods, for structs and classes. The base is a constructed struct
        or class of the same layout rules. */
    method StructConstruct(
      base: TypeObject?, members: seq<MemberRef>, ghost described: Option<Type>, ghost ms: Members,
      ghost types: set<TypeObject>)
      returns (ok: bool)
      requires composite && flags == NO_FLAGS && this !in types && base != this
      requires base == null <==> described.None?
      requires base != null ==> described.value.Struct? && base.LaidOut(described.value) && SizeOf(described.value) > 0
      requires Typed(members) ==> MembersDescribed(members, ms, types)
      modifies this
      ensures SizeFits(Whole(described, ms)) ==>
                (ok <==> Typed(members) && (base == null || base.valid) && SizeOf(Struct(Whole(described, ms))) > 0)
      ensures ok && SizeFits(Whole(described, ms)) ==> LaidOut(Struct(Whole(described, ms)))
      ensures ok && SizeFits(Whole(described, ms)) && !reference ==> Describes(Struct(Whole(described, ms)))
    {
      hide FlagsOf, SizeOf, AlignmentOf, Infos, Widest, EndOffset, Align, SizeFits, MembersDescribed;
      var inserted, infos := InsertMembers(members, ms, types);
      if !inserted {
        return false;
      }
      NoMembers(members, ms, types);
      WholeLayout(described, ms);
      WholeFlags(described, ms);
      WholeParts(described, ms);
      if members == [] && base == null {
        // The dummy member, an int8, leaves the flags as they are.
        infos := [MemberInfo(1, 1, false)];
      }
      if SizeFits(Whole(described, ms)) {
        WholeSize(described, ms);
      }
      var widest := 0;
      if |infos| > 0 {
        widest := WidestAlignment(infos);
        if widest == 0 {
          return false;
        }
      }
      if base != null {
        if !base.valid {
          return false;
        }
        if base.alignment > widest {
          widest := base.alignment;
        }
      }
      alignment := widest;
      var total := 0;
      if base != null {
        total := base.size;
        OrFlags(base.flags.resources, base.flags.references, base.flags.needsInit);
      }
      if |infos| > 0 {
        var offsets;
        total, offsets := CalculateSize(infos, total, alignment);
        if total == 0 {
          return false;
        }
      }
      size := total;
      return true;
    }
  }

  lemma NoMembers(members: seq<MemberRef>, ms: Members, types: set<TypeObject>)
    requires MembersDescribed(members, ms, types)
    ensures members == [] <==> ms.End?
    ensures Infos(ms) == [] <==> ms.End?
  {
  }

  lemma WholeParts(base: Option<Type>, ms: Members)
    ensures var t := Struct(Whole(base, ms));
            FlagsOf(t) == MemberFlags(t.members) && AlignmentOf(t) == Widest(Infos(t.members))
    ensures Widest([]) == 0
    ensures forall own, start :: Sizable(own) && own == [] ==> EndOffset(own, start, 0) == start
    ensures base.Some? && base.value.Struct? ==> SizeOf(base.value) < U32
  {
  }

  lemma NothingLeft()
    ensures MemberFlags(End) == NO_FLAGS && Infos(End) == []
  {
  }

  lemma NextInfo(ms: Members)
    requires ms.Member?
    ensures Infos(ms) == [MemberInfo(SizeOf(ms.mtype), AlignmentOf(ms.mtype), ms.optional)] + Infos(ms.rest)
    ensures ms.mtype.Object? ==> SizeOf(ms.mtype) == AlignmentOf(ms.mtype) == ADDRESS_SIZE
  {
  }

  lemma NextMember(before: Flags, inFlags: Flags, m: MemberRef, ms: Members)
    requires ms.Member? && m.mtype != null
    requires m.notNull == ms.notNull && m.hasDefault == ms.initial.Some?
    requires if m.mtype.reference then ms.mtype.Object?
             else !ms.mtype.Object? && inFlags == FlagsOf(ms.mtype) && (m.mtype.composite <==> ms.mtype.Struct?)
    ensures var one := Flags(
              inFlags.resources || m.mtype.reference, inFlags.references || m.mtype.reference,
              (!m.mtype.reference && inFlags.needsInit && (m.notNull || m.mtype.composite)) || m.hasDefault);
            Or(Or(before, one), MemberFlags(ms.rest)) == Or(before, MemberFlags(ms))
  {
    hide FlagsOf;
  }

  /** Size and alignment of an array type follow its innermost element through any nesting. */
  function Nested(e: Type, bounds: seq<nat>): Type {
    if bounds == [] then e else Array(Nested(e, bounds[1..]), bounds[0])
  }

  lemma {:induction false} NestedLayout(e: Type, bounds: seq<nat>)
    requires SizeOf(e) < U32
    ensures SizeOf(Nested(e, bounds)) == (Product(bounds) * SizeOf(e)) % U32
    ensures AlignmentOf(Nested(e, bounds)) == AlignmentOf(e)
  {
    NestedIsSizeOfArray(e, bounds);
    NestedArraySize(SizeOf(e), bounds);
  }

  lemma {:induction false} NestedIsSizeOfArray(e: Type, bounds: seq<nat>)
    ensures SizeOf(Nested(e, bounds)) == SizeOfArray(SizeOf(e), bounds)
    ensures AlignmentOf(Nested(e, bounds)) == AlignmentOf(e)
  {
    if bounds != [] {
      NestedIsSizeOfArray(e, bounds[1..]);
    }
  }
}
