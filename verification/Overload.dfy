/** The distance between a declared method and a requested signature (corto_overload), and when "distance
    zero" is the same as "equal signature". Signatures are modelled after parsing. */
module Overload {
  import opened Store
  import opened MethodLookup

  // ---- Parameter types ---------------------------------------------------------------------------------

  datatype PrimitiveKind = Binary | Boolean | Character | Integer | UInteger | Float | Text | Enum | Bitmask

  /** `bases` are the ancestors of a composite type, nearest first. */
  datatype TypeKind =
    | Void
    | Any
    | Primitive(primitive: PrimitiveKind)
    | Composite(bases: seq<Ref>)
    | Collection(collection: nat, isMap: bool, element: Ref, keyType: Ref)
    | Iterator(element: Ref)

  /** A type object; equal descriptions are the same object. `valid` means that it is completely defined. */
  datatype TypeDescription = TypeDescription(ref: Ref, reference: bool, valid: bool, kind: TypeKind)

  const OBJECT := TypeDescription(1, true, true, Void)

  predicate IsInteger(k: PrimitiveKind) {
    k.Binary? || k.Integer? || k.UInteger?
  }

  /** corto_type_compatible_v. */
  predicate GenericallyCompatible(o: TypeDescription, r: TypeDescription) {
    o == r || o.kind.Any? || (o.reference == r.reference && r.reference && o.kind.Void?)
  }

  predicate Ordinal(k: PrimitiveKind) {
    k.Binary? || k.Character? || k.Enum? || k.Bitmask?
  }

  predicate KindsCompatible(a: PrimitiveKind, b: PrimitiveKind) {
    a == b || (!a.Text? && !b.Text? && !(Ordinal(a) && b.Float?) && !(a.Float? && Ordinal(b)))
  }

  /** corto_type_compatible: the implementation for the kind of the first type. */
  predicate TypesCompatible(o: TypeDescription, r: TypeDescription) {
    match o.kind
    case Primitive(k) =>
      || GenericallyCompatible(o, r)
      || (if r.kind.Primitive? then KindsCompatible(k, r.kind.primitive) else k.Boolean? && r.reference)
    case Composite(_) => GenericallyCompatible(o, r) || (r.kind.Composite? && o.ref in r.kind.bases)
    case Collection(c, isMap, e, key) =>
      && r.kind.Collection? && r.kind.collection == c && r.kind.isMap == isMap && r.kind.element == e
      && (isMap ==> r.kind.keyType == key)
    case Iterator(e) => (r.kind.Collection? || r.kind.Iterator?) && r.kind.element == e
    case _ => GenericallyCompatible(o, r)
  }

  // ---- Parameters --------------------------------------------------------------------------------------

  datatype ParameterFlags = ParameterFlags(reference: bool, force: bool, wildcard: bool, isNull: bool, isIn: bool, isOut: bool)

  /** A parameter as spelled in a signature, with the type this names in the scope of the method and the
      type it names from the root. */
  datatype SpelledParameter = SpelledParameter(spelling: string, flags: ParameterFlags, local: Option<TypeDescription>, fromRoot: Option<TypeDescription>)

  datatype Comparison = Distance(d: nat) | NoMatch | Error

  /** Levels between a type and its ancestor `o`. */
  function LevelsTo(bases: seq<Ref>, o: Ref): Option<nat> {
    if bases == [] then None
    else if bases[0] == o then Some(1)
    else
      var rest := LevelsTo(bases[1..], o);
      if rest.Some? then Some(rest.value + 1) else None
  }

  function Farther(extra: nat, c: Option<nat>): Comparison {
    if c.Some? then Distance(extra + c.value) else NoMatch
  }

  /** The part of corto_overloadParamCompare that looks at two different types; `d` is the distance so far. */
  function CompareTypes(o: TypeDescription, r: TypeDescription, oReference: bool, rForce: bool, d: nat): Comparison {
    if !o.valid || !r.valid then NoMatch
    else if o.kind.Composite? && r.kind.Composite? then Farther(d, LevelsTo(r.kind.bases, o.ref))
    else if oReference && o.kind.Void? then Distance(d + if r.kind.Composite? then 1 + |r.kind.bases| else 1)
    else if rForce && !TypesCompatible(o, OBJECT) then Distance(d + 1)
    else if !TypesCompatible(o, r) then NoMatch
    else if o.kind.Primitive? && r.kind.Primitive? then
      if o.kind.primitive != r.kind.primitive && !(IsInteger(o.kind.primitive) && IsInteger(r.kind.primitive))
      then Distance(d + 1) else Distance(d)
    else Distance(d)
  }

  /** What references add. */
  function ReferenceDistance(oReference: bool, rReference: bool, rForce: bool, isNull: bool): Comparison {
    if oReference then
      if !rReference && !isNull then NoMatch
      else if !rForce && !isNull then Distance(1)
      else Distance(0)
    else if rReference then Distance(1)
    else Distance(0)
  }

  /** corto_overloadParamCompare; a request for null or anything names no type. */
  function CompareParameter(
    o: TypeDescription, r: Option<TypeDescription>, oReference: bool, rReference: bool, rForce: bool, wildcard: bool, isNull: bool)
    : Comparison
    requires wildcard || isNull || r.Some?
  {
    if wildcard then Distance(0)
    else
      var byReference := ReferenceDistance(oReference, rReference, rForce, isNull);
      if !byReference.Distance? then byReference
      else
        var d := byReference.d;
        if o.kind.Any? || (r.Some? && r.value.kind.Any?) then Distance(d)
        else if isNull then
          if o.kind == Primitive(Boolean) then Distance(d + 1)
          else if !oReference && o.kind != Primitive(Text) then NoMatch
          else Distance(d)
        else if o == r.value then Distance(d)
        else CompareTypes(o, r.value, oReference, rForce, d)
  }

  /** One turn of the loop in corto_overload. */
  function Compare(o: SpelledParameter, r: SpelledParameter): Comparison {
    if o.local.None? then Error
    else if o.spelling == r.spelling && o.flags == r.flags then Distance(0)
    else
      var named := !(r.flags.wildcard || r.flags.isNull);
      if named && r.fromRoot.None? then Error
      else
        var rType := if named then r.fromRoot else None;
        var rIsReference := rType.Some? && rType.value.reference;
        CompareParameter(
          o.local.value, rType,
          o.flags.reference || o.local.value.reference, r.flags.reference || rIsReference,
          r.flags.force || rIsReference, r.flags.wildcard, r.flags.isNull)
  }

  // ---- Signatures --------------------------------------------------------------------------------------

  datatype SpelledSignature = SpelledSignature(name: string, parameters: seq<SpelledParameter>)

  datatype Outcome = Matched(distance: nat) | OtherName | OtherParameters | Failure

  function ToLower(c: char): char {
    if 'A' <= c <= 'Z' then c + 32 as char else c
  }

  function Lower(s: string): (r: string)
    ensures |r| == |s| && forall i :: 0 <= i < |s| ==> r[i] == ToLower(s[i])
  {
    seq(|s|, i requires 0 <= i < |s| => ToLower(s[i]))
  }

  /** The distance over the first `n` parameters, or what stopped the comparison. */
  function Accumulate(os: seq<SpelledParameter>, rs: seq<SpelledParameter>, n: nat): Comparison
    requires n <= |os| == |rs|
  {
    if n == 0 then Distance(0)
    else
      var before := Accumulate(os, rs, n - 1);
      if !before.Distance? then before
      else
        var c := Compare(os[n - 1], rs[n - 1]);
        if c.Distance? then Distance(before.d + c.d) else c
  }

  function OverloadOutcome(o: SpelledSignature, r: SpelledSignature): Outcome {
    if Lower(o.name) != Lower(r.name) then OtherName
    else if |o.parameters| != |r.parameters| then OtherParameters
    else
      match Accumulate(o.parameters, r.parameters, |o.parameters|)
      case Distance(d) => Matched(d)
      case NoMatch => OtherParameters
      case Error => Failure
  }

  /** The code corto_overload hands back for an outcome. */
  function CodeOf(outcome: Outcome): int {
    match outcome
    case Matched(d) => d
    case OtherName => NOMATCH
    case OtherParameters => NOMATCH_OVERLOAD
    case Failure => OVERLOAD_ERROR
  }

  /** corto_overload, for a request with a parameter list: without one, CompareName has already failed. */
  method ComputeOverload(o: SpelledSignature, r: SpelledSignature) returns (failed: bool, distance: int, ghost outcome: Outcome)
    ensures outcome == OverloadOutcome(o, r)
    ensures failed <==> outcome == Failure
    ensures distance == CodeOf(outcome)
  {
    if Lower(o.name) != Lower(r.name) {
      return false, -2, OtherName;
    }
    if |o.parameters| != |r.parameters| {
      return false, -3, OtherParameters;
    }
    var d: nat := 0;
    var i := 0;
    while i < |o.parameters|
      invariant i <= |o.parameters|
      invariant Accumulate(o.parameters, r.parameters, i) == Distance(d)
    {
      var c := Compare(o.parameters[i], r.parameters[i]);
      i := i + 1;
      if !c.Distance? {
        StoppedIsFinal(o.parameters, r.parameters, i);
        if c.Error? {
          return true, -1, Failure;
        }
        return false, -3, OtherParameters;
      }
      d := d + c.d;
    }
    return false, d, Matched(d);
  }

  lemma {:induction false} StoppedIsFinal(os: seq<SpelledParameter>, rs: seq<SpelledParameter>, n: nat)
    requires n <= |os| == |rs| && !Accumulate(os, rs, n).Distance?
    ensures Accumulate(os, rs, n) == Accumulate(os, rs, |os|)
    decreases |os| - n
  {
    if n < |os| {
      StoppedIsFinal(os, rs, n + 1);
    }
  }

  // ---- Names -------------------------------------------------------------------------------------------

  const END := '\0'

  /** C strings end with a zero character. */
  function CharAt(s: string, i: nat): char {
    if i < |s| then s[i] else END
  }

  predicate IsCString(s: string) {
    END !in s
  }

  /** Where the parameter list of a signature text begins, or the end of the text. */
  function NameEnd(s: string): (n: nat)
    ensures n <= |s| && (n < |s| ==> s[n] == '(') && forall i :: 0 <= i < n ==> s[i] != '('
  {
    if s == [] || s[0] == '(' then 0 else 1 + NameEnd(s[1..])
  }

  predicate HasList(s: string) {
    NameEnd(s) < |s|
  }

  /** corto_sig_compareName. With parameter lists on both sides the names before them are compared up to case;
      a text without a list agrees with nothing, not even with itself, unless both are empty: behind its
      last character the other text is not read again. */
  method CompareName(offered: string, requested: string) returns (same: bool)
    requires IsCString(offered) && IsCString(requested)
    ensures same <==>
              || (offered == "" && requested == "")
              || (HasList(offered) && HasList(requested)
                  && Lower(offered[..NameEnd(offered)]) == Lower(requested[..NameEnd(requested)]))
  {
    ghost var n, m := NameEnd(offered), NameEnd(requested);
    ghost var left, right := Lower(offered[..n]), Lower(requested[..m]);
    var i := 0;
    var o, r := CharAt(offered, 0), CharAt(requested, 0);
    while o != END && r != END && o != '(' && r != '('
      invariant i <= n && i <= m && o == CharAt(offered, i)
      invariant o != END || i == 0 ==> r == CharAt(requested, i)
      invariant o == END && i > 0 ==> r != END
      invariant forall j :: 0 <= j < i ==> left[j] == right[j]
      decreases n - i
    {
      o := ToLower(o);
      r := ToLower(r);
      if o != r {
        assert left[i] != right[i];
        break;
      }
      i := i + 1;
      o := CharAt(offered, i);
      if o != END {
        r := CharAt(requested, i);
      }
    }
    same := o == r;
    if same && i + |offered| > 0 {
      assert i == n && i == m;
      assert left == right;
    }
  }

  // ---- Distance zero -----------------------------------------------------------------------------------

  /** What distance zero distinguishes of a parameter: integers of every kind and width are one, as are all
      other primitives of one kind and all collections with the same elements; a reference to something that
      is no reference type itself counts as it is spelled. */
  datatype Key =
    | OfType(t: TypeDescription)
    | OfKind(kind: PrimitiveKind)
    | Integers
    | Elements(collection: nat, isMap: bool, element: Ref, keyType: Ref)
    | Spelled(spelling: string, flags: ParameterFlags)

  function KeyOf(p: SpelledParameter): Key
    requires p.local.Some?
  {
    var t := p.local.value;
    if t.reference then OfType(t)
    else if p.flags.reference then Spelled(p.spelling, p.flags)
    else
      match t.kind
      case Primitive(k) => if IsInteger(k) then Integers else OfKind(k)
      case Collection(c, isMap, e, key) => Elements(c, isMap, e, if isMap then key else NULL)
      case _ => OfType(t)
  }

  /** A parameter whose type is found, and the same from everywhere; not an any, an iterator or a boolean by
      reference; without the marks only requests carry. */
  predicate Settled(p: SpelledParameter) {
    && p.local.Some? && p.fromRoot == p.local
    && !p.flags.force && !p.flags.wildcard && !p.flags.isNull
    && var t := p.local.value;
       && (t.valid || t.kind.Composite?)
       && !t.kind.Any? && !t.kind.Iterator?
       && !(t.kind == Primitive(Boolean) && (t.reference || p.flags.reference))
  }

  /** One spelling means one type. */
  predicate SpelledAlike(o: SpelledParameter, r: SpelledParameter) {
    o.spelling == r.spelling ==> o.local == r.local
  }

  /** On such parameters the comparison succeeds, and distance zero is equality of keys. */
  lemma KeyExact(o: SpelledParameter, r: SpelledParameter)
    requires Settled(o) && Settled(r) && SpelledAlike(o, r)
    ensures !Compare(o, r).Error?
    ensures Compare(o, r) == Distance(0) <==> KeyOf(o) == KeyOf(r)
  {
    var a, b := o.local.value, r.local.value;
    if a != b && a.kind.Composite? && b.kind.Composite? {
      LevelsPositive(b.kind.bases, a.ref);
    }
  }

  lemma {:induction false} LevelsPositive(bases: seq<Ref>, o: Ref)
    ensures LevelsTo(bases, o).Some? <==> o in bases
    ensures LevelsTo(bases, o).Some? ==> LevelsTo(bases, o).value > 0
  {
    if bases != [] {
      LevelsPositive(bases[1..], o);
    }
  }

  predicate SettledSignature(s: SpelledSignature) {
    forall i :: 0 <= i < |s.parameters| ==> Settled(s.parameters[i])
  }

  ghost predicate Consistent(o: SpelledSignature, r: SpelledSignature) {
    && SettledSignature(o) && SettledSignature(r)
    && forall p, q :: p in o.parameters && q in r.parameters ==> SpelledAlike(p, q)
  }

  function Keys(s: SpelledSignature): (r: seq<Key>)
    requires SettledSignature(s)
    ensures |r| == |s.parameters| && forall i :: 0 <= i < |r| ==> r[i] == KeyOf(s.parameters[i])
  {
    seq(|s.parameters|, i requires 0 <= i < |s.parameters| => KeyOf(s.parameters[i]))
  }

  predicate SameSignature(o: SpelledSignature, r: SpelledSignature)
    requires SettledSignature(o) && SettledSignature(r)
  {
    Lower(o.name) == Lower(r.name) && Keys(o) == Keys(r)
  }

  lemma KeysAt(o: SpelledSignature, r: SpelledSignature, i: nat)
    requires Consistent(o, r) && i < |o.parameters| == |r.parameters|
    ensures !Compare(o.parameters[i], r.parameters[i]).Error?
    ensures Compare(o.parameters[i], r.parameters[i]) == Distance(0) <==> Keys(o)[i] == Keys(r)[i]
  {
    hide Compare, KeyOf;
    assert o.parameters[i] in o.parameters && r.parameters[i] in r.parameters;
    KeyExact(o.parameters[i], r.parameters[i]);
  }

  lemma {:induction false} AccumulateExact(o: SpelledSignature, r: SpelledSignature, n: nat)
    requires Consistent(o, r) && n <= |o.parameters| == |r.parameters|
    ensures var c := Accumulate(o.parameters, r.parameters, n);
            && !c.Error?
            && (c == Distance(0) <==> Keys(o)[..n] == Keys(r)[..n])
  {
    hide Compare, KeyOf, Settled, SpelledAlike;
    if n > 0 {
      AccumulateExact(o, r, n - 1);
      KeysAt(o, r, n - 1);
      assert Keys(o)[..n] == Keys(o)[..n - 1] + [Keys(o)[n - 1]];
      assert Keys(r)[..n] == Keys(r)[..n - 1] + [Keys(r)[n - 1]];
    }
  }

  /** Distance zero means the same name and the same keys. */
  lemma ZeroDistanceExact(o: SpelledSignature, r: SpelledSignature)
    requires Consistent(o, r)
    ensures !OverloadOutcome(o, r).Failure?
    ensures OverloadOutcome(o, r) == Matched(0) <==> SameSignature(o, r)
  {
    if |o.parameters| == |r.parameters| {
      AccumulateExact(o, r, |o.parameters|);
      assert Keys(o)[..|o.parameters|] == Keys(o) && Keys(r)[..|r.parameters|] == Keys(r);
    }
  }

  // ---- All distances -----------------------------------------------------------------------------------

  /** A declared parameter passed by value. */
  predicate ByValue(p: SpelledParameter) {
    Settled(p) && !p.flags.reference && !p.local.value.reference
  }

  const INTEGERS := {Binary, Integer, UInteger}
  const NO_NUMBERS := {Binary, Character, Enum, Bitmask}

  /** Between different primitive kinds texts match nothing and floats no binary, character, enum or bitmask;
      all else matches, integers at no distance and others at one. */
  lemma PrimitiveDistance(o: SpelledParameter, r: SpelledParameter, a: PrimitiveKind, b: PrimitiveKind)
    requires ByValue(o) && ByValue(r) && SpelledAlike(o, r)
    requires o.local.value.kind == Primitive(a) && r.local.value.kind == Primitive(b)
    ensures Compare(o, r) ==
            if a == b then Distance(0)
            else if a == Text || b == Text || (a == Float && b in NO_NUMBERS) || (b == Float && a in NO_NUMBERS) then NoMatch
            else if a in INTEGERS && b in INTEGERS then Distance(0)
            else Distance(1)
  {
  }

  /** How much a request that is a reference adds. */
  function Plus(c: Comparison, extra: nat): Comparison {
    if c.Distance? then Distance(c.d + extra) else c
  }

  /** A composite is as far from a request as the levels that lie between them, and one more if it is asked
      for by value and a reference type is requested; without a level in common there is no match. */
  lemma CompositeDistance(o: SpelledParameter, r: SpelledParameter, bases: seq<Ref>, k: nat)
    requires Settled(o) && Settled(r) && SpelledAlike(o, r) && !o.flags.reference && !r.flags.reference
    requires o.local != r.local && o.local.value.kind.Composite? && r.local.value.kind == Composite(bases)
    requires o.local.value.valid && r.local.value.valid
    ensures o.local.value.reference && !r.local.value.reference ==> Compare(o, r) == NoMatch
    ensures !o.local.value.reference || r.local.value.reference ==>
              var extra := if r.local.value.reference && !o.local.value.reference then 1 else 0;
              && (o.local.value.ref !in bases ==> Compare(o, r) == NoMatch)
              && (k < |bases| && bases[k] == o.local.value.ref && o.local.value.ref !in bases[..k] ==>
                    Compare(o, r) == Distance(k + 1 + extra))
  {
    LevelsMeaning(bases, o.local.value.ref, k);
  }

  lemma {:induction false} LevelsMeaning(bases: seq<Ref>, o: Ref, k: nat)
    ensures LevelsTo(bases, o).None? <==> o !in bases
    ensures k < |bases| && bases[k] == o && o !in bases[..k] ==> LevelsTo(bases, o) == Some(k + 1)
  {
    if bases != [] {
      if k > 0 {
        LevelsMeaning(bases[1..], o, k - 1);
        if k < |bases| {
          assert bases[..k][1..] == bases[1..][..k - 1];
          assert bases[..k][0] == bases[0];
        }
      } else {
        LevelsMeaning(bases[1..], o, 0);
      }
    }
  }

  /** Collections by value match those of the same kind, elements and, for maps, keys, at no distance; values of
      different kinds of types, and types not completely defined, match only themselves. */
  lemma OtherValuesDistance(o: SpelledParameter, r: SpelledParameter)
    requires ByValue(o) && ByValue(r) && SpelledAlike(o, r) && o.local != r.local
    ensures var a, b := o.local.value.kind, r.local.value.kind;
            && (a.Collection? && b.Collection? ==>
                  Compare(o, r) ==
                  if a == b || (!a.isMap && a == b.(keyType := a.keyType)) then Distance(0) else NoMatch)
            && (!(a.Primitive? && b.Primitive?) && !(a.Composite? && b.Composite?) && !(a.Collection? && b.Collection?) ==>
                  Compare(o, r) == NoMatch)
            && (!o.local.value.valid || !r.local.value.valid ==> Compare(o, r) == NoMatch)
  {
  }

  /** A parameter that takes references accepts nothing else. */
  lemma ReferenceNeedsReference(o: SpelledParameter, r: SpelledParameter)
    requires Settled(o) && Settled(r) && SpelledAlike(o, r)
    requires o.flags.reference || o.local.value.reference
    requires !r.flags.reference && !r.local.value.reference
    ensures Compare(o, r) == NoMatch
  {
  }

  /** Marking a request as a reference to a value adds one, whether the parameter is marked alike or not; but
      the very same spelling is at distance zero. */
  lemma MarkedRequest(o: SpelledParameter, r: SpelledParameter)
    requires Settled(o) && ByValue(r) && SpelledAlike(o, r) && !o.local.value.reference && !o.local.value.kind.Void?
    ensures var marked := r.(flags := r.flags.(reference := true));
            Compare(o, marked) ==
            if o.spelling == r.spelling && o.flags == marked.flags then Distance(0)
            else Plus(Compare(o.(flags := o.flags.(reference := false)), r), 1)
  {
  }

  /** A value that is no composite accepts references to objects: a boolean at one, everything else at two. */
  lemma ObjectForValue(o: SpelledParameter, r: SpelledParameter)
    requires Settled(o) && Settled(r) && SpelledAlike(o, r) && !o.flags.reference && !o.local.value.reference
    requires r.local.value.reference && o.local.value.valid && r.local.value.valid
    requires !o.local.value.kind.Composite? && !r.local.value.kind.Primitive?
    ensures Compare(o, r) == if o.local.value.kind == Primitive(Boolean) then Distance(1) else Distance(2)
  {
  }

  /** Between reference types that are not both composite: a generic reference is as far as the inheritance of
      the request is deep, and at least one; any other is at one. */
  lemma ReferenceDistanceMeaning(o: SpelledParameter, r: SpelledParameter)
    requires Settled(o) && Settled(r) && SpelledAlike(o, r) && o.local != r.local
    requires o.local.value.reference && r.local.value.reference && o.local.value.valid && r.local.value.valid
    requires !(o.local.value.kind.Composite? && r.local.value.kind.Composite?)
    ensures Compare(o, r) ==
            if o.local.value.kind.Void? && r.local.value.kind.Composite? then Distance(1 + |r.local.value.kind.bases|)
            else Distance(1)
  {
  }

  /** Requests that name no type: anything matches a wildcard; null matches references, texts and anys, and a
      boolean at one. */
  lemma UnnamedRequests(o: SpelledParameter, r: SpelledParameter)
    requires o.local.Some? && !r.flags.reference && !r.flags.force && (o.spelling != r.spelling || o.flags != r.flags)
    ensures r.flags.wildcard ==> Compare(o, r) == Distance(0)
    ensures r.flags.isNull && !r.flags.wildcard ==>
              var t := o.local.value;
              Compare(o, r) ==
              if t.kind == Any then Distance(0)
              else if t.kind == Primitive(Boolean) then Distance(1)
              else if o.flags.reference || t.reference || t.kind == Primitive(Text) then Distance(0)
              else NoMatch
  {
  }

  /** An any matches every value, and every value matches a request for an any. */
  lemma AnyMatches(o: SpelledParameter, r: SpelledParameter)
    requires o.local.Some? && r.fromRoot.Some? && !r.flags.wildcard && !r.flags.isNull
    requires o.local.value.kind == Any || r.fromRoot.value.kind == Any
    requires !o.flags.reference && !o.local.value.reference && !r.flags.reference && !r.fromRoot.value.reference
    ensures Compare(o, r) == Distance(0)
  {
  }

  /** A comparison fails exactly if a type that has to be looked at does not resolve. */
  lemma ComparisonFails(o: SpelledParameter, r: SpelledParameter)
    ensures Compare(o, r) == Error <==>
              || o.local == None
              || ((o.spelling != r.spelling || o.flags != r.flags)
                  && !r.flags.wildcard && !r.flags.isNull && r.fromRoot == None)
  {
  }

  /** Letters are compared without case, and nothing else is confused. */
  lemma ToLowerMeaning(a: char, b: char)
    ensures ToLower(a) == ToLower(b) <==>
              || a == b
              || ('A' <= a <= 'Z' && b as int == a as int + 32)
              || ('A' <= b <= 'Z' && a as int == b as int + 32)
  {
  }

  /** The outcome parameter by parameter: another name first; then another number of parameters, or the first
      one that decides, by not matching or by failing; else all distances together. */
  lemma {:induction false} OutcomeMeaning(o: SpelledSignature, r: SpelledSignature, i: nat)
    ensures Lower(o.name) != Lower(r.name) <==> OverloadOutcome(o, r) == OtherName
    ensures Lower(o.name) == Lower(r.name) && |o.parameters| != |r.parameters| ==> OverloadOutcome(o, r) == OtherParameters
    ensures Lower(o.name) == Lower(r.name) && i < |o.parameters| == |r.parameters|
            && (forall j :: 0 <= j < i ==> Compare(o.parameters[j], r.parameters[j]).Distance?) ==>
              var c := Compare(o.parameters[i], r.parameters[i]);
              && (c == NoMatch ==> OverloadOutcome(o, r) == OtherParameters)
              && (c == Error ==> OverloadOutcome(o, r) == Failure)
  {
    if i < |o.parameters| == |r.parameters|
       && (forall j :: 0 <= j < i ==> Compare(o.parameters[j], r.parameters[j]).Distance?)
       && !Compare(o.parameters[i], r.parameters[i]).Distance?
    {
      AccumulateSum(o.parameters, r.parameters, i);
      assert Accumulate(o.parameters, r.parameters, i + 1) == Compare(o.parameters[i], r.parameters[i]);
      StoppedIsFinal(o.parameters, r.parameters, i + 1);
    }
  }

  function SumOf(ds: seq<nat>): nat {
    if ds == [] then 0 else SumOf(ds[..|ds| - 1]) + ds[|ds| - 1]
  }

  function DistancesTo(os: seq<SpelledParameter>, rs: seq<SpelledParameter>, n: nat): seq<nat>
    requires n <= |os| == |rs| && forall j :: 0 <= j < n ==> Compare(os[j], rs[j]).Distance?
  {
    seq(n, j requires 0 <= j < n => Compare(os[j], rs[j]).d)
  }

  lemma {:induction false} AccumulateSum(os: seq<SpelledParameter>, rs: seq<SpelledParameter>, n: nat)
    requires n <= |os| == |rs| && forall j :: 0 <= j < n ==> Compare(os[j], rs[j]).Distance?
    ensures Accumulate(os, rs, n) == Distance(SumOf(DistancesTo(os, rs, n)))
  {
    hide Compare;
    if n > 0 {
      AccumulateSum(os, rs, n - 1);
      assert DistancesTo(os, rs, n)[..n - 1] == DistancesTo(os, rs, n - 1);
    }
  }

  lemma MatchedMeaning(o: SpelledSignature, r: SpelledSignature)
    requires Lower(o.name) == Lower(r.name) && |o.parameters| == |r.parameters|
    requires forall j :: 0 <= j < |o.parameters| ==> Compare(o.parameters[j], r.parameters[j]).Distance?
    ensures OverloadOutcome(o, r) == Matched(SumOf(DistancesTo(o.parameters, r.parameters, |o.parameters|)))
  {
    AccumulateSum(o.parameters, r.parameters, |o.parameters|);
  }

  // ---- The assumption behind exact matches -------------------------------------------------------------

  /** The verdict a table scan sees. */
  function VerdictOf(outcome: Outcome): Verdict
    requires outcome.Matched? ==> outcome.distance < INT_MAX
  {
    if outcome == Failure then Failed else At(CodeOf(outcome))
  }

  /** Looking up the id of one method against another is decided by their declared signatures. */
  ghost predicate Decides(rules: Rules, declared: Method -> SpelledSignature, ms: set<Method>) {
    forall a, b :: a in ms && b in ms ==>
      var outcome := OverloadOutcome(declared(a), declared(b));
      (outcome.Matched? ==> outcome.distance < INT_MAX) && rules.overload(a, b.id) == VerdictOf(outcome)
  }

  ghost predicate AllConsistent(declared: Method -> SpelledSignature, ms: set<Method>) {
    forall a, b :: a in ms && b in ms ==> Consistent(declared(a), declared(b))
  }

  ghost predicate Zero(rules: Rules, a: Method, b: Method) {
    rules.overload(a, b.id) == At(0)
  }

  /** Every comparison succeeds and distance zero is an equivalence. */
  ghost predicate ZeroIsEquivalence(rules: Rules, ms: set<Method>) {
    && (forall a, b :: a in ms && b in ms ==> rules.overload(a, b.id).At?)
    && (forall a :: a in ms ==> Zero(rules, a, a))
    && (forall a, b :: a in ms && b in ms && Zero(rules, a, b) ==> Zero(rules, b, a))
    && (forall a, b, c :: a in ms && b in ms && c in ms && Zero(rules, a, b) && Zero(rules, b, c) ==> Zero(rules, a, c))
  }

  /** The first method of the list at distance zero from `m`. */
  ghost function Representative(rules: Rules, list: seq<Method>, m: Method): (i: nat)
    ensures i <= |list| && (i < |list| ==> Zero(rules, list[i], m))
    ensures forall j :: 0 <= j < i ==> !Zero(rules, list[j], m)
  {
    if list == [] then 0
    else if Zero(rules, list[0], m) then 0
    else 1 + Representative(rules, list[1..], m)
  }

  lemma {:induction false} Listing(ms: set<Method>) returns (list: seq<Method>)
    ensures forall m :: m in ms <==> m in list
    decreases |ms|
  {
    if ms == {} {
      list := [];
    } else {
      var m :| m in ms;
      var rest := Listing(ms - {m});
      list := [m] + rest;
    }
  }

  lemma SameRepresentative(rules: Rules, ms: set<Method>, list: seq<Method>, a: Method, b: Method)
    requires ZeroIsEquivalence(rules, ms) && (forall m :: m in ms <==> m in list)
    requires a in ms && b in ms
    ensures Representative(rules, list, a) == Representative(rules, list, b) <==> Zero(rules, a, b)
  {
    var i, j := Representative(rules, list, a), Representative(rules, list, b);
    var at :| 0 <= at < |list| && list[at] == a;
    assert Zero(rules, list[at], a) && i <= at;
    assert list[i] in ms && Zero(rules, list[i], a);
    if Zero(rules, a, b) {
      assert Zero(rules, list[i], b) && j <= i;
      assert list[j] in ms && Zero(rules, list[j], a);
    }
    assert Zero(rules, a, list[i]);
  }

  lemma Classify(rules: Rules, ms: set<Method>) returns (sig: Method -> int)
    requires ZeroIsEquivalence(rules, ms)
    ensures Canonical(rules, sig, ms)
  {
    var list := Listing(ms);
    sig := m => Representative(rules, list, m);
    forall a, b | a in ms && b in ms
      ensures rules.overload(a, b.id).At? && (rules.overload(a, b.id).distance == 0 <==> sig(a) == sig(b))
    {
      SameRepresentative(rules, ms, list, a, b);
    }
  }

  /** What the laws of method tables assume, that distance zero is equality of some canonical signature, is
      exactly that distance zero is an equivalence. */
  lemma CanonicalExact(rules: Rules, ms: set<Method>)
    ensures (exists sig: Method -> int :: Canonical(rules, sig, ms)) <==> ZeroIsEquivalence(rules, ms)
  {
    if ZeroIsEquivalence(rules, ms) {
      var sig := Classify(rules, ms);
      assert Canonical(rules, sig, ms);
    }
  }

  /** So it holds of methods with settled parameters: then the canonical signatures are name and keys. */
  lemma SettledMethodsCanonical(rules: Rules, declared: Method -> SpelledSignature, ms: set<Method>) returns (sig: Method -> int)
    requires Decides(rules, declared, ms) && AllConsistent(declared, ms)
    ensures Canonical(rules, sig, ms)
    ensures forall a, b :: a in ms && b in ms ==>
              && SettledSignature(declared(a)) && SettledSignature(declared(b))
              && (sig(a) == sig(b) <==> SameSignature(declared(a), declared(b)))
  {
    hide ZeroIsEquivalence, SettledSignature, SameSignature, OverloadOutcome;
    ZeroBySignature(rules, declared, ms);
    sig := Classify(rules, ms);
    forall a, b | a in ms && b in ms
      ensures SettledSignature(declared(a)) && SettledSignature(declared(b))
      ensures sig(a) == sig(b) <==> SameSignature(declared(a), declared(b))
    {
      DecidedBySignature(rules, declared, ms, a, b);
    }
  }

  lemma ZeroBySignature(rules: Rules, declared: Method -> SpelledSignature, ms: set<Method>)
    requires Decides(rules, declared, ms) && AllConsistent(declared, ms)
    ensures ZeroIsEquivalence(rules, ms)
  {
    hide Decides, AllConsistent, OverloadOutcome, SettledSignature, Keys, Lower;
    forall a, b | a in ms && b in ms ensures rules.overload(a, b.id).At? && Zero(rules, a, a) {
      DecidedBySignature(rules, declared, ms, a, b);
      DecidedBySignature(rules, declared, ms, a, a);
    }
    forall a, b | a in ms && b in ms && Zero(rules, a, b) ensures Zero(rules, b, a) {
      DecidedBySignature(rules, declared, ms, a, b);
      DecidedBySignature(rules, declared, ms, b, a);
    }
    forall a, b, c | a in ms && b in ms && c in ms && Zero(rules, a, b) && Zero(rules, b, c) ensures Zero(rules, a, c) {
      DecidedBySignature(rules, declared, ms, a, b);
      DecidedBySignature(rules, declared, ms, b, c);
      DecidedBySignature(rules, declared, ms, a, c);
    }
  }

  lemma DecidedBySignature(rules: Rules, declared: Method -> SpelledSignature, ms: set<Method>, a: Method, b: Method)
    requires Decides(rules, declared, ms) && AllConsistent(declared, ms) && a in ms && b in ms
    ensures SettledSignature(declared(a)) && SettledSignature(declared(b))
    ensures rules.overload(a, b.id).At? && (Zero(rules, a, b) <==> SameSignature(declared(a), declared(b)))
  {
    hide SameSignature, OverloadOutcome, SettledSignature;
    assert Consistent(declared(a), declared(b));
    ZeroDistanceExact(declared(a), declared(b));
  }

  /** An exact lookup in a table finds the entry with the signature asked for. */
  lemma ExactMatchIsSignatureMatch(
    rules: Rules, declared: Method -> SpelledSignature, table: seq<Method>, m: Method, ms: set<Method>)
    requires Decides(rules, declared, ms) && AllConsistent(declared, ms) && Within(table, ms) && m in ms
    requires forall i, j :: 0 <= i < |table| && 0 <= j < |table| ==>
               SameSignature(declared(table[i]), declared(table[j])) ==> i == j
    ensures forall k: nat :: ExactMatch(rules, table, m.id) == Some(k) <==>
              k < |table| && SameSignature(declared(table[k]), declared(m))
  {
    var sig := SettledMethodsCanonical(rules, declared, ms);
    hide ExactMatch, Canonical, SameSignature, Decides;
    ExactMatchMeaning(rules, sig, table, m, ms);
  }

  /** Where an any is among the parameters it can fail: an any is at distance zero from types that are not
      so from each other. */
  lemma AnyBreaksCanonical(
    rules: Rules, declared: Method -> SpelledSignature, ms: set<Method>, f: Method, g: Method, h: Method,
    a: SpelledParameter, b: SpelledParameter, c: SpelledParameter)
    requires Decides(rules, declared, ms) && f in ms && g in ms && h in ms
    requires declared(f) == SpelledSignature(declared(g).name, [a])
    requires declared(g).parameters == [b] && declared(h) == SpelledSignature(declared(g).name, [c])
    requires Settled(b) && Settled(c) && SpelledAlike(b, c) && KeyOf(b) != KeyOf(c)
    requires !b.flags.reference && !b.local.value.reference && !c.flags.reference && !c.local.value.reference
    requires a.local.Some? && a.local.value.kind.Any? && !a.local.value.reference && a.flags == b.flags == c.flags
    ensures forall sig: Method -> int :: !Canonical(rules, sig, ms)
  {
    KeyExact(b, c);
    assert Compare(a, b) == Distance(0) && Compare(a, c) == Distance(0);
    OneParameter(declared(f), declared(g));
    OneParameter(declared(f), declared(h));
    OneParameter(declared(g), declared(h));
    assert Zero(rules, f, g) && Zero(rules, f, h) && !Zero(rules, g, h);
    assert !ZeroIsEquivalence(rules, ms);
    CanonicalExact(rules, ms);
  }

  lemma OneParameter(o: SpelledSignature, r: SpelledSignature)
    requires Lower(o.name) == Lower(r.name) && |o.parameters| == |r.parameters| == 1
    ensures OverloadOutcome(o, r) == Matched(0) <==> Compare(o.parameters[0], r.parameters[0]) == Distance(0)
  {
    assert Accumulate(o.parameters, r.parameters, 0) == Distance(0);
    assert |o.parameters| == 1;
    var one: nat := 1;
    assert Accumulate(o.parameters, r.parameters, one) == Compare(o.parameters[0], r.parameters[0]);
  }
}
