/** Castability and compatibility of collections and iterators, as relations between type objects. */
module Relations {

  datatype CollectionKind = KindArray | KindSequence | KindList | KindMap

  /** A type object. Types are compared by identity, so each carries one; two types with the same structure
      but different identities are different. `keyType` only matters for maps. */
  datatype TypeRef =
    | Collection(id: nat, kind: CollectionKind, max: nat, element: TypeRef, keyType: nat)
    | Iterator(id: nat, element: TypeRef)
    | Other(id: nat)

  /** corto_collection_castable_v. */
  predicate Castable(this_: TypeRef, t: TypeRef)
    requires this_.Collection?
    decreases this_
  {
    && t.Collection?
    && (!this_.kind.KindArray? || (t.kind.KindArray? && this_.max == t.max))
    && (this_.element == t.element || (this_.element.Collection? && Castable(this_.element, t.element)))
  }

  /** corto_collection_compatible_v. */
  predicate Compatible(this_: TypeRef, t: TypeRef)
    requires this_.Collection?
  {
    && t.Collection? && this_.kind == t.kind && this_.element == t.element
    && (this_.kind.KindMap? ==> this_.keyType == t.keyType)
  }

  /** corto_iterator_compatible_v, which is also its castability. */
  predicate IteratorCompatible(this_: TypeRef, t: TypeRef)
    requires this_.Iterator?
  {
    (t.Collection? || t.Iterator?) && t.element == this_.element
  }

  // ---- Castability ---------------------------------------------------------------------------------------

  /** The type `k` element links down. */
  function Level(t: TypeRef, k: nat): TypeRef {
    if k == 0 || !t.Collection? then t else Level(t.element, k - 1)
  }

  /** Both types are collections at level `k`, and an array there meets an array of the same size. */
  predicate LevelsAgree(a: TypeRef, b: TypeRef, k: nat) {
    var x, y := Level(a, k), Level(b, k);
    x.Collection? && y.Collection? && (x.kind.KindArray? ==> y.kind.KindArray? && x.max == y.max)
  }

  /** The levels agree down to one whose element types are the same. */
  ghost predicate MeetsAt(a: TypeRef, b: TypeRef, k: nat) {
    && (forall j :: 0 <= j <= k ==> LevelsAgree(a, b, j))
    && Level(a, k + 1) == Level(b, k + 1)
  }

  lemma MeetsStep(a: TypeRef, b: TypeRef, k: nat)
    requires a.Collection? && b.Collection? && k > 0
    ensures MeetsAt(a, b, k) <==> LevelsAgree(a, b, 0) && MeetsAt(a.element, b.element, k - 1)
  {
    forall j | 0 < j <= k ensures LevelsAgree(a, b, j) == LevelsAgree(a.element, b.element, j - 1) {
    }
    if LevelsAgree(a, b, 0) && MeetsAt(a.element, b.element, k - 1) {
      forall j | 0 <= j <= k ensures LevelsAgree(a, b, j) {
        assert j > 0 ==> LevelsAgree(a.element, b.element, j - 1);
      }
    }
    if MeetsAt(a, b, k) {
      forall j | 0 <= j <= k - 1 ensures LevelsAgree(a.element, b.element, j) {
        assert LevelsAgree(a, b, j + 1);
      }
    }
  }

  lemma {:induction false} CastableMeets(a: TypeRef, b: TypeRef) returns (at: nat)
    requires a.Collection? && Castable(a, b)
    ensures MeetsAt(a, b, at)
    decreases a
  {
    assert LevelsAgree(a, b, 0);
    if a.element == b.element {
      at := 0;
    } else {
      var inner := CastableMeets(a.element, b.element);
      at := inner + 1;
      MeetsStep(a, b, at);
    }
  }

  lemma {:induction false} MeetsCastable(a: TypeRef, b: TypeRef, k: nat)
    requires a.Collection? && MeetsAt(a, b, k)
    ensures Castable(a, b)
    decreases a
  {
    assert LevelsAgree(a, b, 0);
    if k > 0 {
      MeetsStep(a, b, k);
      assert LevelsAgree(a.element, b.element, 0);
      MeetsCastable(a.element, b.element, k - 1);
    } else {
      assert Level(a, 1) == a.element && Level(b, 1) == b.element;
    }
  }

  /** The recursion says: levels agree down to one whose element types coincide. */
  lemma CastableUnrolled(a: TypeRef, b: TypeRef)
    requires a.Collection?
    ensures Castable(a, b) <==> exists k: nat :: MeetsAt(a, b, k)
  {
    if Castable(a, b) {
      var k := CastableMeets(a, b);
    } else if k: nat :| MeetsAt(a, b, k) {
      MeetsCastable(a, b, k);
    }
  }

  lemma CastableReflexive(a: TypeRef)
    requires a.Collection?
    ensures Castable(a, a)
  {
  }

  lemma {:induction false} CastableTransitive(a: TypeRef, b: TypeRef, c: TypeRef)
    requires a.Collection? && b.Collection? && Castable(a, b) && Castable(b, c)
    ensures Castable(a, c)
    decreases a
  {
    if a.element != b.element && b.element != c.element {
      CastableTransitive(a.element, b.element, c.element);
    }
  }

  /** Castability is one-directional only where an array stands against another kind or size: two types
      castable both ways have, level by level, the same array-ness and array sizes. */
  lemma {:induction false} CastableSymmetric(a: TypeRef, b: TypeRef)
    requires a.Collection? && b.Collection? && Castable(a, b)
    ensures Castable(b, a) <==> ArraysMatch(a, b)
    decreases a
  {
    if a.element != b.element {
      CastableSymmetric(a.element, b.element);
    }
  }

  predicate ArraysMatch(a: TypeRef, b: TypeRef)
    requires a.Collection? && b.Collection?
    decreases a
  {
    && (b.kind.KindArray? ==> a.kind.KindArray? && a.max == b.max)
    && (a.element != b.element && a.element.Collection? && b.element.Collection? ==> ArraysMatch(a.element, b.element))
  }

  // ---- Compatibility -----------------------------------------------------------------------------------------

  /** What of a collection compatibility depends on; the key type only counts for maps, bounds never do. */
  function Essence(t: TypeRef): (CollectionKind, TypeRef, nat)
    requires t.Collection?
  {
    (t.kind, t.element, if t.kind == KindMap then t.keyType else 0)
  }

  /** Compatible collections are those of one essence, and nothing else is compatible with a collection. */
  lemma CompatibleExact(a: TypeRef, b: TypeRef)
    requires a.Collection?
    ensures Compatible(a, b) <==> b.Collection? && Essence(a) == Essence(b)
  {
  }

  lemma CompatibleIsEquivalence(a: TypeRef, b: TypeRef, c: TypeRef)
    requires a.Collection? && b.Collection?
    ensures Compatible(a, a)
    ensures Compatible(a, b) ==> Compatible(b, a)
    ensures Compatible(a, b) && Compatible(b, c) ==> Compatible(a, c)
  {
  }

  /** A compatible type can be cast to, except between arrays of different size. */
  lemma CompatibleAgainstCastable(a: TypeRef, b: TypeRef)
    requires a.Collection? && b.Collection? && Compatible(a, b)
    ensures Castable(a, b) <==> !(a.kind.KindArray? && a.max != b.max)
  {
    if a.kind.KindArray? && a.max != b.max {
      assert !Castable(a, b);
    }
  }

  /** An iterator is compatible with exactly the iterators and collections that have its element type. */
  lemma IteratorExact(i: TypeRef, t: TypeRef)
    requires i.Iterator?
    ensures t.Other? ==> !IteratorCompatible(i, t)
    ensures !t.Other? ==> (IteratorCompatible(i, t) <==> t.element == i.element)
    ensures t.Iterator? ==> (IteratorCompatible(i, t) <==> IteratorCompatible(t, i))
  {
  }

  /** An iterator follows compatible collections. */
  lemma IteratorClosed(i: TypeRef, a: TypeRef, b: TypeRef)
    requires i.Iterator? && a.Collection? && Compatible(a, b)
    ensures IteratorCompatible(i, a) <==> IteratorCompatible(i, b)
  {
  }

  /** Through an iterator, collections are related exactly when they have the same element type: a
      coarser relation than compatibility, which casting need not respect. */
  lemma IteratorsRelateElements(i: TypeRef, a: TypeRef, b: TypeRef)
    requires i.Iterator? && a.Collection? && b.Collection? && IteratorCompatible(i, a)
    ensures IteratorCompatible(i, b) <==> a.element == b.element
    ensures IteratorCompatible(i, b) ==> (Castable(a, b) <==> (a.kind.KindArray? ==> b.kind.KindArray? && a.max == b.max))
  {
  }
}
