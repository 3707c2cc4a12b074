/** Parameter lists of functions: filling the buffer from a signature, destructing it, and the claims on
    parameter types in between. */
module Parameters {
  import opened Store
  import opened Functions

  /** What parsing and resolving one entry of a signature gives; the later fields matter only if the earlier
      steps succeed. */
  datatype ParsedEntry = ParsedEntry(
    parses: bool, byReference: bool, isIn: bool, isOut: bool,
    resolved: Option<Ref>, isReferenceType: bool, name: Option<string>)

  datatype BoundParameter = BoundParameter(ptype: Ref, byReference: bool, inout: InOut, name: Option<string>)

  const BLANK := BoundParameter(NULL, false, In, None)

  predicate Resolves(e: ParsedEntry) {
    e.parses && e.resolved.Some?
  }

  /** A reference mark on a reference type is an error. */
  predicate Good(e: ParsedEntry) {
    Resolves(e) && !(e.byReference && e.isReferenceType) && e.name.Some?
  }

  function Direction(e: ParsedEntry): InOut {
    if e.isIn && e.isOut then Both else if e.isOut then Out else In
  }

  /** The direction of a parameter says of both ways whether values go it; in is what an unmarked one means. */
  lemma DirectionMeaning(e: ParsedEntry)
    ensures Direction(e) != In <==> e.isOut
    ensures Direction(e) == Out <==> e.isOut && !e.isIn
  {
  }

  function Bind(e: ParsedEntry): BoundParameter
    requires Good(e)
  {
    BoundParameter(e.resolved.value, e.byReference, Direction(e), e.name)
  }

  predicate GoodTo(es: seq<ParsedEntry>, n: nat)
    requires n <= |es|
  {
    forall i :: 0 <= i < n ==> Good(es[i])
  }

  predicate AllGood(es: seq<ParsedEntry>) {
    GoodTo(es, |es|)
  }

  function BindTo(es: seq<ParsedEntry>, n: nat): (r: seq<BoundParameter>)
    requires n <= |es| && GoodTo(es, n)
    ensures |r| == n && forall i :: 0 <= i < n ==> r[i] == Bind(es[i])
  {
    seq(n, i requires 0 <= i < n => Bind(es[i]))
  }

  function TypesOf(ps: seq<BoundParameter>): (r: seq<Ref>)
    ensures |r| == |ps| && forall i :: 0 <= i < |ps| ==> r[i] == ps[i].ptype
  {
    seq(|ps|, i requires 0 <= i < |ps| => ps[i].ptype)
  }

  /** The claims taken by the first `n` entries. An entry is reached when all before it are good; resolving
      its type claims it, also where a later step fails. */
  function ClaimedBy(es: seq<ParsedEntry>, n: nat): seq<Ref>
    requires n <= |es|
  {
    if n == 0 then []
    else ClaimedBy(es, n - 1) + (if GoodTo(es, n - 1) then ClaimOf(es[n - 1]) else [])
  }

  function ClaimOf(e: ParsedEntry): seq<Ref> {
    if Resolves(e) then [e.resolved.value] else []
  }

  lemma {:induction false} ClaimedByGood(es: seq<ParsedEntry>, n: nat)
    requires n <= |es| && GoodTo(es, n)
    ensures ClaimedBy(es, n) == TypesOf(BindTo(es, n))
  {
    if n > 0 {
      ClaimedByGood(es, n - 1);
      assert BindTo(es, n) == BindTo(es, n - 1) + [Bind(es[n - 1])];
      assert TypesOf(BindTo(es, n)) == TypesOf(BindTo(es, n - 1)) + [es[n - 1].resolved.value];
    }
  }

  /** Parsing stops with the first entry that is not good. */
  lemma {:induction false} NothingAfterFailure(es: seq<ParsedEntry>, i: nat, n: nat)
    requires i < n <= |es| && !Good(es[i])
    ensures ClaimedBy(es, n) == ClaimedBy(es, i + 1)
  {
    if i + 1 < n {
      NothingAfterFailure(es, i, n - 1);
      assert !GoodTo(es, n - 1);
    }
  }

  /** The counters account for one claim per pointer in `refs`. */
  ghost predicate Accounted(store: ObjectStore, refs: seq<Ref>, others: Ref -> int)
    reads store
  {
    store.Accounts(multiset(refs), others)
  }

  /** One more entry reached. */
  lemma NextEntry(es: seq<ParsedEntry>, i: nat)
    requires i < |es| && GoodTo(es, i)
    ensures ClaimedBy(es, i + 1) == ClaimedBy(es, i) + ClaimOf(es[i])
    ensures Good(es[i]) <==> GoodTo(es, i + 1)
    ensures !Good(es[i]) ==> !AllGood(es) && ClaimedBy(es, |es|) == ClaimedBy(es, i + 1)
  {
    if !Good(es[i]) {
      NothingAfterFailure(es, i, |es|);
    }
  }

  lemma NoEntries(es: seq<ParsedEntry>)
    ensures GoodTo(es, 0) && ClaimedBy(es, 0) == []
  {
  }

  /** One turn of the parsing loop. */
  method FillEntry(
    e: ParsedEntry, filled: array<BoundParameter>, i: nat, store: ObjectStore, ghost held: seq<Ref>, ghost others: Ref -> int)
    returns (ok: bool)
    requires i < filled.Length && (e.resolved.Some? ==> e.resolved.value != NULL)
    requires Accounted(store, held, others)
    modifies filled, store
    ensures ok <==> Good(e)
    ensures forall j :: 0 <= j < filled.Length && j != i ==> filled[j] == old(filled[j])
    ensures ok ==> filled[i] == Bind(e)
    ensures Accounted(store, held + ClaimOf(e), others)
  {
    hide ObjectStore.Accounts;
    assert !Resolves(e) ==> held + ClaimOf(e) == held;
    if !e.parses {
      return false;
    }
    filled[i] := filled[i].(byReference := e.byReference, inout := Direction(e));
    if e.resolved.None? {
      return false;
    }
    store.ClaimHeld(e.resolved.value, multiset(held), others);
    assert multiset(held + ClaimOf(e)) == multiset(held) + multiset{e.resolved.value};
    filled[i] := filled[i].(ptype := e.resolved.value);
    if filled[i].byReference && e.isReferenceType {
      return false;
    }
    if e.name.None? {
      return false;
    }
    filled[i] := filled[i].(name := e.name);
    return true;
  }

  /** The parsing loop. */
  method FillEntries(es: seq<ParsedEntry>, filled: array<BoundParameter>, store: ObjectStore, ghost others: Ref -> int)
    returns (ok: bool)
    requires filled.Length == |es|
    requires forall i :: 0 <= i < |es| && es[i].resolved.Some? ==> es[i].resolved.value != NULL
    requires Accounted(store, [], others)
    modifies filled, store
    ensures ok <==> AllGood(es)
    ensures ok ==> filled[..] == BindTo(es, |es|)
    ensures Accounted(store, ClaimedBy(es, |es|), others)
  {
    NoEntries(es);
    hide Accounted, Bind, Good, ClaimOf, GoodTo, ClaimedBy;
    var i := 0;
    while i < |es|
      invariant i <= |es|
      invariant GoodTo(es, i) && filled[..i] == BindTo(es, i)
      invariant Accounted(store, ClaimedBy(es, i), others)
    {
      ok := FillEntry(es[i], filled, i, store, ClaimedBy(es, i), others);
      NextEntry(es, i);
      if !ok {
        return;
      }
      assert filled[..i + 1] == filled[..i] + [filled[i]];
      i := i + 1;
    }
    assert filled[..i] == filled[..];
    ok := true;
  }

  /** corto_function_stringToParameterSeq. On an error the buffer is given up, but the claims taken so far
      are not returned. */
  method StringToParameters(es: seq<ParsedEntry>, store: ObjectStore, ghost others: Ref -> int)
    returns (length: int, buffer: array?<BoundParameter>)
    requires forall i :: 0 <= i < |es| && es[i].resolved.Some? ==> es[i].resolved.value != NULL
    requires Accounted(store, [], others)
    modifies store
    ensures if AllGood(es) then length == |es| && (buffer == null <==> es == [])
            else length == -1 && buffer == null
    ensures buffer != null ==> fresh(buffer) && AllGood(es) && buffer[..] == BindTo(es, |es|)
    ensures Accounted(store, ClaimedBy(es, |es|), others)
  {
    if es == [] {
      return 0, null;
    }
    var filled := new BoundParameter[|es|](_ => BLANK);
    var ok := FillEntries(es, filled, store, others);
    if !ok {
      return -1, null;
    }
    return |es|, filled;
  }

  method ReleaseFirst(o: Ref, store: ObjectStore, ghost rest: seq<Ref>, ghost others: Ref -> int)
    requires Accounted(store, [o] + rest, others)
    modifies store
    ensures Accounted(store, rest, others)
  {
    hide ObjectStore.Accounts;
    assert multiset([o] + rest) - multiset{o} == multiset(rest);
    store.ReleaseHeld(o, multiset([o] + rest), others);
  }

  /** The parameter part of corto_function_destruct. */
  method DestructParameters(buffer: array<BoundParameter>, store: ObjectStore, ghost others: Ref -> int)
    requires Accounted(store, TypesOf(buffer[..]), others)
    modifies buffer, store
    ensures forall i :: 0 <= i < buffer.Length ==> buffer[i].ptype == NULL && buffer[i].name.None?
    ensures Accounted(store, [], others)
  {
    hide Accounted, TypesOf;
    ghost var types := TypesOf(buffer[..]);
    var i := 0;
    assert types[0..] == types;
    while i < buffer.Length
      invariant i <= buffer.Length == |types|
      invariant forall j :: 0 <= j < i ==> buffer[j].ptype == NULL && buffer[j].name.None?
      invariant forall j :: i <= j < buffer.Length ==> buffer[j].ptype == types[j]
      invariant Accounted(store, types[i..], others)
    {
      buffer[i] := buffer[i].(name := None);
      assert types[i..] == [types[i]] + types[i + 1..];
      ReleaseFirst(buffer[i].ptype, store, types[i + 1..], others);
      buffer[i] := buffer[i].(ptype := NULL);
      i := i + 1;
    }
    assert types[i..] == [];
  }

  /** A function that is initialised and destructed leaves every counter as it was exactly if its signature
      is good or fails before any type was resolved: the claims that remain are those taken before the
      failure. */
  method InitAndDestruct(es: seq<ParsedEntry>, store: ObjectStore, ghost others: Ref -> int)
    requires forall i :: 0 <= i < |es| && es[i].resolved.Some? ==> es[i].resolved.value != NULL
    requires Accounted(store, [], others)
    modifies store
    ensures Accounted(store, if AllGood(es) then [] else ClaimedBy(es, |es|), others)
  {
    hide Accounted;
    var length, buffer := StringToParameters(es, store, others);
    if buffer != null {
      ClaimedByGood(es, |es|);
      DestructParameters(buffer, store, others);
    }
  }

  /** A failing signature leaves no claim behind if and only if no type was resolved before it failed. */
  lemma {:induction false} LeaksNothing(es: seq<ParsedEntry>)
    requires !AllGood(es)
    ensures ClaimedBy(es, |es|) == [] <==> !Resolves(es[0])
  {
    FirstClaimStays(es, |es|);
  }

  lemma {:induction false} FirstClaimStays(es: seq<ParsedEntry>, n: nat)
    requires 0 < n <= |es|
    ensures ClaimedBy(es, n) == [] <==> !Resolves(es[0])
  {
    if n > 1 {
      FirstClaimStays(es, n - 1);
      assert !Good(es[0]) ==> !GoodTo(es, n - 1);
    }
  }
}
