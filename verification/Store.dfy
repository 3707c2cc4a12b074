/** Object identities and the reference counters of the in-memory object store.

    An object is known by its identity (the address in the C code, NULL is 0). Every object carries a
    reference counter; builtin objects live in static memory and are exempt from counting.
 */
module Store {

  type Ref = nat

  const NULL: Ref := 0

  datatype Option<+T> = None | Some(value: T)

  class ObjectStore {
    const builtin: set<Ref>
    var counters: map<Ref, int>
    // Objects whose counter was released down to zero: corto_destruct has run on them.
    var destructed: set<Ref>

    constructor (builtin: set<Ref>)
      ensures this.builtin == builtin && destructed == {}
      ensures forall r :: Count(r) == 0
    {
      this.builtin := builtin;
      counters := map[];
      destructed := {};
    }

    function Count(r: Ref): int
      reads this`counters
    {
      if r in counters then counters[r] else 0
    }

    /** How much a collection of pointers contributes to the counter of `r`. */
    function Weight(refs: multiset<Ref>, r: Ref): nat {
      if r == NULL || r in builtin then 0 else refs[r]
    }

    /** The counter of `r`, less what the pointers in `refs` account for. */
    function Balance(refs: multiset<Ref>, r: Ref): int
      reads this`counters
    {
      Count(r) - Weight(refs, r)
    }

    /** The counters are what the pointers in `held` account for plus `others`, the claims of everybody
        else. Operations that keep `others` conserve claims. */
    ghost predicate Accounts(held: multiset<Ref>, others: Ref -> int)
      reads this
    {
      forall r :: Balance(held, r) == others(r)
    }

    method Claim(o: Ref)
      requires o != NULL
      modifies this
      ensures destructed == old(destructed)
      ensures forall r :: Count(r) == old(Count(r)) + Weight(multiset{o}, r)
    {
      if o in builtin {
        return;
      }
      counters := counters[o := Count(o) + 1];
    }

    method Release(o: Ref)
      modifies this
      ensures forall r :: Count(r) == old(Count(r)) - Weight(multiset{o}, r)
      ensures destructed == old(destructed) + (if Weight(multiset{o}, o) == 1 && Count(o) == 0 then {o} else {})
    {
      if o == NULL || o in builtin {
        return;
      }
      counters := counters[o := Count(o) - 1];
      if counters[o] == 0 {
        destructed := destructed + {o};
      }
    }

    /** The counting half of corto_set_ref on a slot holding `was`: the new value is claimed before the
        old one is released, so rewriting a slot with the object it holds never drops its counter. */
    method Replace(was: Ref, value: Ref)
      modifies this
      ensures forall r :: Count(r) == old(Count(r)) + Weight(multiset{value}, r) - Weight(multiset{was}, r)
      ensures destructed == old(destructed) + (if Weight(multiset{was}, was) == 1 && Count(was) == 0 then {was} else {})
    {
      if value != NULL {
        Claim(value);
      }
      if was != NULL {
        Release(was);
      }
    }

    // The same three operations, with the pointer `o` becoming or ceasing to be one that `held` counts.

    method ClaimHeld(o: Ref, ghost held: multiset<Ref>, ghost others: Ref -> int)
      requires o != NULL && Accounts(held, others)
      modifies this
      ensures Accounts(held + multiset{o}, others)
      ensures destructed == old(destructed)
    {
      Claim(o);
      forall r ensures Balance(held + multiset{o}, r) == others(r) {
        assert old(Balance(held, r)) == others(r);
      }
    }

    method ReleaseHeld(o: Ref, ghost held: multiset<Ref>, ghost others: Ref -> int)
      requires o in held && Accounts(held, others)
      modifies this
      ensures Accounts(held - multiset{o}, others)
      ensures destructed == old(destructed) + (if o != NULL && o !in builtin && Count(o) == 0 then {o} else {})
    {
      Release(o);
      forall r ensures Balance(held - multiset{o}, r) == others(r) {
        assert old(Balance(held, r)) == others(r);
      }
    }

    /** A method somebody else keeps alive survives being replaced. */
    method ReplaceHeld(was: Ref, value: Ref, ghost held: multiset<Ref>, ghost others: Ref -> int)
      requires was in held && Accounts(held, others)
      modifies this
      ensures Accounts(held - multiset{was} + multiset{value}, others)
      ensures others(was) > 0 || was == NULL || was in builtin ==> destructed == old(destructed)
    {
      Replace(was, value);
      forall r ensures Balance(held - multiset{was} + multiset{value}, r) == others(r) {
        assert old(Balance(held, r)) == others(r);
      }
      assert Balance(held - multiset{was} + multiset{value}, was) == others(was);
    }
  }
}
