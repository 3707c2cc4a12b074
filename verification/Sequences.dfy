/** Growable sequences that own their elements (parameterseq, interfaceVectorseq): buffers that are
    reallocated and written in place, against a ledger of every element ever initialised. */
module Sequences {
  import opened Counting
  import opened Sizes

  /** What a slot of the buffer holds: zeroed storage, an initialised element with an identity, or whatever
      reallocation left there. */
  datatype Slot = Zero | Live(id: nat) | Stale

  function Zeros(n: nat): (r: seq<Slot>)
    ensures |r| == n
  {
    seq(n, i => Zero)
  }

  // ---- The sequence as a mathematical object -----------------------------------------------------------

  /** Contents, the next element identity, and the identities deinitialised, in order. */
  datatype State = State(contents: seq<Slot>, next: nat, gone: seq<nat>)

  datatype Op = Append | AppendAlloc | Assign(index: nat) | Resize(length: nat)

  /** The identities of the elements in a stretch of slots. */
  function Ids(s: seq<Slot>): seq<nat> {
    if s == [] then []
    else Ids(s[..|s| - 1]) + (if s[|s| - 1].Live? then [s[|s| - 1].id] else [])
  }

  /** Appending copies a new element in; append_alloc leaves a zeroed slot, which the caller may assign
      through the pointer it gets; resizing drops the tail or adds zeroed slots. */
  function Apply(s: State, op: Op): State {
    match op
    case Append => State(s.contents + [Live(s.next)], s.next + 1, s.gone)
    case AppendAlloc => s.(contents := s.contents + [Zero])
    case Assign(i) =>
      if i < |s.contents| && s.contents[i].Zero? then State(s.contents[i := Live(s.next)], s.next + 1, s.gone) else s
    case Resize(n) =>
      if n < |s.contents| then s.(contents := s.contents[..n], gone := s.gone + Ids(s.contents[n..]))
      else s.(contents := s.contents + Zeros(n - |s.contents|))
  }

  function Run(ops: seq<Op>): State {
    if ops == [] then State([], 0, []) else Apply(Run(ops[..|ops| - 1]), ops[|ops| - 1])
  }

  /** What the operations do to a sequence, slot by slot: resizing keeps every slot that fits, drops the rest in
      order into the ledger and fills up with zeroed slots; appending keeps all; only a zeroed slot can be
      assigned, and no other slot changes then. */
  lemma ApplyMeaning(s: State, op: Op, i: nat)
    ensures var t := Apply(s, op);
            match op
            case Resize(n) =>
              && |t.contents| == n && t.next == s.next
              && (i < n ==> t.contents[i] == if i < |s.contents| then s.contents[i] else Zero)
              && t.gone == s.gone + (if n < |s.contents| then Ids(s.contents[n..]) else [])
            case Assign(k) =>
              && |t.contents| == |s.contents| && t.gone == s.gone
              && (i < |s.contents| ==>
                    t.contents[i] == if i == k && s.contents[i] == Zero then Live(s.next) else s.contents[i])
            case _ =>
              && |t.contents| == |s.contents| + 1 && t.gone == s.gone
              && (i < |s.contents| ==> t.contents[i] == s.contents[i])
              && t.contents[|s.contents|] == (if op == Append then Live(s.next) else Zero)
  {
  }

  /** An element ever initialised is in exactly one place: in the sequence once, or deinitialised once. */
  predicate ConservedFor(s: State, id: nat) {
    Times(Ids(s.contents), id) + Times(s.gone, id) == if id < s.next then 1 else 0
  }

  lemma {:induction false} IdsOfConcat(a: seq<Slot>, b: seq<Slot>)
    ensures Ids(a + b) == Ids(a) + Ids(b)
  {
    if b == [] {
      assert a + b == a;
    } else {
      var init, last := b[..|b| - 1], b[|b| - 1];
      IdsOfConcat(a, init);
      assert (a + b)[..|a + b| - 1] == a + init;
    }
  }

  lemma {:induction false} ZerosHoldNothing(n: nat)
    ensures Ids(Zeros(n)) == []
  {
    if n > 0 {
      ZerosHoldNothing(n - 1);
      assert Zeros(n)[..n - 1] == Zeros(n - 1);
    }
  }

  lemma IdsOfOne(x: Slot)
    ensures Ids([x]) == if x.Live? then [x.id] else []
  {
    assert [x][..0] == [];
  }

  /** Counting the elements of two stretches. */
  lemma TimesOfStretches(a: seq<Slot>, b: seq<Slot>, id: nat)
    ensures Times(Ids(a + b), id) == Times(Ids(a), id) + Times(Ids(b), id)
  {
    IdsOfConcat(a, b);
    TimesOfConcat(Ids(a), Ids(b), id);
  }

  lemma TimesOfSlot(x: Slot, id: nat)
    ensures Times(Ids([x]), id) == if x == Live(id) then 1 else 0
  {
    IdsOfOne(x);
  }

  lemma AssignConserves(contents: seq<Slot>, i: nat, next: nat, id: nat)
    requires i < |contents| && contents[i].Zero?
    ensures Times(Ids(contents[i := Live(next)]), id) == Times(Ids(contents), id) + (if id == next then 1 else 0)
  {
    var before, after := contents[..i], contents[i + 1..];
    assert contents == (before + [Zero]) + after;
    assert contents[i := Live(next)] == (before + [Live(next)]) + after;
    TimesOfStretches(before + [Zero], after, id);
    TimesOfStretches(before + [Live(next)], after, id);
    TimesOfStretches(before, [Zero], id);
    TimesOfStretches(before, [Live(next)], id);
    TimesOfSlot(Zero, id);
    TimesOfSlot(Live(next), id);
  }

  lemma ApplyConserves(s: State, op: Op, id: nat)
    requires ConservedFor(s, id)
    ensures ConservedFor(Apply(s, op), id)
  {
    match op
    case Append => TimesOfStretches(s.contents, [Live(s.next)], id); TimesOfSlot(Live(s.next), id);
    case AppendAlloc => TimesOfStretches(s.contents, [Zero], id); TimesOfSlot(Zero, id);
    case Assign(i) =>
      if i < |s.contents| && s.contents[i].Zero? {
        AssignConserves(s.contents, i, s.next, id);
      }
    case Resize(n) =>
      if n < |s.contents| {
        assert s.contents == s.contents[..n] + s.contents[n..];
        TimesOfStretches(s.contents[..n], s.contents[n..], id);
        TimesOfConcat(s.gone, Ids(s.contents[n..]), id);
      } else {
        TimesOfStretches(s.contents, Zeros(n - |s.contents|), id);
        ZerosHoldNothing(n - |s.contents|);
      }
  }

  /** Over any run of operations, no element is lost and none is deinitialised twice. */
  lemma {:induction false} RunConserves(ops: seq<Op>, id: nat)
    ensures ConservedFor(Run(ops), id)
  {
    if ops != [] {
      RunConserves(ops[..|ops| - 1], id);
      ApplyConserves(Run(ops[..|ops| - 1]), ops[|ops| - 1], id);
    }
  }

  /** Clearing at the end of any run has deinitialised every element exactly once. */
  lemma ClearedLeavesNothing(ops: seq<Op>, id: nat)
    ensures var s := Apply(Run(ops), Resize(0));
            s.contents == [] && Times(s.gone, id) == if id < s.next then 1 else 0
  {
    RunConserves(ops, id);
    ApplyConserves(Run(ops), Resize(0), id);
    assert Ids([]) == [];
  }

  // ---- The sequence in memory ----------------------------------------------------------------------------

  class OwningSeq {
    var length: nat
    var buffer: array<Slot>
    var next: nat
    var gone: seq<nat>

    constructor ()
      ensures Valid() && fresh(buffer) && Abstract() == Run([])
    {
      length, next, gone := 0, 0, [];
      buffer := new Slot[0];
    }

    ghost predicate Valid()
      reads this, buffer
    {
      && length == buffer.Length
      && forall i :: 0 <= i < length ==> !buffer[i].Stale?
    }

    function Abstract(): State
      reads this, buffer
    {
      State(buffer[..], next, gone)
    }

    /** corto_realloc: the common prefix survives, slots behind it hold anything. */
    method Realloc(n: nat)
      modifies this`buffer
      ensures fresh(buffer) && buffer.Length == n
      ensures forall i :: 0 <= i < n && i < old(buffer.Length) ==> buffer[i] == old(buffer[i])
    {
      var was := buffer;
      var grown := new Slot[n](i reads was => if 0 <= i < was.Length then was[i] else Stale);
      buffer := grown;
    }

    /** corto_ptr_deinit on a slot: nothing to do for zeroed storage (Releasing.ZeroDeinit), and complete for
        the elements of these sequences (Releasing.ElementsReleasable). */
    method Deinit(i: nat)
      requires i < buffer.Length && !buffer[i].Stale?
      modifies this`gone
      ensures gone == old(gone) + Ids([buffer[i]])
    {
      IdsOfOne(buffer[i]);
      if buffer[i].Live? {
        gone := gone + [buffer[i].id];
      }
    }

    method AppendElement()
      requires Valid() && length + 1 < U32
      modifies this, buffer
      ensures Valid() && fresh(buffer)
      ensures Abstract() == Apply(old(Abstract()), Append)
    {
      AppendAllocated();
      // Copying the element into the zeroed slot initialises it.
      buffer[length - 1] := Live(next);
      next := next + 1;
      assert buffer[..] == old(buffer[..]) + [Live(old(next))];
    }

    method AppendAllocated()
      requires Valid() && length + 1 < U32
      modifies this
      ensures Valid() && fresh(buffer) && length == old(length) + 1
      ensures Abstract() == Apply(old(Abstract()), AppendAlloc)
    {
      length := length + 1;
      Realloc(length);
      buffer[length - 1] := Zero;
      assert buffer[..] == old(buffer[..]) + [Zero];
    }

    method ResizeTo(n: nat)
      requires Valid() && n < U32
      modifies this
      ensures Valid() && fresh(buffer)
      ensures Abstract() == Apply(old(Abstract()), Resize(n))
    {
      ghost var was := buffer[..];
      if n < length {
        DeinitFrom(n);
      }
      Realloc(n);
      if n > length {
        ZeroFrom(length);
        // Growth deinitialises the slots it has just zeroed.
        var i := length;
        while i < n
          modifies this`gone
          invariant length <= i <= n
          invariant gone == old(gone)
        {
          IdsOfOne(Zero);
          Deinit(i);
          i := i + 1;
        }
      }
      length := n;
      assert buffer[..] == if n < |was| then was[..n] else was + Zeros(n - |was|);
    }

    /** Deinitialises the elements from `n` on, in order. */
    method DeinitFrom(n: nat)
      requires Valid() && n <= length
      modifies this`gone
      ensures gone == old(gone) + Ids(buffer[n..])
    {
      var i := n;
      assert buffer[n..n] == [];
      while i < length
        invariant n <= i <= length
        invariant gone == old(gone) + Ids(buffer[n..i])
      {
        Deinit(i);
        IdsOfConcat(buffer[n..i], [buffer[i]]);
        assert buffer[n..i + 1] == buffer[n..i] + [buffer[i]];
        i := i + 1;
      }
      assert buffer[n..i] == buffer[n..];
    }

    /** memset over the slots from `from` on. */
    method ZeroFrom(from: nat)
      requires from <= buffer.Length
      modifies buffer
      ensures forall i :: 0 <= i < buffer.Length ==> buffer[i] == if i < from then old(buffer[i]) else Zero
    {
      var i := from;
      while i < buffer.Length
        invariant from <= i <= buffer.Length
        invariant forall j :: 0 <= j < buffer.Length ==> buffer[j] == if from <= j < i then Zero else old(buffer[j])
      {
        buffer[i] := Zero;
        i := i + 1;
      }
    }

    method Clear()
      requires Valid()
      modifies this
      ensures Valid() && fresh(buffer)
      ensures Abstract() == Apply(old(Abstract()), Resize(0))
    {
      ResizeTo(0);
    }
  }
}
