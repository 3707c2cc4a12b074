/** Lists of counted objects (objectlist, taglist) and lists of separately allocated values
    (mountSubscriptionList, resultlist). The linked list underneath belongs to the platform library; here it
    is the sequence of its elements. */
module Lists {
  import opened Counting
  import opened Store

  // ---- Lists of objects ------------------------------------------------------------------------------------

  /** The list with the first occurrence of `x` taken out. */
  function Without(items: seq<Ref>, x: Ref): seq<Ref> {
    if items == [] then [] else if items[0] == x then items[1..] else [items[0]] + Without(items[1..], x)
  }

  lemma {:induction false} WithoutMeaning(items: seq<Ref>, x: Ref)
    ensures multiset(Without(items, x)) == multiset(items) - multiset{x}
    ensures x !in items ==> Without(items, x) == items
  {
    if items != [] {
      assert items == [items[0]] + items[1..];
      if items[0] != x {
        WithoutMeaning(items[1..], x);
      }
    }
  }

  /** It is the first occurrence that goes, and everything else stays in order. */
  lemma {:induction false} WithoutFirst(items: seq<Ref>, x: Ref, i: nat)
    requires i < |items| && items[i] == x && x !in items[..i]
    ensures Without(items, x) == items[..i] + items[i + 1..]
  {
    if i > 0 {
      assert items[0] == items[..i][0];
      assert items[1..][..i - 1] == items[..i][1..];
      WithoutFirst(items[1..], x, i - 1);
    }
  }

  class ObjectList {
    var items: seq<Ref>

    constructor ()
      ensures items == []
    {
      items := [];
    }

    /** Every element is held by one claim. */
    ghost predicate Accounted(store: ObjectStore, others: Ref -> int)
      reads this, store
    {
      store.Accounts(multiset(items), others)
    }

    method Insert(element: Ref, store: ObjectStore, ghost others: Ref -> int)
      requires Accounted(store, others)
      modifies this, store
      ensures items == [element] + old(items) && Accounted(store, others)
      ensures store.destructed == old(store.destructed)
    {
      ghost var held := multiset(items);
      items := [element] + items;
      assert multiset(items) == held + multiset{element};
      ClaimElement(element, store, held, others);
    }

    method Append(element: Ref, store: ObjectStore, ghost others: Ref -> int)
      requires Accounted(store, others)
      modifies this, store
      ensures items == old(items) + [element] && Accounted(store, others)
      ensures store.destructed == old(store.destructed)
    {
      ghost var held := multiset(items);
      items := items + [element];
      assert multiset(items) == held + multiset{element};
      ClaimElement(element, store, held, others);
    }

    /** Releases the element whether or not it was in the list: claims are conserved exactly if it was, and
        otherwise somebody else's claim is given away. */
    method Remove(element: Ref, store: ObjectStore, ghost others: Ref -> int)
      requires Accounted(store, others)
      modifies this, store
      ensures items == Without(old(items), element)
      ensures element in old(items) || element == NULL || element in store.builtin <==> Accounted(store, others)
      ensures element !in old(items) ==>
                forall r :: store.Balance(multiset(items), r) == others(r) - store.Weight(multiset{element}, r)
      ensures store.destructed == old(store.destructed) +
                (if element != NULL && element !in store.builtin && store.Count(element) == 0 then {element} else {})
    {
      ghost var held := multiset(items);
      WithoutMeaning(items, element);
      items := Without(items, element);
      assert forall r :: store.Balance(held, r) == others(r);
      store.Release(element);
      RemovalBalance(store, held, element, others, old(store.counters));
    }

    /** The claim on the element goes to the caller; an empty list gives NULL. */
    method TakeFirst(store: ObjectStore, ghost others: Ref -> int) returns (element: Ref)
      requires Accounted(store, others)
      modifies this
      ensures old(items) == (if old(items) == [] then [] else [element] + items)
      ensures old(items) == [] ==> element == NULL && items == []
      ensures store.Accounts(multiset(items) + multiset{element}, others)
    {
      if items == [] {
        forall r ensures store.Balance(multiset{NULL}, r) == others(r) {
          assert store.Balance(multiset(items), r) == others(r);
        }
        assert multiset(items) + multiset{NULL} == multiset{NULL};
        return NULL;
      }
      element := items[0];
      assert items == [items[0]] + items[1..];
      assert multiset(items) == multiset(items[1..]) + multiset{element};
      items := items[1..];
    }

    method Clear(store: ObjectStore, ghost others: Ref -> int)
      requires Accounted(store, others)
      modifies this, store
      ensures items == [] && Accounted(store, others)
      ensures (forall o :: o in old(items) ==> Supported(store, o, others)) ==> store.destructed == old(store.destructed)
    {
      hide ObjectStore.Accounts;
      var i := 0;
      assert items[0..] == items;
      while i < |items|
        invariant i <= |items| && items == old(items)
        invariant store.Accounts(multiset(items[i..]), others)
        invariant (forall o :: o in old(items) ==> Supported(store, o, others)) ==> store.destructed == old(store.destructed)
      {
        assert items[i..] == [items[i]] + items[i + 1..];
        ReleaseElement(items[i], store, items[i + 1..], others);
        i := i + 1;
      }
      assert items[i..] == [];
      items := [];
    }

    /** The assign and update loops: clear, then append every new element. No object is destructed on the
        way if somebody else holds a claim on each old element. */
    method Assign(elements: seq<Ref>, store: ObjectStore, ghost others: Ref -> int)
      requires Accounted(store, others)
      modifies this, store
      ensures items == elements && Accounted(store, others)
      ensures (forall o :: o in old(items) ==> Supported(store, o, others)) ==> store.destructed == old(store.destructed)
    {
      Clear(store, others);
      var i := 0;
      while i < |elements|
        invariant i <= |elements| && items == elements[..i] && Accounted(store, others)
        invariant (forall o :: o in old(items) ==> Supported(store, o, others)) ==> store.destructed == old(store.destructed)
      {
        Append(elements[i], store, others);
        i := i + 1;
      }
    }
  }

  // ---- Runs on a list of objects ----------------------------------------------------------------------------

  datatype ObjectOp = InsertObject(o: Ref) | AppendObject(o: Ref) | RemoveObject(o: Ref) | TakeFirstObject | ClearObjects

  /** The list, what callers have taken out of it, and what was removed although it was not there. */
  datatype ObjectRun = ObjectRun(items: seq<Ref>, taken: seq<Ref>, absent: seq<Ref>)

  function ApplyToObjects(s: ObjectRun, op: ObjectOp): ObjectRun {
    match op
    case InsertObject(o) => s.(items := [o] + s.items)
    case AppendObject(o) => s.(items := s.items + [o])
    case RemoveObject(o) =>
      if o in s.items then s.(items := Without(s.items, o)) else s.(absent := s.absent + [o])
    case TakeFirstObject => if s.items == [] then s else s.(items := s.items[1..], taken := s.taken + [s.items[0]])
    case ClearObjects => s.(items := [])
  }

  function RunObjects(ops: seq<ObjectOp>, n: nat): ObjectRun
    requires n <= |ops|
  {
    if n == 0 then ObjectRun([], [], []) else ApplyToObjects(RunObjects(ops, n - 1), ops[n - 1])
  }

  /** The counter of every object is its start value, plus its occurrences in the list, plus those taken out,
      less the removals that did not find it. */
  ghost predicate Conserved(store: ObjectStore, s: ObjectRun, start: Ref -> int)
    reads store
  {
    forall r :: store.Count(r) ==
                start(r) + store.Weight(multiset(s.items), r) + store.Weight(multiset(s.taken), r)
                - store.Weight(multiset(s.absent), r)
  }

  /** The claims that are not the list's. */
  ghost function Elsewhere(store: ObjectStore, taken: seq<Ref>, absent: seq<Ref>, start: Ref -> int): Ref -> int {
    (r: Ref) => start(r) + store.Weight(multiset(taken), r) - store.Weight(multiset(absent), r)
  }

  lemma ConservedIsAccounted(store: ObjectStore, s: ObjectRun, start: Ref -> int)
    ensures Conserved(store, s, start) <==> store.Accounts(multiset(s.items), Elsewhere(store, s.taken, s.absent, start))
  {
    if Conserved(store, s, start) {
      forall r ensures store.Balance(multiset(s.items), r) == Elsewhere(store, s.taken, s.absent, start)(r) {
      }
    }
    if store.Accounts(multiset(s.items), Elsewhere(store, s.taken, s.absent, start)) {
      forall r ensures store.Count(r) ==
                       start(r) + store.Weight(multiset(s.items), r) + store.Weight(multiset(s.taken), r)
                       - store.Weight(multiset(s.absent), r)
      {
        assert store.Balance(multiset(s.items), r) == Elsewhere(store, s.taken, s.absent, start)(r);
      }
    }
  }

  /** One operation on the list in memory. */
  method StepObjects(list: ObjectList, ghost s: ObjectRun, op: ObjectOp, store: ObjectStore, ghost start: Ref -> int)
    requires list.items == s.items && Conserved(store, s, start)
    modifies list, store
    ensures list.items == ApplyToObjects(s, op).items && Conserved(store, ApplyToObjects(s, op), start)
  {
    ghost var others := Elsewhere(store, s.taken, s.absent, start);
    ghost var t := ApplyToObjects(s, op);
    ConservedIsAccounted(store, s, start);
    hide Conserved, ObjectStore.Accounts, Elsewhere;
    match op {
      case InsertObject(o) =>
        list.Insert(o, store, others);
      case AppendObject(o) =>
        list.Append(o, store, others);
      case RemoveObject(o) =>
        WithoutMeaning(s.items, o);
        list.Remove(o, store, others);
        if o !in s.items {
          AfterAbsent(store, s, o, start);
        }
      case TakeFirstObject =>
        var first := list.TakeFirst(store, others);
        if s.items != [] {
          AfterTaking(store, s, start);
        } else {
          assert multiset(list.items) + multiset{NULL} == multiset{NULL};
          AfterTakingNothing(store, others);
        }
      case ClearObjects =>
        list.Clear(store, others);
    }
    assert store.Accounts(multiset(t.items), Elsewhere(store, t.taken, t.absent, start));
    ConservedIsAccounted(store, t, start);
  }

  lemma AfterAbsent(store: ObjectStore, s: ObjectRun, o: Ref, start: Ref -> int)
    requires forall r :: store.Balance(multiset(s.items), r) ==
                         Elsewhere(store, s.taken, s.absent, start)(r) - store.Weight(multiset{o}, r)
    ensures store.Accounts(multiset(s.items), Elsewhere(store, s.taken, s.absent + [o], start))
  {
    assert multiset(s.absent + [o]) == multiset(s.absent) + multiset{o};
  }

  lemma AfterTaking(store: ObjectStore, s: ObjectRun, start: Ref -> int)
    requires s.items != []
    requires store.Accounts(multiset(s.items[1..]) + multiset{s.items[0]}, Elsewhere(store, s.taken, s.absent, start))
    ensures store.Accounts(multiset(s.items[1..]), Elsewhere(store, s.taken + [s.items[0]], s.absent, start))
  {
    var x := s.items[0];
    assert multiset(s.taken + [x]) == multiset(s.taken) + multiset{x};
    forall r ensures store.Balance(multiset(s.items[1..]), r) ==
                     Elsewhere(store, s.taken + [x], s.absent, start)(r)
    {
      assert store.Balance(multiset(s.items[1..]) + multiset{x}, r) == Elsewhere(store, s.taken, s.absent, start)(r);
    }
  }

  lemma AfterTakingNothing(store: ObjectStore, others: Ref -> int)
    requires store.Accounts(multiset{NULL}, others)
    ensures store.Accounts(multiset([]), others)
  {
    forall r ensures store.Balance(multiset([]), r) == others(r) {
      assert store.Balance(multiset{NULL}, r) == others(r);
    }
  }

  /** Reference conservation over any run of operations, with nulls and absent removals included: from an
      empty list and counters `start`. Where every removal finds its object nothing is lost. */
  method RunOnObjects(ops: seq<ObjectOp>, store: ObjectStore, ghost start: Ref -> int) returns (list: ObjectList)
    requires forall r :: store.Count(r) == start(r)
    modifies store
    ensures fresh(list) && list.items == RunObjects(ops, |ops|).items
    ensures Conserved(store, RunObjects(ops, |ops|), start)
  {
    list := new ObjectList();
    var i := 0;
    while i < |ops|
      invariant i <= |ops| && fresh(list)
      invariant list.items == RunObjects(ops, i).items
      invariant Conserved(store, RunObjects(ops, i), start)
    {
      StepObjects(list, RunObjects(ops, i), ops[i], store, start);
      i := i + 1;
    }
  }

  /** Somebody other than the list keeps the object alive. */
  predicate Supported(store: ObjectStore, o: Ref, others: Ref -> int) {
    others(o) > 0 || o == NULL || o in store.builtin
  }

  /** The guarded claim of insert and append. */
  method ClaimElement(element: Ref, store: ObjectStore, ghost held: multiset<Ref>, ghost others: Ref -> int)
    requires store.Accounts(held, others)
    modifies store
    ensures store.Accounts(held + multiset{element}, others)
    ensures store.destructed == old(store.destructed)
  {
    if element != NULL {
      store.ClaimHeld(element, held, others);
    } else {
      forall r ensures store.Balance(held + multiset{NULL}, r) == others(r) {
        assert store.Balance(held, r) == others(r);
      }
    }
  }

  /** One turn of the clearing loop. */
  method ReleaseElement(element: Ref, store: ObjectStore, ghost rest: seq<Ref>, ghost others: Ref -> int)
    requires store.Accounts(multiset([element] + rest), others)
    modifies store
    ensures store.Accounts(multiset(rest), others)
    ensures Supported(store, element, others) ==> store.destructed == old(store.destructed)
  {
    assert multiset([element] + rest) - multiset{element} == multiset(rest);
    store.ReleaseHeld(element, multiset([element] + rest), others);
    assert store.Balance(multiset(rest), element) == others(element);
  }

  lemma RemovalBalance(
    store: ObjectStore, held: multiset<Ref>, element: Ref, others: Ref -> int, before: map<Ref, int>)
    requires forall r :: (if r in before then before[r] else 0) - store.Weight(held, r) == others(r)
    requires forall r :: store.Count(r) == (if r in before then before[r] else 0) - store.Weight(multiset{element}, r)
    ensures element in held ==> store.Accounts(held - multiset{element}, others)
    ensures element !in held ==>
              && (store.Accounts(held - multiset{element}, others) <==> element == NULL || element in store.builtin)
              && forall r :: store.Balance(held - multiset{element}, r) == others(r) - store.Weight(multiset{element}, r)
  {
    forall r ensures store.Balance(held - multiset{element}, r) ==
                     others(r) - (if element in held then 0 else store.Weight(multiset{element}, r)) {
    }
    if element !in held && element != NULL && element !in store.builtin {
      assert store.Balance(held - multiset{element}, element) == others(element) - 1;
    }
  }

  // ---- Lists of values ---------------------------------------------------------------------------------------

  /** A list node in a block of its own, with the value copied into it. */
  datatype Node<T> = Node(block: nat, value: T)

  /** The list, the next unused block, and the nodes handed to callers and freed, in order; the value of a
      freed node has been deinitialised. */
  datatype ListState<T> = ListState(nodes: seq<Node<T>>, next: nat, handed: seq<Node<T>>, freed: seq<Node<T>>)

  datatype ListOp<T> = InsertValue(value: T) | AppendValue(value: T) | TakeFirstValue | ClearValues

  function Blocks<T>(nodes: seq<Node<T>>): (r: seq<nat>)
    ensures |r| == |nodes| && forall i :: 0 <= i < |nodes| ==> r[i] == nodes[i].block
  {
    seq(|nodes|, i requires 0 <= i < |nodes| => nodes[i].block)
  }

  function ValuesOf<T>(nodes: seq<Node<T>>): (r: seq<T>)
    ensures |r| == |nodes| && forall i :: 0 <= i < |nodes| ==> r[i] == nodes[i].value
  {
    seq(|nodes|, i requires 0 <= i < |nodes| => nodes[i].value)
  }

  function ApplyToList<T>(s: ListState<T>, op: ListOp<T>): ListState<T> {
    match op
    case InsertValue(v) => s.(nodes := [Node(s.next, v)] + s.nodes, next := s.next + 1)
    case AppendValue(v) => s.(nodes := s.nodes + [Node(s.next, v)], next := s.next + 1)
    case TakeFirstValue =>
      if s.nodes == [] then s else s.(nodes := s.nodes[1..], handed := s.handed + [s.nodes[0]])
    case ClearValues => s.(nodes := [], freed := s.freed + s.nodes)
  }

  function RunList<T>(ops: seq<ListOp<T>>): ListState<T> {
    if ops == [] then ListState([], 0, [], []) else ApplyToList(RunList(ops[..|ops| - 1]), ops[|ops| - 1])
  }

  /** What the operations mean for the values, with no memory in sight. */
  function RunValues<T>(ops: seq<ListOp<T>>): seq<T> {
    if ops == [] then []
    else
      var before := RunValues(ops[..|ops| - 1]);
      match ops[|ops| - 1]
      case InsertValue(v) => [v] + before
      case AppendValue(v) => before + [v]
      case TakeFirstValue => if before == [] then [] else before[1..]
      case ClearValues => []
  }

  /** A block is in the list, with a caller, or freed: in one place, once, if it was ever allocated. */
  predicate OnePlace<T>(s: ListState<T>, b: nat) {
    Times(Blocks(s.nodes), b) + Times(Blocks(s.handed), b) + Times(Blocks(s.freed), b) == if b < s.next then 1 else 0
  }

  lemma {:induction false} RunKeepsOnePlace<T>(ops: seq<ListOp<T>>, b: nat)
    ensures OnePlace(RunList(ops), b)
  {
    if ops != [] {
      var s := RunList(ops[..|ops| - 1]);
      RunKeepsOnePlace(ops[..|ops| - 1], b);
      OneStep(s, ops[|ops| - 1], b);
    }
  }

  lemma OneStep<T>(s: ListState<T>, op: ListOp<T>, b: nat)
    requires OnePlace(s, b)
    ensures OnePlace(ApplyToList(s, op), b)
  {
    var t := ApplyToList(s, op);
    match op
    case InsertValue(v) =>
      assert Blocks(t.nodes) == [s.next] + Blocks(s.nodes);
      TimesOfConcat([s.next], Blocks(s.nodes), b);
    case AppendValue(v) =>
      assert Blocks(t.nodes) == Blocks(s.nodes) + [s.next];
      TimesOfConcat(Blocks(s.nodes), [s.next], b);
    case TakeFirstValue =>
      if s.nodes != [] {
        assert Blocks(s.nodes) == [s.nodes[0].block] + Blocks(t.nodes);
        TimesOfConcat([s.nodes[0].block], Blocks(t.nodes), b);
        assert Blocks(t.handed) == Blocks(s.handed) + [s.nodes[0].block];
        TimesOfConcat(Blocks(s.handed), [s.nodes[0].block], b);
      }
    case ClearValues =>
      assert Blocks(t.freed) == Blocks(s.freed) + Blocks(s.nodes);
      TimesOfConcat(Blocks(s.freed), Blocks(s.nodes), b);
  }

  /** The list holds copies of the values in order. */
  lemma {:induction false} RunRefinesValues<T>(ops: seq<ListOp<T>>)
    ensures ValuesOf(RunList(ops).nodes) == RunValues(ops)
  {
    if ops != [] {
      RunRefinesValues(ops[..|ops| - 1]);
    }
  }

  /** How often the operations put a value into the list. */
  function Entered<T(==)>(ops: seq<ListOp<T>>, x: T): nat {
    if ops == [] then 0
    else
      var op := ops[|ops| - 1];
      Entered(ops[..|ops| - 1], x) + (if op == InsertValue(x) || op == AppendValue(x) then 1 else 0)
  }

  /** How many nodes carry a value. */
  function Copies<T(==)>(nodes: seq<Node<T>>, x: T): nat {
    if nodes == [] then 0 else (if nodes[0].value == x then 1 else 0) + Copies(nodes[1..], x)
  }

  lemma {:induction false} CopiesOfConcat<T>(a: seq<Node<T>>, b: seq<Node<T>>, x: T)
    ensures Copies(a + b, x) == Copies(a, x) + Copies(b, x)
  {
    if a == [] {
      assert a + b == b;
    } else {
      assert (a + b)[1..] == a[1..] + b;
      CopiesOfConcat(a[1..], b, x);
    }
  }

  /** Every value that entered the list is in it, with a caller, or was deinitialised with its node, once for
      each time it entered. */
  lemma {:induction false} ValuesConserved<T>(ops: seq<ListOp<T>>, x: T)
    ensures var s := RunList(ops);
            Copies(s.nodes, x) + Copies(s.handed, x) + Copies(s.freed, x) == Entered(ops, x)
  {
    if ops != [] {
      var s := RunList(ops[..|ops| - 1]);
      ValuesConserved(ops[..|ops| - 1], x);
      match ops[|ops| - 1]
      case InsertValue(v) => CopiesOfConcat([Node(s.next, v)], s.nodes, x);
      case AppendValue(v) => CopiesOfConcat(s.nodes, [Node(s.next, v)], x);
      case TakeFirstValue =>
        if s.nodes != [] {
          CopiesOfConcat(s.handed, [s.nodes[0]], x);
        }
      case ClearValues => CopiesOfConcat(s.freed, s.nodes, x);
    }
  }

  class ValueList<T> {
    var nodes: seq<Node<T>>
    var next: nat
    var handed: seq<Node<T>>
    var freed: seq<Node<T>>

    constructor ()
      ensures Abstract() == RunList([])
    {
      nodes, next, handed, freed := [], 0, [], [];
    }

    function Abstract(): ListState<T>
      reads this
    {
      ListState(nodes, next, handed, freed)
    }

    /** Allocates and zeroes a node, links it in at the front, then copies the element into it. */
    method Insert(blank: T, element: T)
      modifies this
      ensures Abstract() == ApplyToList(old(Abstract()), InsertValue(element))
    {
      nodes := [Node(next, blank)] + nodes;
      next := next + 1;
      nodes := nodes[0 := nodes[0].(value := element)];
    }

    method Append(blank: T, element: T)
      modifies this
      ensures Abstract() == ApplyToList(old(Abstract()), AppendValue(element))
    {
      nodes := nodes + [Node(next, blank)];
      next := next + 1;
      nodes := nodes[|nodes| - 1 := nodes[|nodes| - 1].(value := element)];
    }

    /** The caller gets the node and with it the duty to free it. */
    method TakeFirst() returns (node: Option<Node<T>>)
      modifies this
      ensures Abstract() == ApplyToList(old(Abstract()), TakeFirstValue)
      ensures node == if old(nodes) == [] then None else Some(old(nodes)[0])
    {
      if nodes == [] {
        return None;
      }
      node := Some(nodes[0]);
      handed := handed + [nodes[0]];
      nodes := nodes[1..];
    }

    /** Deinitialises and frees node after node, then drops the links. */
    method Clear()
      modifies this
      ensures Abstract() == ApplyToList(old(Abstract()), ClearValues)
    {
      var i := 0;
      while i < |nodes|
        invariant i <= |nodes| && nodes == old(nodes) && next == old(next) && handed == old(handed)
        invariant freed == old(freed) + nodes[..i]
      {
        freed := freed + [nodes[i]];
        i := i + 1;
      }
      nodes := [];
    }
  }
}
