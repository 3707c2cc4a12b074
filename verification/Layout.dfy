/** Where values live: sizes and alignments of types, offsets of struct members, and offsets of elements in
    nested arrays. Sizes are uint32 in the runtime; pointers are 8 bytes wide. */
module Layout {
  import opened Sizes

  function Wrap(n: nat): (r: nat)
    ensures r < U32 && (n < U32 ==> r == n)
  {
    n % U32
  }

  /** CORTO_ALIGN: the next multiple of `a`. */
  function Align(n: nat, a: nat): nat
    requires a > 0
  {
    (n + a - 1) / a * a
  }

  lemma AlignMeaning(n: nat, a: nat)
    requires a > 0
    ensures n <= Align(n, a) < n + a && Align(n, a) % a == 0
  {
    var q := (n + a - 1) / a;
    assert n + a - 1 == q * a + (n + a - 1) % a;
    MultipleMod(q, a);
  }

  lemma MultipleMod(q: nat, a: nat)
    requires a > 0
    ensures (q * a) % a == 0
  {
    ModUnique(q, 0, a);
  }

  /** Quotient and remainder are unique. */
  lemma ModUnique(q: int, r: nat, a: nat)
    requires r < a
    ensures (q * a + r) / a == q && (q * a + r) % a == r
  {
    var n := q * a + r;
    var d, m := n / a, n % a;
    assert n == d * a + m;
    assert (d - q) * a == r - m;
    SmallestMultiples(d - q, a);
  }

  lemma SmallestMultiples(k: int, a: nat)
    ensures k > 0 ==> k * a >= a
    ensures k < 0 ==> k * a + a <= 0
  {
    if k > 0 {
      NonNegative(k - 1, a);
    } else if k < 0 {
      NonNegative(-k - 1, a);
    }
  }

  lemma NonNegative(x: nat, y: nat)
    ensures 0 <= x * y
  {
  }

  // ---- Struct members ----------------------------------------------------------------------------------

  /** What the layout loop reads of a member: the size and alignment of its type, and whether the member is
      stored as a pointer because it is optional or observable. */
  datatype MemberInfo = MemberInfo(size: nat, alignment: nat, byPointer: bool)

  function StoredSize(m: MemberInfo): nat {
    if m.byPointer then ADDRESS_SIZE else m.size
  }

  /** Neither of the loop's error exits is taken. */
  predicate Sizable(ms: seq<MemberInfo>) {
    forall i :: 0 <= i < |ms| ==> StoredSize(ms[i]) > 0 && ms[i].alignment > 0
  }

  /** First byte behind member `n - 1`, starting from the size of the base type. */
  function EndOffset(ms: seq<MemberInfo>, start: nat, n: nat): nat
    requires n <= |ms| && Sizable(ms)
    decreases n, 0
  {
    if n == 0 then start else Offset(ms, start, n - 1) + StoredSize(ms[n - 1])
  }

  /** The member is aligned as its type asks, also if a pointer is stored. */
  function Offset(ms: seq<MemberInfo>, start: nat, i: nat): nat
    requires i < |ms| && Sizable(ms)
    decreases i, 1
  {
    Align(EndOffset(ms, start, i), ms[i].alignment)
  }

  /** corto__interface_calculateSize; a result of 0 reports an error, or is
      the size of an empty struct without base. Arithmetic wraps at 32 bits, and is
      exact when the unbounded end of the struct still fits. */
  method CalculateSize(ms: seq<MemberInfo>, start: nat, interfaceAlignment: nat) returns (size: nat, offsets: seq<nat>)
    requires start < U32
    ensures Sizable(ms) && interfaceAlignment > 0 && Align(EndOffset(ms, start, |ms|), interfaceAlignment) < U32 ==>
              && size == Align(EndOffset(ms, start, |ms|), interfaceAlignment)
              && |offsets| == |ms| && forall i :: 0 <= i < |ms| ==> offsets[i] == Offset(ms, start, i)
    ensures !Sizable(ms) || interfaceAlignment == 0 ==> size == 0
    ensures Sizable(ms) && interfaceAlignment > 0 && Align(EndOffset(ms, start, |ms|), interfaceAlignment) < U32 ==>
              (size == 0 <==> ms == [] && start == 0)
  {
    hide Align;
    size := start;
    offsets := [];
    var i := 0;
    while i < |ms|
      invariant i <= |ms| && Sizable(ms[..i]) && |offsets| == i
      invariant Sizable(ms) && EndOffset(ms, start, i) < U32 ==>
                  size == EndOffset(ms, start, i) && forall j :: 0 <= j < i ==> offsets[j] == Offset(ms, start, j)
    {
      var memberSize := StoredSize(ms[i]);
      if memberSize == 0 || ms[i].alignment == 0 {
        return 0, offsets;
      }
      if Sizable(ms) {
        AlignMeaning(EndOffset(ms, start, i), ms[i].alignment);
      }
      size := Wrap(Align(size, ms[i].alignment));
      offsets := offsets + [size];
      size := Wrap(size + memberSize);
      i := i + 1;
    }
    if interfaceAlignment == 0 {
      return 0, offsets;
    }
    if Sizable(ms) {
      AlignMeaning(EndOffset(ms, start, |ms|), interfaceAlignment);
    }
    size := Wrap(Align(size, interfaceAlignment));
    if Sizable(ms) {
      EmptySize(ms, start, interfaceAlignment);
    }
  }

  lemma EmptySize(ms: seq<MemberInfo>, start: nat, interfaceAlignment: nat)
    requires Sizable(ms) && interfaceAlignment > 0
    ensures Align(EndOffset(ms, start, |ms|), interfaceAlignment) == 0 <==> ms == [] && start == 0
  {
    hide Align;
    AlignMeaning(EndOffset(ms, start, |ms|), interfaceAlignment);
    if ms == [] && start == 0 {
      SmallestMultiples(Align(0, interfaceAlignment) / interfaceAlignment, interfaceAlignment);
    }
  }

  lemma {:induction false} EndGrows(ms: seq<MemberInfo>, start: nat, i: nat, j: nat)
    requires i <= j <= |ms| && Sizable(ms)
    ensures EndOffset(ms, start, i) <= EndOffset(ms, start, j)
    decreases j
  {
    if i < j {
      EndGrows(ms, start, i, j - 1);
      AlignMeaning(EndOffset(ms, start, j - 1), ms[j - 1].alignment);
    }
  }

  /** Members lie behind the base, in order, without overlap, inside the struct, each aligned for its type and
      as wide as a pointer where it is stored by pointer. */
  lemma LayoutSound(ms: seq<MemberInfo>, start: nat, interfaceAlignment: nat, i: nat, j: nat)
    requires Sizable(ms) && interfaceAlignment > 0 && i <= j < |ms|
    ensures start <= Offset(ms, start, i) && Offset(ms, start, i) % ms[i].alignment == 0
    ensures i < j ==> Offset(ms, start, i) + (if ms[i].byPointer then ADDRESS_SIZE else ms[i].size) <= Offset(ms, start, j)
    ensures Offset(ms, start, j) + (if ms[j].byPointer then ADDRESS_SIZE else ms[j].size)
            <= Align(EndOffset(ms, start, |ms|), interfaceAlignment)
    ensures Align(EndOffset(ms, start, |ms|), interfaceAlignment) % interfaceAlignment == 0
  {
    hide Align;
    EndGrows(ms, start, 0, i);
    if i < j {
      EndGrows(ms, start, i + 1, j);
    }
    EndGrows(ms, start, j + 1, |ms|);
    AlignMeaning(EndOffset(ms, start, i), ms[i].alignment);
    AlignMeaning(EndOffset(ms, start, j), ms[j].alignment);
    AlignMeaning(EndOffset(ms, start, |ms|), interfaceAlignment);
  }

  /** First byte behind the member before `i`, said by the offsets alone. */
  function EndBefore(ms: seq<MemberInfo>, start: nat, i: nat): nat
    requires i <= |ms| && Sizable(ms)
  {
    if i == 0 then start
    else Offset(ms, start, i - 1) + (if ms[i - 1].byPointer then ADDRESS_SIZE else ms[i - 1].size)
  }

  /** No space is wasted: a member starts less than its alignment behind the end of the one before, and the
      struct ends less than its alignment behind the last. With LayoutSound this leaves one layout. */
  lemma LayoutTight(ms: seq<MemberInfo>, start: nat, interfaceAlignment: nat, i: nat)
    requires Sizable(ms) && interfaceAlignment > 0 && i <= |ms|
    ensures i < |ms| ==> EndBefore(ms, start, i) <= Offset(ms, start, i) < EndBefore(ms, start, i) + ms[i].alignment
    ensures EndBefore(ms, start, |ms|) <= Align(EndOffset(ms, start, |ms|), interfaceAlignment)
                                       < EndBefore(ms, start, |ms|) + interfaceAlignment
  {
    hide Align;
    if i < |ms| {
      AlignMeaning(EndOffset(ms, start, i), ms[i].alignment);
    }
    AlignMeaning(EndOffset(ms, start, |ms|), interfaceAlignment);
  }

  /** How wide the type of a member stored by pointer is makes no difference. */
  lemma {:induction false} PointerHidesSize(ms: seq<MemberInfo>, start: nat, k: nat, size: nat, n: nat)
    requires Sizable(ms) && k < |ms| && ms[k].byPointer && n <= |ms|
    ensures Sizable(ms[k := ms[k].(size := size)])
    ensures EndOffset(ms[k := ms[k].(size := size)], start, n) == EndOffset(ms, start, n)
    ensures n < |ms| ==> Offset(ms[k := ms[k].(size := size)], start, n) == Offset(ms, start, n)
  {
    hide Align;
    if n > 0 {
      PointerHidesSize(ms, start, k, size, n - 1);
    }
  }

  /** corto__interface_calculateAlignment: pointers for members stored by pointer, else the type's own; the
      largest wins, and 0 reports a member without alignment. */
  method CalculateAlignment(ms: seq<MemberInfo>) returns (alignment: nat)
    ensures (exists i :: 0 <= i < |ms| && !ms[i].byPointer && ms[i].alignment == 0) ==> alignment == 0
    ensures (forall i :: 0 <= i < |ms| ==> ms[i].byPointer || ms[i].alignment > 0) ==>
              && (forall i :: 0 <= i < |ms| ==> SlotAlignment(ms[i]) <= alignment)
              && (ms != [] ==> exists i :: 0 <= i < |ms| && SlotAlignment(ms[i]) == alignment)
  {
    alignment := 0;
    var i := 0;
    ghost var widest := 0;
    while i < |ms|
      invariant i <= |ms|
      invariant forall j :: 0 <= j < i ==> 0 < SlotAlignment(ms[j]) <= alignment
      invariant i == 0 ==> alignment == 0
      invariant i > 0 ==> 0 <= widest < i && SlotAlignment(ms[widest]) == alignment
    {
      var a := if ms[i].byPointer then ADDRESS_SIZE else ms[i].alignment;
      if a == 0 {
        return 0;
      }
      if a > alignment {
        alignment := a;
        widest := i;
      }
      assert a == SlotAlignment(ms[i]);
      i := i + 1;
    }
  }

  function SlotAlignment(m: MemberInfo): nat {
    if m.byPointer then ADDRESS_SIZE else m.alignment
  }

  /** The alignments machines have. */
  predicate PowerOfTwo(a: nat) {
    a == 1 || (a > 0 && a % 2 == 0 && PowerOfTwo(a / 2))
  }

  lemma {:induction false} SmallerDivides(a: nat, b: nat)
    requires PowerOfTwo(a) && PowerOfTwo(b) && a <= b
    ensures b % a == 0
  {
    if a > 1 {
      SmallerDivides(a / 2, b / 2);
      var k := (b / 2) / (a / 2);
      assert b / 2 == k * (a / 2);
      assert b == k * a;
      MultipleMod(k, a);
    }
  }

  lemma MultiplesAdd(x: nat, y: nat, a: nat)
    requires a > 0 && x % a == 0 && y % a == 0
    ensures (x + y) % a == 0
  {
    var p, q := x / a, y / a;
    assert x + y == (p + q) * a;
    MultipleMod(p + q, a);
  }

  lemma MultipleOfMultiple(k: nat, x: nat, a: nat)
    requires a > 0 && x % a == 0
    ensures (k * x) % a == 0
  {
    var q := x / a;
    assert k * x == (k * q) * a;
    MultipleMod(k * q, a);
  }

  /** Members stay aligned in every element of an array of structs that starts at an aligned address. */
  lemma ElementsAligned(ms: seq<MemberInfo>, start: nat, interfaceAlignment: nat, address: nat, k: nat, i: nat)
    requires Sizable(ms) && i < |ms| && !ms[i].byPointer
    requires PowerOfTwo(interfaceAlignment) && PowerOfTwo(ms[i].alignment) && ms[i].alignment <= interfaceAlignment
    requires address % interfaceAlignment == 0
    ensures interfaceAlignment > 0
    ensures var size := Align(EndOffset(ms, start, |ms|), interfaceAlignment);
            (address + k * size + Offset(ms, start, i)) % ms[i].alignment == 0
  {
    hide Align, EndOffset;
    var a := ms[i].alignment;
    var size := Align(EndOffset(ms, start, |ms|), interfaceAlignment);
    AlignMeaning(EndOffset(ms, start, |ms|), interfaceAlignment);
    AlignMeaning(EndOffset(ms, start, i), a);
    SmallerDivides(a, interfaceAlignment);
    Divides(address, interfaceAlignment, a);
    Divides(size, interfaceAlignment, a);
    MultipleOfMultiple(k, size, a);
    MultiplesAdd(address, k * size, a);
    MultiplesAdd(address + k * size, Offset(ms, start, i), a);
  }

  lemma Divides(n: nat, b: nat, a: nat)
    requires a > 0 && b > 0 && n % b == 0 && b % a == 0
    ensures n % a == 0
  {
    MultipleOfMultiple(n / b, b, a);
  }

  /** A member stored by pointer is placed by the alignment of its type: its pointer is aligned wherever
      the preceding members end exactly if that alignment is itself a multiple of the pointer's. */
  lemma PointerSlotAligned(a: nat)
    requires a > 0
    ensures (forall start: nat :: Align(start, a) % ADDRESS_SIZE == 0) <==> a % ADDRESS_SIZE == 0
  {
    if a % ADDRESS_SIZE == 0 {
      forall start: nat ensures Align(start, a) % ADDRESS_SIZE == 0 {
        AlignMeaning(start, a);
        Divides(Align(start, a), a, ADDRESS_SIZE);
      }
    } else {
      AlignMeaning(1, a);
      AlignedOne(a);
    }
  }

  lemma AlignedOne(a: nat)
    requires a > 0
    ensures Align(1, a) == a
  {
    ModUnique(1, 0, a);
  }

  // ---- Nested arrays -----------------------------------------------------------------------------------

  /** Size of the element type and array bounds from the outside in. */
  function SizeOfArray(base: nat, bounds: seq<nat>): nat {
    if bounds == [] then base else Wrap(SizeOfArray(base, bounds[1..]) * bounds[0])
  }

  function Product(bounds: seq<nat>): nat {
    if bounds == [] then 1 else bounds[0] * Product(bounds[1..])
  }

  /** Array size as constructed level by level, each level wrapping, is the product of all bounds times the
      base size, wrapped once: exact if and only if that product fits in 32 bits. */
  lemma {:induction false} NestedArraySize(base: nat, bounds: seq<nat>)
    requires base < U32
    ensures SizeOfArray(base, bounds) == (Product(bounds) * base) % U32
    ensures SizeOfArray(base, bounds) == Product(bounds) * base <==> Product(bounds) * base < U32
  {
    if bounds == [] {
    } else {
      var inner := Product(bounds[1..]) * base;
      NestedArraySize(base, bounds[1..]);
      WrapTimes(inner, bounds[0]);
      assert Product(bounds) * base == inner * bounds[0] by {
        Reorder(bounds[0], Product(bounds[1..]), base);
      }
    }
  }

  lemma Reorder(a: nat, b: nat, c: nat)
    ensures (a * b) * c == (b * c) * a
  {
  }

  lemma WrapTimes(n: nat, k: nat)
    ensures Wrap(Wrap(n) * k) == Wrap(n * k)
  {
    var q := n / U32;
    var r := n % U32;
    assert n * k == (q * k) * U32 + r * k;
    var p := r * k / U32;
    var s := r * k % U32;
    assert n * k == (q * k + p) * U32 + s;
    ModUnique(q * k + p, s, U32);
  }

  /** An index for every level, each within its bound. */
  predicate InBounds(path: seq<nat>, bounds: seq<nat>) {
    |path| == |bounds| && forall i :: 0 <= i < |path| ==> path[i] < bounds[i]
  }

  /** Where an element starts. */
  function ElementOffset(base: nat, bounds: seq<nat>, path: seq<nat>): nat
    requires |path| == |bounds|
  {
    if path == [] then 0
    else path[0] * (Product(bounds[1..]) * base) + ElementOffset(base, bounds[1..], path[1..])
  }

  lemma NextRow(x: nat, y: nat, stride: nat)
    requires x < y
    ensures x * stride + stride <= y * stride
  {
    SmallestMultiples(y - x, stride);
    assert (y - x) * stride == y * stride - x * stride;
  }

  lemma {:induction false} ElementInside(base: nat, bounds: seq<nat>, path: seq<nat>)
    requires InBounds(path, bounds)
    ensures ElementOffset(base, bounds, path) + base <= Product(bounds) * base
  {
    if path != [] {
      ElementInside(base, bounds[1..], path[1..]);
      NextRow(path[0], bounds[0], Product(bounds[1..]) * base);
      Reorder(bounds[0], Product(bounds[1..]), base);
    }
  }

  lemma {:induction false} ElementAligned(base: nat, alignment: nat, bounds: seq<nat>, path: seq<nat>)
    requires InBounds(path, bounds) && alignment > 0 && base % alignment == 0
    ensures ElementOffset(base, bounds, path) % alignment == 0
  {
    if path != [] {
      hide Product;
      ElementAligned(base, alignment, bounds[1..], path[1..]);
      MultipleOfMultiple(Product(bounds[1..]), base, alignment);
      MultipleOfMultiple(path[0], Product(bounds[1..]) * base, alignment);
      MultiplesAdd(path[0] * (Product(bounds[1..]) * base), ElementOffset(base, bounds[1..], path[1..]), alignment);
    }
  }

  /** Everything under a smaller first index lies before everything under a larger one. */
  lemma RowsInOrder(base: nat, bounds: seq<nat>, p: seq<nat>, q: seq<nat>)
    requires InBounds(p, bounds) && InBounds(q, bounds) && bounds != [] && p[0] < q[0]
    ensures ElementOffset(base, bounds, p) + base <= ElementOffset(base, bounds, q)
  {
    hide Product;
    ElementInside(base, bounds[1..], p[1..]);
    NextRow(p[0], q[0], Product(bounds[1..]) * base);
  }

  /** Two different elements do not overlap. */
  lemma {:induction false} ElementsDisjoint(base: nat, bounds: seq<nat>, p: seq<nat>, q: seq<nat>)
    requires InBounds(p, bounds) && InBounds(q, bounds) && p != q
    ensures var a, b := ElementOffset(base, bounds, p), ElementOffset(base, bounds, q);
            a + base <= b || b + base <= a
  {
    if p[0] < q[0] {
      RowsInOrder(base, bounds, p, q);
    } else if q[0] < p[0] {
      RowsInOrder(base, bounds, q, p);
    } else {
      assert p == [p[0]] + p[1..] && q == [q[0]] + q[1..];
      ElementsDisjoint(base, bounds[1..], p[1..], q[1..]);
    }
  }
}
