/** Method lookup by signature (the scan behind corto_vtableLookup).

    How far a requested signature is from an offered one is decided by corto_overload (module Overload);
    here its verdicts are arbitrary. The scan that turns the verdicts for one table into a result is
    modelled in full.
 */
module MethodLookup {
  import opened Store

  /** Declaration-time attributes of a method object; `scope` is the interface that declares it. */
  datatype Method = Method(ref: Ref, id: string, scope: Ref, overridable: bool, isOverride: bool)

  const INT_MAX := 0x7fff_ffff
  const NOMATCH_OVERLOAD := -3
  const NOMATCH := -2
  const OVERLOAD_ERROR := -1

  type Distance = d: int | NOMATCH_OVERLOAD <= d < INT_MAX witness 0

  /** What comparing one table entry with a request yields: a distance, a failed comparison, or (for a
      request without parameter list) the entry with the requested name. */
  datatype Verdict = At(distance: Distance) | Failed | Named

  /** The decisions the tables depend on: signature distance and procedure compatibility. */
  datatype Rules = Rules(overload: (Method, string) -> Verdict, compatible: (Method, Method) -> bool)

  /** The accumulator of corto_lookup_functionWalk. */
  datatype Walk = Walk(result: Option<nat>, d: int, oldD: int, error: bool, stopped: bool)

  datatype Lookup = Lookup(found: Option<nat>, d: int)

  function Step(w: Walk, v: Verdict, i: nat): Walk {
    if w.stopped then w
    else match v
      case Failed => w.(error := true, stopped := true)
      case Named => w.(result := Some(i), d := 0, stopped := true)
      case At(d) =>
        if d >= 0 then
          var compare := if w.d == NOMATCH_OVERLOAD then INT_MAX else w.d;
          var w' := if d <= compare then w.(oldD := w.d) else w;
          if d < compare then w'.(result := Some(i), d := d) else w'
        else if d == NOMATCH_OVERLOAD && w.result.None? then w.(result := Some(i), d := d)
        else w
  }

  function WalkTo(rules: Rules, table: seq<Method>, request: string, n: nat): Walk
    requires n <= |table|
  {
    if n == 0 then Walk(None, INT_MAX, INT_MAX, false, false)
    else Step(WalkTo(rules, table, request, n - 1), rules.overload(table[n - 1], request), n - 1)
  }

  function Conclude(w: Walk): Lookup {
    if w.error || (w.d != INT_MAX && w.d == w.oldD) then Lookup(None, w.d) else Lookup(w.result, w.d)
  }

  function LookupIn(rules: Rules, table: seq<Method>, request: string): (l: Lookup)
    ensures l.found.Some? ==> l.found.value < |table|
  {
    WalkInRange(rules, table, request, |table|);
    Conclude(WalkTo(rules, table, request, |table|))
  }

  method LookupFunction(rules: Rules, table: seq<Method>, request: string) returns (found: Option<nat>, d: int)
    ensures Lookup(found, d) == LookupIn(rules, table, request)
  {
    var w := Walk(None, INT_MAX, INT_MAX, false, false);
    var i := 0;
    while i < |table| && !w.stopped
      invariant i <= |table|
      invariant w == WalkTo(rules, table, request, i)
    {
      w := Step(w, rules.overload(table[i], request), i);
      i := i + 1;
    }
    WalkStops(rules, table, request, i);
    if w.d != INT_MAX && w.d == w.oldD {
      w := w.(error := true);
    }
    d := w.d;
    found := if w.error then None else w.result;
  }

  /** Leaving the scan early loses nothing: the remaining entries cannot change the accumulator. */
  lemma {:induction false} WalkStops(rules: Rules, table: seq<Method>, request: string, i: nat)
    requires i <= |table|
    requires i == |table| || WalkTo(rules, table, request, i).stopped
    ensures WalkTo(rules, table, request, i) == WalkTo(rules, table, request, |table|)
    decreases |table| - i
  {
    if i < |table| {
      WalkStops(rules, table, request, i + 1);
    }
  }

  // ---- What a lookup result means -------------------------------------------------------------------

  /** Every entry could be compared with the request: always so for a request with a parameter list
      whose types resolve. */
  ghost predicate Comparable(rules: Rules, table: seq<Method>, request: string) {
    forall i :: 0 <= i < |table| ==> rules.overload(table[i], request).At?
  }

  ghost function Dist(rules: Rules, table: seq<Method>, request: string, i: nat): int
    requires i < |table| && Comparable(rules, table, request)
  {
    rules.overload(table[i], request).distance
  }

  /** `k` is a closest match among the first `n` entries. */
  ghost predicate Closest(rules: Rules, table: seq<Method>, request: string, n: nat, k: nat)
    requires n <= |table| && Comparable(rules, table, request)
  {
    && k < n
    && Dist(rules, table, request, k) >= 0
    && forall j :: 0 <= j < n && Dist(rules, table, request, j) >= 0 ==>
                     Dist(rules, table, request, k) <= Dist(rules, table, request, j)
  }

  /** `k` is the first of the first `n` entries that shares the requested name but not its arity. */
  ghost predicate FirstOverload(rules: Rules, table: seq<Method>, request: string, n: nat, k: nat)
    requires n <= |table| && Comparable(rules, table, request)
  {
    && k < n
    && Dist(rules, table, request, k) == NOMATCH_OVERLOAD
    && forall j :: 0 <= j < k ==> Dist(rules, table, request, j) != NOMATCH_OVERLOAD
  }

  ghost predicate AnyMatch(rules: Rules, table: seq<Method>, request: string, n: nat)
    requires n <= |table| && Comparable(rules, table, request)
  {
    exists j :: 0 <= j < n && Dist(rules, table, request, j) >= 0
  }

  /** Some entry other than `k` is as close. */
  ghost predicate Tied(rules: Rules, table: seq<Method>, request: string, n: nat, k: nat)
    requires n <= |table| && Comparable(rules, table, request)
  {
    exists j :: 0 <= j < n && j != k && Closest(rules, table, request, n, j)
  }

  ghost predicate WalkMeans(rules: Rules, table: seq<Method>, request: string, n: nat, w: Walk)
    requires n <= |table| && Comparable(rules, table, request)
  {
    && !w.error && !w.stopped
    && if AnyMatch(rules, table, request, n) then
         && w.result.Some? && Closest(rules, table, request, n, w.result.value)
         && w.d == Dist(rules, table, request, w.result.value)
         && (w.oldD == w.d <==> Tied(rules, table, request, n, w.result.value))
       else
         && w.oldD == INT_MAX
         && (w.result.Some? ==>
               FirstOverload(rules, table, request, n, w.result.value) && w.d == NOMATCH_OVERLOAD)
         && (w.result.None? ==>
               w.d == INT_MAX && forall j :: 0 <= j < n ==> Dist(rules, table, request, j) != NOMATCH_OVERLOAD)
  }

  lemma {:induction false} WalkInvariant(rules: Rules, table: seq<Method>, request: string, n: nat)
    requires n <= |table| && Comparable(rules, table, request)
    ensures WalkMeans(rules, table, request, n, WalkTo(rules, table, request, n))
  {
    if n > 0 {
      WalkInvariant(rules, table, request, n - 1);
      var w := WalkTo(rules, table, request, n - 1);
      var d := Dist(rules, table, request, n - 1);
      if AnyMatch(rules, table, request, n - 1) {
        if d < 0 || w.d < d {
          FartherEntry(rules, table, request, n, w.result.value);
        } else {
          assert Closest(rules, table, request, n, n - 1);
          assert d == w.d ==> Closest(rules, table, request, n, w.result.value);
        }
      } else if d >= 0 {
        assert Closest(rules, table, request, n, n - 1);
      }
    }
  }

  /** An entry farther away than the closest match so far changes neither that match nor its ties. */
  lemma FartherEntry(rules: Rules, table: seq<Method>, request: string, n: nat, k: nat)
    requires 0 < n <= |table| && Comparable(rules, table, request)
    requires Closest(rules, table, request, n - 1, k)
    requires var d := Dist(rules, table, request, n - 1); d < 0 || Dist(rules, table, request, k) < d
    ensures forall j :: 0 <= j < n ==>
              (Closest(rules, table, request, n, j) <==> j < n - 1 && Closest(rules, table, request, n - 1, j))
    ensures Tied(rules, table, request, n, k) <==> Tied(rules, table, request, n - 1, k)
  {
    forall j | 0 <= j < n
      ensures Closest(rules, table, request, n, j) <==> j < n - 1 && Closest(rules, table, request, n - 1, j)
    {
      if Closest(rules, table, request, n, j) {
        assert Dist(rules, table, request, j) <= Dist(rules, table, request, k);
      }
    }
    if Tied(rules, table, request, n - 1, k) {
      var m := n - 1;
      var j :| 0 <= j < m && j != k && Closest(rules, table, request, m, j);
      assert Closest(rules, table, request, n, j);
    }
  }

  /** The result of a lookup, said without the scan: the unique closest match; nothing when two entries
      are equally close; otherwise the first overload with another arity; otherwise nothing. */
  lemma LookupMeaning(rules: Rules, table: seq<Method>, request: string)
    requires Comparable(rules, table, request)
    ensures var l := LookupIn(rules, table, request);
            if AnyMatch(rules, table, request, |table|) then
              && (forall k: nat :: l.found == Some(k) <==>
                    && Closest(rules, table, request, |table|, k)
                    && forall j: nat :: Closest(rules, table, request, |table|, j) ==> j == k)
              && (forall k: nat :: Closest(rules, table, request, |table|, k) ==>
                    l.d == Dist(rules, table, request, k))
            else
              && (forall k: nat :: l.found == Some(k) <==> FirstOverload(rules, table, request, |table|, k))
              && (l.found.Some? ==> l.d == NOMATCH_OVERLOAD)
              && (l.found.None? ==> l.d == INT_MAX)
  {
    WalkInvariant(rules, table, request, |table|);
    var w := WalkTo(rules, table, request, |table|);
    if !AnyMatch(rules, table, request, |table|) && w.result.None? {
      forall k: nat | k < |table| ensures !FirstOverload(rules, table, request, |table|, k) {
      }
    }
  }

  /** Where the scan stops early, at the first entry `i` that yields no distance: a comparison that fails leaves
      nothing found, whatever matched before; a bare name that is met, with nothing matched before, is found. */
  lemma LookupStop(rules: Rules, table: seq<Method>, request: string, i: nat)
    requires i < |table| && !rules.overload(table[i], request).At? && Comparable(rules, table[..i], request)
    ensures var l := LookupIn(rules, table, request);
            && (rules.overload(table[i], request).Failed? ==> l.found.None?)
            && (rules.overload(table[i], request).Named? && !AnyMatch(rules, table[..i], request, i) ==>
                  l == Lookup(Some(i), 0))
  {
    WalkInvariant(rules, table[..i], request, i);
    WalkOfPrefix(rules, table, request, i, i);
    WalkStops(rules, table, request, i + 1);
  }

  lemma {:induction false} WalkOfPrefix(rules: Rules, table: seq<Method>, request: string, i: nat, n: nat)
    requires n <= i <= |table|
    ensures WalkTo(rules, table[..i], request, n) == WalkTo(rules, table, request, n)
  {
    if n > 0 {
      WalkOfPrefix(rules, table, request, i, n - 1);
    }
  }

  /** The distance handed back is never the error code, even when a comparison failed: the test for it
      in corto_interface_bindMethod cannot succeed. */
  lemma {:induction false} WalkNeverReportsError(rules: Rules, table: seq<Method>, request: string, n: nat)
    requires n <= |table|
    ensures WalkTo(rules, table, request, n).d != OVERLOAD_ERROR
  {
    if n > 0 {
      WalkNeverReportsError(rules, table, request, n - 1);
    }
  }

  lemma LookupNeverReportsError(rules: Rules, table: seq<Method>, request: string)
    ensures LookupIn(rules, table, request).d != OVERLOAD_ERROR
  {
    WalkNeverReportsError(rules, table, request, |table|);
  }

  // ---- Exact matches --------------------------------------------------------------------------------

  /** The entry whose signature is exactly the requested one, as callers of corto_vtableLookup take it:
      found, and at distance zero. */
  function ExactMatch(rules: Rules, table: seq<Method>, request: string): (r: Option<nat>)
    ensures r.Some? ==> r.value < |table|
  {
    var l := LookupIn(rules, table, request);
    if l.d == 0 then l.found else None
  }

  lemma WalkInRange(rules: Rules, table: seq<Method>, request: string, n: nat)
    requires n <= |table|
    ensures WalkTo(rules, table, request, n).result.Some? ==> WalkTo(rules, table, request, n).result.value < n
  {
  }

  /** On the methods `ms` every comparison succeeds, and distance zero means an equal canonical signature
      `sig`. The distance corto_overload computes ignores parameter names, so ids themselves may differ. */
  ghost predicate Canonical(rules: Rules, sig: Method -> int, ms: set<Method>) {
    forall a, b :: a in ms && b in ms ==>
      rules.overload(a, b.id).At? && (rules.overload(a, b.id).distance == 0 <==> sig(a) == sig(b))
  }

  ghost predicate Within(table: seq<Method>, ms: set<Method>) {
    forall i :: 0 <= i < |table| ==> table[i] in ms
  }

  /** No two entries of a table share a signature. */
  ghost predicate Distinct(sig: Method -> int, table: seq<Method>) {
    forall i, j :: 0 <= i < |table| && 0 <= j < |table| && sig(table[i]) == sig(table[j]) ==> i == j
  }

  /** In a table without duplicates, lookup finds the one entry with the signature of `m`, and nothing
      at distance zero when there is none. */
  lemma ExactMatchMeaning(rules: Rules, sig: Method -> int, table: seq<Method>, m: Method, ms: set<Method>)
    requires Canonical(rules, sig, ms) && Within(table, ms) && m in ms && Distinct(sig, table)
    ensures forall k: nat :: ExactMatch(rules, table, m.id) == Some(k) <==>
              k < |table| && sig(table[k]) == sig(m)
  {
    hide LookupIn;
    LookupMeaning(rules, table, m.id);
    forall k: nat | k < |table| && sig(table[k]) == sig(m)
      ensures ExactMatch(rules, table, m.id) == Some(k)
    {
      assert Closest(rules, table, m.id, |table|, k);
      forall j: nat | Closest(rules, table, m.id, |table|, j) ensures j == k {
        assert sig(table[j]) == sig(m);
      }
    }
    var e := ExactMatch(rules, table, m.id);
    if e.Some? {
      assert AnyMatch(rules, table, m.id, |table|);
      assert Closest(rules, table, m.id, |table|, e.value);
    }
  }
}
