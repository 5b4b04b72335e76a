/** Lists of page elements as the navigation controller sees them, and the
    three ways it rewrites their `active` classes: clear all of them, mark
    every element whose key matches, or clear all and then mark the first
    element whose key matches. */
module Elements {

  datatype Option<T> = None | Some(value: T)

  /** One DOM element: the attribute the controller matches it on, and whether
      it carries the `active` class. For a sidebar link the key is its
      `data-section` attribute, for a tab its `data-tab` attribute, for a
      section content or a tab content its `id`. A missing attribute is the
      empty key, which never equals the non-empty ids the controller looks up. */
  datatype Element = Element(key: string, active: bool)

  /** Every element with its `active` class removed (`classList.remove('active')`
      in a `forEach`). */
  function Cleared(es: seq<Element>): seq<Element>
  {
    seq(|es|, i requires 0 <= i < |es| => es[i].(active := false))
  }

  /** Every element's class removed, then added back exactly where the key
      equals `k`: the sidebar update, which compares every link. */
  function MarkedFor(es: seq<Element>, k: string): seq<Element>
  {
    seq(|es|, i requires 0 <= i < |es| => es[i].(active := es[i].key == k))
  }

  predicate HasKey(es: seq<Element>, k: string)
  {
    exists i :: 0 <= i < |es| && es[i].key == k
  }

  /** The element a DOM lookup returns: the first one, in document order,
      whose key is `k`, or nothing. */
  function FirstIndexOf(es: seq<Element>, k: string): (r: Option<nat>)
    ensures r.Some? ==> r.value < |es| && es[r.value].key == k
    ensures r.Some? ==> forall j :: 0 <= j < r.value ==> es[j].key != k
    ensures r.None? <==> !HasKey(es, k)
  {
    if es == [] then None
    else if es[0].key == k then Some(0)
    else match FirstIndexOf(es[1..], k)
      case None => None
      case Some(i) => Some(i + 1)
  }

  /** All elements cleared, then the one a lookup of `k` finds marked. */
  function ShownFirst(es: seq<Element>, k: string): seq<Element>
  {
    var cleared := Cleared(es);
    match FirstIndexOf(es, k)
    case None => cleared
    case Some(i) => cleared[i := cleared[i].(active := true)]
  }

  /** The number of elements that carry the `active` class. */
  function ActiveCount(es: seq<Element>): nat
  {
    if es == [] then 0 else (if es[0].active then 1 else 0) + ActiveCount(es[1..])
  }

  predicate SameKeys(a: seq<Element>, b: seq<Element>)
  {
    |a| == |b| && forall i :: 0 <= i < |a| ==> a[i].key == b[i].key
  }

  lemma ClearedSpec(es: seq<Element>)
    ensures SameKeys(es, Cleared(es))
    ensures ActiveCount(Cleared(es)) == 0
  {
    ActiveCountNone(Cleared(es));
  }

  /** After the sidebar update an element is active exactly when its key is
      `k`; no element is added, dropped or re-keyed. */
  lemma MarkedForSpec(es: seq<Element>, k: string)
    ensures SameKeys(es, MarkedFor(es, k))
    ensures forall i :: 0 <= i < |es| ==> (MarkedFor(es, k)[i].active <==> es[i].key == k)
  {
  }

  /** Marking is an assignment, not a toggle: doing it twice is doing it once. */
  lemma MarkedForIdempotent(es: seq<Element>, k: string)
    ensures MarkedFor(MarkedFor(es, k), k) == MarkedFor(es, k)
  {
  }

  /** After a clear-then-show, the element at index `i` is active exactly when
      it is the first one keyed `k`; keys and length are kept. */
  lemma ShownFirstSpec(es: seq<Element>, k: string)
    ensures SameKeys(es, ShownFirst(es, k))
    ensures forall i :: 0 <= i < |es| ==>
      (ShownFirst(es, k)[i].active <==> FirstIndexOf(es, k) == Some(i))
  {
  }

  /** A lookup sees only keys, so lists with the same keys give the same
      answer (the contract of `FirstIndexOf` determines its result). */
  lemma FirstIndexOfKeys(a: seq<Element>, b: seq<Element>, k: string)
    requires SameKeys(a, b)
    ensures FirstIndexOf(a, k) == FirstIndexOf(b, k)
  {
  }

  /** Clear-then-show leaves at most one element active: one if the key is
      present, none if it is not. */
  lemma ShownFirstActiveCount(es: seq<Element>, k: string)
    ensures ActiveCount(ShownFirst(es, k)) == (if HasKey(es, k) then 1 else 0)
  {
    ShownFirstSpec(es, k);
    var r := ShownFirst(es, k);
    match FirstIndexOf(es, k)
    case None => ActiveCountNone(r);
    case Some(i) => ActiveCountSingle(r, i);
  }

  /** Clear-then-show is idempotent: the shown element is found by key, and
      the first pass keeps every key. */
  lemma ShownFirstIdempotent(es: seq<Element>, k: string)
    ensures ShownFirst(ShownFirst(es, k), k) == ShownFirst(es, k)
  {
    ShownFirstSpec(es, k);
    var r := ShownFirst(es, k);
    FirstIndexOfKeys(es, r, k);
    ShownFirstSpec(r, k);
  }

  lemma {:induction false} ActiveCountNone(es: seq<Element>)
    requires forall j :: 0 <= j < |es| ==> !es[j].active
    ensures ActiveCount(es) == 0
  {
    if es != [] {
      ActiveCountNone(es[1..]);
    }
  }

  lemma {:induction false} ActiveCountSingle(es: seq<Element>, i: nat)
    requires i < |es| && es[i].active
    requires forall j :: 0 <= j < |es| && j != i ==> !es[j].active
    ensures ActiveCount(es) == 1
  {
    if i == 0 {
      ActiveCountNone(es[1..]);
    } else {
      ActiveCountSingle(es[1..], i - 1);
    }
  }

  /** Removes the `active` class from every element of `a`, in place. */
  method ClearActive(a: array<Element>)
    modifies a
    ensures a[..] == Cleared(old(a[..]))
  {
    for i := 0 to a.Length
      invariant forall j :: 0 <= j < i ==> a[j] == old(a[j]).(active := false)
      invariant forall j :: i <= j < a.Length ==> a[j] == old(a[j])
    {
      a[i] := a[i].(active := false);
    }
  }
}
