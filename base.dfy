/** Values shared by every module: optional values, the outcome of one call
    into code that may raise, and the search for the first attempt that did
    not raise, which all three retry loops of the system are built on. */
module Base {

  datatype Option<T> = None | Some(value: T)

  /** One call into code that may raise an exception: either it raised (with
      the exception's `str(e)`), or it returned a value. */
  datatype Attempt<T> = Raised(message: string) | Returned(value: T)

  /** `range(n)` has `n` elements when `n > 0` and none otherwise. */
  function RangeSize(n: int): (r: nat)
    ensures n > 0 ==> r == n
    ensures n <= 0 ==> r == 0
  {
    if n > 0 then n else 0
  }

  /** The least attempt index `k` with `from <= k < limit` at which `call`
      returns, if there is one. */
  function FirstReturnFrom<T>(call: nat -> Attempt<T>, from: nat, limit: int): (r: Option<nat>)
    ensures r.Some? ==> from <= r.value < limit && call(r.value).Returned?
    ensures r.Some? ==> forall j :: from <= j < r.value ==> call(j).Raised?
    ensures r.None? ==> forall j :: from <= j < limit ==> call(j).Raised?
    decreases limit - from
  {
    if limit <= from then None
    else if call(from).Returned? then Some(from)
    else FirstReturnFrom(call, from + 1, limit)
  }

  /** The first of the attempts `0 .. limit - 1` that returns, if any: the
      attempt at which a retry loop over `range(limit)` stops. */
  function FirstReturn<T>(call: nat -> Attempt<T>, limit: int): (r: Option<nat>)
    ensures r.Some? <==> exists k :: 0 <= k < limit && call(k).Returned?
    ensures r.Some? ==> r.value < limit && call(r.value).Returned?
    ensures r.Some? ==> forall j :: 0 <= j < r.value ==> call(j).Raised?
  {
    FirstReturnFrom(call, 0, limit)
  }

  /** If exactly the first `k` attempts raise and attempt `k` is within the
      limit, the search stops at `k`. */
  lemma FirstReturnAt<T>(call: nat -> Attempt<T>, limit: int, k: nat)
    requires k < limit
    requires forall j :: 0 <= j < k ==> call(j).Raised?
    requires call(k).Returned?
    ensures FirstReturn(call, limit) == Some(k)
  {
    var r := FirstReturn(call, limit);
  }

  /** `order` lists the indices `0 .. n - 1`, each at least once and so each
      exactly once: the order in which `n` tasks complete. */
  predicate IsOrder(order: seq<nat>, n: nat)
  {
    && |order| == n
    && (forall i :: 0 <= i < n ==> order[i] < n)
    && (forall j :: 0 <= j < n ==> j in order)
  }

  /** The first place at which task `j` appears in `order`. */
  function Position(order: seq<nat>, j: nat): (i: nat)
    requires j in order
    ensures i < |order| && order[i] == j
    ensures forall k :: 0 <= k < i ==> order[k] != j
  {
    if order[0] == j then 0 else 1 + Position(order[1..], j)
  }

  /** The elements of `xs` in the order `order`. */
  function Reorder<T>(xs: seq<T>, order: seq<nat>): (r: seq<T>)
    requires forall i :: 0 <= i < |order| ==> order[i] < |xs|
    ensures |r| == |order|
  {
    seq(|order|, i requires 0 <= i < |order| => xs[order[i]])
  }
}
