/** Generic sequence helpers shared by the rest of the model: the Option
    type, first-index search and filter-map over a sequence. */
module Seqs {

  /** The usual Some/None datatype; stands for Python's `x or None` results. */
  datatype Option<+T> = None | Some(value: T)

  /** Index of the first element of `s` that satisfies `p`, or None when no
      element does. This is the index form of Python's
      `next((... for x in s if p(x)), None)`: the scan is in sequence order
      and stops at the first hit. */
  function FirstIndex<T>(s: seq<T>, p: T -> bool): (r: Option<nat>)
    ensures r.Some? ==> r.value < |s| && p(s[r.value])
    ensures r.Some? ==> forall j :: 0 <= j < r.value ==> !p(s[j])
    ensures r.None? <==> forall j :: 0 <= j < |s| ==> !p(s[j])
    decreases |s|
  {
    if |s| == 0 then None
    else if p(s[0]) then Some(0)
    else
      match FirstIndex(s[1..], p)
      case None => None
      case Some(i) => Some(i + 1)
  }

  /** A first index is unique: any position that satisfies `p` and has no
      earlier satisfying position is the one FirstIndex reports. */
  lemma FirstIndexUnique<T>(s: seq<T>, p: T -> bool, i: nat)
    requires i < |s| && p(s[i])
    requires forall j :: 0 <= j < i ==> !p(s[j])
    ensures FirstIndex(s, p) == Some(i)
  {
  }

  /** The defined results of `f` over `xs`, in order: what a loop that
      appends `f(x)` whenever it is defined builds. Defined from the back, as
      such a loop extends its result. */
  function FilterMap<A, B>(f: A -> Option<B>, xs: seq<A>): (ys: seq<B>)
    ensures |ys| <= |xs|
    ensures |ys| == 0 <==> forall t :: 0 <= t < |xs| ==> f(xs[t]).None?
    decreases |xs|
  {
    if |xs| == 0 then []
    else
      var front := xs[..|xs| - 1];
      var prev := FilterMap(f, front);
      assert forall t :: 0 <= t < |front| ==> front[t] == xs[t];
      match f(xs[|xs| - 1])
      case None => prev
      case Some(y) => prev + [y]
  }

  /** FilterMap distributes over concatenation. */
  lemma {:induction false} FilterMapAppend<A, B>(f: A -> Option<B>, a: seq<A>, b: seq<A>)
    ensures FilterMap(f, a + b) == FilterMap(f, a) + FilterMap(f, b)
    decreases |b|
  {
    if |b| == 0 {
      assert a + b == a;
    } else {
      var b' := b[..|b| - 1];
      assert (a + b)[..|a + b| - 1] == a + b';
      assert (a + b)[|a + b| - 1] == b[|b| - 1];
      FilterMapAppend(f, a, b');
    }
  }

  /** The positions of `xs` at which `f` is defined, in increasing order. */
  function Sources<A, B>(f: A -> Option<B>, xs: seq<A>): seq<nat>
    decreases |xs|
  {
    if |xs| == 0 then []
    else
      var prev := Sources(f, xs[..|xs| - 1]);
      if f(xs[|xs| - 1]).Some? then prev + [|xs| - 1] else prev
  }

  /** `o` lists, in strictly increasing order, exactly the positions of `xs`
      at which `f` is defined, and the k-th of them yields ys[k]. */
  ghost predicate Traces<A, B>(f: A -> Option<B>, xs: seq<A>, ys: seq<B>, o: seq<nat>) {
    && |o| == |ys|
    && (forall k :: 0 <= k < |o| ==> o[k] < |xs| && f(xs[o[k]]) == Some(ys[k]))
    && (forall k, m :: 0 <= k < m < |o| ==> o[k] < o[m])
    && (forall t :: 0 <= t < |xs| && f(xs[t]).Some? ==> t in o)
  }

  /** In a strictly increasing sequence, a smaller element sits earlier. */
  lemma IncreasingOrder(o: seq<nat>, k: nat, m: nat)
    requires forall a, b :: 0 <= a < b < |o| ==> o[a] < o[b]
    requires k < |o| && m < |o| && o[k] < o[m]
    ensures k < m
  {
  }

  /** FilterMap keeps every defined result, drops nothing else, and keeps
      the order of `xs`. */
  lemma {:induction false} FilterMapTraces<A, B>(f: A -> Option<B>, xs: seq<A>)
    ensures Traces(f, xs, FilterMap(f, xs), Sources(f, xs))
    decreases |xs|
  {
    if |xs| > 0 {
      var n := |xs| - 1;
      var front := xs[..n];
      var ys := FilterMap(f, front);
      var o := Sources(f, front);
      FilterMapTraces(f, front);
      if f(xs[n]).Some? {
        TracesTake(f, xs, ys, o);
        assert FilterMap(f, xs) == ys + [f(xs[n]).value];
        assert Sources(f, xs) == o + [n];
      } else {
        TracesSkip(f, xs, ys, o);
        assert FilterMap(f, xs) == ys;
        assert Sources(f, xs) == o;
      }
    }
  }

  /** A last element at which `f` is undefined leaves a trace unchanged. */
  lemma TracesSkip<A, B>(f: A -> Option<B>, xs: seq<A>, ys: seq<B>, o: seq<nat>)
    requires |xs| > 0 && f(xs[|xs| - 1]).None?
    requires Traces(f, xs[..|xs| - 1], ys, o)
    ensures Traces(f, xs, ys, o)
  {
    var n := |xs| - 1;
    assert forall t :: 0 <= t < n ==> xs[..n][t] == xs[t];
  }

  /** A last element at which `f` is defined extends a trace by its value
      and its position. */
  lemma TracesTake<A, B>(f: A -> Option<B>, xs: seq<A>, ys: seq<B>, o: seq<nat>)
    requires |xs| > 0 && f(xs[|xs| - 1]).Some?
    requires Traces(f, xs[..|xs| - 1], ys, o)
    ensures Traces(f, xs, ys + [f(xs[|xs| - 1]).value], o + [|xs| - 1])
  {
    var n := |xs| - 1;
    var ys2 := ys + [f(xs[n]).value];
    var o2 := o + [n];
    assert forall t :: 0 <= t < n ==> xs[..n][t] == xs[t];
    assert forall k :: 0 <= k < |o| ==> o[k] < n;
    forall k | 0 <= k < |o2|
      ensures o2[k] < |xs| && f(xs[o2[k]]) == Some(ys2[k])
    {
      if k < |o| {
        assert o2[k] == o[k] && ys2[k] == ys[k];
      }
    }
    forall t | 0 <= t < |xs| && f(xs[t]).Some?
      ensures t in o2
    {
      if t < n {
        assert t in o;
      } else {
        assert o2[|o|] == t;
      }
    }
  }
}
