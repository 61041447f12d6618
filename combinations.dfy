/**
 * The enumerator of combinations of distinct array elements used by the
 * hidden-subset deductions: every choice of `k` positions in increasing
 * order, in lexicographic order, each reported as the values at those
 * positions.
 */
module Combinatorics {

  /** Strictly increasing positions. */
  predicate Ascends(c: seq<nat>)
  {
    forall j, k :: 0 <= j < k < |c| ==> c[j] < c[k]
  }

  /** Each sequence of `cs` with `p` in front of it. */
  function Prefixed<T>(p: seq<T>, cs: seq<seq<T>>): (r: seq<seq<T>>)
    ensures |r| == |cs| && forall t :: 0 <= t < |cs| ==> r[t] == p + cs[t]
  {
    seq(|cs|, t requires 0 <= t < |cs| => p + cs[t])
  }

  lemma PrefixedAppend<T>(p: seq<T>, a: seq<seq<T>>, b: seq<seq<T>>)
    ensures Prefixed(p, a + b) == Prefixed(p, a) + Prefixed(p, b)
  {
  }

  lemma PrefixedTwice<T>(p: seq<T>, x: T, cs: seq<seq<T>>)
    ensures Prefixed(p, Prefixed([x], cs)) == Prefixed(p + [x], cs)
  {
    forall t | 0 <= t < |cs| ensures p + ([x] + cs[t]) == (p + [x]) + cs[t] {
    }
  }

  /**
   * The increasing choices of `m` positions out of s..n-1, in lexicographic
   * order: those starting at `s` first, then those that skip `s`.
   */
  function Indices(n: nat, s: nat, m: nat): (cs: seq<seq<nat>>)
    ensures forall t :: 0 <= t < |cs| ==> |cs[t]| == m && Ascends(cs[t])
    ensures forall t, j :: 0 <= t < |cs| && 0 <= j < |cs[t]| ==> s <= cs[t][j] < n
    decreases n - s
  {
    if m == 0 then [[]]
    else if s >= n then []
    else
      var first := Prefixed([s], Indices(n, s + 1, m - 1));
      var rest := Indices(n, s + 1, m);
      assert forall t :: 0 <= t < |first| ==> Ascends(first[t]) by {
        forall t | 0 <= t < |first| ensures Ascends(first[t]) {
          var c := Indices(n, s + 1, m - 1)[t];
          assert first[t] == [s] + c;
          assert forall j :: 1 <= j < |first[t]| ==> first[t][j] == c[j - 1];
        }
      }
      first + rest
  }

  /** The values at positions `idx` of `vs`. */
  function Pick(vs: seq<int>, idx: seq<nat>): (c: seq<int>)
    requires forall j :: 0 <= j < |idx| ==> idx[j] < |vs|
    ensures |c| == |idx| && forall j :: 0 <= j < |idx| ==> c[j] == vs[idx[j]]
  {
    seq(|idx|, j requires 0 <= j < |idx| => vs[idx[j]])
  }

  function PickAll(vs: seq<int>, cs: seq<seq<nat>>): (r: seq<seq<int>>)
    requires forall t, j :: 0 <= t < |cs| && 0 <= j < |cs[t]| ==> cs[t][j] < |vs|
    ensures |r| == |cs| && forall t :: 0 <= t < |cs| ==> r[t] == Pick(vs, cs[t])
  {
    seq(|cs|, t requires 0 <= t < |cs| => Pick(vs, cs[t]))
  }

  /** The `m`-combinations of the elements of `vs`, in the enumerator's order. */
  function Combinations(vs: seq<int>, m: nat): (r: seq<seq<int>>)
    ensures forall t :: 0 <= t < |r| ==> |r[t]| == m
  {
    PickAll(vs, Indices(|vs|, 0, m))
  }

  /** Picking along a concatenation of position lists concatenates the picks. */
  lemma PickAllAppend(vs: seq<int>, x: seq<seq<nat>>, y: seq<seq<nat>>)
    requires forall t, j :: 0 <= t < |x| && 0 <= j < |x[t]| ==> x[t][j] < |vs|
    requires forall t, j :: 0 <= t < |y| && 0 <= j < |y[t]| ==> y[t][j] < |vs|
    ensures PickAll(vs, x + y) == PickAll(vs, x) + PickAll(vs, y)
  {
    var xy := x + y;
    assert forall t :: 0 <= t < |xy| ==> xy[t] == if t < |x| then x[t] else y[t - |x|];
  }

  /** Picking along position lists headed by `s` heads every pick with `vs[s]`. */
  lemma PickAllPrefixed(vs: seq<int>, s: nat, a: seq<seq<nat>>)
    requires s < |vs| && forall t, j :: 0 <= t < |a| && 0 <= j < |a[t]| ==> a[t][j] < |vs|
    ensures PickAll(vs, Prefixed([s], a)) == Prefixed([vs[s]], PickAll(vs, a))
  {
    forall t | 0 <= t < |a| ensures Pick(vs, [s] + a[t]) == [vs[s]] + Pick(vs, a[t]) {
    }
  }

  /** Unfolds one position of the enumeration on values. */
  lemma PickSplit(vs: seq<int>, s: nat, m: nat)
    requires 1 <= m && s < |vs|
    ensures PickAll(vs, Indices(|vs|, s, m)) ==
            Prefixed([vs[s]], PickAll(vs, Indices(|vs|, s + 1, m - 1))) + PickAll(vs, Indices(|vs|, s + 1, m))
  {
    var a := Indices(|vs|, s + 1, m - 1);
    var b := Indices(|vs|, s + 1, m);
    assert Indices(|vs|, s, m) == Prefixed([s], a) + b;
    PickAllAppend(vs, Prefixed([s], a), b);
    PickAllPrefixed(vs, s, a);
  }

  /** The combinations extending `p` by `m` values taken at positions `s`.. of `vs`. */
  function Completions(vs: seq<int>, p: seq<int>, s: nat, m: nat): (r: seq<seq<int>>)
  {
    Prefixed(p, PickAll(vs, Indices(|vs|, s, m)))
  }

  /** PickSplit under a common prefix: the step of the enumerator's loop. */
  lemma CompletionsSplit(vs: seq<int>, p: seq<int>, s: nat, m: nat)
    requires 1 <= m && s < |vs|
    ensures Completions(vs, p, s, m) == Completions(vs, p + [vs[s]], s + 1, m - 1) + Completions(vs, p, s + 1, m)
  {
    var x := PickAll(vs, Indices(|vs|, s + 1, m - 1));
    var y := PickAll(vs, Indices(|vs|, s + 1, m));
    PickSplit(vs, s, m);
    PrefixedAppend(p, Prefixed([vs[s]], x), y);
    PrefixedTwice(p, vs[s], x);
  }

  /** A prefix of full length has itself as its only completion. */
  lemma CompletionsDone(vs: seq<int>, p: seq<int>, s: nat)
    ensures Completions(vs, p, s, 0) == [p]
  {
    assert Indices(|vs|, s, 0) == [[]];
    assert Pick(vs, []) == [];
    assert p + [] == p;
  }

  lemma CompletionsEmpty(vs: seq<int>, p: seq<int>, s: nat, m: nat)
    requires 1 <= m && |vs| < s + m
    ensures Completions(vs, p, s, m) == []
  {
    IndicesEmpty(|vs|, s, m);
  }

  /** No choice of `m` positions is left when fewer than `m` positions remain. */
  lemma {:induction false} IndicesEmpty(n: nat, s: nat, m: nat)
    requires 1 <= m && n < s + m
    ensures Indices(n, s, m) == []
    decreases n - s
  {
    if s < n {
      IndicesEmpty(n, s + 1, m - 1);
      IndicesEmpty(n, s + 1, m);
    }
  }

  function Binomial(a: nat, b: nat): nat
  {
    if b == 0 then 1
    else if a == 0 then 0
    else Binomial(a - 1, b - 1) + Binomial(a - 1, b)
  }

  /** There are C(n - s, m) choices. */
  lemma {:induction false} IndicesCount(n: nat, s: nat, m: nat)
    requires s <= n
    ensures |Indices(n, s, m)| == Binomial(n - s, m)
    decreases n - s
  {
    if m != 0 && s < n {
      IndicesCount(n, s + 1, m - 1);
      IndicesCount(n, s + 1, m);
    }
  }

  /** `a` comes before `b` in lexicographic order. */
  predicate LexLess(a: seq<int>, b: seq<int>)
  {
    exists j :: 0 <= j < |a| && j < |b| && a[..j] == b[..j] && a[j] < b[j]
  }

  lemma LexCons(x: int, a: seq<int>, b: seq<int>)
    requires LexLess(a, b)
    ensures LexLess([x] + a, [x] + b)
  {
    var j :| 0 <= j < |a| && j < |b| && a[..j] == b[..j] && a[j] < b[j];
    assert ([x] + a)[..j + 1] == [x] + a[..j];
    assert ([x] + b)[..j + 1] == [x] + b[..j];
    assert ([x] + a)[j + 1] == a[j] && ([x] + b)[j + 1] == b[j];
  }

  lemma LexHead(a: seq<int>, b: seq<int>)
    requires 0 < |a| && 0 < |b| && a[0] < b[0]
    ensures LexLess(a, b)
  {
    assert a[..0] == b[..0];
  }

  /** The choices come in strictly increasing lexicographic order, so none repeats. */
  lemma {:induction false} IndicesOrdered(n: nat, s: nat, m: nat)
    ensures forall p, q :: 0 <= p < q < |Indices(n, s, m)| ==> LexLess(Indices(n, s, m)[p], Indices(n, s, m)[q])
    decreases n - s
  {
    if m != 0 && s < n {
      var a := Indices(n, s + 1, m - 1);
      var b := Indices(n, s + 1, m);
      var cs := Indices(n, s, m);
      assert cs == Prefixed([s], a) + b;
      IndicesOrdered(n, s + 1, m - 1);
      IndicesOrdered(n, s + 1, m);
      forall p, q | 0 <= p < q < |cs| ensures LexLess(cs[p], cs[q]) {
        if q < |a| {
          assert cs[p] == [s] + a[p] && cs[q] == [s] + a[q];
          LexCons(s, a[p], a[q]);
        } else if p < |a| {
          assert cs[p] == [s] + a[p] && cs[q] == b[q - |a|];
          LexHead(cs[p], cs[q]);
        } else {
          assert cs[p] == b[p - |a|] && cs[q] == b[q - |a|];
        }
      }
    }
  }

  /** The only choice of no positions is the empty one. */
  lemma IndicesNone(n: nat, s: nat)
    ensures |Indices(n, s, 0)| == 1 && Indices(n, s, 0)[0] == []
  {
  }

  /** The choices that start at `s` come first, each the head `s` on a choice from s+1 on. */
  lemma IndicesHead(n: nat, s: nat, m: nat, k: nat, c: seq<nat>)
    requires 1 <= m && s < n && k < |Indices(n, s + 1, m - 1)|
    requires |c| >= 1 && c[0] == s && Indices(n, s + 1, m - 1)[k] == c[1..]
    ensures k < |Indices(n, s, m)| && Indices(n, s, m)[k] == c
  {
    assert Indices(n, s, m) == Prefixed([s], Indices(n, s + 1, m - 1)) + Indices(n, s + 1, m);
    assert c == [s] + c[1..];
  }

  /** The choices that skip `s` follow, in the order of the choices from s+1 on. */
  lemma IndicesSkip(n: nat, s: nat, m: nat, k: nat, c: seq<nat>)
    requires 1 <= m && s < n && k < |Indices(n, s + 1, m)| && Indices(n, s + 1, m)[k] == c
    ensures |Indices(n, s + 1, m - 1)| + k < |Indices(n, s, m)|
    ensures Indices(n, s, m)[|Indices(n, s + 1, m - 1)| + k] == c
  {
    assert Indices(n, s, m) == Prefixed([s], Indices(n, s + 1, m - 1)) + Indices(n, s + 1, m);
  }

  /** An increasing choice that starts at `s` continues with an increasing choice from s+1 on. */
  lemma AscendsTail(n: nat, s: nat, c: seq<nat>)
    requires |c| >= 1 && Ascends(c) && c[0] == s
    requires forall j :: 0 <= j < |c| ==> s <= c[j] < n
    ensures Ascends(c[1..]) && forall j :: 0 <= j < |c[1..]| ==> s + 1 <= c[1..][j] < n
  {
    assert forall j :: 0 <= j < |c[1..]| ==> c[1..][j] == c[j + 1] && c[0] < c[j + 1];
  }

  /** An increasing choice that does not start at `s` lies entirely after `s`. */
  lemma AscendsSkip(n: nat, s: nat, c: seq<nat>)
    requires |c| >= 1 && Ascends(c) && c[0] != s
    requires forall j :: 0 <= j < |c| ==> s <= c[j] < n
    ensures forall j :: 0 <= j < |c| ==> s + 1 <= c[j] < n
  {
    assert forall j :: 0 <= j < |c| ==> c[0] <= c[j];
  }

  /** Every increasing choice of `m` positions out of s..n-1 is enumerated, at position `k`. */
  lemma {:induction false} IndicesComplete(n: nat, s: nat, m: nat, c: seq<nat>) returns (k: nat)
    requires |c| == m && Ascends(c)
    requires forall j :: 0 <= j < |c| ==> s <= c[j] < n
    ensures k < |Indices(n, s, m)| && Indices(n, s, m)[k] == c
    decreases n - s
  {
    if m == 0 {
      IndicesNone(n, s);
      k := 0;
    } else if c[0] == s {
      AscendsTail(n, s, c);
      k := IndicesComplete(n, s + 1, m - 1, c[1..]);
      IndicesHead(n, s, m, k, c);
    } else {
      AscendsSkip(n, s, c);
      var k' := IndicesComplete(n, s + 1, m, c);
      IndicesSkip(n, s, m, k', c);
      k := |Indices(n, s + 1, m - 1)| + k';
    }
  }

  /** Every ascending choice of positions of `vs` is one of the enumerated combinations. */
  lemma CombinationsComplete(vs: seq<int>, idx: seq<nat>) returns (k: nat)
    requires Ascends(idx) && forall j :: 0 <= j < |idx| ==> idx[j] < |vs|
    ensures k < |Combinations(vs, |idx|)| && Combinations(vs, |idx|)[k] == Pick(vs, idx)
  {
    k := IndicesComplete(|vs|, 0, |idx|, idx);
  }

  /** Emitting the head `x` of what is still to come keeps the emitted part a prefix of the whole. */
  lemma EmitStep(done: seq<seq<int>>, x: seq<seq<int>>, rest: seq<seq<int>>, later: seq<seq<int>>, total: seq<seq<int>>)
    requires done + rest == total && rest == x + later
    ensures (done + x) + later == total
  {
  }

  /** Choosing `vs[i]` at the next level and emitting all its completions is one step of the loop. */
  lemma EmitChosen(vs: seq<int>, p: seq<int>, i: nat, m: nat, done: seq<seq<int>>, sub: seq<seq<int>>, total: seq<seq<int>>)
    requires 1 <= m && i < |vs| && done + Completions(vs, p, i, m) == total
    requires sub == Completions(vs, p + [vs[i]], i + 1, m - 1)
    ensures (done + sub) + Completions(vs, p, i + 1, m) == total
  {
    CompletionsSplit(vs, p, i, m);
    EmitStep(done, sub, Completions(vs, p, i, m), Completions(vs, p, i + 1, m), total);
  }

  /**
   * The recursion of IterateCombinationsInternal: fills positions `level`..
   * of `combination`, choosing array positions after `prevPosition`, and
   * reports (here: returns) a copy of every completed combination.
   */
  method IterateCombinationsInternal(values: seq<int>, combination: array<int>, level: nat, prevPosition: int)
    returns (emitted: seq<seq<int>>)
    requires level < combination.Length && -1 <= prevPosition
    modifies combination
    ensures combination[..level] == old(combination[..level])
    ensures emitted == Completions(values, old(combination[..level]), prevPosition + 1, combination.Length - level)
    decreases combination.Length - level, 1
  {
    var startPosition := prevPosition + 1;
    var endPosition := |values| - (combination.Length - level - 1);
    ghost var p := combination[..level];
    ghost var m := combination.Length - level;
    ghost var total := Completions(values, p, startPosition, m);
    emitted := [];
    var i := startPosition;
    ghost var rest := total;
    while i < endPosition
      invariant startPosition <= i
      invariant combination[..level] == p
      invariant rest == Completions(values, p, i, m) && emitted + rest == total
    {
      var sub := ChooseAt(values, combination, level, i);
      EmitChosen(values, p, i, m, emitted, sub, total);
      emitted := emitted + sub;
      i := i + 1;
      rest := Completions(values, p, i, m);
    }
    CompletionsEmpty(values, p, i, m);
  }

  /**
   * One pass of the loop of IterateCombinationsInternal: puts `values[i]` at
   * `level`, then either recurses into the next level or, at the last level,
   * reports a copy of the completed combination.
   */
  method ChooseAt(values: seq<int>, combination: array<int>, level: nat, i: nat)
    returns (sub: seq<seq<int>>)
    requires level < combination.Length && i < |values|
    modifies combination
    ensures combination[..level] == old(combination[..level])
    ensures sub == Completions(values, old(combination[..level]) + [values[i]], i + 1, combination.Length - level - 1)
    decreases combination.Length - level, 0
  {
    ghost var p := combination[..level];
    var value := values[i];
    combination[level] := value;
    assert combination[..level + 1] == p + [value];
    if level < combination.Length - 1 {
      sub := IterateCombinationsInternal(values, combination, level + 1, i);
      assert combination[..level] == combination[..level + 1][..level];
    } else {
      var copy := combination[..];
      assert copy == p + [value];
      CompletionsDone(values, copy, i + 1);
      sub := [copy];
    }
  }

  /** Reports every `combinationLength`-combination of `values`, in enumeration order. */
  method IterateCombinations(values: seq<int>, combinationLength: nat) returns (emitted: seq<seq<int>>)
    requires 1 <= combinationLength
    ensures emitted == Combinations(values, combinationLength)
  {
    var combination := new int[combinationLength];
    emitted := IterateCombinationsInternal(values, combination, 0, -1);
    assert combination[..0] == [];
    var all := Combinations(values, combinationLength);
    assert forall t :: 0 <= t < |all| ==> Prefixed([], all)[t] == all[t];
    assert emitted == Prefixed([], all);
  }
}
