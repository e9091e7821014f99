/** `shuffle`: the in-place Fisher-Yates loop over a bounded generator, and why
    it is fair: the choices made by the loop and the orders it can produce
    correspond one to one. */
module Shuffle {
  import opened Arithmetic
  import opened PcgEngine
  import opened PcgOutput
  import opened Congruential

  function Swap<T>(s: seq<T>, i: nat, j: nat): (t: seq<T>)
    requires i < |s| && j < |s|
    ensures |t| == |s|
  {
    s[i := s[j]][j := s[i]]
  }

  lemma SwapKeeps<T>(s: seq<T>, i: nat, j: nat)
    requires i < |s| && j < |s|
    ensures multiset(Swap(s, i, j)) == multiset(s)
  {
  }

  /** One choice per round, the first below n, the next below n - 1, down to 2. */
  ghost predicate Choices(cs: seq<nat>, n: nat) {
    |cs| == (if n <= 1 then 0 else n - 1) && forall k | 0 <= k < |cs| :: cs[k] < n - k
  }

  /** The order produced by the choices, on the first n elements. */
  ghost function Shuffled<T>(s: seq<T>, n: nat, cs: seq<nat>): (t: seq<T>)
    requires n <= |s| && Choices(cs, n)
    ensures |t| == |s|
    decreases n
  {
    if n <= 1 then s else Shuffled(Swap(s, cs[0], n - 1), n - 1, cs[1..])
  }

  lemma {:induction false} ShuffledKeeps<T>(s: seq<T>, n: nat, cs: seq<nat>)
    requires n <= |s| && Choices(cs, n)
    ensures multiset(Shuffled(s, n, cs)) == multiset(s)
    ensures forall k | n <= k < |s| :: Shuffled(s, n, cs)[k] == s[k]
    decreases n
  {
    if n > 1 {
      var s' := Swap(s, cs[0], n - 1);
      SwapKeeps(s, cs[0], n - 1);
      ShuffledKeeps(s', n - 1, cs[1..]);
    }
  }

  ghost predicate Distinct<T>(s: seq<T>) {
    forall i, j | 0 <= i < j < |s| :: s[i] != s[j]
  }

  lemma SwapDistinct<T>(s: seq<T>, i: nat, j: nat)
    requires i < |s| && j < |s| && Distinct(s)
    ensures Distinct(Swap(s, i, j))
  {
  }

  /** The element chosen first ends up last. */
  lemma LastIsChosen<T>(s: seq<T>, n: nat, cs: seq<nat>)
    requires 1 < n <= |s| && Choices(cs, n)
    ensures Shuffled(s, n, cs)[n - 1] == s[cs[0]]
  {
    ShuffledKeeps(Swap(s, cs[0], n - 1), n - 1, cs[1..]);
  }

  /** Different choices give different orders. */
  lemma {:induction false} ShuffleInjective<T>(s: seq<T>, n: nat, cs: seq<nat>, ds: seq<nat>)
    requires n <= |s| && Distinct(s) && Choices(cs, n) && Choices(ds, n)
    requires Shuffled(s, n, cs) == Shuffled(s, n, ds)
    ensures cs == ds
    decreases n
  {
    if n > 1 {
      LastIsChosen(s, n, cs);
      LastIsChosen(s, n, ds);
      assert cs[0] == ds[0];
      SwapDistinct(s, cs[0], n - 1);
      ShuffleInjective(Swap(s, cs[0], n - 1), n - 1, cs[1..], ds[1..]);
      assert cs == [cs[0]] + cs[1..] && ds == [ds[0]] + ds[1..];
    }
  }

  /** Every order of the first n elements comes from some choices. */
  lemma {:induction false} ShuffleSurjective<T>(s: seq<T>, n: nat, t: seq<T>) returns (cs: seq<nat>)
    requires n <= |s| == |t| && multiset(s) == multiset(t) && s[n..] == t[n..]
    ensures Choices(cs, n) && Shuffled(s, n, cs) == t
    decreases n
  {
    hide Swap, Shuffled, Choices;
    PrefixMultiset(s, t, n);
    if n <= 1 {
      cs := [];
      SingletonPrefix(s, t, n);
      ShuffledNone(s, n);
    } else {
      var c := Find(s, t, n);
      SwapKeeps(s, c, n - 1);
      TailAfterSwap(s, c, n, t);
      var rest := ShuffleSurjective(Swap(s, c, n - 1), n - 1, t);
      cs := [c] + rest;
      ShuffledCons(s, n, c, rest);
    }
  }

  lemma ShuffledNone<T>(s: seq<T>, n: nat)
    requires n <= 1 && n <= |s|
    ensures Choices([], n) && Shuffled(s, n, []) == s
  {
  }

  lemma ShuffledCons<T>(s: seq<T>, n: nat, c: nat, rest: seq<nat>)
    requires 1 < n <= |s| && c < n && Choices(rest, n - 1)
    ensures Choices([c] + rest, n)
    ensures Shuffled(s, n, [c] + rest) == Shuffled(Swap(s, c, n - 1), n - 1, rest)
  {
    assert ([c] + rest)[1..] == rest;
  }

  lemma Find<T>(s: seq<T>, t: seq<T>, n: nat) returns (c: nat)
    requires 0 < n <= |s| == |t| && multiset(s[..n]) == multiset(t[..n])
    ensures c < n && s[c] == t[n - 1]
  {
    var x := t[n - 1];
    assert t[..n][n - 1] == x;
    assert x in multiset(t[..n]);
    assert x in s[..n];
    c :| c < |s[..n]| && s[..n][c] == x;
  }

  lemma SingletonPrefix<T>(s: seq<T>, t: seq<T>, n: nat)
    requires n <= 1 && n <= |s| == |t| && multiset(s[..n]) == multiset(t[..n]) && s[n..] == t[n..]
    ensures s == t
  {
    if n == 1 {
      var c := Find(s, t, n);
    }
    assert s == s[..n] + s[n..] && t == t[..n] + t[n..];
    assert s[..n] == t[..n];
  }

  lemma PrefixMultiset<T>(s: seq<T>, t: seq<T>, n: nat)
    requires n <= |s| == |t| && multiset(s) == multiset(t) && s[n..] == t[n..]
    ensures multiset(s[..n]) == multiset(t[..n])
  {
    assert s == s[..n] + s[n..] && t == t[..n] + t[n..];
    assert multiset(s) == multiset(s[..n]) + multiset(s[n..]);
    assert multiset(t) == multiset(t[..n]) + multiset(t[n..]);
    assert multiset(s[..n]) == multiset(s) - multiset(s[n..]);
    assert multiset(t[..n]) == multiset(t) - multiset(t[n..]);
  }

  lemma TailAfterSwap<T>(s: seq<T>, c: nat, n: nat, t: seq<T>)
    requires c < n <= |s| == |t| && s[n..] == t[n..] && s[c] == t[n - 1]
    ensures Swap(s, c, n - 1)[n - 1..] == t[n - 1..]
  {
    var s' := Swap(s, c, n - 1);
    assert s'[n..] == t[n..];
    assert s'[n - 1..] == [s'[n - 1]] + s'[n..] && t[n - 1..] == [t[n - 1]] + t[n..];
  }

  /** Choices made so far, followed by any later ones, act like the later ones on what the array holds now. */
  ghost predicate Continues<T>(orig: seq<T>, n: nat, made: seq<nat>, cur: seq<T>, count: nat)
    requires n <= |orig| && count <= |cur|
  {
    forall later | Choices(later, count) ::
      Choices(made + later, n) && Shuffled(orig, n, made + later) == Shuffled(cur, count, later)
  }

  lemma ShuffledStep<T>(s: seq<T>, n: nat, cs: seq<nat>)
    requires 1 < n <= |s| && Choices(cs, n)
    ensures Shuffled(s, n, cs) == Shuffled(Swap(s, cs[0], n - 1), n - 1, cs[1..])
  {
  }

  lemma ContinuesStep<T>(orig: seq<T>, n: nat, made: seq<nat>, cur: seq<T>, count: nat, c: nat)
    requires n <= |orig| && 1 < count <= |cur| && c < count && Continues(orig, n, made, cur, count)
    ensures Continues(orig, n, made + [c], Swap(cur, c, count - 1), count - 1)
  {
    hide Shuffled, Swap;
    forall later | Choices(later, count - 1)
      ensures Choices(made + [c] + later, n)
      ensures Shuffled(orig, n, made + [c] + later) == Shuffled(Swap(cur, c, count - 1), count - 1, later)
    {
      var full := [c] + later;
      assert full[1..] == later;
      assert made + [c] + later == made + full;
      ShuffledStep(cur, count, full);
    }
  }

  /** Choice i is the bounded draw below n - i made from states[i]. */
  ghost predicate DrawnFrom(g: Lcg, prev: bool, n: nat, cs: seq<nat>, states: seq<nat>)
    requires g.Valid() && Width(g.bits) && n < g.Modulus()
  {
    && |states| == |cs| + 1 && |cs| <= n
    && forall i | 0 <= i < |cs| :: BoundedDraw(g, prev, states[i], n - i, cs[i], states[i + 1])
  }

  /** One round of the loop: a bounded draw and a swap with the last element not yet placed. */
  method ShuffleRound<T>(a: array<T>, from: nat, to: nat, count: nat, rng: Engine) returns (chosen: nat)
    requires from <= to <= a.Length && 1 < count <= to - from
    requires rng.Valid() && count < Pow2(rng.bits)
    modifies a, rng`state
    ensures rng.Valid() && chosen < count
    ensures BoundedDraw(rng.Params(), rng.outputPrevious, old(rng.state), count, chosen, rng.state)
    ensures a[..from] == old(a[..from]) && a[to..] == old(a[to..])
    ensures a[from..to] == Swap(old(a[from..to]), chosen, count - 1)
  {
    hide Pow2, Threshold, Swap, BoundedDraw, Draw, Lcg.Valid;
    ghost var all := a[..];
    chosen := rng.BoundedRand(count);
    var last := from + count - 1;
    a[from + chosen], a[last] := a[last], a[from + chosen];
    SwapWithin(all, a[..], from, to, chosen, count - 1);
    assert a[from..to] == a[..][from..to];
    assert a[..from] == all[..from] && a[to..] == all[to..];
  }

  /** `shuffle` on a[from..to]. */
  method ShuffleInPlace<T>(a: array<T>, from: nat, to: nat, rng: Engine)
      returns (ghost cs: seq<nat>, ghost states: seq<nat>)
    requires from <= to <= a.Length
    requires rng.Valid() && to - from < Pow2(rng.bits)
    modifies a, rng`state
    ensures rng.Valid()
    ensures a[..from] == old(a[..from]) && a[to..] == old(a[to..])
    ensures Choices(cs, to - from) && a[from..to] == Shuffled(old(a[from..to]), to - from, cs)
    ensures multiset(a[from..to]) == multiset(old(a[from..to]))
    ensures |states| == |cs| + 1 && DrawnFrom(rng.Params(), rng.outputPrevious, to - from, cs, states)
    ensures states[0] == old(rng.state) && states[|cs|] == rng.state
  {
    hide Pow2, Threshold, Shuffled, Continues, Swap, BoundedDraw, Draw, Lcg.Valid, DrawnFrom;
    ghost var orig := a[from..to];
    var n := to - from;
    var count := n;
    ghost var g := rng.Params();
    cs, states := [], [rng.state];
    DrawnStart(g, rng.outputPrevious, n, rng.state);
    StartContinues(orig, n);
    while count > 1
      invariant count <= n && 0 <= count && (n > 0 ==> count > 0)
      invariant rng.Valid() && rng.Params() == g && |cs| == n - count && |states| == |cs| + 1
      invariant DrawnFrom(g, rng.outputPrevious, n, cs, states)
      invariant states[0] == old(rng.state) && states[|cs|] == rng.state
      invariant a[..from] == old(a[..from]) && a[to..] == old(a[to..])
      invariant Continues(orig, n, cs, a[from..to], count)
    {
      ghost var before := a[from..to];
      var chosen := ShuffleRound(a, from, to, count, rng);
      count := count - 1;
      ContinuesStep(orig, n, cs, before, count + 1, chosen);
      DrawnStep(g, rng.outputPrevious, n, cs, states, chosen, rng.state);
      cs, states := cs + [chosen], states + [rng.state];
    }
    EndContinues(orig, n, cs, a[from..to], count);
  }

  /** The state an engine starts from determines all choices, so the order. */
  lemma {:induction false} ChoicesDetermined(g: Lcg, prev: bool, n: nat, cs: seq<nat>, states: seq<nat>,
                                             cs': seq<nat>, states': seq<nat>, i: nat)
    requires g.Valid() && Width(g.bits) && n < g.Modulus() && i <= |cs| == |cs'|
    requires DrawnFrom(g, prev, n, cs, states) && DrawnFrom(g, prev, n, cs', states') && states[0] == states'[0]
    ensures cs[..i] == cs'[..i] && states[i] == states'[i]
  {
    hide Pow2, BoundedDraw, Lcg.Valid;
    if i > 0 {
      ChoicesDetermined(g, prev, n, cs, states, cs', states', i - 1);
      BoundedDrawUnique(g, prev, states[i - 1], n - (i - 1), cs[i - 1], states[i], cs'[i - 1], states'[i]);
      assert cs[..i] == cs[..i - 1] + [cs[i - 1]] && cs'[..i] == cs'[..i - 1] + [cs'[i - 1]];
    }
  }

  lemma DrawnStart(g: Lcg, prev: bool, n: nat, state: nat)
    requires g.Valid() && Width(g.bits) && n < g.Modulus()
    ensures DrawnFrom(g, prev, n, [], [state])
  {
  }

  lemma DrawnStep(g: Lcg, prev: bool, n: nat, cs: seq<nat>, states: seq<nat>, chosen: nat, next: nat)
    requires g.Valid() && Width(g.bits) && n < g.Modulus() && |cs| < n
    requires |states| == |cs| + 1 && DrawnFrom(g, prev, n, cs, states)
    requires BoundedDraw(g, prev, states[|cs|], n - |cs|, chosen, next)
    ensures DrawnFrom(g, prev, n, cs + [chosen], states + [next])
  {
    hide Pow2, BoundedDraw;
  }

  /** Swapping two elements of a section swaps them in the section and changes nothing outside. */
  lemma SwapWithin<T>(s: seq<T>, t: seq<T>, from: nat, to: nat, i: nat, j: nat)
    requires from <= to <= |s| && i < to - from && j < to - from
    requires t == s[from + i := s[from + j]][from + j := s[from + i]]
    ensures t[from..to] == Swap(s[from..to], i, j)
    ensures t[..from] == s[..from] && t[to..] == s[to..]
  {
  }

  lemma StartContinues<T>(orig: seq<T>, n: nat)
    requires n <= |orig|
    ensures Continues(orig, n, [], orig, n)
  {
    forall later | Choices(later, n)
      ensures Choices([] + later, n) && Shuffled(orig, n, [] + later) == Shuffled(orig, n, later)
    {
      assert [] + later == later;
    }
  }

  lemma EndContinues<T>(orig: seq<T>, n: nat, made: seq<nat>, cur: seq<T>, count: nat)
    requires n <= |orig| && count <= |cur| && count <= 1 && Continues(orig, n, made, cur, count)
    ensures Choices(made, n) && Shuffled(orig, n, made) == cur && multiset(cur) == multiset(orig)
  {
    assert made + [] == made;
    assert Choices([], count);
    ShuffledKeeps(orig, n, made);
  }
}
