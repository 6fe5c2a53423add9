/** Sums over the entries of a list, and the same sums node by node. */
module ListSums {
  import opened Buckets
  import opened Sums

  /** Sum of `f` over the entries of a list that lie in the graph. */
  ghost function EntrySum(list: seq<nat>, n: nat, f: int -> real): real {
    if |list| == 0 then 0.0
    else EntrySum(list[..|list| - 1], n, f) + if list[|list| - 1] < n then f(list[|list| - 1]) else 0.0
  }

  lemma EntrySumNext(list: seq<nat>, i: nat, n: nat, f: int -> real)
    requires i < |list|
    ensures EntrySum(list[..i + 1], n, f) == EntrySum(list[..i], n, f) + if list[i] < n then f(list[i]) else 0.0
  {
    assert list[..i + 1][..i] == list[..i];
  }

  lemma CountOver(front: seq<nat>, x: nat, v: nat, y: real)
    ensures Count(front + [x], v) as real * y == Count(front, v) as real * y + if v == x then y else 0.0
  {
    CountPush(front, x, v);
    if v == x {
      assert (Count(front, v) + 1) as real == Count(front, v) as real + 1.0;
    }
  }

  lemma NodeSumEmpty(list: seq<nat>, n: nat, f: int -> real, g: int -> real)
    requires |list| == 0 && forall v | 0 <= v < n :: g(v) == Count(list, v) as real * f(v)
    ensures Sum(n, g) == 0.0
  {
    hide Sum;
    SumZero(n, g);
  }

  lemma NodeSumPush(front: seq<nat>, x: nat, n: nat, f: int -> real, h: int -> real, g: int -> real)
    requires forall v | 0 <= v < n :: h(v) == Count(front, v) as real * f(v)
    requires forall v | 0 <= v < n :: g(v) == Count(front + [x], v) as real * f(v)
    ensures Sum(n, g) == Sum(n, h) + if x < n then f(x) else 0.0
  {
    hide Sum, Count;
    forall v | 0 <= v < n ensures g(v) == h(v) + if v == x then f(v) else 0.0 {
      CountOver(front, x, v, f(v));
    }
    if x < n {
      SumChange(n, x, h, g);
    } else {
      SumEq(n, g, h);
    }
  }

  /** The same sum, node by node. */
  lemma {:induction false} EntrySumNodes(list: seq<nat>, n: nat, f: int -> real, g: int -> real)
    requires forall v | 0 <= v < n :: g(v) == Count(list, v) as real * f(v)
    ensures EntrySum(list, n, f) == Sum(n, g)
    decreases |list|
  {
    hide Sum, Count;
    if |list| == 0 {
      NodeSumEmpty(list, n, f, g);
    } else {
      var front, x := list[..|list| - 1], list[|list| - 1];
      var h := (v: int) => if v < 0 then 0.0 else Count(front, v) as real * f(v);
      EntrySumNodes(front, n, f, h);
      assert list == front + [x];
      NodeSumPush(front, x, n, f, h, g);
    }
  }

  lemma {:induction false} EntrySumSame(list: seq<nat>, n: nat, f: int -> real, g: int -> real)
    requires forall j | 0 <= j < |list| && list[j] < n :: f(list[j]) == g(list[j])
    ensures EntrySum(list, n, f) == EntrySum(list, n, g)
  {
    if |list| > 0 {
      EntrySumSame(list[..|list| - 1], n, f, g);
    }
  }

  /** As many terms `x` as entries lead to `w`. */
  lemma {:induction false} CountSum(list: seq<nat>, w: nat, x: real, k: nat, f: int -> real)
    requires k <= |list| && forall j | 0 <= j < k :: f(j) == if list[j] == w then x else 0.0
    ensures Sum(k, f) == Count(list[..k], w) as real * x
  {
    hide Count;
    if k == 0 {
      CountNone(list[..k], w, x);
    } else {
      CountSum(list, w, x, k - 1, f);
      Snoc(list, k - 1);
      CountOver(list[..k - 1], list[k - 1], w, x);
    }
  }

  lemma CountNone(list: seq<nat>, w: nat, x: real)
    requires |list| == 0
    ensures Count(list, w) as real * x == 0.0
  {
  }

  lemma PlusOne(c: nat, x: real)
    ensures (c + 1) as real * x == c as real * x + x
  {
    assert (c + 1) as real == c as real + 1.0;
  }
}
