/** `SliceScanner` of `src/parser.rs`: a view over the unread part of a
    slice. Every removal clamps the requested count to what is left, so no
    operation can run past either end. The view is a value here: an
    operation that advances the view returns the new view beside what it
    removed, and one that only looks (`ref_front`) returns no view at all. */
module SliceScanner {
  import opened Bytes

  datatype Scanner<T> = Scanner(data: seq<T>)

  /** `len`: the number of items left in the view. */
  function Len<T>(s: Scanner<T>): (n: nat)
    ensures n == 0 <==> s.data == []
  {
    |s.data|
  }

  /** `is_empty`: no item is left. */
  function IsEmpty<T>(s: Scanner<T>): (b: bool)
    ensures b <==> s.data == []
  {
    Len(s) == 0
  }

  /** `split_at`: the two halves around `pos`; the source asserts that
      `pos` is within the view. */
  function SplitAt<T>(s: Scanner<T>, pos: nat): (r: (seq<T>, seq<T>))
    requires pos <= Len(s)
    ensures |r.0| == pos
    ensures r.0 + r.1 == s.data
  {
    (s.data[..pos], s.data[pos..])
  }

  /** `pop_back`: removes up to `n` items from the back. The removed items
      are returned first, then the shrunk view. */
  function PopBack<T>(s: Scanner<T>, n: nat): (r: (seq<T>, Scanner<T>))
    ensures |r.0| == Min(n, Len(s))
    ensures r.1.data + r.0 == s.data
  {
    var k := Min(n, Len(s));
    var (front, back) := SplitAt(s, Len(s) - k);
    (back, Scanner(front))
  }

  /** `pop_front`: removes up to `n` items from the front. */
  function PopFront<T>(s: Scanner<T>, n: nat): (r: (seq<T>, Scanner<T>))
    ensures |r.0| == Min(n, Len(s))
    ensures r.0 + r.1.data == s.data
  {
    var k := Min(n, Len(s));
    var (front, back) := SplitAt(s, k);
    (front, Scanner(back))
  }

  /** `ref_front`: the items `pop_front(n)` would remove, without removing
      them. */
  function RefFront<T>(s: Scanner<T>, n: nat): (r: seq<T>)
    ensures r == PopFront(s, n).0
    ensures r == s.data[..Min(n, Len(s))]
  {
    var k := Min(n, Len(s));
    SplitAt(s, k).0
  }

  /** `count_while`: the number of leading items that satisfy `cond`,
      stopping at the first that does not. */
  function CountWhile<T>(s: Scanner<T>, cond: T -> bool): (n: nat)
    ensures n <= Len(s)
    ensures forall i | 0 <= i < n :: cond(s.data[i])
    ensures n < Len(s) ==> !cond(s.data[n])
    decreases Len(s)
  {
    if Len(s) == 0 || !cond(s.data[0]) then 0
    else 1 + CountWhile(Scanner(s.data[1..]), cond)
  }

  /** `pop_while`: removes the longest leading run of items satisfying
      `cond`; the item after the run, if any, does not satisfy it. */
  function PopWhile<T>(s: Scanner<T>, cond: T -> bool): (r: (seq<T>, Scanner<T>))
    ensures forall i | 0 <= i < |r.0| :: cond(r.0[i])
    ensures r.0 + r.1.data == s.data
    ensures Len(r.1) > 0 ==> !cond(r.1.data[0])
  {
    PopFront(s, CountWhile(s, cond))
  }

  /** Popping a known prefix off the front returns exactly that prefix and
      leaves exactly the rest. */
  lemma PopFrontConcat<T>(p: seq<T>, q: seq<T>)
    ensures PopFront(Scanner(p + q), |p|) == (p, Scanner(q))
  {
    assert (p + q)[..|p|] == p;
    assert (p + q)[|p|..] == q;
  }

  /** Popping a known suffix off the back returns exactly that suffix and
      leaves exactly the rest. */
  lemma PopBackConcat<T>(p: seq<T>, q: seq<T>)
    ensures PopBack(Scanner(p + q), |q|) == (q, Scanner(p))
  {
    assert (p + q)[..|p|] == p;
    assert (p + q)[|p|..] == q;
  }

  /** The run `pop_while` removes is determined by the view: any split
      into a run satisfying `cond` followed by a part that is empty or
      starts with an item failing `cond` is the split it makes. */
  lemma {:induction false} PopWhileUnique<T>(p: seq<T>, q: seq<T>, cond: T -> bool)
    requires forall i | 0 <= i < |p| :: cond(p[i])
    requires q == [] || !cond(q[0])
    ensures PopWhile(Scanner(p + q), cond) == (p, Scanner(q))
  {
    CountWhileUnique(p, q, cond);
    PopFrontConcat(p, q);
  }

  lemma {:induction false} CountWhileUnique<T>(p: seq<T>, q: seq<T>, cond: T -> bool)
    requires forall i | 0 <= i < |p| :: cond(p[i])
    requires q == [] || !cond(q[0])
    ensures CountWhile(Scanner(p + q), cond) == |p|
    decreases |p|
  {
    if p != [] {
      assert (p + q)[1..] == p[1..] + q;
      CountWhileUnique(p[1..], q, cond);
    } else {
      assert p + q == q;
    }
  }
}
