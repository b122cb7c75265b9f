/** Two-phase quicksort (test-progs/src/ucbqsort.c) on elements of any size, which are moved
    byte by byte: Qst partitions until every piece is shorter than THRESH, and an insertion sort
    finishes.  The insertion scan has no bounds test: it relies on Qst having left a
    least element among the first THRESH places. */
module Quicksort {
  import opened Powers
  import opened Division

  const THRESH: nat := 4
  const MTHRESH: nat := 6

  // ---------------------------------------------------------------- comparators

  /** A C comparator: negative, zero or positive. */
  predicate Le<T>(cmp: (T, T) -> int, x: T, y: T) {
    cmp(x, y) <= 0
  }

  ghost predicate TotalPreorder<T(!new)>(cmp: (T, T) -> int) {
    && (forall x, y :: Le(cmp, x, y) || Le(cmp, y, x))
    && (forall x, y :: cmp(x, y) < 0 <==> !Le(cmp, y, x))
    && (forall x, y, z :: Le(cmp, x, y) && Le(cmp, y, z) ==> Le(cmp, x, z))
  }

  lemma LeReflexive<T(!new)>(cmp: (T, T) -> int, x: T)
    requires TotalPreorder(cmp)
    ensures Le(cmp, x, x)
  {
  }

  lemma LeTotal<T(!new)>(cmp: (T, T) -> int, x: T, y: T)
    requires TotalPreorder(cmp)
    ensures Le(cmp, x, y) || Le(cmp, y, x)
  {
  }

  ghost predicate Sorted<T>(cmp: (T, T) -> int, s: seq<T>) {
    forall i, j :: 0 <= i < j < |s| ==> Le(cmp, s[i], s[j])
  }

  /** x is below every element of s[lo..hi]. */
  ghost predicate Below<T>(cmp: (T, T) -> int, x: T, s: seq<T>, lo: nat, hi: nat)
    requires hi <= |s|
  {
    forall k :: lo <= k < hi ==> Le(cmp, x, s[k])
  }

  ghost predicate Above<T>(cmp: (T, T) -> int, x: T, s: seq<T>, lo: nat, hi: nat)
    requires hi <= |s|
  {
    forall k :: lo <= k < hi ==> Le(cmp, s[k], x)
  }

  /** Some place in s[lo..front] holds a least element of s[lo..hi]. */
  ghost predicate LeastIn<T>(cmp: (T, T) -> int, s: seq<T>, lo: nat, front: nat, hi: nat)
    requires hi <= |s|
  {
    exists m :: lo <= m < front && m < hi && Below(cmp, s[m], s, lo, hi)
  }

  // ---------------------------------------------------------------- rearrangements

  /** t is s with the elements of s[lo..hi] permuted. */
  ghost predicate Rearranged<T>(s: seq<T>, t: seq<T>, lo: nat, hi: nat)
    requires lo <= hi <= |s|
  {
    && |t| == |s|
    && (forall k :: 0 <= k < lo ==> t[k] == s[k])
    && (forall k :: hi <= k < |s| ==> t[k] == s[k])
    && multiset(t[lo..hi]) == multiset(s[lo..hi])
  }

  function Swapped<T>(s: seq<T>, i: nat, j: nat): seq<T>
    requires i < |s| && j < |s|
  {
    s[i := s[j]][j := s[i]]
  }

  lemma SwapRearranges<T>(s: seq<T>, i: nat, j: nat, lo: nat, hi: nat)
    requires lo <= i < hi <= |s| && lo <= j < hi
    ensures Rearranged(s, Swapped(s, i, j), lo, hi)
  {
    var u := s[lo..hi];
    var v := u[i - lo := s[j]][j - lo := s[i]];
    assert Swapped(s, i, j)[lo..hi] == v;
    assert multiset(v) == multiset(u);
  }

  lemma RearrangedRefl<T>(s: seq<T>, lo: nat, hi: nat)
    requires lo <= hi <= |s|
    ensures Rearranged(s, s, lo, hi)
  {
  }

  lemma SwapStep<T>(s0: seq<T>, s: seq<T>, i: nat, j: nat, lo: nat, hi: nat)
    requires lo <= i < hi <= |s| && lo <= j < hi && hi <= |s0| && Rearranged(s0, s, lo, hi)
    ensures Rearranged(s0, Swapped(s, i, j), lo, hi)
  {
    SwapRearranges(s, i, j, lo, hi);
  }

  lemma RearrangedTrans<T>(s: seq<T>, t: seq<T>, u: seq<T>, lo: nat, hi: nat)
    requires lo <= hi <= |s| && Rearranged(s, t, lo, hi) && Rearranged(t, u, lo, hi)
    ensures Rearranged(s, u, lo, hi)
  {
  }

  lemma RearrangedWiden<T>(s: seq<T>, t: seq<T>, lo: nat, hi: nat, lo': nat, hi': nat)
    requires lo' <= lo <= hi <= hi' <= |s| && Rearranged(s, t, lo, hi)
    ensures Rearranged(s, t, lo', hi')
  {
    assert s[lo'..hi'] == s[lo'..lo] + s[lo..hi] + s[hi..hi'];
    assert t[lo'..hi'] == t[lo'..lo] + t[lo..hi] + t[hi..hi'];
    assert s[lo'..lo] == t[lo'..lo] && s[hi..hi'] == t[hi..hi'];
  }

  /** Every element of a permuted stretch was there before. */
  lemma RearrangedFrom<T>(s: seq<T>, t: seq<T>, lo: nat, hi: nat, k: nat) returns (k': nat)
    requires lo <= hi <= |s| && Rearranged(s, t, lo, hi) && lo <= k < hi
    ensures lo <= k' < hi && t[k] == s[k']
  {
    assert t[k] == t[lo..hi][k - lo];
    assert t[k] in multiset(t[lo..hi]);
    assert t[k] in s[lo..hi];
    var i :| 0 <= i < hi - lo && s[lo..hi][i] == t[k];
    k' := lo + i;
  }

  lemma RearrangedBelow<T>(cmp: (T, T) -> int, x: T, s: seq<T>, t: seq<T>, lo: nat, hi: nat, a: nat, b: nat)
    requires lo <= hi <= |s| && Rearranged(s, t, lo, hi) && a <= lo && hi <= b <= |s| && Below(cmp, x, s, a, b)
    ensures Below(cmp, x, t, a, b)
  {
    forall k | a <= k < b ensures Le(cmp, x, t[k]) {
      if lo <= k < hi { var k' := RearrangedFrom(s, t, lo, hi, k); }
    }
  }

  lemma RearrangedAbove<T>(cmp: (T, T) -> int, x: T, s: seq<T>, t: seq<T>, lo: nat, hi: nat, a: nat, b: nat)
    requires lo <= hi <= |s| && Rearranged(s, t, lo, hi) && a <= lo && hi <= b <= |s| && Above(cmp, x, s, a, b)
    ensures Above(cmp, x, t, a, b)
  {
    forall k | a <= k < b ensures Le(cmp, t[k], x) {
      if lo <= k < hi { var k' := RearrangedFrom(s, t, lo, hi, k); }
    }
  }

  // ---------------------------------------------------------------- first phase

  type byte = x: int | 0 <= x < 256

  type Element = seq<byte>

  /** The memory that QSORT is given: count elements of size bytes each. */
  class Elements {
    const bytes: array<byte>
    const count: nat
    const size: nat

    ghost predicate Valid() {
      size > 0 && bytes.Length == count * size
    }

    constructor (bytes: array<byte>, count: nat, size: nat)
      requires size > 0 && bytes.Length == count * size
      ensures Valid() && this.bytes == bytes && this.count == count && this.size == size
    {
      this.bytes, this.count, this.size := bytes, count, size;
    }

    /** Byte r of element k. */
    function Byte(k: nat, r: nat): byte
      requires Valid() && k < count && r < size
      reads bytes
    {
      InRange(size, count, k, r);
      bytes[k * size + r]
    }

    function At(k: nat): (x: Element)
      requires Valid() && k < count
      reads bytes
      ensures |x| == size
    {
      seq(size, r requires 0 <= r < size && Valid() reads bytes => Byte(k, r))
    }

    ghost function Items(): (s: seq<Element>)
      requires Valid()
      reads bytes
      ensures |s| == count && forall k :: 0 <= k < count ==> s[k] == At(k)
    {
      seq(count, k requires 0 <= k < count && Valid() reads bytes => At(k))
    }

    method Store(k: nat, r: nat, c: byte)
      requires Valid() && k < count && r < size
      modifies bytes
      ensures forall k', r' :: 0 <= k' < count && 0 <= r' < size ==>
        Byte(k', r') == if k' == k && r' == r then c else old(Byte(k', r'))
    {
      InRange(size, count, k, r);
      bytes[k * size + r] := c;
      forall k', r' | 0 <= k' < count && 0 <= r' < size
        ensures Byte(k', r') == if k' == k && r' == r then c else old(Byte(k', r'))
      {
        InRange(size, count, k', r');
        if k * size + r == k' * size + r' { Apart(k, r, k', r', size); }
      }
    }
  }

  /** Different bytes are in different places. */
  lemma Apart(k: nat, r: nat, k': nat, r': nat, size: nat)
    requires r < size && r' < size && k * size + r == k' * size + r'
    ensures k == k' && r == r'
  {
    Parts(k * size + r, size, k, r);
    Parts(k * size + r, size, k', r');
  }

  /** Where the element comes from that an exchange of i and j brings to place k. */
  function Partner(i: nat, j: nat, k: nat): nat {
    if k == i then j else if k == j then i else k
  }

  /** Exchanges two elements byte by byte. */
  method Swap(a: Elements, i: nat, j: nat)
    requires a.Valid() && i < a.count && j < a.count
    modifies a.bytes
    ensures a.Items() == Swapped(old(a.Items()), i, j)
  {
    var r := 0;
    while r < a.size
      invariant r <= a.size
      invariant forall k, q :: 0 <= k < a.count && 0 <= q < a.size ==>
        a.Byte(k, q) == if q >= r then old(a.Byte(k, q)) else old(a.Byte(Partner(i, j, k), q))
    {
      var c := a.Byte(i, r);
      a.Store(i, r, a.Byte(j, r));
      a.Store(j, r, c);
      r := r + 1;
    }
    ghost var s := old(a.Items());
    forall k | 0 <= k < a.count ensures a.At(k) == Swapped(s, i, j)[k] {
      assert s[Partner(i, j, k)] == old(a.At(Partner(i, j, k)));
    }
  }

  /** a[m] lies between the other two. */
  ghost predicate Median<T>(cmp: (T, T) -> int, x: T, m: T, y: T) {
    (Le(cmp, x, m) && Le(cmp, m, y)) || (Le(cmp, y, m) && Le(cmp, m, x))
  }

  /** j is the place of a median of the elements at base, i and last. */
  ghost predicate MedianAt<T>(cmp: (T, T) -> int, s: seq<T>, base: nat, i: nat, last: nat, j: nat)
    requires base < i < last < |s|
  {
    || (j == i && Median(cmp, s[base], s[i], s[last]))
    || (j == base && Median(cmp, s[i], s[base], s[last]))
    || (j == last && Median(cmp, s[base], s[last], s[i]))
  }

  method MedianOfThree(a: Elements, cmp: (Element, Element) -> int, base: nat, i: nat, max: nat) returns (j: nat)
    requires a.Valid() && TotalPreorder(cmp) && base < i < max - 1 < a.count
    ensures MedianAt(cmp, a.Items(), base, i, max - 1, j)
  {
    var jj, tmp := base, max - 1;
    j := if cmp(a.At(jj), a.At(i)) > 0 then jj else i;
    if cmp(a.At(j), a.At(tmp)) > 0 {
      j := if j == jj then i else jj;
      if cmp(a.At(j), a.At(tmp)) < 0 {
        j := tmp;
      }
    }
  }

  lemma MedianToMiddle<T(!new)>(cmp: (T, T) -> int, s: seq<T>, base: nat, i: nat, last: nat, j: nat)
    requires base < i < last < |s| && MedianAt(cmp, s, base, i, last, j)
    ensures base <= j <= last
    ensures var t := Swapped(s, i, j); Median(cmp, t[base], t[i], t[last])
  {
    hide Median;
    var t := Swapped(s, i, j);
    if j == base {
      assert t[base] == s[i] && t[i] == s[base] && t[last] == s[last];
    } else if j == last {
      assert t[base] == s[base] && t[i] == s[last] && t[last] == s[i];
    } else {
      assert t == s;
    }
  }

  /** The pivot of a[base..max] is brought to the middle: the middle element of a short
      stretch, a median of three of a long one. */
  method ChoosePivot(a: Elements, cmp: (Element, Element) -> int, base: nat, max: nat) returns (mid: nat)
    requires a.Valid() && TotalPreorder(cmp) && base < max <= a.count
    modifies a.bytes
    ensures mid == base + (max - base) / 2 && Rearranged(old(a.Items()), a.Items(), base, max)
    ensures var s := a.Items(); max - base >= MTHRESH ==> Median(cmp, s[base], s[mid], s[max - 1])
    ensures max - base < MTHRESH ==> a.Items() == old(a.Items())
  {
    mid := base + (max - base) / 2;
    ghost var s := a.Items();
    if max - base < MTHRESH {
      RearrangedRefl(s, base, max);
    } else {
      hide *;
      var j := MedianOfThree(a, cmp, base, mid, max);
      MedianToMiddle(cmp, s, base, mid, max - 1, j);
      SwapRearranges(s, mid, j, base, max);
      SwapNothing(s, mid);
      if j != mid {
        Swap(a, mid, j);
      }
    }
  }

  lemma SwapNothing<T>(s: seq<T>, i: nat)
    requires i < |s|
    ensures Swapped(s, i, i) == s
  {
  }

  ghost predicate Partitioned<T>(cmp: (T, T) -> int, s: seq<T>, base: nat, mid: nat, max: nat) {
    base <= mid < max <= |s| && Above(cmp, s[mid], s, base, mid) && Below(cmp, s[mid], s, mid, max)
  }

  /** The state of a partition: the pivot is at mid, s[base..i] is below it, s[j + 1..max] above. */
  ghost predicate Split<T>(cmp: (T, T) -> int, pivot: T, s: seq<T>, base: nat, i: nat, mid: nat, j: nat, max: nat) {
    && base <= i <= mid <= j < max <= |s| && s[mid] == pivot
    && Above(cmp, pivot, s, base, i) && Below(cmp, pivot, s, j + 1, max)
  }

  /** Swapping two elements that are both on the wrong side, or one of them with the pivot. */
  lemma SwapOutward<T(!new)>(cmp: (T, T) -> int, pivot: T, s: seq<T>, base: nat, i: nat, mid: nat, j: nat, max: nat)
    requires TotalPreorder(cmp) && Split(cmp, pivot, s, base, i, mid, j, max) && i < j
    requires i < mid ==> cmp(s[i], pivot) > 0
    requires mid < j ==> cmp(pivot, s[j]) > 0
    ensures var t := Swapped(s, i, j);
            && (i == mid ==> Split(cmp, pivot, t, base, i + 1, j, j, max))
            && (j == mid ==> Split(cmp, pivot, t, base, i, i, j - 1, max))
            && (i < mid < j ==> Split(cmp, pivot, t, base, i + 1, mid, j - 1, max))
  {
    assert Le(cmp, pivot, pivot);
    assert i < mid ==> Le(cmp, pivot, s[i]);
    assert mid < j ==> Le(cmp, s[j], pivot);
  }

  /** One partition of a[base..max]: the pivot ends at mid with the small elements before
      it and the large ones after it. */
  method Partition(a: Elements, cmp: (Element, Element) -> int, base: nat, max: nat) returns (mid: nat)
    requires a.Valid() && TotalPreorder(cmp) && base < max <= a.count
    modifies a.bytes
    ensures base <= mid < max
    ensures Rearranged(old(a.Items()), a.Items(), base, max) && Partitioned(cmp, a.Items(), base, mid, max)
  {
    mid := ChoosePivot(a, cmp, base, max);
    ghost var s := a.Items();
    mid := PartitionAround(a, cmp, base, mid, max);
    RearrangedTrans(old(a.Items()), s, a.Items(), base, max);
  }

  /** Passes the elements on the left that are not above the pivot. */
  method SkipSmall(a: Elements, cmp: (Element, Element) -> int, ghost pivot: Element, ghost base: nat,
                   start: nat, mid: nat, ghost j: nat, ghost max: nat) returns (i: nat)
    requires a.Valid() && max <= a.count && Split(cmp, pivot, a.Items(), base, start, mid, j, max)
    ensures start <= i <= mid && Split(cmp, pivot, a.Items(), base, i, mid, j, max)
    ensures i < mid ==> cmp(a.Items()[i], pivot) > 0
  {
    i := start;
    while i < mid && cmp(a.At(i), a.At(mid)) <= 0
      invariant start <= i <= mid && Split(cmp, pivot, a.Items(), base, i, mid, j, max)
    {
      i := i + 1;
    }
  }

  /** Passes the elements on the right that are not below the pivot. */
  method SkipLarge(a: Elements, cmp: (Element, Element) -> int, ghost pivot: Element, ghost base: nat,
                   ghost i: nat, mid: nat, start: nat, ghost max: nat) returns (j: nat)
    requires a.Valid() && max <= a.count && Split(cmp, pivot, a.Items(), base, i, mid, start, max)
    ensures mid <= j <= start && Split(cmp, pivot, a.Items(), base, i, mid, j, max)
    ensures mid < j ==> cmp(pivot, a.Items()[j]) > 0
  {
    j := start;
    while j > mid && cmp(a.At(mid), a.At(j)) <= 0
      invariant mid <= j <= start && Split(cmp, pivot, a.Items(), base, i, mid, j, max)
    {
      j := j - 1;
    }
  }

  lemma SplitBounds<T>(cmp: (T, T) -> int, pivot: T, s: seq<T>, base: nat, i: nat, mid: nat, j: nat, max: nat)
    requires Split(cmp, pivot, s, base, i, mid, j, max)
    ensures base <= i <= mid <= j < max <= |s| && s[mid] == pivot
  {
  }

  lemma SplitStart<T>(cmp: (T, T) -> int, s: seq<T>, base: nat, mid: nat, max: nat)
    requires base <= mid < max <= |s|
    ensures Split(cmp, s[mid], s, base, base, mid, max - 1, max)
  {
  }

  lemma SplitEnd<T(!new)>(cmp: (T, T) -> int, pivot: T, s: seq<T>, base: nat, mid: nat, max: nat)
    requires TotalPreorder(cmp) && Split(cmp, pivot, s, base, mid, mid, mid, max)
    ensures Partitioned(cmp, s, base, mid, max)
  {
    LeReflexive(cmp, pivot);
  }

  method PartitionAround(a: Elements, cmp: (Element, Element) -> int, base: nat, pivotAt: nat, max: nat)
    returns (mid: nat)
    requires a.Valid() && TotalPreorder(cmp) && base <= pivotAt < max <= a.count
    modifies a.bytes
    ensures Rearranged(old(a.Items()), a.Items(), base, max) && Partitioned(cmp, a.Items(), base, mid, max)
  {
    hide *;
    ghost var pivot := a.Items()[pivotAt];
    RearrangedRefl(a.Items(), base, max);
    SplitStart(cmp, a.Items(), base, pivotAt, max);
    mid := pivotAt;
    var i, j := base, max - 1;
    while true
      invariant base <= i <= mid <= j < max
      invariant Rearranged(old(a.Items()), a.Items(), base, max)
      invariant Split(cmp, pivot, a.Items(), base, i, mid, j, max)
      decreases j - i
    {
      i := SkipSmall(a, cmp, pivot, base, i, mid, j, max);
      j := SkipLarge(a, cmp, pivot, base, i, mid, j, max);
      ghost var s := a.Items();
      if j > mid {
        SwapStep(old(a.Items()), s, i, j, base, max);
        SwapOutward(cmp, pivot, s, base, i, mid, j, max);
        Swap(a, i, j);
        if i == mid {
          mid := j;
        } else {
          j := j - 1;
        }
        i := i + 1;
      } else if i == mid {
        SplitEnd(cmp, pivot, s, base, mid, max);
        break;
      } else {
        SwapStep(old(a.Items()), s, i, mid, base, max);
        SwapOutward(cmp, pivot, s, base, i, mid, mid, max);
        Swap(a, i, mid);
        mid := i;
        j := j - 1;
      }
      SplitBounds(cmp, pivot, a.Items(), base, i, mid, j, max);
    }
  }

  /** What Qst has established when the stretch s[base..max] of s[lo..hi] is still to be
      partitioned: while it starts at lo, it lies below everything after it; afterwards a
      least element already stands among the first THRESH places. */
  ghost predicate Front<T>(cmp: (T, T) -> int, s: seq<T>, lo: nat, base: nat, max: nat, hi: nat) {
    && lo <= base <= max <= hi <= |s|
    && (base == lo ==> lo < max && forall i :: lo <= i < max ==> Below(cmp, s[i], s, max, hi))
    && (base > lo ==> exists m :: lo <= m < lo + THRESH && m < base && Below(cmp, s[m], s, lo, hi))
  }

  lemma FrontKeeps<T>(cmp: (T, T) -> int, s: seq<T>, t: seq<T>, lo: nat, base: nat, max: nat, hi: nat)
    requires Front(cmp, s, lo, base, max, hi) && Rearranged(s, t, base, max)
    ensures Front(cmp, t, lo, base, max, hi)
  {
    if base == lo {
      forall i | lo <= i < max ensures Below(cmp, t[i], t, max, hi) {
        var i' := RearrangedFrom(s, t, base, max, i);
        assert Below(cmp, s[i'], s, max, hi);
      }
    } else {
      var m :| lo <= m < lo + THRESH && m < base && Below(cmp, s[m], s, lo, hi);
      RearrangedBelow(cmp, s[m], s, t, base, max, lo, hi);
      assert t[m] == s[m];
    }
  }

  lemma PartitionedKeeps<T>(cmp: (T, T) -> int, s: seq<T>, t: seq<T>, base: nat, mid: nat, max: nat)
    requires Partitioned(cmp, s, base, mid, max)
    requires Rearranged(s, t, base, mid) || Rearranged(s, t, mid + 1, max)
    ensures Partitioned(cmp, t, base, mid, max)
  {
    if Rearranged(s, t, base, mid) {
      RearrangedAbove(cmp, s[mid], s, t, base, mid, base, mid);
    } else {
      RearrangedBelow(cmp, s[mid], s, t, mid + 1, max, mid, max);
    }
  }

  lemma {:induction false} LeastExists<T(!new)>(cmp: (T, T) -> int, s: seq<T>, lo: nat, hi: nat)
    requires TotalPreorder(cmp) && lo < hi <= |s|
    ensures LeastIn(cmp, s, lo, hi, hi)
    decreases hi - lo
  {
    hide TotalPreorder;
    if lo + 1 == hi {
      LeReflexive(cmp, s[lo]);
      assert Below(cmp, s[lo], s, lo, hi);
    } else {
      LeastExists(cmp, s, lo, hi - 1);
      var m :| lo <= m < hi - 1 && Below(cmp, s[m], s, lo, hi - 1);
      if Le(cmp, s[m], s[hi - 1]) {
        assert Below(cmp, s[m], s, lo, hi);
      } else {
        LeTotal(cmp, s[m], s[hi - 1]);
        BelowTrans(cmp, s[hi - 1], s[m], s, lo, hi - 1);
        LeReflexive(cmp, s[hi - 1]);
        assert Below(cmp, s[hi - 1], s, lo, hi);
      }
    }
  }

  lemma BelowTrans<T(!new)>(cmp: (T, T) -> int, x: T, y: T, s: seq<T>, lo: nat, hi: nat)
    requires TotalPreorder(cmp) && Le(cmp, x, y) && lo <= hi <= |s| && Below(cmp, y, s, lo, hi)
    ensures Below(cmp, x, s, lo, hi)
  {
  }

  /** The left side is done, with a least element of it in front if it is long: go on to the right. */
  lemma AdvanceLeft<T(!new)>(cmp: (T, T) -> int, s: seq<T>, lo: nat, base: nat, mid: nat, max: nat, hi: nat)
    requires TotalPreorder(cmp) && Front(cmp, s, lo, base, max, hi) && Partitioned(cmp, s, base, mid, max)
    requires mid - base < THRESH || LeastIn(cmp, s, base, base + THRESH, mid)
    ensures Front(cmp, s, lo, mid + 1, max, hi)
  {
    if base == lo {
      if mid == lo {
        assert Below(cmp, s[mid], s, lo, hi);
      } else {
        if mid - base < THRESH { LeastExists(cmp, s, lo, mid); }
        var m :| lo <= m < lo + THRESH && m < mid && Below(cmp, s[m], s, lo, mid);
        BelowTrans(cmp, s[m], s[mid], s, mid, max);
        assert Below(cmp, s[m], s, lo, hi);
      }
    }
  }

  /** The right side is done: go on to the left. */
  lemma ShrinkRight<T(!new)>(cmp: (T, T) -> int, s: seq<T>, lo: nat, base: nat, mid: nat, max: nat, hi: nat)
    requires TotalPreorder(cmp) && Front(cmp, s, lo, base, max, hi) && Partitioned(cmp, s, base, mid, max) && base < mid
    ensures Front(cmp, s, lo, base, mid, hi)
  {
    if base == lo {
      forall i | lo <= i < mid ensures Below(cmp, s[i], s, mid, hi) {
        BelowTrans(cmp, s[i], s[mid], s, mid, max);
        assert Below(cmp, s[i], s, max, hi);
      }
    }
  }

  lemma FrontBounds<T>(cmp: (T, T) -> int, s: seq<T>, lo: nat, base: nat, max: nat, hi: nat)
    requires Front(cmp, s, lo, base, max, hi)
    ensures lo <= base <= max <= hi <= |s|
  {
  }

  /** A round that partitions s into t and sorts out the left side of t into u. */
  lemma RoundLeft<T(!new)>(cmp: (T, T) -> int, s: seq<T>, t: seq<T>, u: seq<T>, lo: nat, base: nat, mid: nat,
    max: nat, hi: nat)
    requires TotalPreorder(cmp) && Front(cmp, s, lo, base, max, hi) && Rearranged(s, t, base, max)
    requires Partitioned(cmp, t, base, mid, max) && Rearranged(t, u, base, mid)
    requires mid - base >= THRESH ==> LeastIn(cmp, u, base, base + THRESH, mid)
    ensures Front(cmp, u, lo, mid + 1, max, hi) && Rearranged(s, u, base, max)
  {
    hide TotalPreorder, Front, LeastIn;
    FrontKeeps(cmp, s, t, lo, base, max, hi);
    PartitionedKeeps(cmp, t, u, base, mid, max);
    RearrangedWiden(t, u, base, mid, base, max);
    FrontKeeps(cmp, t, u, lo, base, max, hi);
    AdvanceLeft(cmp, u, lo, base, mid, max, hi);
  }

  lemma RoundRight<T(!new)>(cmp: (T, T) -> int, s: seq<T>, t: seq<T>, u: seq<T>, lo: nat, base: nat, mid: nat,
    max: nat, hi: nat)
    requires TotalPreorder(cmp) && Front(cmp, s, lo, base, max, hi) && Rearranged(s, t, base, max)
    requires Partitioned(cmp, t, base, mid, max) && Rearranged(t, u, mid + 1, max) && base < mid
    ensures Front(cmp, u, lo, base, mid, hi) && Rearranged(s, u, base, max)
  {
    hide TotalPreorder, Front, LeastIn;
    FrontKeeps(cmp, s, t, lo, base, max, hi);
    PartitionedKeeps(cmp, t, u, base, mid, max);
    RearrangedWiden(t, u, mid + 1, max, base, max);
    FrontKeeps(cmp, t, u, lo, base, max, hi);
    ShrinkRight(cmp, u, lo, base, mid, max, hi);
  }

  /** A round that partitions s into t and sorts out the side from..to of t into u. */
  lemma RoundDone<T(!new)>(cmp: (T, T) -> int, s: seq<T>, t: seq<T>, u: seq<T>, lo: nat, base: nat, mid: nat, max: nat,
                           hi: nat, from: nat, to: nat, base': nat, max': nat)
    requires TotalPreorder(cmp) && Front(cmp, s, lo, base, max, hi) && Rearranged(s, t, base, max)
    requires Partitioned(cmp, t, base, mid, max) && from <= to <= |t| && Rearranged(t, u, from, to)
    requires to - from >= THRESH ==> LeastIn(cmp, u, from, from + THRESH, to)
    requires (from, to, base', max') == (base, mid, mid + 1, max)
      || ((from, to, base', max') == (mid + 1, max, base, mid) && base < mid)
    ensures Front(cmp, u, lo, base', max', hi) && Rearranged(s, u, base, max)
  {
    hide *;
    if from == base {
      RoundLeft(cmp, s, t, u, lo, base, mid, max, hi);
    } else {
      RoundRight(cmp, s, t, u, lo, base, mid, max, hi);
    }
  }

  /** The first phase is over: the stretch left is shorter than THRESH. */
  lemma FrontLeast<T(!new)>(cmp: (T, T) -> int, s: seq<T>, lo: nat, base: nat, max: nat, hi: nat)
    requires TotalPreorder(cmp) && Front(cmp, s, lo, base, max, hi) && max - base < THRESH && lo < hi
    ensures LeastIn(cmp, s, lo, lo + THRESH, hi)
  {
    if base == lo {
      LeastExists(cmp, s, lo, max);
      var m :| lo <= m < max && Below(cmp, s[m], s, lo, max);
      assert Below(cmp, s[m], s, lo, hi);
    }
  }

  /** Qst of the smaller side, if it is long enough. */
  method QstSide(a: Elements, cmp: (Element, Element) -> int, lo: nat, hi: nat) returns (ghost depth: nat)
    requires a.Valid() && TotalPreorder(cmp) && lo <= hi <= a.count
    modifies a.bytes
    ensures Rearranged(old(a.Items()), a.Items(), lo, hi)
    ensures hi - lo >= THRESH ==> LeastIn(cmp, a.Items(), lo, lo + THRESH, hi)
    ensures depth == 0 || Pow2(depth) <= 2 * (hi - lo)
    decreases hi - lo, 4
  {
    depth := 0;
    if hi - lo >= THRESH {
      depth := Qst(a, cmp, lo, hi);
      depth := depth + 1;
    }
  }

  /** One round of the loop in Qst: partitions, recurses into the smaller side and
      returns the larger one. */
  method QstRound(a: Elements, cmp: (Element, Element) -> int, ghost lo: nat, base: nat, max: nat, ghost hi: nat)
    returns (base': nat, max': nat, ghost depth: nat)
    requires a.Valid() && TotalPreorder(cmp) && Front(cmp, a.Items(), lo, base, max, hi) && max - base >= THRESH
    requires hi <= a.count
    modifies a.bytes
    ensures base <= base' <= max' <= max && max' - base' < max - base
    ensures Rearranged(old(a.Items()), a.Items(), base, max) && Front(cmp, a.Items(), lo, base', max', hi)
    ensures depth == 0 || Pow2(depth) <= max - base
    decreases max - base, 2
  {
    ghost var s := a.Items();
    FrontBounds(cmp, s, lo, base, max, hi);
    hide *;
    var mid := Partition(a, cmp, base, max);
    ghost var t := a.Items();
    var from, to;
    if mid - base <= max - (mid + 1) {
      from, to := base, mid;
      base', max' := mid + 1, max;
    } else {
      from, to := mid + 1, max;
      base', max' := base, mid;
    }
    depth := QstSide(a, cmp, from, to);
    RoundDone(cmp, s, t, a.Items(), lo, base, mid, max, hi, from, to, base', max');
  }

  /** The first phase on a[lo..hi].  The recursion goes into the smaller side only, so its
      depth is at most the logarithm of the length. */
  method Qst(a: Elements, cmp: (Element, Element) -> int, lo: nat, hi: nat) returns (ghost depth: nat)
    requires a.Valid() && TotalPreorder(cmp) && lo + THRESH <= hi <= a.count
    modifies a.bytes
    ensures Rearranged(old(a.Items()), a.Items(), lo, hi)
    ensures LeastIn(cmp, a.Items(), lo, lo + THRESH, hi)
    ensures Pow2(depth) <= hi - lo
    decreases hi - lo, 3
  {
    var base, max := lo, hi;
    depth := 0;
    assert Pow2(0) == 1;
    assert Front(cmp, a.Items(), lo, lo, hi, hi);
    RearrangedRefl(a.Items(), lo, hi);
    hide Rearranged, TotalPreorder, Front, LeastIn;
    while max - base >= THRESH
      invariant lo <= base <= max <= hi
      invariant Rearranged(old(a.Items()), a.Items(), lo, hi)
      invariant Front(cmp, a.Items(), lo, base, max, hi)
      invariant Pow2(depth) <= hi - lo
      decreases max - base
    {
      ghost var s := a.Items();
      ghost var d;
      ghost var b, m := base, max;
      base, max, d := QstRound(a, cmp, lo, base, max, hi);
      RearrangedWiden(s, a.Items(), b, m, lo, hi);
      RearrangedTrans(old(a.Items()), s, a.Items(), lo, hi);
      depth := if d > depth then d else depth;
    }
    FrontLeast(cmp, a.Items(), lo, base, max, hi);
  }

  // ---------------------------------------------------------------- second phase

  /** s with the element at min moved down to hi. */
  function Inserted<T>(s: seq<T>, hi: nat, min: nat): seq<T>
    requires hi <= min < |s|
  {
    s[..hi] + [s[min]] + s[hi..min] + s[min + 1..]
  }

  lemma InsertedAt<T>(s: seq<T>, hi: nat, min: nat, k: nat)
    requires hi <= min < |s| && k < |s|
    ensures |Inserted(s, hi, min)| == |s|
    ensures Inserted(s, hi, min)[k] == if k < hi || k > min then s[k] else if k == hi then s[min] else s[k - 1]
  {
  }

  lemma InsertedPermutes<T>(s: seq<T>, hi: nat, min: nat)
    requires hi <= min < |s|
    ensures multiset(Inserted(s, hi, min)) == multiset(s)
  {
    assert s == s[..hi] + s[hi..min] + [s[min]] + s[min + 1..];
  }

  /** Where the element comes from that ends in place k. */
  function Source(hi: nat, min: nat, k: nat): nat
    requires hi <= min
  {
    if k < hi || k > min then k else if k == hi then min else k - 1
  }

  /** Shifts byte r of the elements from hi on up by one element and puts that of min at hi. */
  method InsertByte(a: Elements, hi: nat, min: nat, r: nat)
    requires a.Valid() && hi <= min < a.count && r < a.size
    modifies a.bytes
    ensures forall k, q :: 0 <= k < a.count && 0 <= q < a.size ==>
      a.Byte(k, q) == if q == r then old(a.Byte(Source(hi, min, k), q)) else old(a.Byte(k, q))
  {
    var c := a.Byte(min, r);
    var i, j := min, min;
    j := j - 1;
    while j >= hi
      invariant hi - 1 <= j < i == j + 1 <= min
      invariant forall k, q :: 0 <= k < a.count && 0 <= q < a.size ==>
        a.Byte(k, q) == if q == r && i < k <= min then old(a.Byte(k - 1, q)) else old(a.Byte(k, q))
    {
      a.Store(i, r, a.Byte(j, r));
      i := j;
      j := j - 1;
    }
    a.Store(i, r, c);
  }

  /** Shifts the elements from hi on up by one and puts the one at min there, byte by byte. */
  method Insert(a: Elements, hi: nat, min: nat)
    requires a.Valid() && hi <= min < a.count
    modifies a.bytes
    ensures a.Items() == Inserted(old(a.Items()), hi, min)
  {
    var lo := a.size;
    while lo > 0
      invariant lo <= a.size
      invariant forall k, q :: 0 <= k < a.count && 0 <= q < a.size ==>
        a.Byte(k, q) == if q >= lo then old(a.Byte(Source(hi, min, k), q)) else old(a.Byte(k, q))
    {
      lo := lo - 1;
      InsertByte(a, hi, min, lo);
    }
    ghost var s := old(a.Items());
    forall k | 0 <= k < a.count ensures a.At(k) == Inserted(s, hi, min)[k] {
      InsertedAt(s, hi, min, k);
      assert s[Source(hi, min, k)] == old(a.At(Source(hi, min, k)));
    }
  }

  /** Where the unguarded scan stops; the loop test reads a[hi] without looking at hi. */
  method Scan(a: Elements, cmp: (Element, Element) -> int, min: nat) returns (hi: nat)
    requires a.Valid() && TotalPreorder(cmp) && 0 < min < a.count && Le(cmp, a.At(0), a.At(min))
    ensures hi <= min && (forall k :: hi <= k < min ==> cmp(a.At(k), a.At(min)) > 0)
    ensures hi > 0 && Le(cmp, a.At(hi - 1), a.At(min))
  {
    hide TotalPreorder;
    hi := min - 1;
    while cmp(a.At(hi), a.At(min)) > 0
      invariant hi < min && forall k :: hi < k < min ==> cmp(a.At(k), a.At(min)) > 0
      decreases hi
    {
      hi := hi - 1;
    }
    hi := hi + 1;
  }

  lemma InsertSorts<T(!new)>(cmp: (T, T) -> int, s: seq<T>, hi: nat, min: nat)
    requires TotalPreorder(cmp) && 0 < hi <= min < |s| && Sorted(cmp, s[..min])
    requires Le(cmp, s[hi - 1], s[min]) && forall k :: hi <= k < min ==> cmp(s[k], s[min]) > 0
    ensures Sorted(cmp, Inserted(s, hi, min)[..min + 1])
  {
    var t := Inserted(s, hi, min);
    assert forall k :: 0 <= k < |s| ==>
      t[k] == (if k < hi || k > min then s[k] else if k == hi then s[min] else s[k - 1]) by {
      forall k | 0 <= k < |s|
        ensures t[k] == (if k < hi || k > min then s[k] else if k == hi then s[min] else s[k - 1])
      {
        InsertedAt(s, hi, min, k);
      }
    }
    forall k, m | 0 <= k < m < min ensures Le(cmp, s[k], s[m]) {
      assert s[..min][k] == s[k] && s[..min][m] == s[m];
    }
    forall i, j | 0 <= i < j < min + 1 ensures Le(cmp, t[i], t[j]) {
      if j == hi {
        assert Le(cmp, s[i], s[hi - 1]) || i == hi - 1;
      } else if i == hi {
        LeTotal(cmp, s[min], s[j - 1]);
      }
    }
  }

  lemma InsertKeepsLeast<T(!new)>(cmp: (T, T) -> int, s: seq<T>, hi: nat, min: nat)
    requires 0 < hi <= min < |s| && Below(cmp, s[0], s, 0, |s|)
    ensures Below(cmp, Inserted(s, hi, min)[0], Inserted(s, hi, min), 0, |s|)
  {
    InsertedAt(s, hi, min, 0);
    forall k | 0 <= k < |s| ensures Le(cmp, s[0], Inserted(s, hi, min)[k]) { InsertedAt(s, hi, min, k); }
  }

  lemma InsertNothing<T>(s: seq<T>, min: nat)
    requires min < |s|
    ensures Inserted(s, min, min) == s
  {
  }

  method InsertionSort(a: Elements, cmp: (Element, Element) -> int)
    requires a.Valid() && TotalPreorder(cmp) && a.count > 0 && Below(cmp, a.At(0), a.Items(), 0, a.count)
    modifies a.bytes
    ensures Sorted(cmp, a.Items()) && multiset(a.Items()) == multiset(old(a.Items()))
  {
    var min := 1;
    assert Below(cmp, a.Items()[0], a.Items(), 0, a.count);
    hide TotalPreorder, Below, Inserted;
    while min < a.count
      invariant 1 <= min <= a.count
      invariant Sorted(cmp, a.Items()[..min]) && multiset(a.Items()) == multiset(old(a.Items()))
      invariant Below(cmp, a.Items()[0], a.Items(), 0, a.count)
    {
      ghost var s := a.Items();
      assert Le(cmp, s[0], s[min]) by { BelowAt(cmp, s[0], s, 0, a.count, min); }
      var hi := Scan(a, cmp, min);
      if hi != min {
        Insert(a, hi, min);
      }
      InsertNothing(s, min);
      InsertSorts(cmp, s, hi, min);
      InsertedPermutes(s, hi, min);
      InsertKeepsLeast(cmp, s, hi, min);
      assert a.Items() == Inserted(s, hi, min);
      min := min + 1;
    }
    assert a.Items()[..a.count] == a.Items();
  }

  lemma BelowAt<T>(cmp: (T, T) -> int, x: T, s: seq<T>, lo: nat, hi: nat, k: nat)
    requires lo <= k < hi <= |s| && Below(cmp, x, s, lo, hi)
    ensures Le(cmp, x, s[k])
  {
  }

  /** The place of a least element among a[0..hi]. */
  method FindLeast(a: Elements, cmp: (Element, Element) -> int, hi: nat) returns (j: nat)
    requires a.Valid() && TotalPreorder(cmp) && 0 < hi <= a.count
    ensures j < hi && Below(cmp, a.At(j), a.Items(), 0, hi)
  {
    LeReflexive(cmp, a.At(0));
    hide TotalPreorder;
    j := 0;
    var lo := 1;
    while lo < hi
      invariant 1 <= lo <= hi && j < lo && Below(cmp, a.At(j), a.Items(), 0, lo)
    {
      if cmp(a.At(j), a.At(lo)) > 0 {
        LeTotal(cmp, a.At(j), a.At(lo));
        BelowTrans(cmp, a.At(lo), a.At(j), a.Items(), 0, lo);
        LeReflexive(cmp, a.At(lo));
        j := lo;
      }
      lo := lo + 1;
    }
  }

  /** QSORT: the elements end up sorted and are a permutation of what they were.  The calls of
      qst nest, beyond the first, no deeper than the logarithm of their number. */
  method Sort(a: Elements, cmp: (Element, Element) -> int) returns (ghost depth: nat)
    requires a.Valid() && TotalPreorder(cmp)
    modifies a.bytes
    ensures Sorted(cmp, a.Items()) && multiset(a.Items()) == multiset(old(a.Items()))
    ensures depth == 0 || Pow2(depth) <= a.count
  {
    hide Rearranged, TotalPreorder, LeastIn, Below;
    depth := 0;
    var n := a.count;
    if n <= 1 {
      return;
    }
    var hi;
    ghost var s := a.Items();
    if n >= THRESH {
      depth := Qst(a, cmp, 0, n);
      WholePermuted(s, a.Items());
      hi := THRESH;
    } else {
      hi := n;
      LeastExists(cmp, a.Items(), 0, n);
    }
    ghost var t := a.Items();
    var j := FindLeast(a, cmp, hi);
    LeastOfFront(cmp, t, j, hi);
    LeastMoved(cmp, t, j);
    if j != 0 {
      Swap(a, j, 0);
    }
    assert a.Items() == Swapped(t, j, 0);
    InsertionSort(a, cmp);
  }

  /** A least element moved to the front. */
  lemma LeastMoved<T(!new)>(cmp: (T, T) -> int, t: seq<T>, j: nat)
    requires j < |t| && Below(cmp, t[j], t, 0, |t|)
    ensures var u := Swapped(t, j, 0); multiset(u) == multiset(t) && Below(cmp, t[j], u, 0, |t|)
  {
    hide Rearranged, Below;
    SwapRearranges(t, j, 0, 0, |t|);
    WholePermuted(t, Swapped(t, j, 0));
    RearrangedBelow(cmp, t[j], t, Swapped(t, j, 0), 0, |t|, 0, |t|);
  }

  lemma WholePermuted<T>(s: seq<T>, t: seq<T>)
    requires Rearranged(s, t, 0, |s|)
    ensures multiset(s) == multiset(t)
  {
    assert s[0..|s|] == s && t[0..|s|] == t;
  }

  lemma LeastOfFront<T(!new)>(cmp: (T, T) -> int, s: seq<T>, j: nat, hi: nat)
    requires TotalPreorder(cmp) && j < hi <= |s| && Below(cmp, s[j], s, 0, hi) && LeastIn(cmp, s, 0, hi, |s|)
    ensures Below(cmp, s[j], s, 0, |s|)
  {
    var m :| 0 <= m < hi && Below(cmp, s[m], s, 0, |s|);
    BelowTrans(cmp, s[j], s[m], s, 0, |s|);
  }
}
