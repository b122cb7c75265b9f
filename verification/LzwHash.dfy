/** The hash index of compress (test-progs/src/compress.c): pairs (prefix code, byte) are
    looked up by open addressing with a secondary step in a table of HSIZE slots. */
module LzwHash {
  import opened LzwCodes

  const HSIZE: int := 5003

  // ---------------------------------------------------------------- keys and probes

  /** The pair as stored in htab. */
  function Key(e: Entry): int {
    e.suffix * 4096 + e.prefix
  }

  lemma KeyInjective(e: Entry, f: Entry)
    requires 0 <= e.prefix < 4096 && 0 <= f.prefix < 4096 && Key(e) == Key(f)
    ensures e == f
  {
  }

  /** (c << hshift) ^ ent, hshift being 4 for a table of this size. */
  function Hash(ent: int, c: byte): (i: int)
    requires 0 <= ent < 4096
    ensures 0 <= i < 4096
  {
    (((c as bv12) << 4) ^ (ent as bv12)) as int
  }

  function Displacement(i: int): (d: int)
    requires 0 <= i < 4096
    ensures 0 < d < HSIZE
  {
    if i == 0 then 1 else HSIZE - i
  }

  /** The j-th slot that is looked at from slot i on. */
  function Probe(i: int, j: nat): (p: int)
    requires 0 <= i < 4096
    ensures 0 <= p < HSIZE
  {
    if j == 0 then i
    else
      var p := Probe(i, j - 1) - Displacement(i);
      if p < 0 then p + HSIZE else p
  }

  lemma {:induction false} ProbeMod(i: int, j: nat)
    requires 0 <= i < 4096
    ensures (Probe(i, j) + j * Displacement(i) - i) % HSIZE == 0
  {
    if j > 0 {
      ProbeMod(i, j - 1);
      OneMore(j - 1, Displacement(i));
      ProbeModStep(Probe(i, j - 1), Probe(i, j), (j - 1) * Displacement(i), Displacement(i), i);
    }
  }

  lemma OneMore(j: int, d: int)
    ensures (j + 1) * d == j * d + d
  {
  }

  lemma ProbeModStep(p: int, p': int, jd: int, d: int, i: int)
    requires (p + jd - i) % HSIZE == 0 && p' == if p - d < 0 then p - d + HSIZE else p - d
    ensures (p' + (jd + d) - i) % HSIZE == 0
  {
  }

  // ---------------------------------------------------------------- 5003 is prime

  /** No number from 2 on divides HSIZE. */
  lemma NoDivisor(a: int, m: int)
    requires 2 <= a < HSIZE
    ensures a * m != HSIZE
  {
    if a * m == HSIZE {
      Cofactor(a, m);
      if a <= 70 { SmallFactor(a, m); } else { SmallFactor(m, a); }
    }
  }

  /** A product below 71 * 71 has a factor of at most 70. */
  lemma Cofactor(a: int, m: int)
    requires 2 <= a < a * m < 71 * 71
    ensures 2 <= m && (a <= 70 || m <= 70)
  {
    if m <= 1 { MulMono(a, m, 1); }
    if a > 70 && m > 70 { MulMono(a, 71, m); MulMono(71, 71, a); }
  }

  lemma MulMono(a: int, b: int, c: int)
    requires a >= 0 && b <= c
    ensures a * b <= a * c
  {
  }

  lemma SmallFactor(a: int, m: int)
    requires 2 <= a <= 70
    ensures a * m != HSIZE
  {
    assert a * m == HSIZE ==> HSIZE % a == 0 by {
      if a * m == HSIZE { ModOfMultiple(a, m); }
    }
    SmallRemainders(a);
  }

  lemma ModOfMultiple(a: int, m: int)
    requires a > 0
    ensures (a * m) % a == 0
  {
    var q, r := a * m / a, a * m % a;
    assert a * m == a * q + r;
    assert r == a * (m - q);
    if m - q >= 1 { MulMono(a, 1, m - q); }
    if m - q <= -1 { MulMono(a, m - q, -1); }
  }

  lemma SmallRemainders(a: int)
    requires 2 <= a <= 70
    ensures HSIZE % a != 0
  {
    if a <= 20 {} else if a <= 40 {} else if a <= 55 {} else {}
  }

  /** Euclid's lemma for the prime HSIZE. */
  lemma {:induction false} Euclid(a: int, b: int, m: int)
    requires 0 < a < HSIZE && a * b == HSIZE * m
    ensures b % HSIZE == 0
    decreases a
  {
    if a == 1 {
      ModOfMultiple(HSIZE, m);
    } else {
      var q, r := HSIZE / a, HSIZE % a;
      assert HSIZE == a * q + r;
      if r == 0 { NoDivisor(a, q); }
      // r * b == HSIZE * b - q * a * b == HSIZE * (b - q * m)
      assert r * b == HSIZE * b - q * (a * b);
      assert r * b == HSIZE * (b - q * m);
      Euclid(r, b, b - q * m);
    }
  }

  /** The first HSIZE probes are different slots. */
  lemma ProbesDistinct(i: int, j: nat, k: nat)
    requires 0 <= i < 4096 && j < k < HSIZE
    ensures Probe(i, j) != Probe(i, k)
  {
    if Probe(i, j) == Probe(i, k) {
      ProbeMod(i, j);
      ProbeMod(i, k);
      var d := Displacement(i);
      var x, y := Probe(i, j) + j * d - i, Probe(i, k) + k * d - i;
      assert y - x == (k - j) * d;
      assert x == HSIZE * (x / HSIZE) && y == HSIZE * (y / HSIZE);
      Euclid(d, k - j, y / HSIZE - x / HSIZE);
    }
  }

  // ---------------------------------------------------------------- the index

  /** The search for key from slot i passes the first j slots: a slot holding key 0 stops
      every search but one that only just begins. */
  ghost predicate Passes(htab: seq<int>, i: int, key: int, j: nat)
    requires |htab| == HSIZE && 0 <= i < 4096
  {
    forall m :: 0 <= m < j ==>
      var h := htab[Probe(i, m)]; h != key && (if m == 0 then h >= 0 else h > 0)
  }

  /** The search for entry k succeeds and finds its code. */
  ghost predicate Findable(htab: seq<int>, codetab: seq<int>, t: Table, k: nat)
    requires |htab| == HSIZE && |codetab| == HSIZE && k < |t| && 0 <= t[k].prefix < 4096
  {
    var i := Hash(t[k].prefix, t[k].suffix);
    exists j :: 0 <= j < HSIZE && Passes(htab, i, Key(t[k]), j)
           && htab[Probe(i, j)] == Key(t[k]) && codetab[Probe(i, j)] == FIRST + k
  }

  /** A used slot belongs to an entry. */
  ghost predicate Owned(htab: seq<int>, codetab: seq<int>, t: Table, p: int)
    requires |htab| == HSIZE && |codetab| == HSIZE && 0 <= p < HSIZE
  {
    htab[p] >= 0 ==> 0 <= codetab[p] - FIRST < |t| && htab[p] == Key(t[codetab[p] - FIRST])
  }

  /** The hash table is an index of the string table. */
  ghost predicate Indexes(htab: seq<int>, codetab: seq<int>, t: Table, used: set<int>) {
    && |htab| == HSIZE && |codetab| == HSIZE
    && (forall k :: 0 <= k < |t| ==> 0 <= t[k].prefix < 4096)
    && (forall p :: 0 <= p < HSIZE ==> Owned(htab, codetab, t, p))
    && (forall k :: 0 <= k < |t| && Key(t[k]) != 0 ==> Findable(htab, codetab, t, k))
    && (forall p :: 0 <= p < HSIZE ==> (htab[p] >= 0 <==> p in used))
    && (forall p :: p in used ==> 0 <= p < HSIZE)
    && |used| <= |t|
  }

  lemma EmptyIndex(htab: seq<int>, codetab: seq<int>)
    requires |htab| == HSIZE && |codetab| == HSIZE && forall p :: 0 <= p < HSIZE ==> htab[p] == -1
    ensures Indexes(htab, codetab, [], {})
  {
  }

  /** A hit is the code of exactly the pair looked for. */
  lemma HitIsSound(htab: seq<int>, codetab: seq<int>, t: Table, used: set<int>, e: Entry, p: int)
    requires Indexes(htab, codetab, t, used) && 0 <= e.prefix < 4096
    requires 0 <= p < HSIZE && htab[p] == Key(e)
    ensures 0 <= codetab[p] - FIRST < |t| && t[codetab[p] - FIRST] == e
  {
    assert Owned(htab, codetab, t, p);
    KeyInjective(e, t[codetab[p] - FIRST]);
  }

  /** Slot Probe(i, j) is where the search for a key ends without success. */
  ghost predicate Vacant(htab: seq<int>, i: int, key: int, j: nat)
    requires |htab| == HSIZE && 0 <= i < 4096
  {
    Passes(htab, i, key, j) && j < HSIZE &&
    var h := htab[Probe(i, j)]; h != key && (h < 0 || (j > 0 && h == 0))
  }

  lemma VacantNotFound(htab: seq<int>, i: int, key: int, j: nat, j': nat)
    requires |htab| == HSIZE && 0 <= i < 4096 && key > 0 && Vacant(htab, i, key, j) && j' < HSIZE
    ensures !Passes(htab, i, key, j') || htab[Probe(i, j')] != key
  {
    assert j < j' ==> htab[Probe(i, j)] <= 0 && (j == 0 ==> htab[Probe(i, j)] < 0);
  }

  /** A miss is complete, except for key 0: no entry holds the pair. */
  lemma MissIsComplete(htab: seq<int>, codetab: seq<int>, t: Table, used: set<int>, e: Entry, j: nat, k: nat)
    requires Indexes(htab, codetab, t, used) && 0 <= e.prefix < 4096 && Key(e) > 0
    requires Vacant(htab, Hash(e.prefix, e.suffix), Key(e), j) && k < |t|
    ensures t[k] != e
  {
    var i := Hash(e.prefix, e.suffix);
    forall j': nat | j' < HSIZE ensures !Passes(htab, i, Key(e), j') || htab[Probe(i, j')] != Key(e) {
      VacantNotFound(htab, i, Key(e), j, j');
    }
    assert Key(t[k]) != 0 ==> Findable(htab, codetab, t, k);
  }

  /** Entering a pair where its search ended keeps every other entry findable. */
  lemma FindableStays(htab: seq<int>, codetab: seq<int>, t: Table, used: set<int>, e: Entry, p: int, k: nat)
    requires Indexes(htab, codetab, t, used) && 0 <= e.prefix < 4096 && 0 <= p < HSIZE && htab[p] <= 0
    requires k < |t| && Key(t[k]) != 0 && Key(t[k]) != Key(e)
    ensures Findable(htab[p := Key(e)], codetab[p := FIRST + |t|], t + [e], k)
  {
    hide Hash, Key, Probe;
    KeyPositive(t[k]);
    KeyPositive(e);
    var i := Hash(t[k].prefix, t[k].suffix);
    assert Findable(htab, codetab, t, k);
    var j :| 0 <= j < HSIZE && Passes(htab, i, Key(t[k]), j) && htab[Probe(i, j)] == Key(t[k])
             && codetab[Probe(i, j)] == FIRST + k;
    assert Owned(htab, codetab, t, Probe(i, j));
    var htab' := htab[p := Key(e)];
    assert Passes(htab', i, Key(t[k]), j);
    assert Probe(i, j) != p;
    assert (t + [e])[k] == t[k];
  }

  lemma FindableNew(htab: seq<int>, codetab: seq<int>, t: Table, e: Entry, j: nat)
    requires |htab| == HSIZE && |codetab| == HSIZE && 0 <= e.prefix < 4096
    requires Vacant(htab, Hash(e.prefix, e.suffix), Key(e), j)
    ensures var p := Probe(Hash(e.prefix, e.suffix), j);
            Findable(htab[p := Key(e)], codetab[p := FIRST + |t|], t + [e], |t|)
  {
    var i := Hash(e.prefix, e.suffix);
    var p := Probe(i, j);
    var htab' := htab[p := Key(e)];
    forall m | 0 <= m < j ensures Probe(i, m) != p { ProbesDistinct(i, m, j); }
    assert Passes(htab', i, Key(e), j);
    assert htab'[Probe(i, j)] == Key(e) && codetab[p := FIRST + |t|][Probe(i, j)] == FIRST + |t|;
  }

  lemma OwnedStays(htab: seq<int>, codetab: seq<int>, t: Table, e: Entry, p: int, q: int)
    requires |htab| == HSIZE && |codetab| == HSIZE && 0 <= p < HSIZE && 0 <= q < HSIZE
    requires Owned(htab, codetab, t, q)
    ensures Owned(htab[p := Key(e)], codetab[p := FIRST + |t|], t + [e], q)
  {
  }

  lemma NoSameKey(htab: seq<int>, codetab: seq<int>, t: Table, used: set<int>, e: Entry, j: nat, k: nat)
    requires Indexes(htab, codetab, t, used) && 0 <= e.prefix < 4096
    requires Vacant(htab, Hash(e.prefix, e.suffix), Key(e), j) && k < |t| && Key(t[k]) != 0
    ensures Key(t[k]) != Key(e)
  {
    if Key(t[k]) == Key(e) {
      KeyInjective(t[k], e);
      MissIsComplete(htab, codetab, t, used, e, j, k);
    }
  }

  lemma EnterKeepsIndex(htab: seq<int>, codetab: seq<int>, t: Table, used: set<int>, e: Entry, j: nat)
    requires Indexes(htab, codetab, t, used) && 0 <= e.prefix < 4096
    requires Vacant(htab, Hash(e.prefix, e.suffix), Key(e), j)
    ensures var p := Probe(Hash(e.prefix, e.suffix), j);
            Indexes(htab[p := Key(e)], codetab[p := FIRST + |t|], t + [e], used + {p})
  {
    hide Hash, Findable, Owned, Probe, Key, Passes;
    var p := Probe(Hash(e.prefix, e.suffix), j);
    assert htab[p] <= 0;
    assert Key(e) >= 0 by { KeyPositive(e); }
    var htab', codetab', t' := htab[p := Key(e)], codetab[p := FIRST + |t|], t + [e];
    FindableNew(htab, codetab, t, e, j);
    forall k | 0 <= k < |t'| && Key(t'[k]) != 0 ensures Findable(htab', codetab', t', k) {
      if k < |t| {
        assert t'[k] == t[k];
        NoSameKey(htab, codetab, t, used, e, j, k);
        FindableStays(htab, codetab, t, used, e, p, k);
      }
    }
    forall q | 0 <= q < HSIZE ensures Owned(htab', codetab', t', q) {
      OwnedStays(htab, codetab, t, e, p, q);
    }
  }

  lemma KeyPositive(e: Entry)
    requires 0 <= e.prefix < 4096
    ensures Key(e) >= 0
  {
  }

  lemma SubsetSize(a: set<int>, b: set<int>)
    requires a <= b
    ensures |a| <= |b|
  {
    assert b == a + (b - a);
  }

  /** The slots of the first j probes. */
  ghost function Visited(i: int, j: nat): set<int>
    requires 0 <= i < 4096
  {
    set m | 0 <= m < j :: Probe(i, m)
  }

  lemma {:induction false} VisitedSize(i: int, j: nat)
    requires 0 <= i < 4096 && j <= HSIZE
    ensures |Visited(i, j)| == j
  {
    if j > 0 {
      VisitedSize(i, j - 1);
      hide Probe;
      assert Visited(i, j) == Visited(i, j - 1) + {Probe(i, j - 1)};
      forall m | 0 <= m < j - 1 ensures Probe(i, m) != Probe(i, j - 1) { ProbesDistinct(i, m, j - 1); }
    }
  }

  /** A search that is still going on has visited different used slots. */
  lemma SearchEnds(htab: seq<int>, i: int, key: int, j: nat, used: set<int>)
    requires |htab| == HSIZE && 0 <= i < 4096 && j <= HSIZE && Passes(htab, i, key, j)
    requires forall p :: 0 <= p < HSIZE && htab[p] >= 0 ==> p in used
    ensures j <= |used|
  {
    forall q | q in Visited(i, j) ensures q in used {
      var m :| 0 <= m < j && Probe(i, m) == q;
    }
    SubsetSize(Visited(i, j), used);
    VisitedSize(i, j);
  }

  lemma VacantIf(htab: seq<int>, i: int, key: int, j: nat)
    requires |htab| == HSIZE && 0 <= i < 4096
    ensures Vacant(htab, i, key, j) <==>
              Passes(htab, i, key, j) && j < HSIZE && var h := htab[Probe(i, j)];
                h != key && (h < 0 || (j > 0 && h == 0))
  {
  }

  lemma PassesMore(htab: seq<int>, i: int, key: int, j: nat)
    requires |htab| == HSIZE && 0 <= i < 4096
    ensures Passes(htab, i, key, 0)
    ensures Passes(htab, i, key, j) && htab[Probe(i, j)] != key
            && (if j == 0 then htab[Probe(i, j)] >= 0 else htab[Probe(i, j)] > 0)
            ==> Passes(htab, i, key, j + 1)
  {
  }

  /** The probe loop of compress: ends at a hit or at a slot to enter the pair in. */
  method Search(htab: array<int>, codetab: array<int>, ent: int, c: byte, ghost t: Table, ghost used: set<int>)
    returns (found: bool, i: int, ghost j: nat)
    requires htab.Length == HSIZE && codetab.Length == HSIZE && 0 <= ent < 4096
    requires Indexes(htab[..], codetab[..], t, used) && |t| <= CAPACITY
    ensures i == Probe(Hash(ent, c), j) && 0 <= i < HSIZE
    ensures found ==> htab[i] == Key(Entry(ent, c))
    ensures !found ==> Vacant(htab[..], Hash(ent, c), Key(Entry(ent, c)), j)
  {
    var fcode := Key(Entry(ent, c));
    var start := Hash(ent, c);
    ghost var h := htab[..];
    assert forall p :: 0 <= p < HSIZE && h[p] >= 0 ==> p in used;
    assert |used| < HSIZE;
    hide Indexes, Hash, Key, Passes, Vacant;
    i, j := start, 0;
    PassesMore(h, start, fcode, 0);
    if htab[i] == fcode {
      return true, i, j;
    } else if htab[i] < 0 {
      VacantIf(h, start, fcode, 0);
      return false, i, j;
    }
    SearchEnds(h, start, fcode, 1, used);
    var disp := Displacement(start);
    while true
      invariant i == Probe(start, j) && j < |used| && Passes(h, start, fcode, j + 1)
      decreases |used| - j
    {
      i := i - disp;
      if i < 0 {
        i := i + HSIZE;
      }
      j := j + 1;
      if htab[i] == fcode {
        return true, i, j;
      }
      if htab[i] <= 0 {
        VacantIf(h, start, fcode, j);
        return false, i, j;
      }
      PassesMore(h, start, fcode, j);
      SearchEnds(h, start, fcode, j + 1, used);
    }
  }
}
