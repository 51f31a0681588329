/**
 * Candidate generation for brute force. `Product` is the reference meaning
 * of Python's `itertools.product(cs, repeat=len)` (the recursive definition
 * its documentation gives); `Word` is the candidate at a given index, the
 * base-|cs| expansion of that index with the last position varying fastest;
 * `Candidates` lists every length of a range, shortest first.
 */
module Enumeration {
  import opened Alphabets

  function Pow(k: nat, e: nat): nat {
    if e == 0 then 1 else k * Pow(k, e - 1)
  }

  /** `[x + [c] for c in cs]`. */
  function Appended<T>(x: seq<T>, cs: seq<T>): seq<seq<T>> {
    seq(|cs|, j requires 0 <= j < |cs| => x + [cs[j]])
  }

  /** `[x + [c] for x in xs for c in cs]`. */
  function Extend<T>(xs: seq<seq<T>>, cs: seq<T>): seq<seq<T>>
    decreases |xs|
  {
    if xs == [] then [] else Appended(xs[0], cs) + Extend(xs[1..], cs)
  }

  /** `list(itertools.product(cs, repeat=len))`, each tuple as a sequence. */
  function Product<T>(cs: seq<T>, len: nat): seq<seq<T>> {
    if len == 0 then [[]] else Extend(Product(cs, len - 1), cs)
  }

  /** The `i`-th tuple of length `len`: `i` written in base |cs|, most significant digit first. */
  function Word<T>(cs: seq<T>, len: nat, i: nat): (w: seq<T>)
    requires |cs| > 0
    ensures |w| == len
  {
    if len == 0 then [] else Word(cs, len - 1, i / |cs|) + [cs[i % |cs|]]
  }

  /** Every tuple of every length in `lo..hi`, shorter lengths first. */
  function Candidates<T>(cs: seq<T>, lo: nat, hi: int): seq<seq<T>>
    decreases hi - lo
  {
    if hi < lo then [] else Product(cs, lo) + Candidates(cs, lo + 1, hi)
  }

  /** `sum(k ** L for L in range(lo, hi + 1))`. */
  function Count(k: nat, lo: nat, hi: int): nat
    decreases hi - lo
  {
    if hi < lo then 0 else Pow(k, lo) + Count(k, lo + 1, hi)
  }

  lemma PowStep(k: nat, e: nat)
    requires e > 0
    ensures Pow(k, e) == Pow(k, e - 1) * k
  {
  }

  /** Euclidean division by a positive divisor, in the form the proofs below use. */
  lemma DivMod(i: nat, k: nat)
    requires k > 0
    ensures i == (i / k) * k + i % k && 0 <= i % k < k
  {
  }

  lemma MulStep(a: nat, k: nat)
    ensures (a + 1) * k == k + a * k
  {
  }

  lemma DivBelow(i: nat, k: nat, p: nat)
    requires k > 0 && i < p * k
    ensures i / k < p
  {
  }

  lemma IndexBelow(q: nat, r: nat, k: nat, n: nat)
    requires q < n && r < k
    ensures q * k + r < n * k
  {
    assert q * k + r < q * k + k;
    MulStep(q, k);
    assert (q + 1) * k <= n * k;
  }

  lemma ConcatLeft<T>(a: seq<T>, b: seq<T>, m: nat)
    requires m < |a|
    ensures (a + b)[m] == a[m]
  {
  }

  lemma ConcatRight<T>(a: seq<T>, b: seq<T>, m: nat)
    requires m < |b|
    ensures (a + b)[|a| + m] == b[m]
  {
  }

  lemma {:induction false} ExtendLength<T>(xs: seq<seq<T>>, cs: seq<T>)
    ensures |Extend(xs, cs)| == |xs| * |cs|
    decreases |xs|
  {
    if xs != [] {
      ExtendLength(xs[1..], cs);
      MulStep(|xs| - 1, |cs|);
    }
  }

  lemma {:induction false} ExtendAt<T>(xs: seq<seq<T>>, cs: seq<T>, q: nat, r: nat)
    requires q < |xs| && r < |cs|
    ensures q * |cs| + r < |Extend(xs, cs)|
    ensures Extend(xs, cs)[q * |cs| + r] == xs[q] + [cs[r]]
    decreases |xs|
  {
    var k := |cs|;
    var head, tail := Appended(xs[0], cs), Extend(xs[1..], cs);
    assert Extend(xs, cs) == head + tail;
    if q == 0 {
      ExtendLength(xs, cs);
      IndexBelow(q, r, k, |xs|);
      assert q * k + r == r;
      assert (head + tail)[r] == head[r];
    } else {
      ExtendAt(xs[1..], cs, q - 1, r);
      var m := (q - 1) * k + r;
      MulStep(q - 1, k);
      assert q * k + r == k + m;
      assert (head + tail)[k + m] == tail[m];
    }
  }

  /** itertools.product yields exactly |cs|^len tuples. */
  lemma {:induction false} ProductLength<T>(cs: seq<T>, len: nat)
    ensures |Product(cs, len)| == Pow(|cs|, len)
  {
    if len > 0 {
      var p := Product(cs, len - 1);
      ProductLength(cs, len - 1);
      ExtendLength(p, cs);
      PowStep(|cs|, len);
      assert Product(cs, len) == Extend(p, cs);
    }
  }

  /** The same position, given as one index into `Extend(xs, cs)`. */
  lemma ExtendAtIndex<T>(xs: seq<seq<T>>, cs: seq<T>, i: nat)
    requires |cs| > 0 && i / |cs| < |xs|
    ensures i < |Extend(xs, cs)|
    ensures Extend(xs, cs)[i] == xs[i / |cs|] + [cs[i % |cs|]]
  {
    DivMod(i, |cs|);
    ExtendAt(xs, cs, i / |cs|, i % |cs|);
  }

  /** Tuple `i` of length `len` is tuple `i / |cs|` of length `len - 1` extended by `cs[i % |cs|]`. */
  lemma ProductStep<T>(cs: seq<T>, len: nat, i: nat)
    requires |cs| > 0 && len > 0 && i < Pow(|cs|, len)
    ensures i / |cs| < Pow(|cs|, len - 1) == |Product(cs, len - 1)| && i < |Product(cs, len)|
    ensures Product(cs, len)[i] == Product(cs, len - 1)[i / |cs|] + [cs[i % |cs|]]
  {
    var p := Product(cs, len - 1);
    PowStep(|cs|, len);
    DivBelow(i, |cs|, Pow(|cs|, len - 1));
    ProductLength(cs, len - 1);
    ExtendAtIndex(p, cs, i);
    assert Product(cs, len) == Extend(p, cs);
  }

  /** The `i`-th tuple itertools.product yields is `Word(cs, len, i)`. */
  lemma {:induction false} ProductAt<T>(cs: seq<T>, len: nat, i: nat)
    requires |cs| > 0 && i < Pow(|cs|, len)
    ensures |Product(cs, len)| == Pow(|cs|, len)
    ensures Product(cs, len)[i] == Word(cs, len, i)
  {
    ProductLength(cs, len);
    if len > 0 {
      ProductStep(cs, len, i);
      ProductAt(cs, len - 1, i / |cs|);
    }
  }

  lemma SnocInjective<T>(a: seq<T>, x: T, b: seq<T>, y: T)
    requires a + [x] == b + [y]
    ensures a == b && x == y
  {
    assert |a| == |b|;
    assert a == (a + [x])[..|a|];
    assert b == (b + [y])[..|b|];
    assert x == (a + [x])[|a|];
  }

  /** One step of the base-|cs| expansion: the last digit and the remaining prefix. */
  lemma WordStep<T>(cs: seq<T>, len: nat, i: nat) returns (q: nat, r: nat)
    requires |cs| > 0 && len > 0 && i < Pow(|cs|, len)
    ensures q == i / |cs| && r == i % |cs| && i == q * |cs| + r
    ensures q < Pow(|cs|, len - 1) && r < |cs|
    ensures Word(cs, len, i) == Word(cs, len - 1, q) + [cs[r]]
  {
    q, r := i / |cs|, i % |cs|;
    DivMod(i, |cs|);
    DivBelow(i, |cs|, Pow(|cs|, len - 1));
  }

  /** Over a duplicate-free charset, distinct indices give distinct tuples. */
  lemma {:induction false} WordInjective<T>(cs: seq<T>, len: nat, i: nat, j: nat)
    requires |cs| > 0 && Distinct(cs)
    requires i < Pow(|cs|, len) && j < Pow(|cs|, len)
    requires Word(cs, len, i) == Word(cs, len, j)
    ensures i == j
  {
    if len > 0 {
      var qi, ri := WordStep(cs, len, i);
      var qj, rj := WordStep(cs, len, j);
      SnocInjective(Word(cs, len - 1, qi), cs[ri], Word(cs, len - 1, qj), cs[rj]);
      WordInjective(cs, len - 1, qi, qj);
    }
  }

  /** Every tuple of itertools.product over a duplicate-free charset is yielded once. */
  lemma ProductDistinct<T>(cs: seq<T>, len: nat)
    requires |cs| > 0 && Distinct(cs)
    ensures Distinct(Product(cs, len))
  {
    ProductLength(cs, len);
    var p := Product(cs, len);
    forall i, j | 0 <= i < j < |p| ensures p[i] != p[j] {
      ProductAt(cs, len, i);
      ProductAt(cs, len, j);
      if p[i] == p[j] {
        WordInjective(cs, len, i, j);
      }
    }
  }

  lemma {:induction false} ProductLengths<T>(cs: seq<T>, len: nat, i: nat)
    requires i < |Product(cs, len)|
    ensures |Product(cs, len)[i]| == len
  {
    ProductLength(cs, len);
    if |cs| > 0 {
      ProductAt(cs, len, i);
    }
  }

  /** The brute-force candidate list has exactly `sum |cs|^L` entries. */
  lemma {:induction false} CandidatesLength<T>(cs: seq<T>, lo: nat, hi: int)
    ensures |Candidates(cs, lo, hi)| == Count(|cs|, lo, hi)
    decreases hi - lo
  {
    if lo <= hi {
      ProductLength(cs, lo);
      CandidatesLength(cs, lo + 1, hi);
    }
  }

  /** Every candidate from `Candidates(cs, lo, hi)` has a length in `lo..hi`. */
  lemma {:induction false} CandidatesLengths<T>(cs: seq<T>, lo: nat, hi: int, p: nat)
    requires p < |Candidates(cs, lo, hi)|
    ensures lo <= |Candidates(cs, lo, hi)[p]| <= hi
    decreases hi - lo
  {
    var c := Candidates(cs, lo, hi);
    var block := Product(cs, lo);
    if p < |block| {
      ProductLengths(cs, lo, p);
    } else {
      CandidatesLengths(cs, lo + 1, hi, p - |block|);
    }
  }

  /** The lengths of the range contribute their blocks one after another. */
  lemma {:induction false} CountSnoc(k: nat, lo: nat, len: nat)
    requires lo <= len
    ensures Count(k, lo, len) == Count(k, lo, len - 1) + Pow(k, len)
    decreases len - lo
  {
    if lo < len {
      CountSnoc(k, lo + 1, len);
    }
  }

  lemma {:induction false} CountMonotone(k: nat, lo: nat, mid: int, hi: int)
    requires mid <= hi
    ensures Count(k, lo, mid) <= Count(k, lo, hi)
    decreases hi - lo
  {
    if lo <= mid {
      CountMonotone(k, lo + 1, mid, hi);
    }
  }

  /** The candidate list of a range is the list of its lower part followed by that of its upper part. */
  lemma {:induction false} CandidatesSplit<T>(cs: seq<T>, lo: nat, mid: int, hi: int)
    requires lo - 1 <= mid <= hi
    ensures Candidates(cs, lo, hi) == Candidates(cs, lo, mid) + Candidates(cs, mid + 1, hi)
    decreases mid - lo
  {
    if lo <= mid {
      CandidatesSplit(cs, lo + 1, mid, hi);
      var p := Product(cs, lo);
      assert p + (Candidates(cs, lo + 1, mid) + Candidates(cs, mid + 1, hi))
          == (p + Candidates(cs, lo + 1, mid)) + Candidates(cs, mid + 1, hi);
    } else {
      assert Candidates(cs, lo, mid) == [];
    }
  }

  /**
   * Within the whole list, the `i`-th tuple of length `len` sits right after
   * every shorter candidate: position `Count(|cs|, lo, len - 1) + i`.
   */
  lemma CandidatesAt<T>(cs: seq<T>, lo: nat, hi: int, len: nat, i: nat)
    requires lo <= len <= hi && i < |Product(cs, len)|
    ensures Count(|cs|, lo, len - 1) + i < |Candidates(cs, lo, hi)|
    ensures Candidates(cs, lo, hi)[Count(|cs|, lo, len - 1) + i] == Product(cs, len)[i]
  {
    var below, block, above := Candidates(cs, lo, len - 1), Product(cs, len), Candidates(cs, len + 1, hi);
    CandidatesSplit(cs, lo, len - 1, hi);
    assert Candidates(cs, len, hi) == block + above;
    CandidatesLength(cs, lo, len - 1);
    ConcatLeft(block, above, i);
    ConcatRight(below, block + above, i);
  }

  /** Combining the two: the `i`-th word of length `len` sits at position `Count(|cs|, lo, len - 1) + i`. */
  lemma WordAt<T>(cs: seq<T>, lo: nat, hi: int, len: nat, i: nat)
    requires |cs| > 0 && lo <= len <= hi && i < Pow(|cs|, len)
    ensures |Product(cs, len)| == Pow(|cs|, len)
    ensures Count(|cs|, lo, len - 1) + i < |Candidates(cs, lo, hi)|
    ensures Candidates(cs, lo, hi)[Count(|cs|, lo, len - 1) + i] == Word(cs, len, i) == Product(cs, len)[i]
  {
    ProductAt(cs, len, i);
    CandidatesAt(cs, lo, hi, len, i);
  }

  /** `cands` holds the `Pow(|cs|, len)` tuples of length `len` in order, right after those of lengths `lo..len - 1`. */
  predicate HasBlock<T(==)>(cs: seq<T>, lo: nat, len: nat, cands: seq<seq<T>>)
    requires lo <= len
  {
    CountSnoc(|cs|, lo, len);
    && Count(|cs|, lo, len) <= |cands|
    && forall i :: 0 <= i < Pow(|cs|, len) ==>
      |cs| > 0 && cands[Count(|cs|, lo, len - 1) + i] == Word(cs, len, i)
  }

  /** `cands` is every length `lo..hi` of tuples, one block after another. */
  predicate Blocks<T(==)>(cs: seq<T>, lo: nat, hi: int, cands: seq<seq<T>>) {
    && |cands| == Count(|cs|, lo, hi)
    && forall len: nat :: lo <= len <= hi ==> HasBlock(cs, lo, len, cands)
  }

  /** The brute-force list is laid out in blocks (an empty charset gives empty blocks from length 1 on). */
  lemma CandidatesBlocks<T>(cs: seq<T>, lo: nat, hi: int)
    requires |cs| > 0 || lo > 0
    ensures Blocks(cs, lo, hi, Candidates(cs, lo, hi))
  {
    var cands := Candidates(cs, lo, hi);
    CandidatesLength(cs, lo, hi);
    forall len: nat | lo <= len <= hi ensures HasBlock(cs, lo, len, cands) {
      CountSnoc(|cs|, lo, len);
      CountMonotone(|cs|, lo, len, hi);
      forall i | 0 <= i < Pow(|cs|, len)
        ensures |cs| > 0 && cands[Count(|cs|, lo, len - 1) + i] == Word(cs, len, i)
      {
        WordAt(cs, lo, hi, len, i);
      }
    }
  }

  /** Over a duplicate-free charset no brute-force candidate is tried twice. */
  lemma {:induction false} CandidatesDistinct<T>(cs: seq<T>, lo: nat, hi: int)
    requires |cs| > 0 && Distinct(cs)
    ensures Distinct(Candidates(cs, lo, hi))
    decreases hi - lo
  {
    if lo <= hi {
      var block, rest := Product(cs, lo), Candidates(cs, lo + 1, hi);
      ProductDistinct(cs, lo);
      CandidatesDistinct(cs, lo + 1, hi);
      forall i, j | 0 <= i < |block| && 0 <= j < |rest| ensures block[i] != rest[j] {
        ProductLengths(cs, lo, i);
        CandidatesLengths(cs, lo + 1, hi, j);
      }
      DistinctConcat(block, rest);
    }
  }
}
