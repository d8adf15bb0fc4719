/** The cryptographic random source. Every read the generator makes asks
    `crypto/rand.Read` for one byte; the read either fails or yields a byte.
    The source is a parameter: the k-th read of one generation returns
    `src(k)`, and every property is proved for every such function. */
module Random {
  import opened Bytes

  /** The outcome of one one-byte `rand.Read`. */
  datatype Draw = ReadError | Got(value: byte)

  /** Read number k (counting from 0) returns `src(k)`. */
  type Source = nat -> Draw

  /** Reads `lo`, ..., `hi - 1` all yield a byte. */
  predicate Succeeds(src: Source, lo: nat, hi: int) {
    forall k: nat :: lo <= k < hi ==> src(k).Got?
  }

  /** The reads `lo`, ..., `at - 1` yielded bytes and read `at` failed:
      `at` is the first failing read at or after `lo`. */
  predicate FirstFailure(src: Source, lo: nat, at: nat) {
    lo <= at && Succeeds(src, lo, at) && src(at).ReadError?
  }

  /** Two runs of successful reads that meet make one run. */
  lemma SucceedsJoin(src: Source, lo: nat, mid: nat, hi: int)
    requires lo <= mid
    requires Succeeds(src, lo, mid) && Succeeds(src, mid, hi)
    ensures Succeeds(src, lo, hi)
  {
  }

  /** If reads from `lo` succeed up to `mid` and the first failure after `mid`
      is `at`, then `at` is the first failure after `lo` as well, and no run of
      successful reads from `lo` reaches past it. */
  lemma FailureAfter(src: Source, lo: nat, mid: nat, at: nat)
    requires lo <= mid
    requires Succeeds(src, lo, mid) && FirstFailure(src, mid, at)
    ensures FirstFailure(src, lo, at)
    ensures forall hi :: hi > at ==> !Succeeds(src, lo, hi)
  {
    forall hi | hi > at ensures !Succeeds(src, lo, hi) {
      assert src(at).ReadError?;
    }
  }
}
