/**
 * Bucket selection of caml_ev_alloc. Sizes below 10 * Single get a bucket
 * each, the next 10 * Decade sizes share one bucket per ten sizes, and every
 * larger size goes to the last bucket.
 *
 * RUNTIME_EVENTS_NUM_ALLOC_BUCKETS and its _SINGLE and _DECADE parts come
 * from runtime/caml/runtime_events.h, which is not part of this model; the
 * values below satisfy NumBuckets == 10 * Single + Decade + 1, which is all
 * that the range proof uses.
 */
module AllocHistogram {

  const Single: nat := 1
  const Decade: nat := 9
  const NumBuckets: nat := 20

  /** The bucket caml_ev_alloc increments for an allocation of sz words. */
  function BucketIndex(sz: nat): (i: nat)
    ensures i < NumBuckets
  {
    if sz < 10 * Single then sz
    else if sz - 10 * Single < 10 * Decade then sz / 10 + 9 * Single
    else NumBuckets - 1
  }

  /** Smallest size counted in bucket i: the buckets tile the sizes in order. */
  function BucketLow(i: nat): nat
    requires i < NumBuckets
  {
    if i < 10 * Single then i
    else if i < 10 * Single + Decade then 10 * (i - 9 * Single)
    else 10 * Single + 10 * Decade
  }

  /** Size sz is counted in bucket i: from its low bound up to the next bucket's. */
  predicate InBucket(sz: nat, i: nat)
    requires i < NumBuckets
  {
    BucketLow(i) <= sz && (i == NumBuckets - 1 || sz < BucketLow(i + 1))
  }

  /** BucketIndex picks exactly the bucket whose range holds the size. */
  lemma BucketIndexIsRange(sz: nat, i: nat)
    requires i < NumBuckets
    ensures BucketIndex(sz) == i <==> InBucket(sz, i)
  {
  }

  /** Larger allocations never land in an earlier bucket. */
  lemma BucketIndexMonotone(a: nat, b: nat)
    requires a <= b
    ensures BucketIndex(a) <= BucketIndex(b)
  {
  }
}
