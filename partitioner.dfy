/**
 * The partition a key is assigned to: the key's positive Murmur2 hash modulo the number of
 * partitions, as Kafka's default partitioner places keyed records.
 */
module Partitioner {
  import Murmur2

  /** `getPartition`: the hash of `key` reduced modulo `numPartitions`. */
  function GetPartition(key: string, numPartitions: nat): (p: nat)
    requires numPartitions > 0
    ensures p < numPartitions
    ensures (Murmur2.Hash(key) - p) % numPartitions == 0
  {
    var h := Murmur2.Hash(key);
    ModIsCongruent(h, numPartitions);
    h % numPartitions
  }

  /**
   * The partition is the only index below `numPartitions` that is congruent to the hash, so it
   * depends on the key and the partition count alone.
   */
  lemma GetPartitionUnique(key: string, numPartitions: nat, p: nat)
    requires numPartitions > 0 && p < numPartitions
    requires (Murmur2.Hash(key) - p) % numPartitions == 0
    ensures GetPartition(key, numPartitions) == p
  {
    CongruentIsMod(Murmur2.Hash(key), numPartitions, p);
  }

  /** With a single partition every key goes to partition 0. */
  lemma SinglePartition(key: string)
    ensures GetPartition(key, 1) == 0
  {
  }

  /**
   * Growing a topic from `m` to a multiple `k * m` of its partitions maps each key to a partition
   * that reduces back to the old one modulo `m`.
   */
  lemma GetPartitionRefines(key: string, m: nat, k: nat)
    requires m > 0 && k > 0
    ensures GetPartition(key, k * m) % m == GetPartition(key, m)
  {
    Murmur2.MulAtLeast(k, m);
    ModOfMod(Murmur2.Hash(key), m, k);
  }

  lemma ModIsCongruent(h: nat, n: nat)
    requires n > 0
    ensures (h - h % n) % n == 0
  {
    Murmur2.DivModUnique(h - h % n, n, h / n, 0);
  }

  lemma CongruentIsMod(h: nat, n: nat, p: nat)
    requires n > 0 && p < n && (h - p) % n == 0
    ensures h % n == p
  {
    var q := (h - p) / n;
    assert h - p == n * q;
    Murmur2.DivModUnique(h, n, q, p);
  }

  lemma ModOfMod(h: nat, m: nat, k: nat)
    requires m > 0 && k > 0 && k * m > 0
    ensures (h % (k * m)) % m == h % m
  {
    var n := k * m;
    var q := h / n;
    var p := h % n;
    assert h == n * q + p;
    assert p == m * (p / m) + p % m;
    assert n * q == m * (k * q);
    assert h == m * (k * q + p / m) + p % m;
    Murmur2.DivModUnique(h, m, k * q + p / m, p % m);
  }
}
