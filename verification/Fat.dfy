/** FAT32 geometry and cluster chains, as values. */
module Fat {
  import opened Prelude

  const SECTOR := 512
  const FAT32_CLUSTER_MASK := 0x0FFF_FFFF
  const FAT32_CLUSTER_VALID_START := 0x2
  const FAT32_CLUSTER_VALID_END := 0x0FFF_FFEF
  const TWO_32 := 0x1_0000_0000

  predicate IsValidCluster(cluster: int) {
    FAT32_CLUSTER_VALID_START <= cluster <= FAT32_CLUSTER_VALID_END
  }

  /** What a mounted volume holds in memory: the numbers of the boot records, and the table. */
  datatype Volume = Volume(
    lbaFirstSector: nat, numReservedSectors: nat, sectorsPerFat: nat, numFats: nat, sectorsPerCluster: nat, table: seq<nat>)
  {
    /** The widths of the fields; a link never leads out of the table. */
    predicate Valid() {
      && lbaFirstSector < TWO_32 && numReservedSectors < 0x1_0000 && sectorsPerFat < TWO_32 && numFats < 0x100
      && sectorsPerCluster < 0x100 && table != []
      && forall i :: 0 <= i < |table| ==> table[i] < TWO_32 && (IsValidCluster(table[i]) ==> table[i] < |table|)
    }

    /** A sum of 32-bit fields. */
    function GetFatsStartSector(): nat { (lbaFirstSector + numReservedSectors) % TWO_32 }

    /** A product of 32-bit fields, added in 64 bits. */
    function GetDataRegionStartSector(): nat { GetFatsStartSector() + TableSectors() % TWO_32 }

    function TableSectors(): nat { sectorsPerFat * numFats }

    /** One sector for each cluster, whatever the boot record says. */
    function ClusterToSector(cluster: nat): nat { (GetDataRegionStartSector() + cluster - 2) % TWO_64 }

    /** Zero when there is no next cluster. */
    function GetNextCluster(cluster: nat): (next: nat)
      requires Valid() && cluster < |table|
      ensures next < |table| && (next == 0 || IsValidCluster(next))
    {
      if IsValidCluster(table[cluster]) then table[cluster] else 0
    }

    /** The cluster after `k` links. */
    function Nth(cluster: nat, k: nat): (c: nat)
      requires Valid() && cluster < |table|
      ensures c < |table|
    {
      if k == 0 then cluster else GetNextCluster(Nth(cluster, k - 1))
    }

    /** The chain from `cluster` has exactly `n` valid clusters and then ends. */
    ghost predicate Chain(cluster: nat, n: nat)
      requires Valid() && cluster < |table|
    {
      !IsValidCluster(Nth(cluster, n)) && forall k :: 0 <= k < n ==> IsValidCluster(Nth(cluster, k))
    }
  }

  /** Clusters are numbered from 2 and lie one after the other from the computed start on. */
  lemma ClustersApart(v: Volume, a: nat, b: nat)
    requires v.Valid() && IsValidCluster(a) && IsValidCluster(b)
    ensures v.ClusterToSector(a) == v.GetDataRegionStartSector() + a - 2
    ensures v.ClusterToSector(a) == v.ClusterToSector(b) <==> a == b
  {}

  /** Neither 32-bit operation on the boot record's fields wraps. */
  predicate NoWrap(v: Volume) {
    v.lbaFirstSector + v.numReservedSectors < 0x1_0000_0000 && v.numFats * v.sectorsPerFat < 0x1_0000_0000
  }

  /** The sector in which the `k`-th copy of the table starts; behind the last copy it is the data region. */
  function CopyStart(v: Volume, k: nat): int {
    if k == 0 then v.lbaFirstSector + v.numReservedSectors else CopyStart(v, k - 1) + v.sectorsPerFat
  }

  lemma {:induction false} CopyStartIs(v: Volume, k: nat)
    ensures CopyStart(v, k) == v.lbaFirstSector + v.numReservedSectors + k * v.sectorsPerFat
  {
    if k > 0 {
      CopyStartIs(v, k - 1);
      assert k * v.sectorsPerFat == (k - 1) * v.sectorsPerFat + v.sectorsPerFat;
    }
  }

  lemma {:induction false} CopiesInOrder(v: Volume, j: nat, k: nat)
    requires j <= k
    ensures CopyStart(v, j) <= CopyStart(v, k)
    decreases k
  {
    if j < k {
      CopiesInOrder(v, j, k - 1);
    }
  }

  /** The computed start is the one right behind the last copy of the table exactly when nothing wraps. */
  lemma DataRegionIsExactIff(v: Volume)
    ensures v.GetDataRegionStartSector() == CopyStart(v, v.numFats) <==> NoWrap(v)
  {
    hide CopyStart;
    CopyStartIs(v, v.numFats);
    Product(v.sectorsPerFat, v.numFats);
    WrapsIff(v.lbaFirstSector + v.numReservedSectors, v.TableSectors());
  }

  lemma Product(a: nat, b: nat)
    ensures a * b == b * a && a * b >= 0
  {}

  lemma WrapsIff(a: nat, b: nat)
    ensures a % TWO_32 + b % TWO_32 == a + b <==> a < TWO_32 && b < TWO_32
  {}

  /**
   Where the clusters are on the disk: cluster 2 right behind the last copy of the table, each
   further one a sector later, and none inside any of the copies.
   */
  lemma ClustersBehindTables(v: Volume, cluster: nat, k: nat)
    requires v.Valid() && NoWrap(v) && IsValidCluster(cluster) && k < v.numFats
    ensures v.ClusterToSector(cluster) == CopyStart(v, v.numFats) + cluster - 2
    ensures !(CopyStart(v, k) <= v.ClusterToSector(cluster) < CopyStart(v, k + 1))
  {
    DataRegionIsExactIff(v);
    ClustersApart(v, cluster, cluster);
    CopiesInOrder(v, k + 1, v.numFats);
  }

  /** Where the FAT specification puts the first sector of a cluster, from the start of the data region on. */
  function SpecifiedSector(v: Volume, cluster: nat): int {
    v.GetDataRegionStartSector() + (cluster - 2) * v.sectorsPerCluster
  }

  /** The sector read for a cluster is its own first one exactly when clusters are sectors, or for the first cluster. */
  lemma SectorIsSpecifiedIff(v: Volume, cluster: nat)
    requires v.Valid() && IsValidCluster(cluster)
    ensures v.ClusterToSector(cluster) == SpecifiedSector(v, cluster) <==> v.sectorsPerCluster == 1 || cluster == 2
  {
    assert v.ClusterToSector(cluster) == v.GetDataRegionStartSector() + cluster - 2;
    if cluster != 2 && v.sectorsPerCluster != 1 {
      OtherMultiple(cluster - 2, v.sectorsPerCluster);
    }
  }

  lemma OtherMultiple(n: nat, k: nat)
    requires n > 0 && k != 1
    ensures n * k != n
  {
    if k > 1 { assert n * k == n + n * (k - 1); }
  }

  /** The FAT specification ignores the four high bits of an entry. */
  function SpecifiedNext(v: Volume, cluster: nat): nat
    requires v.Valid() && cluster < |v.table|
  {
    var masked := v.table[cluster] % (FAT32_CLUSTER_MASK + 1);
    if IsValidCluster(masked) then masked else 0
  }

  /**
   The mask is defined but never applied: the link followed is the specified one exactly when the
   high bits are clear or the entry is no link anyway.
   */
  lemma NextIsSpecifiedIff(v: Volume, cluster: nat)
    requires v.Valid() && cluster < |v.table|
    ensures v.GetNextCluster(cluster) == SpecifiedNext(v, cluster) <==>
      v.table[cluster] <= FAT32_CLUSTER_MASK || !IsValidCluster(v.table[cluster] % (FAT32_CLUSTER_MASK + 1))
  {}

  // ----- the bytes of a chain -----

  /** What each sector of the device holds. */
  type Disk = int -> seq<int>

  ghost predicate Sectored(disk: Disk) {
    forall s :: |disk(s)| == SECTOR
  }

  /** The contents of the first `n` clusters from `cluster` on, in chain order. */
  ghost function ChainBytes(v: Volume, disk: Disk, cluster: nat, n: nat): (s: seq<int>)
    requires v.Valid() && cluster < |v.table| && Sectored(disk)
    ensures |s| == SECTOR * n
  {
    if n == 0 then [] else ChainBytes(v, disk, cluster, n - 1) + disk(v.ClusterToSector(v.Nth(cluster, n - 1)))
  }

  /** Byte `i` of a chain, found by going to its cluster. */
  ghost function ByteAt(v: Volume, disk: Disk, cluster: nat, i: nat): int
    requires v.Valid() && cluster < |v.table| && Sectored(disk)
  {
    disk(v.ClusterToSector(v.Nth(cluster, i / SECTOR)))[i % SECTOR]
  }

  lemma ByteAtInCluster(v: Volume, disk: Disk, cluster: nat, k: nat, i: nat)
    requires v.Valid() && cluster < |v.table| && Sectored(disk) && i < SECTOR
    ensures ByteAt(v, disk, cluster, SECTOR * k + i) == disk(v.ClusterToSector(v.Nth(cluster, k)))[i]
  {
    assert (SECTOR * k + i) / SECTOR == k && (SECTOR * k + i) % SECTOR == i;
  }

  lemma {:induction false} ByteAtIsChain(v: Volume, disk: Disk, cluster: nat, n: nat, i: nat)
    requires v.Valid() && cluster < |v.table| && Sectored(disk) && i < SECTOR * n
    ensures ByteAt(v, disk, cluster, i) == ChainBytes(v, disk, cluster, n)[i]
  {
    if i < SECTOR * (n - 1) {
      ByteAtIsChain(v, disk, cluster, n - 1, i);
    } else {
      assert i / SECTOR == n - 1 && i % SECTOR == i - SECTOR * (n - 1);
    }
  }

  // ----- File::Read's starting point -----

  /** How many links the skipping loop follows for an offset. */
  function Skipped(offset: nat): nat {
    if offset == 0 then 0 else (offset - 1) / SECTOR
  }

  /** Reading starts at a cluster boundary below the offset; it is the right place only for offset zero. */
  lemma StartsRightIff(offset: nat)
    ensures SECTOR * Skipped(offset) == offset <==> offset == 0
    ensures offset > 0 ==> SECTOR * Skipped(offset) < offset <= SECTOR * Skipped(offset) + SECTOR
  {}

  /** A disk with one byte set, at position `at` of the chain. */
  ghost function Marked(v: Volume, cluster: nat, at: nat): Disk
    requires v.Valid() && cluster < |v.table|
  {
    var sector, index := v.ClusterToSector(v.Nth(cluster, at / SECTOR)), at % SECTOR;
    s => seq(SECTOR, i => if s == sector && i == index then 1 else 0)
  }

  /** A position below `at` and at the start of a cluster holds another byte than `at` on that disk. */
  lemma MarkedIsElsewhere(v: Volume, cluster: nat, n: nat, at: nat, k: nat)
    requires v.Valid() && cluster < |v.table| && v.Chain(cluster, n) && SECTOR * k < at < SECTOR * n
    ensures Sectored(Marked(v, cluster, at))
    ensures ByteAt(v, Marked(v, cluster, at), cluster, at) == 1
    ensures ByteAt(v, Marked(v, cluster, at), cluster, SECTOR * k) == 0
  {
    ByteAtInCluster(v, Marked(v, cluster, at), cluster, k, 0);
    var j := at / SECTOR;
    if at % SECTOR == 0 {
      EndingChainIsAcyclic(v, cluster, n, k, j);
      ClustersApart(v, v.Nth(cluster, k), v.Nth(cluster, j));
    }
  }

  /**
   On a chain long enough, a read delivers the byte at its offset whatever the disk holds exactly
   when the offset is zero.
   */
  lemma ReadsRightIff(v: Volume, cluster: nat, n: nat, offset: nat)
    requires v.Valid() && cluster < |v.table| && v.Chain(cluster, n) && offset < SECTOR * n
    ensures (forall disk: Disk :: Sectored(disk) ==>
        ByteAt(v, disk, cluster, SECTOR * Skipped(offset)) == ByteAt(v, disk, cluster, offset))
      <==> offset == 0
  {
    StartsRightIff(offset);
    if offset > 0 {
      MarkedIsElsewhere(v, cluster, n, offset, Skipped(offset));
    }
  }

  /** Sectors needed for a number of bytes. */
  function Clusters(length: nat): nat { (length + SECTOR - 1) / SECTOR }

  lemma {:induction false} RepeatForever(v: Volume, cluster: nat, i: nat, j: nat, k: nat)
    requires v.Valid() && cluster < |v.table| && v.Nth(cluster, i) == v.Nth(cluster, j)
    ensures v.Nth(cluster, i + k) == v.Nth(cluster, j + k)
  {
    if k > 0 {
      RepeatForever(v, cluster, i, j, k - 1);
    }
  }

  /** A chain that ends visits no cluster twice. */
  lemma EndingChainIsAcyclic(v: Volume, cluster: nat, n: nat, i: nat, j: nat)
    requires v.Valid() && cluster < |v.table| && v.Chain(cluster, n) && i < j < n
    ensures v.Nth(cluster, i) != v.Nth(cluster, j)
  {
    assert i + (n - j) < n && IsValidCluster(v.Nth(cluster, i + (n - j)));
    if v.Nth(cluster, i) == v.Nth(cluster, j) {
      RepeatForever(v, cluster, i, j, n - j);
      assert false;
    }
  }

  ghost predicate Loops(v: Volume, cluster: nat)
    requires v.Valid() && cluster < |v.table|
  {
    exists i: nat, j: nat :: i < j && v.Nth(cluster, i) == v.Nth(cluster, j) && AllValid(v, cluster, j)
  }

  ghost predicate AllValid(v: Volume, cluster: nat, n: nat)
    requires v.Valid() && cluster < |v.table|
  {
    forall k :: 0 <= k <= n ==> IsValidCluster(v.Nth(cluster, k))
  }

  /** More values than there are numbers below `bound`: one of them repeats. */
  lemma {:induction false} Pigeonhole(s: seq<nat>, bound: nat)
    requires |s| > bound && forall i :: 0 <= i < |s| ==> s[i] < bound
    ensures !Distinct(s)
    decreases bound
  {
    var first := s[0];
    if bound - 1 in s {
      var k :| 0 <= k < |s| && s[k] == bound - 1;
      var rest := s[..k] + s[k + 1..];
      if Distinct(s) {
        Pigeonhole(rest, bound - 1);
        assert false;
      }
    } else if bound > 0 {
      Pigeonhole(s, bound - 1);
    }
  }

  lemma {:induction false} ValidOrEnds(v: Volume, cluster: nat, n: nat)
    requires v.Valid() && cluster < |v.table|
    ensures AllValid(v, cluster, n) || exists m: nat :: m <= n && v.Chain(cluster, m)
  {
    if n == 0 {
      assert !IsValidCluster(v.Nth(cluster, 0)) ==> v.Chain(cluster, 0);
    } else {
      ValidOrEnds(v, cluster, n - 1);
      assert AllValid(v, cluster, n - 1) && !IsValidCluster(v.Nth(cluster, n)) ==> v.Chain(cluster, n);
    }
  }

  /** A walk over clusters ends exactly when the links do not lead back into the chain. */
  lemma EndsIffNoLoop(v: Volume, cluster: nat)
    requires v.Valid() && cluster < |v.table|
    ensures (exists n: nat :: v.Chain(cluster, n)) <==> !Loops(v, cluster)
  {
    if n: nat :| v.Chain(cluster, n) {
      forall i: nat, j: nat | i < j && AllValid(v, cluster, j) ensures v.Nth(cluster, i) != v.Nth(cluster, j) {
        assert j < n;
        EndingChainIsAcyclic(v, cluster, n, i, j);
      }
    } else {
      var size := |v.table|;
      ValidOrEnds(v, cluster, size);
      var walk := seq(size + 1, k requires 0 <= k <= size => v.Nth(cluster, k));
      Pigeonhole(walk, size);
      var i, j :| 0 <= i < j < |walk| && walk[i] == walk[j];
      assert v.Nth(cluster, i) == v.Nth(cluster, j) && AllValid(v, cluster, j);
    }
  }
}
