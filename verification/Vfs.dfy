/** Reading files and directories: vfs.cc over cluster chains. */
module Vfs {
  import opened Prelude
  import opened Fat
  import opened Directory
  import opened List

  class Superblock {
    const volume: Volume
    /** What the block device delivers for each sector. */
    const disk: Disk
    /** The name buffer, one for all directory reads. */
    const lfnFilename: array<int>
    /** Whether the process system runs; the device refuses reads without it. */
    var procIsRunning: bool
    /** Sector buffers handed out by kmalloc and not freed yet. */
    ghost var inUse: set<array<int>>

    ghost predicate Valid() {
      volume.Valid() && Sectored(disk) && lfnFilename.Length == LFN_BUFFER_LENGTH
    }

    constructor (volume: Volume, disk: Disk)
      requires volume.Valid() && Sectored(disk)
      ensures Valid() && inUse == {} && !procIsRunning && this.volume == volume && this.disk == disk && fresh(lfnFilename)
    {
      this.volume := volume;
      this.disk := disk;
      lfnFilename := new int[LFN_BUFFER_LENGTH];
      procIsRunning := false;
      inUse := {};
    }

    /** A buffer with the cluster's sector; when the device refuses the read, with whatever was in it. */
    method ReadCluster(cluster: nat) returns (sector: array<int>)
      requires Valid()
      modifies this`inUse
      ensures fresh(sector) && sector.Length == SECTOR && inUse == old(inUse) + {sector}
      ensures procIsRunning ==> sector[..] == disk(volume.ClusterToSector(cluster))
    {
      if procIsRunning {
        var data := disk(volume.ClusterToSector(cluster));
        sector := new int[SECTOR](i requires 0 <= i < SECTOR => data[i]);
      } else {
        sector := new int[SECTOR];
      }
      inUse := inUse + {sector};
    }

    method FreeCluster(sector: array<int>)
      requires sector in inUse
      modifies this`inUse
      ensures inUse == old(inUse) - {sector}
    {
      inUse := inUse - {sector};
    }

    /** What other directory reads leave in the name buffer while the running one is blocked. */
    method OtherReaders(meanwhile: Option<seq<int>>)
      requires Valid() && (meanwhile.Some? ==> |meanwhile.value| == LFN_BUFFER_LENGTH)
      modifies lfnFilename
      ensures lfnFilename[..] == if meanwhile.None? then old(lfnFilename[..]) else meanwhile.value
    {
      if meanwhile.Some? {
        forall i | 0 <= i < LFN_BUFFER_LENGTH {
          lfnFilename[i] := meanwhile.value[i];
        }
      }
    }
  }

  class File {
    const inode: Inode
    var offset: nat

    constructor (inode: Inode)
      ensures this.inode == inode && offset == 0
    {
      this.inode := inode;
      offset := 0;
    }

    /** A read is refused when it would go past the end; the sum is 64 bits wide. */
    predicate Refused(length: nat)
      reads this
    {
      (offset + length) % TWO_64 > inode.size
    }

    predicate HasByte(at: int) { 0 <= at < inode.size }

    /** The read asks for a byte that the file does not have. */
    ghost predicate PastTheEnd(length: nat)
      reads this
    {
      exists at :: offset <= at < offset + length && !HasByte(at)
    }

    /**
     Reads up to and including the last byte are accepted and all others refused, unless the
     64-bit sum wraps: then a read past the end is accepted if the wrapped sum is not above the size.
     */
    lemma RefusedIff(length: nat)
      requires length < TWO_64 && offset < TWO_64 && inode.size < TWO_64 && (length > 0 || offset <= inode.size)
      ensures (Refused(length) <==> PastTheEnd(length)) <==> offset + length < TWO_64 || offset + length - TWO_64 > inode.size
    {
      assert offset + length > inode.size ==> !HasByte(offset + length - 1);
    }

    /**
     Delivers `length` bytes from the start of the cluster that Skipped(offset) names. The offset
     is not moved on: the loop has counted `length` down to zero before it is added. Outside a
     process the device refuses to read, which is not noticed: the bytes delivered are arbitrary.
     */
    method Read(dest: array<int>, length: nat) returns (failed: bool)
      requires inode.superblock.Valid() && 0 <= inode.cluster < |inode.superblock.volume.table|
      requires length <= dest.Length && dest != inode.superblock.lfnFilename
      modifies this, dest, inode.superblock`inUse
      ensures failed <==> old(Refused(length))
      ensures failed ==> dest[..] == old(dest[..])
      ensures !failed && inode.superblock.procIsRunning ==> forall i :: 0 <= i < length ==> dest[i] == Delivered(offset, i)
      ensures !failed ==> forall i :: length <= i < dest.Length ==> dest[i] == old(dest[i])
      ensures offset == old(offset) && inode.superblock.inUse == old(inode.superblock.inUse)
    {
      hide Delivered;
      if (offset + length) % TWO_64 > inode.size {
        return true;
      }
      failed := false;
      var cluster := SkipClusters();
      ghost var k := Skipped(offset);
      var remaining, at := length, 0;
      while remaining > 0
        invariant at + remaining == length && cluster < |inode.superblock.volume.table|
        invariant cluster == inode.superblock.volume.Nth(inode.cluster, k)
        invariant remaining > 0 ==> SECTOR * k == SECTOR * Skipped(offset) + at
        invariant inode.superblock.procIsRunning ==> forall i :: 0 <= i < at ==> dest[i] == Delivered(offset, i)
        invariant forall i :: length <= i < dest.Length ==> dest[i] == old(dest[i])
        invariant offset == old(offset) && inode.superblock.inUse == old(inode.superblock.inUse)
      {
        var buffer := inode.superblock.ReadCluster(cluster);
        SectorDelivered(offset, at, k);
        at, remaining := CopySector(buffer, dest, at, remaining);
        inode.superblock.FreeCluster(buffer);
        cluster := inode.superblock.volume.GetNextCluster(cluster);
        k := k + 1;
      }
      offset := offset + remaining;
    }

    /** The byte a read from offset `from` delivers at position `i` of the destination. */
    ghost function Delivered(from: nat, i: nat): int
      requires inode.superblock.Valid() && 0 <= inode.cluster < |inode.superblock.volume.table|
    {
      ByteAt(inode.superblock.volume, inode.superblock.disk, inode.cluster, SECTOR * Skipped(from) + i)
    }

    lemma SectorDelivered(from: nat, at: nat, k: nat)
      requires inode.superblock.Valid() && 0 <= inode.cluster < |inode.superblock.volume.table|
      requires SECTOR * k == SECTOR * Skipped(from) + at
      ensures var v := inode.superblock.volume;
        forall i :: 0 <= i < SECTOR ==> inode.superblock.disk(v.ClusterToSector(v.Nth(inode.cluster, k)))[i] == Delivered(from, at + i)
    {
      hide ByteAt, Skipped;
      forall i: nat | i < SECTOR
        ensures inode.superblock.disk(inode.superblock.volume.ClusterToSector(inode.superblock.volume.Nth(inode.cluster, k)))[i] == Delivered(from, at + i)
      {
        ByteAtInCluster(inode.superblock.volume, inode.superblock.disk, inode.cluster, k, i);
        assert SECTOR * k + i == SECTOR * Skipped(from) + (at + i);
      }
    }

    /** The copying loop: a sector, or what is left of the read. */
    method CopySector(buffer: array<int>, dest: array<int>, at0: nat, remaining0: nat) returns (at: nat, remaining: nat)
      requires buffer.Length == SECTOR && at0 + remaining0 <= dest.Length && dest != buffer
      modifies dest
      ensures at + remaining == at0 + remaining0 && (remaining > 0 ==> at == at0 + SECTOR) && at0 <= at <= at0 + SECTOR
      ensures forall i :: at0 <= i < at ==> dest[i] == buffer[i - at0]
      ensures forall i :: 0 <= i < at0 || at <= i < dest.Length ==> dest[i] == old(dest[i])
    {
      at, remaining := at0, remaining0;
      var i := 0;
      while i < SECTOR && remaining > 0
        invariant 0 <= i <= SECTOR && at == at0 + i && at + remaining == at0 + remaining0
        invariant forall j :: at0 <= j < at ==> dest[j] == buffer[j - at0]
        invariant forall j :: 0 <= j < at0 || at <= j < dest.Length ==> dest[j] == old(dest[j])
      {
        dest[at] := buffer[i];
        at := at + 1;
        remaining := remaining - 1;
        i := i + 1;
      }
    }

    /** Follows one link for every whole sector before the last 512 bytes of the offset. */
    method SkipClusters() returns (cluster: nat)
      requires inode.superblock.Valid() && 0 <= inode.cluster < |inode.superblock.volume.table|
      ensures cluster == inode.superblock.volume.Nth(inode.cluster, Skipped(offset))
    {
      cluster := inode.cluster;
      ghost var k := 0;
      var offsetRemaining := offset;
      while offsetRemaining > SECTOR
        invariant offsetRemaining + SECTOR * k == offset && (k > 0 ==> offsetRemaining > 0)
        invariant cluster == inode.superblock.volume.Nth(inode.cluster, k)
      {
        cluster := inode.superblock.volume.GetNextCluster(cluster);
        offsetRemaining := offsetRemaining - SECTOR;
        k := k + 1;
      }
    }

    /** On a fresh file whose chain is long enough, that is the beginning of the chain's contents, all from valid clusters. */
    lemma FreshReadIsChain(length: nat, n: nat, i: nat)
      requires inode.superblock.Valid() && 0 <= inode.cluster < |inode.superblock.volume.table|
      requires inode.superblock.volume.Chain(inode.cluster, n) && Clusters(length) <= n && i < length
      ensures IsValidCluster(inode.superblock.volume.Nth(inode.cluster, i / SECTOR))
      ensures Delivered(0, i) == ChainBytes(inode.superblock.volume, inode.superblock.disk, inode.cluster, n)[i]
    {
      ByteAtIsChain(inode.superblock.volume, inode.superblock.disk, inode.cluster, n, i);
    }

    method Seek(to: nat) returns (failed: bool)
      modifies this
      ensures failed <==> to >= inode.size
      ensures offset == if failed then old(offset) else to
    {
      failed := to >= inode.size;
      if !failed {
        offset := to;
      }
    }
  }

  class Inode {
    const cluster: int
    const filename: seq<int>
    const size: int
    const isDirectory: bool
    const superblock: Superblock

    constructor (info: InodeInfo, superblock: Superblock)
      ensures Info() == info && this.superblock == superblock
    {
      cluster, filename, size, isDirectory := info.cluster, info.filename, info.size, info.isDirectory;
      this.superblock := superblock;
    }

    function Info(): InodeInfo { InodeInfo(cluster, filename, size, isDirectory) }

    /** The contents of a directory whose chain has `n` clusters, as entries. */
    ghost function DirectoryEntries(n: nat): seq<seq<int>>
      requires superblock.Valid() && 0 <= cluster < |superblock.volume.table|
    {
      Entries(ChainBytes(superblock.volume, superblock.disk, cluster, n))
    }

    /** The next sector of the chain adds its entries. */
    lemma OneMoreSector(n: nat, k: nat)
      requires superblock.Valid() && 0 <= cluster < |superblock.volume.table| && k < n && AllSafe(DirectoryEntries(n))
      ensures var sector := superblock.disk(superblock.volume.ClusterToSector(superblock.volume.Nth(cluster, k)));
        AllSafe(Entries(sector)) && DirectoryEntries(k + 1) == DirectoryEntries(k) + Entries(sector)
    {
      var sector := superblock.disk(superblock.volume.ClusterToSector(superblock.volume.Nth(cluster, k)));
      EntriesAcrossSectors(ChainBytes(superblock.volume, superblock.disk, cluster, k), sector);
      PrefixSafe(n, k + 1);
      SafeParts(DirectoryEntries(k), Entries(sector));
    }

    lemma {:induction false} PrefixSafe(n: nat, k: nat)
      requires superblock.Valid() && 0 <= cluster < |superblock.volume.table| && k <= n && AllSafe(DirectoryEntries(n))
      ensures AllSafe(DirectoryEntries(k))
      decreases n - k
    {
      hide AllSafe, Entries;
      if k < n {
        PrefixSafe(n, k + 1);
        var sector := superblock.disk(superblock.volume.ClusterToSector(superblock.volume.Nth(cluster, k)));
        EntriesAcrossSectors(ChainBytes(superblock.volume, superblock.disk, cluster, k), sector);
        SafeParts(DirectoryEntries(k), Entries(sector));
      }
    }

    /** Handles one entry; `st` is what decoding has come to so far. */
    method ReadEntry(entry: seq<int>, reading0: bool, list: List<Inode>, ghost st: State) returns (reading: bool)
      requires superblock.Valid() && Safe(entry) && list.Valid()
      requires Matches(st, reading0, superblock.lfnFilename[..], list.contents, superblock)
      modifies superblock.lfnFilename, list, list.spine
      ensures list.Valid() && forall j :: 0 <= j < |list.spine| ==> list.spine[j] in old(list.spine) || fresh(list.spine[j])
      ensures Matches(DecodeEntry(st, entry), reading, superblock.lfnFilename[..], list.contents, superblock)
    {
      hide list.Valid, Overwritten, NamePart, Filled, ShortName, FirstCluster;
      reading := reading0;
      if entry[11] == FILE_ATTRIBUTE_LFN {
        if !reading {
          reading := true;
          Clear(superblock.lfnFilename);
        }
        var lfnIndex := entry[0] % 32 - 1;
        lfnIndex := lfnIndex * 13;
        StorePart(superblock.lfnFilename, lfnIndex, entry);
      } else if entry[11] == FILE_ATTRIBUTE_ARCHIVE || entry[11] == FILE_ATTRIBUTE_DIRECTORY {
        var filename;
        if reading {
          filename := superblock.lfnFilename[..];
          reading := false;
        } else {
          filename := ReadShortName(entry);
        }
        var inode := new Inode(
          InodeInfo(FirstCluster(entry), filename, Little32(entry, 28), entry[11] == FILE_ATTRIBUTE_DIRECTORY), superblock);
        InfosAppend(list.contents, inode);
        list.Add(inode);
      }
    }

    /** The entries of one sector, in order. */
    method ReadSector(sector: array<int>, reading0: bool, list: List<Inode>, ghost st: State) returns (reading: bool)
      requires superblock.Valid() && sector != superblock.lfnFilename && sector.Length == SECTOR
      requires AllSafe(Entries(sector[..])) && list.Valid()
      requires Matches(st, reading0, superblock.lfnFilename[..], list.contents, superblock)
      modifies superblock.lfnFilename, list, list.spine
      ensures list.Valid() && forall j :: 0 <= j < |list.spine| ==> list.spine[j] in old(list.spine) || fresh(list.spine[j])
      ensures Matches(Decode(st, Entries(sector[..])), reading, superblock.lfnFilename[..], list.contents, superblock)
    {
      hide list.Valid, Matches, DecodeEntry, Safe;
      ghost var es := Entries(sector[..]);
      BufferLength(st, reading0, superblock.lfnFilename[..], list.contents, superblock);
      reading := reading0;
      var i := 0;
      while i < SECTOR / ENTRY
        invariant 0 <= i <= |es| && es == Entries(sector[..])
        invariant list.Valid() && forall j :: 0 <= j < |list.spine| ==> list.spine[j] in old(list.spine) || fresh(list.spine[j])
        invariant Matches(Decode(st, es[..i]), reading, superblock.lfnFilename[..], list.contents, superblock)
      {
        assert sector[ENTRY * i..ENTRY * i + ENTRY] == es[i];
        assert es[..i + 1][..i] == es[..i];
        reading := ReadEntry(sector[ENTRY * i..ENTRY * i + ENTRY], reading, list, Decode(st, es[..i]));
        i := i + 1;
      }
      assert es[..i] == es;
    }

    /** The chain ends after `n` clusters, no entry writes outside the name buffer, and the device can read. */
    ghost predicate Readable(n: nat)
      requires superblock.Valid()
      reads superblock
    {
      && 0 <= cluster < |superblock.volume.table|
      && superblock.volume.Chain(cluster, n) && AllSafe(DirectoryEntries(n))
      && superblock.procIsRunning
    }

    /** What other directory reads leave in the name buffer during each sector read. */
    ghost predicate Possible(meanwhile: seq<Option<seq<int>>>, n: nat) {
      |meanwhile| == n && forall k :: 0 <= k < n && meanwhile[k].Some? ==> |meanwhile[k].value| == LFN_BUFFER_LENGTH
    }

    /**
     Decodes the directory. It ends because the chain does, and what it lists is the decode of its
     sectors, each after whatever other reads have left in the name buffer by then.
     */
    method ReadDir(meanwhile: seq<Option<seq<int>>>, ghost n: nat) returns (list: List<Inode>)
      requires superblock.Valid() && (isDirectory ==> Readable(n) && Possible(meanwhile, n))
      modifies superblock.lfnFilename, superblock`inUse
      ensures list.Valid() && fresh(list) && fresh(list.spine)
      ensures !isDirectory ==> list.contents == []
      ensures isDirectory ==> (
        && Sectors(SectorEntries(n), meanwhile)
        && Infos(list.contents) == SharedDecode(INITIAL, SectorEntries(n), meanwhile).list)
      ensures forall x :: x in list.contents ==> x.superblock == superblock
      ensures superblock.inUse == old(superblock.inUse)
    {
      hide DecodedSoFar, DirectoryEntries, SectorEntries, AllSafe, Decode, SharedDecode;
      list := new List();
      if !isDirectory {
        return;
      }
      NothingDecoded(n, meanwhile, superblock.lfnFilename[..]);
      var reading := false;
      var currentCluster: nat := cluster;
      var k := 0;
      while IsValidCluster(currentCluster)
        invariant 0 <= k <= n && currentCluster == superblock.volume.Nth(cluster, k)
        invariant list.Valid() && fresh(list) && fresh(list.spine)
        invariant DecodedSoFar(n, k, meanwhile, reading, superblock.lfnFilename[..], list.contents)
        invariant superblock.inUse == old(superblock.inUse)
        decreases n - k
      {
        reading := ReadOneCluster(currentCluster, n, k, meanwhile, reading, list);
        currentCluster := superblock.volume.GetNextCluster(currentCluster);
        k := k + 1;
      }
      AllDecoded(n, meanwhile, reading, superblock.lfnFilename[..], list.contents);
    }

    /**
     If nobody else changes the buffer in the middle of a long name, the directory is one
     left-to-right decode of the entries of the whole chain.
     */
    lemma UndisturbedReadDir(meanwhile: seq<Option<seq<int>>>, n: nat)
      requires superblock.Valid() && Readable(n)
      requires Sectors(SectorEntries(n), meanwhile) && Undisturbed(INITIAL, SectorEntries(n), meanwhile)
      ensures SharedDecode(INITIAL, SectorEntries(n), meanwhile).list == Decode(INITIAL, DirectoryEntries(n)).list
    {
      UndisturbedIsDecode(INITIAL, SectorEntries(n), meanwhile);
      FlatSectors(n);
    }

    /** The entries of each sector of the chain. */
    ghost function SectorEntries(n: nat): (s: seq<seq<seq<int>>>)
      requires superblock.Valid() && 0 <= cluster < |superblock.volume.table|
      ensures |s| == n
    {
      if n == 0 then []
      else SectorEntries(n - 1) + [Entries(superblock.disk(superblock.volume.ClusterToSector(superblock.volume.Nth(cluster, n - 1))))]
    }

    lemma {:induction false} FlatSectors(n: nat)
      requires superblock.Valid() && 0 <= cluster < |superblock.volume.table|
      ensures Flat(SectorEntries(n)) == DirectoryEntries(n)
    {
      hide Flat, Entries;
      if n > 0 {
        FlatSectors(n - 1);
        var sector := superblock.disk(superblock.volume.ClusterToSector(superblock.volume.Nth(cluster, n - 1)));
        EntriesAcrossSectors(ChainBytes(superblock.volume, superblock.disk, cluster, n - 1), sector);
        FlatMore(SectorEntries(n - 1), Entries(sector));
      } else {
        NothingIsFlat();
      }
    }

    /** The first `k` sectors of the chain have been decoded. */
    ghost predicate DecodedSoFar(n: nat, k: nat, meanwhile: seq<Option<seq<int>>>, reading: bool, buffer: seq<int>, inodes: seq<Inode>)
      requires superblock.Valid() && 0 <= cluster < |superblock.volume.table|
    {
      && k <= n && Possible(meanwhile, n) && AllSafe(DirectoryEntries(n)) && Sectors(SectorEntries(k), meanwhile[..k])
      && Matches(SharedDecode(INITIAL, SectorEntries(k), meanwhile[..k]), reading, buffer, inodes, superblock)
    }

    lemma NothingDecoded(n: nat, meanwhile: seq<Option<seq<int>>>, buffer: seq<int>)
      requires superblock.Valid() && Readable(n) && Possible(meanwhile, n) && |buffer| == LFN_BUFFER_LENGTH
      ensures DecodedSoFar(n, 0, meanwhile, false, buffer, [])
    {}

    lemma AllDecoded(n: nat, meanwhile: seq<Option<seq<int>>>, reading: bool, buffer: seq<int>, inodes: seq<Inode>)
      requires superblock.Valid() && 0 <= cluster < |superblock.volume.table|
      requires DecodedSoFar(n, n, meanwhile, reading, buffer, inodes)
      ensures Sectors(SectorEntries(n), meanwhile)
      ensures Infos(inodes) == SharedDecode(INITIAL, SectorEntries(n), meanwhile).list
      ensures forall x :: x in inodes ==> x.superblock == superblock
    {
      assert meanwhile[..n] == meanwhile;
    }

    /** The state in which the next sector is decoded, and the state after it. */
    lemma NextSector(n: nat, k: nat, meanwhile: seq<Option<seq<int>>>, reading: bool, buffer: seq<int>, inodes: seq<Inode>)
      requires superblock.Valid() && 0 <= cluster < |superblock.volume.table| && k < n
      requires DecodedSoFar(n, k, meanwhile, reading, buffer, inodes)
      ensures var st := Disturbed(SharedDecode(INITIAL, SectorEntries(k), meanwhile[..k]), meanwhile[k]);
        var sector := superblock.disk(superblock.volume.ClusterToSector(superblock.volume.Nth(cluster, k)));
        && AllSafe(Entries(sector))
        && Matches(st, reading, if meanwhile[k].None? then buffer else meanwhile[k].value, inodes, superblock)
        && Sectors(SectorEntries(k + 1), meanwhile[..k + 1])
        && SharedDecode(INITIAL, SectorEntries(k + 1), meanwhile[..k + 1]) == Decode(st, Entries(sector))
    {
      hide SharedDecode, Matches, AllSafe, Decode, Sectors, Entries, DirectoryEntries;
      OneMoreSector(n, k);
      SharedStep(INITIAL, SectorEntries(k), meanwhile[..k],
        Entries(superblock.disk(superblock.volume.ClusterToSector(superblock.volume.Nth(cluster, k)))), meanwhile[k]);
      assert meanwhile[..k + 1] == meanwhile[..k] + [meanwhile[k]];
      MatchesDisturbed(SharedDecode(INITIAL, SectorEntries(k), meanwhile[..k]), reading, buffer, inodes, superblock, meanwhile[k]);
    }

    method ReadOneCluster(current: nat, ghost n: nat, k: nat, meanwhile: seq<Option<seq<int>>>, reading0: bool, list: List<Inode>)
      returns (reading: bool)
      requires superblock.Valid() && 0 <= cluster < |superblock.volume.table| && superblock.procIsRunning
      requires k < n && current == superblock.volume.Nth(cluster, k) && list.Valid()
      requires DecodedSoFar(n, k, meanwhile, reading0, superblock.lfnFilename[..], list.contents)
      modifies superblock.lfnFilename, superblock`inUse, list, list.spine
      ensures list.Valid() && forall j :: 0 <= j < |list.spine| ==> list.spine[j] in old(list.spine) || fresh(list.spine[j])
      ensures DecodedSoFar(n, k + 1, meanwhile, reading, superblock.lfnFilename[..], list.contents)
      ensures superblock.inUse == old(superblock.inUse)
    {
      hide list.Valid, Matches, Decode, SharedDecode, Sectors, SectorEntries, DirectoryEntries, AllSafe, Entries;
      NextSector(n, k, meanwhile, reading0, superblock.lfnFilename[..], list.contents);
      ghost var st := Disturbed(SharedDecode(INITIAL, SectorEntries(k), meanwhile[..k]), meanwhile[k]);
      var sector := superblock.ReadCluster(current);
      superblock.OtherReaders(meanwhile[k]);
      reading := ReadSector(sector, reading0, list, st);
      superblock.FreeCluster(sector);
    }
  }

  // ----- the byte loops -----

  /** memset to zero. */
  method Clear(buffer: array<int>)
    requires buffer.Length == LFN_BUFFER_LENGTH
    modifies buffer
    ensures buffer[..] == Zeros(LFN_BUFFER_LENGTH)
  {
    var i := 0;
    while i < buffer.Length
      invariant 0 <= i <= buffer.Length && forall k :: 0 <= k < i ==> buffer[k] == 0
    {
      buffer[i] := 0;
      i := i + 1;
    }
  }

  /** The name fields of a long-name entry: five, six and two characters. */
  method StorePart(buffer: array<int>, at: nat, entry: seq<int>)
    requires |entry| == ENTRY && at + 13 <= buffer.Length
    modifies buffer
    ensures buffer[..] == Overwritten(old(buffer[..]), at, NamePart(entry))
  {
    StoreChars(buffer, at, 5, entry, 1);
    StoreChars(buffer, at + 5, 6, entry, 14);
    StoreChars(buffer, at + 5 + 6, 2, entry, 28);
  }

  /** The loop over one name field: each character is two bytes wide, and its low byte is kept. */
  method StoreChars(buffer: array<int>, at: nat, count: nat, entry: seq<int>, offset: nat)
    requires at + count <= buffer.Length && offset + 2 * count <= |entry|
    modifies buffer
    ensures forall p :: at <= p < at + count ==> buffer[p] == entry[offset + 2 * (p - at)]
    ensures forall p :: 0 <= p < buffer.Length && !(at <= p < at + count) ==> buffer[p] == old(buffer[p])
  {
    var i := 0;
    while i < count
      invariant 0 <= i <= count
      invariant forall p :: at <= p < at + i ==> buffer[p] == entry[offset + 2 * (p - at)]
      invariant forall p :: 0 <= p < buffer.Length && !(at <= p < at + i) ==> buffer[p] == old(buffer[p])
    {
      buffer[at + i] := entry[offset + 2 * i];
      i := i + 1;
    }
  }

  method ReadShortName(entry: seq<int>) returns (filename: seq<int>)
    requires |entry| == ENTRY
    ensures filename == Filled(ShortName(entry))
  {
    var name := new int[LFN_BUFFER_LENGTH](i => 0);
    assert name[..] == Filled([]);
    var written := CopyNonSpaces(name, entry[..8], 0, []);
    ghost var base := NonSpaces(entry[..8]);
    assert [] + base == base;
    if entry[8] != SPACE {
      FillMore(base, DOT);
      name[written] := DOT;
      written := written + 1;
      base := base + [DOT];
    }
    written := CopyNonSpaces(name, entry[8..11], written, base);
    filename := name[..];
  }

  /** Appends the characters that are not blank. */
  method CopyNonSpaces(name: array<int>, chars: seq<int>, written0: nat, ghost before: seq<int>) returns (written: nat)
    requires |before| == written0 && written0 + |chars| <= LFN_BUFFER_LENGTH && name[..] == Filled(before)
    modifies name
    ensures name[..] == Filled(before + NonSpaces(chars)) && written == written0 + |NonSpaces(chars)|
  {
    written := written0;
    assert before + NonSpaces(chars[..0]) == before;
    var i := 0;
    while i < |chars|
      invariant 0 <= i <= |chars| && written == written0 + |NonSpaces(chars[..i])|
      invariant name[..] == Filled(before + NonSpaces(chars[..i]))
    {
      assert chars[..i + 1][..i] == chars[..i];
      if chars[i] != SPACE {
        FillMore(before + NonSpaces(chars[..i]), chars[i]);
        assert before + NonSpaces(chars[..i]) + [chars[i]] == before + (NonSpaces(chars[..i]) + [chars[i]]);
        name[written] := chars[i];
        written := written + 1;
      } else {
        assert NonSpaces(chars[..i]) + [] == NonSpaces(chars[..i]);
      }
      i := i + 1;
    }
    assert chars[..i] == chars;
  }

  // ----- inodes as values -----

  function Infos(s: seq<Inode>): seq<InodeInfo> { seq(|s|, i requires 0 <= i < |s| => s[i].Info()) }

  lemma SafeParts(a: seq<seq<int>>, b: seq<seq<int>>)
    requires AllSafe(a + b)
    ensures AllSafe(a) && AllSafe(b)
  {
    assert forall i :: 0 <= i < |a| ==> (a + b)[i] == a[i];
    assert forall i :: 0 <= i < |b| ==> (a + b)[|a| + i] == b[i];
  }

  lemma MatchesDisturbed(st: State, reading: bool, buffer: seq<int>, inodes: seq<Inode>, superblock: Superblock, meanwhile: Option<seq<int>>)
    requires Matches(st, reading, buffer, inodes, superblock)
    requires meanwhile.Some? ==> |meanwhile.value| == LFN_BUFFER_LENGTH
    ensures Matches(Disturbed(st, meanwhile), reading, if meanwhile.None? then buffer else meanwhile.value, inodes, superblock)
  {}

  lemma BufferLength(st: State, reading: bool, buffer: seq<int>, inodes: seq<Inode>, superblock: Superblock)
    requires Matches(st, reading, buffer, inodes, superblock)
    ensures |st.buffer| == LFN_BUFFER_LENGTH
  {}

  lemma InfosAppend(s: seq<Inode>, x: Inode)
    ensures Infos(s + [x]) == Infos(s) + [x.Info()]
  {}

  /** The buffer counts only while a long name is being read. */
  ghost predicate Matches(st: State, reading: bool, buffer: seq<int>, inodes: seq<Inode>, superblock: Superblock) {
    && |st.buffer| == |buffer| == LFN_BUFFER_LENGTH && st.reading == reading
    && (reading ==> st.buffer == buffer) && st.list == Infos(inodes)
    && forall x :: x in inodes ==> x.superblock == superblock
  }
}
