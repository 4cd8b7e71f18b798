/** FAT32 volumes (kernel/src/FS/FAT32/fat32.c; Microsoft FAT specification).

    `FatDisk` reads a disk of 512-byte sectors as a table of 28-bit entries and as the bytes of
    clusters; `Fat32` is the driver, which works on the disk through one sector buffer. */
module FatDisk {
  import opened Words
  import opened Division
  import opened ClusterChains

  type Disk = seq<seq<u8>>

  const SECTOR_SIZE: nat := 512

  /** The mounted geometry (FatCtx); `limit` is one past the last cluster of the data region, and
      further copies of the table lie between the first one and the data. */
  datatype Layout = Layout(fatStart: nat, fatSize: nat, sectorsPerCluster: nat, dataStart: nat, limit: nat)

  function DataSectors(l: Layout, clusters: nat): nat {
    clusters * l.sectorsPerCluster
  }

  ghost predicate Fits(d: Disk, l: Layout) {
    && |d| <= 0x1_0000_0000 && (forall s :: 0 <= s < |d| ==> |d[s]| == SECTOR_SIZE)
    && l.sectorsPerCluster >= 1
    && l.fatStart + l.fatSize <= l.dataStart
    && 2 <= l.limit <= l.fatSize * 128 && l.limit <= 0x0FFFFFF6
    && l.dataStart + DataSectors(l, l.limit - 2) <= |d|
  }

  // ---------- the table ----------

  function Le32(s: seq<u8>, o: nat): nat
    requires o + 4 <= |s|
  {
    s[o] as int + s[o + 1] as int * 0x100 + s[o + 2] as int * 0x1_0000 + s[o + 3] as int * 0x100_0000
  }

  /** An entry keeps 28 bits; the top nibble of its fourth byte is cleared by every store. */
  function PutEntry(s: seq<u8>, o: nat, value: u32): (r: seq<u8>)
    requires o + 4 <= |s|
    ensures |r| == |s|
  {
    s[..o] + [value % 0x100, value / 0x100 % 0x100, value / 0x1_0000 % 0x100, value / 0x100_0000 % 0x10] + s[o + 4..]
  }

  lemma Low16(v: nat)
    ensures v % 0x1_0000 == v % 0x100 + v / 0x100 % 0x100 * 0x100
  {
    var w := v / 0x100;
    assert 0 <= v - 0x1_0000 * (w / 0x100) < 0x1_0000;
  }

  lemma Low24(v: nat)
    ensures v % 0x100_0000 == v % 0x1_0000 + v / 0x1_0000 % 0x100 * 0x1_0000
  {
    var w := v / 0x1_0000;
    assert 0 <= v - 0x100_0000 * (w / 0x100) < 0x100_0000;
  }

  lemma Low28(v: nat)
    ensures v % 0x1000_0000 == v % 0x100_0000 + v / 0x100_0000 % 0x10 * 0x100_0000
  {
    var w := v / 0x100_0000;
    assert 0 <= v - 0x1000_0000 * (w / 0x10) < 0x1000_0000;
  }

  lemma PutBytes(s: seq<u8>, o: nat, value: u32)
    requires o + 4 <= |s|
    ensures var r := PutEntry(s, o, value);
      && r[o] == value % 0x100 && r[o + 1] == value / 0x100 % 0x100
      && r[o + 2] == value / 0x1_0000 % 0x100 && r[o + 3] == value / 0x100_0000 % 0x10
  {
  }

  lemma PutThenGet(s: seq<u8>, o: nat, value: u32)
    requires o + 4 <= |s|
    ensures Le32(PutEntry(s, o, value), o) % 0x1000_0000 == value % 0x1000_0000
  {
    hide PutEntry;
    Low16(value);
    Low24(value);
    Low28(value);
    PutBytes(s, o, value);
  }

  lemma PutElsewhere(s: seq<u8>, o: nat, value: u32, p: nat)
    requires o + 4 <= |s| && p + 4 <= |s| && (p + 4 <= o || o + 4 <= p)
    ensures Le32(PutEntry(s, o, value), p) == Le32(s, p)
  {
  }

  function SectorOf(l: Layout, c: nat): nat {
    l.fatStart + c / 128
  }

  function OffsetOf(c: nat): nat {
    c % 128 * 4
  }

  lemma EntryPosition(l: Layout, c: nat)
    ensures l.fatStart + c * 4 / SECTOR_SIZE == SectorOf(l, c) && c * 4 % SECTOR_SIZE == OffsetOf(c)
    ensures OffsetOf(c) + 4 <= SECTOR_SIZE
    ensures c < l.fatSize * 128 ==> SectorOf(l, c) < l.fatStart + l.fatSize
  {
  }

  lemma EntriesApart(l: Layout, c: nat, x: nat)
    requires c != x && SectorOf(l, c) == SectorOf(l, x)
    ensures OffsetOf(c) + 4 <= OffsetOf(x) || OffsetOf(x) + 4 <= OffsetOf(c)
  {
  }

  function Entry(d: Disk, l: Layout, c: nat): nat
    requires Fits(d, l) && c < l.limit
  {
    EntryPosition(l, c);
    Le32(d[SectorOf(l, c)], OffsetOf(c)) % 0x1000_0000
  }

  ghost function Table(d: Disk, l: Layout): (f: Fat)
    requires Fits(d, l)
    ensures |f| == l.limit
  {
    seq(l.limit, c requires 0 <= c < l.limit => Entry(d, l, c))
  }

  /** Everything but the first copy of the table is the same. */
  ghost predicate SameOutsideTable(a: Disk, b: Disk, l: Layout) {
    && |b| == |a|
    && forall s :: 0 <= s < |a| && !(l.fatStart <= s < l.fatStart + l.fatSize) ==> b[s] == a[s]
  }

  function WithEntry(d: Disk, l: Layout, c: nat, value: u32): (d': Disk)
    requires Fits(d, l) && c < l.limit
    ensures Fits(d', l) && SameOutsideTable(d, d', l)
  {
    hide DataSectors, PutEntry;
    EntryPosition(l, c);
    d[SectorOf(l, c) := PutEntry(d[SectorOf(l, c)], OffsetOf(c), value)]
  }

  lemma EntryAfterPut(d: Disk, l: Layout, c: nat, value: u32, x: nat)
    requires Fits(d, l) && c < l.limit && x < l.limit
    ensures Entry(WithEntry(d, l, c, value), l, x) == if x == c then value % 0x1000_0000 else Entry(d, l, x)
  {
    hide Le32, PutEntry, DataSectors, SectorOf, OffsetOf;
    EntryPosition(l, c);
    EntryPosition(l, x);
    var s := d[SectorOf(l, c)];
    PutThenGet(s, OffsetOf(c), value);
    if x != c && SectorOf(l, x) == SectorOf(l, c) {
      EntriesApart(l, c, x);
      PutElsewhere(s, OffsetOf(c), value, OffsetOf(x));
    }
  }

  /** A store changes its own entry, keeps 28 bits of it, and changes no other entry. */
  lemma TableAfterPut(d: Disk, l: Layout, c: nat, value: u32)
    requires Fits(d, l) && c < l.limit
    ensures Table(WithEntry(d, l, c, value), l) == Table(d, l)[c := value % 0x1000_0000]
  {
    hide Entry, WithEntry, Fits;
    var d' := WithEntry(d, l, c, value);
    forall x | 0 <= x < l.limit
      ensures Entry(d', l, x) == if x == c then value % 0x1000_0000 else Entry(d, l, x)
    {
      EntryAfterPut(d, l, c, value, x);
    }
  }

  // ---------- cluster data ----------

  /** The bytes of n sectors from `lba` on. */
  ghost function Sectors(d: Disk, lba: int, n: nat): seq<u8> {
    if n == 0 then []
    else Sectors(d, lba, n - 1) + if 0 <= lba + n - 1 < |d| then d[lba + n - 1] else []
  }

  /** The loops of the driver never ask for clusters 0 and 1. */
  function ClusterToLBA(l: Layout, c: nat): int {
    if c < 2 then l.dataStart else l.dataStart + DataSectors(l, c - 2)
  }

  ghost function ClusterBytes(d: Disk, l: Layout, c: nat): seq<u8> {
    Sectors(d, ClusterToLBA(l, c), l.sectorsPerCluster)
  }

  /** The contents of a chain, cluster after cluster. */
  ghost function ChainBytes(d: Disk, l: Layout, chain: seq<nat>): seq<u8> {
    if chain == [] then [] else ChainBytes(d, l, chain[..|chain| - 1]) + ClusterBytes(d, l, chain[|chain| - 1])
  }

  /** Bytes that n clusters hold. */
  ghost function Capacity(l: Layout, n: nat): nat {
    DataSectors(l, n) * SECTOR_SIZE
  }

  lemma DataSectorsNext(l: Layout, n: nat)
    ensures DataSectors(l, n + 1) == DataSectors(l, n) + l.sectorsPerCluster
  {
    assert (n + 1) * l.sectorsPerCluster == n * l.sectorsPerCluster + l.sectorsPerCluster;
  }

  lemma CapacityNext(l: Layout, n: nat)
    ensures Capacity(l, n + 1) == Capacity(l, n) + l.sectorsPerCluster * SECTOR_SIZE
  {
    hide DataSectors;
    DataSectorsNext(l, n);
  }

  lemma CapacityGrows(l: Layout, m: nat, n: nat)
    requires m <= n
    ensures Capacity(l, m) <= Capacity(l, n)
    decreases n - m
  {
    hide Capacity;
    if m < n {
      CapacityNext(l, n - 1);
      CapacityGrows(l, m, n - 1);
    }
  }

  lemma DataSectorsGrow(l: Layout, m: nat, n: nat)
    requires m < n
    ensures DataSectors(l, m) + l.sectorsPerCluster <= DataSectors(l, n)
    decreases n - m
  {
    hide DataSectors;
    DataSectorsNext(l, m);
    if m + 1 < n {
      DataSectorsGrow(l, m + 1, n);
    }
  }

  lemma ClusterOnDisk(d: Disk, l: Layout, c: nat)
    requires Fits(d, l) && 2 <= c < l.limit
    ensures l.dataStart <= ClusterToLBA(l, c)
    ensures ClusterToLBA(l, c) + l.sectorsPerCluster <= |d|
  {
    hide DataSectors;
    DataSectorsGrow(l, c - 2, l.limit - 2);
  }

  /** Different clusters share no sector. */
  lemma ClustersApart(l: Layout, c: nat, x: nat)
    requires 2 <= c && 2 <= x && c != x
    ensures ClusterToLBA(l, c) + l.sectorsPerCluster <= ClusterToLBA(l, x)
         || ClusterToLBA(l, x) + l.sectorsPerCluster <= ClusterToLBA(l, c)
  {
    hide DataSectors;
    if c < x {
      DataSectorsGrow(l, c - 2, x - 2);
    } else {
      DataSectorsGrow(l, x - 2, c - 2);
    }
  }

  lemma {:induction false} SectorsLength(d: Disk, l: Layout, lba: int, n: nat)
    requires Fits(d, l) && 0 <= lba && lba + n <= |d|
    ensures |Sectors(d, lba, n)| == n * SECTOR_SIZE
    decreases n
  {
    hide DataSectors;
    if n > 0 {
      SectorsLength(d, l, lba, n - 1);
    }
  }

  lemma {:induction false} SectorsPrefix(d: Disk, lba: int, m: nat, n: nat)
    requires m <= n
    ensures Sectors(d, lba, m) <= Sectors(d, lba, n)
    decreases n - m
  {
    if m < n {
      SectorsPrefix(d, lba, m, n - 1);
    }
  }

  lemma {:induction false} SectorsSame(a: Disk, b: Disk, lba: int, n: nat)
    requires |a| == |b| && forall s :: 0 <= s < |a| && lba <= s < lba + n ==> b[s] == a[s]
    ensures Sectors(b, lba, n) == Sectors(a, lba, n)
    decreases n
  {
    if n > 0 {
      SectorsSame(a, b, lba, n - 1);
    }
  }

  ghost predicate InRegion(l: Layout, chain: seq<nat>) {
    forall i :: 0 <= i < |chain| ==> 2 <= chain[i] < l.limit
  }

  lemma {:induction false} ChainLength(d: Disk, l: Layout, chain: seq<nat>)
    requires Fits(d, l) && InRegion(l, chain)
    ensures |ChainBytes(d, l, chain)| == Capacity(l, |chain|)
    decreases |chain|
  {
    hide Fits;
    if chain != [] {
      var m := |chain| - 1;
      ChainLength(d, l, chain[..m]);
      ClusterOnDisk(d, l, chain[m]);
      SectorsLength(d, l, ClusterToLBA(l, chain[m]), l.sectorsPerCluster);
      CapacityNext(l, m);
    }
  }

  lemma {:induction false} ChainPrefix(d: Disk, l: Layout, chain: seq<nat>, k: nat)
    requires k <= |chain|
    ensures ChainBytes(d, l, chain[..k]) <= ChainBytes(d, l, chain)
    decreases |chain| - k
  {
    if k < |chain| {
      ChainPrefix(d, l, chain, k + 1);
      assert chain[..k + 1][..k] == chain[..k];
    } else {
      assert chain[..k] == chain;
    }
  }

  /** No cluster of `chain` changed between the two disks. */
  ghost predicate SameClusters(a: Disk, b: Disk, l: Layout, chain: seq<nat>) {
    forall i :: 0 <= i < |chain| ==> ClusterBytes(b, l, chain[i]) == ClusterBytes(a, l, chain[i])
  }

  lemma {:induction false} ChainSame(a: Disk, b: Disk, l: Layout, chain: seq<nat>)
    requires SameClusters(a, b, l, chain)
    ensures ChainBytes(b, l, chain) == ChainBytes(a, l, chain)
    decreases |chain|
  {
    hide ClusterBytes;
    if chain != [] {
      ChainSame(a, b, l, chain[..|chain| - 1]);
    }
  }

  /** Only the sectors of cluster `c` differ. */
  ghost predicate SameOutsideCluster(a: Disk, b: Disk, l: Layout, c: nat) {
    && |b| == |a|
    && forall s :: 0 <= s < |a| && !(ClusterToLBA(l, c) <= s < ClusterToLBA(l, c) + l.sectorsPerCluster) ==>
         b[s] == a[s]
  }

  lemma OtherClusterSame(a: Disk, b: Disk, l: Layout, c: nat, x: nat)
    requires SameOutsideCluster(a, b, l, c) && 2 <= c && 2 <= x && c != x
    ensures ClusterBytes(b, l, x) == ClusterBytes(a, l, x)
  {
    hide ClusterToLBA;
    ClustersApart(l, c, x);
    SectorsSame(a, b, ClusterToLBA(l, x), l.sectorsPerCluster);
  }

  lemma ClusterSameOutsideTable(a: Disk, b: Disk, l: Layout, c: nat)
    requires Fits(a, l) && SameOutsideTable(a, b, l) && 2 <= c < l.limit
    ensures ClusterBytes(b, l, c) == ClusterBytes(a, l, c)
  {
    hide ClusterToLBA;
    ClusterOnDisk(a, l, c);
    SectorsSame(a, b, ClusterToLBA(l, c), l.sectorsPerCluster);
  }

  lemma TableSameOutsideCluster(a: Disk, b: Disk, l: Layout, c: nat)
    requires Fits(a, l) && Fits(b, l) && SameOutsideCluster(a, b, l, c) && 2 <= c < l.limit
    ensures Table(b, l) == Table(a, l)
  {
    hide ClusterToLBA, DataSectors, Le32, SectorOf, OffsetOf;
    ClusterOnDisk(a, l, c);
    forall x | 0 <= x < l.limit
      ensures Entry(b, l, x) == Entry(a, l, x)
    {
      EntryPosition(l, x);
    }
  }

  // ---------- where everything lies on the disk ----------

  /** The entry of cluster c as the specification lays it out: a little-endian word of 32 bits at byte 4 * c of the
      table, of which 28 bits count. */
  ghost predicate IsStoredEntry(d: Disk, l: Layout, c: nat, value: nat) {
    var s, o := l.fatStart + c * 4 / 512, c * 4 % 512;
    && s < |d| && o + 4 <= |d[s]|
    && value == (d[s][o] as int + d[s][o + 1] as int * 0x100 + d[s][o + 2] as int * 0x1_0000
                 + d[s][o + 3] as int * 0x100_0000) % 0x1000_0000
  }

  lemma EntryOnDisk(d: Disk, l: Layout, c: nat)
    requires Fits(d, l) && c < l.limit
    ensures IsStoredEntry(d, l, c, Table(d, l)[c])
  {
    hide DataSectors;
    EntryPosition(l, c);
  }

  lemma StoredEntryIs(d: Disk, l: Layout, c: nat)
    requires Fits(d, l) && c < l.limit
    ensures forall x: nat :: IsStoredEntry(d, l, c, x) <==> x == Table(d, l)[c]
  {
    hide Table;
    EntryOnDisk(d, l, c);
  }

  /** Four bytes of the table are stored: 28 bits of the value, and four zeros above them. */
  ghost predicate EntryStored(a: Disk, b: Disk, l: Layout, c: nat, value: u32) {
    var s, o := l.fatStart + c * 4 / 512, c * 4 % 512;
    && s < |a| && o + 4 <= |a[s]|
    && b == a[s := a[s][..o] + [value % 0x100, value / 0x100 % 0x100, value / 0x1_0000 % 0x100,
                                value / 0x100_0000 % 0x10] + a[s][o + 4..]]
  }

  ghost predicate StoredEntryEnds(d: Disk, l: Layout, c: nat) {
    exists value: nat :: IsStoredEntry(d, l, c, value) && (value < 2 || 0x0FFFFFF8 <= value)
  }

  /** The clusters of a file in terms of the stored entries. */
  ghost predicate ChainIsStored(d: Disk, l: Layout, first: nat, chain: seq<nat>) {
    if chain == [] then first < 2 || 0x0FFFFFF8 <= first
    else
      && first == chain[0] && (forall i :: 0 <= i < |chain| ==> 2 <= chain[i] < l.limit)
      && (forall i :: 0 <= i < |chain| - 1 ==> IsStoredEntry(d, l, chain[i], chain[i + 1]))
      && StoredEntryEnds(d, l, chain[|chain| - 1])
  }

  /** A chain of the table is a chain of stored entries. */
  lemma ChainOnDisk(d: Disk, l: Layout, first: nat, chain: seq<nat>)
    requires Fits(d, l)
    ensures IsChain(Table(d, l), first, chain) <==> ChainIsStored(d, l, first, chain)
  {
    hide Table, Entry, DataSectors, IsStoredEntry;
    var f := Table(d, l);
    if chain != [] && forall i :: 0 <= i < |chain| ==> 2 <= chain[i] < l.limit {
      forall i | 0 <= i < |chain|
        ensures forall x: nat :: IsStoredEntry(d, l, chain[i], x) <==> x == f[chain[i]]
      {
        StoredEntryIs(d, l, chain[i]);
      }
      var last := chain[|chain| - 1];
      assert IsStoredEntry(d, l, last, f[last]);
      if StoredEntryEnds(d, l, last) {
        assert Ends(f[last]);
      }
    }
  }

  /** Byte i of a file lies in sector i / 512 of its clusters, cluster c being the sectors from
      dataStart + (c - 2) * sectorsPerCluster on. */
  ghost predicate IsFileByte(d: Disk, l: Layout, chain: seq<nat>, i: nat, b: u8)
    requires l.sectorsPerCluster >= 1
  {
    var size := l.sectorsPerCluster * 512;
    && 0 <= i / size < |chain|
    && var s := l.dataStart + (chain[i / size] - 2) * l.sectorsPerCluster + i % size / 512;
      0 <= s < |d| && i % 512 < |d[s]| && b == d[s][i % 512]
  }

  lemma {:induction false} SectorsByte(d: Disk, l: Layout, lba: nat, n: nat, j: nat)
    requires Fits(d, l) && lba + n <= |d| && j < n * SECTOR_SIZE
    ensures |Sectors(d, lba, n)| == n * SECTOR_SIZE && Sectors(d, lba, n)[j]
      == d[lba + j / SECTOR_SIZE][j % SECTOR_SIZE]
    decreases n
  {
    hide DataSectors;
    SectorsLength(d, l, lba, n);
    SectorsLength(d, l, lba, n - 1);
    if j < (n - 1) * SECTOR_SIZE {
      SectorsByte(d, l, lba, n - 1, j);
    } else {
      assert j / SECTOR_SIZE == n - 1;
    }
  }

  lemma SectorPosition(m: nat, spc: nat, j: nat)
    ensures (m * (spc * 512) + j) % 512 == j % 512
  {
    assert m * (spc * 512) == 512 * (m * spc);
  }

  lemma CapacityIs(l: Layout, n: nat)
    ensures Capacity(l, n) == n * (l.sectorsPerCluster * 512)
  {
    assert n * l.sectorsPerCluster * 512 == n * (l.sectorsPerCluster * 512);
  }

  lemma AtPosition(d: Disk, l: Layout, chain: seq<nat>, m: nat, i: nat, j: nat)
    requires l.sectorsPerCluster >= 1 && m < |chain|
    requires i / (l.sectorsPerCluster * 512) == m && i % (l.sectorsPerCluster * 512) == j && i % 512 == j % 512
    requires 0 <= l.dataStart + (chain[m] - 2) * l.sectorsPerCluster + j / 512 < |d|
    requires |d[l.dataStart + (chain[m] - 2) * l.sectorsPerCluster + j / 512]| == 512
    ensures IsFileByte(d, l, chain, i, d[l.dataStart + (chain[m] - 2) * l.sectorsPerCluster + j / 512][j % 512])
  {
  }

  lemma ClusterStart(l: Layout, c: nat)
    requires c >= 2
    ensures ClusterToLBA(l, c) == l.dataStart + (c - 2) * l.sectorsPerCluster
  {
  }

  /** One byte of a cluster in its place. */
  lemma ClusterByteOnDisk(d: Disk, l: Layout, chain: seq<nat>, m: nat, j: nat)
    requires Fits(d, l) && m < |chain| && 2 <= chain[m] < l.limit && j < l.sectorsPerCluster * 512
    ensures |ClusterBytes(d, l, chain[m])| == l.sectorsPerCluster * 512
    ensures IsFileByte(d, l, chain, m * (l.sectorsPerCluster * 512) + j, ClusterBytes(d, l, chain[m])[j])
  {
    hide Sectors, IsFileByte, ClusterToLBA, DataSectors;
    var size := l.sectorsPerCluster * 512;
    ClusterOnDisk(d, l, chain[m]);
    ClusterStart(l, chain[m]);
    SectorsByte(d, l, ClusterToLBA(l, chain[m]), l.sectorsPerCluster, j);
    DivisionIsUnique(m * size + j, size, m, j);
    SectorPosition(m, l.sectorsPerCluster, j);
    AtPosition(d, l, chain, m, m * size + j, j);
  }

  lemma FileBytePrefix(d: Disk, l: Layout, chain: seq<nat>, m: nat, i: nat, b: u8)
    requires l.sectorsPerCluster >= 1 && m <= |chain| && IsFileByte(d, l, chain[..m], i, b)
    ensures IsFileByte(d, l, chain, i, b)
  {
  }

  lemma SomeSectors(d: Disk, l: Layout)
    requires Fits(d, l)
    ensures l.sectorsPerCluster >= 1
  {
  }

  /** Every byte of a chain is where the layout of the volume puts it. */
  lemma {:induction false} ChainByteOnDisk(d: Disk, l: Layout, chain: seq<nat>, i: nat)
    requires Fits(d, l) && InRegion(l, chain) && i < |ChainBytes(d, l, chain)|
    ensures IsFileByte(d, l, chain, i, ChainBytes(d, l, chain)[i])
    decreases |chain|
  {
    hide Fits, IsFileByte, ClusterBytes, Capacity;
    var m := |chain| - 1;
    if m >= 0 {
      ChainLength(d, l, chain[..m]);
      ChainLength(d, l, chain);
      CapacityIs(l, m);
      CapacityNext(l, m);
      assert |chain[..m]| == m;
      if i < |ChainBytes(d, l, chain[..m])| {
        ChainByteOnDisk(d, l, chain[..m], i);
        SomeSectors(d, l);
        FileBytePrefix(d, l, chain, m, i, ChainBytes(d, l, chain)[i]);
      } else {
        ClusterByteOnDisk(d, l, chain, m, i - m * (l.sectorsPerCluster * 512));
      }
    }
  }

  /** The first n bytes of `text` lie on the disk as the bytes of the file. */
  ghost predicate BytesOnDisk(d: Disk, l: Layout, chain: seq<nat>, text: seq<u8>, n: nat) {
    && l.sectorsPerCluster >= 1 && n <= |text|
    && forall i: nat :: i < n ==> IsFileByte(d, l, chain, i, text[i])
  }

  lemma TextOnDisk(d: Disk, l: Layout, chain: seq<nat>, text: seq<u8>, n: nat)
    requires Fits(d, l) && InRegion(l, chain) && n <= |text| && n <= |ChainBytes(d, l, chain)|
    requires text[..n] == ChainBytes(d, l, chain)[..n]
    ensures BytesOnDisk(d, l, chain, text, n)
  {
    hide IsFileByte, ChainBytes;
    SomeSectors(d, l);
    forall i: nat | i < n
      ensures IsFileByte(d, l, chain, i, text[i])
    {
      ChainByteOnDisk(d, l, chain, i);
      assert text[..n][i] == ChainBytes(d, l, chain)[..n][i];
    }
    hide *;
  }
}

module Fat32 {
  import opened ByteCopy
  import opened Words
  import opened FreeSlots
  import opened ClusterChains
  import opened FatDisk

  class FatFile {
    var fileOpen: bool
    var filePosition: u32
    var firstCluster: u32
    var size: u32

    constructor (firstCluster: u32, size: u32) {
      fileOpen, filePosition := true, 0;
      this.firstCluster, this.size := firstCluster, size;
    }

    /** The end of FatWrite: the position moves on, around at 2^32, and the file is at least as long. */
    method Advance(written: u32)
      modifies this`size, this`filePosition
      ensures filePosition == (old(filePosition) + written) % 0x1_0000_0000
      ensures size == Max(old(size), filePosition)
    {
      var end: u32 := (filePosition + written) % 0x1_0000_0000;
      if size < end {
        size := end;
      }
      filePosition := end;
    }
  }

  lemma SectorsSnoc(d: Disk, lba: int, n: nat)
    requires 0 <= lba && lba + n < |d|
    ensures Sectors(d, lba, n + 1) == Sectors(d, lba, n) + d[lba + n]
  {
  }

  lemma WrittenBehind(d: Disk, d': Disk, l: Layout, lba: nat, s: nat, buf: seq<u8>, from: nat, to: nat, chunk: nat)
    requires Fits(d, l) && Fits(d', l) && lba + s < |d| == |d'|
    requires forall x :: 0 <= x < |d| && x != lba + s ==> d'[x] == d[x]
    requires from <= to && to + chunk <= |buf| && to - from == s * SECTOR_SIZE && chunk <= SECTOR_SIZE
    requires |Sectors(d, lba, s)| == s * SECTOR_SIZE && buf[from..to] == Sectors(d, lba, s)[..to - from]
    requires d'[lba + s][..chunk] == buf[to..to + chunk]
    ensures |Sectors(d', lba, s + 1)| == (s + 1) * SECTOR_SIZE
    ensures buf[from..to + chunk] == Sectors(d', lba, s + 1)[..to + chunk - from]
  {
    hide DataSectors;
    SectorsSame(d, d', lba, s);
    SectorsSnoc(d', lba, s);
    assert buf[from..to + chunk] == buf[from..to] + buf[to..to + chunk];
  }

  lemma ChainStep(f: ClusterChains.Fat, first: nat, chain: seq<nat>, m: nat)
    requires IsLive(f, first, chain) && m < |chain|
    ensures InTable(f, chain[m]) && f[chain[m]] != CLUSTER_FREE
    ensures if m + 1 < |chain| then f[chain[m]] == chain[m + 1] && !Ends(chain[m + 1]) else Ends(f[chain[m]])
  {
    assert m + 1 < |chain| ==> InTable(f, chain[m + 1]);
  }

  lemma EmptyChain(d: Disk, l: Layout, chain: seq<nat>)
    ensures ChainBytes(d, l, chain[..0]) == []
  {
  }

  lemma NextClusterBytes(d: Disk, l: Layout, chain: seq<nat>, k: nat)
    requires k < |chain|
    ensures ChainBytes(d, l, chain[..k + 1]) == ChainBytes(d, l, chain[..k]) + ClusterBytes(d, l, chain[k])
  {
    assert chain[..k + 1][..k] == chain[..k];
  }

  lemma VisitStarts(f: ClusterChains.Fat, first: nat, part: seq<nat>)
    requires IsVisit(f, first, part)
    ensures if part == [] then IsChain(f, first, part) ==> Ends(first) else first == part[0]
  {
  }

  lemma VisitLink(f: ClusterChains.Fat, first: nat, part: seq<nat>, m: nat)
    requires IsVisit(f, first, part) && m < |part|
    ensures InTable(f, part[m]) && !Ends(part[m])
    ensures if m + 1 < |part| then f[part[m]] == part[m + 1] else IsChain(f, first, part) ==> Ends(f[part[m]])
  {
    assert InTable(f, part[m]);
  }

  lemma ChainIsVisit(f: ClusterChains.Fat, first: nat, chain: seq<nat>)
    requires IsChain(f, first, chain)
    ensures IsVisit(f, first, chain)
  {
  }

  lemma VisitInRegion(d: Disk, l: Layout, first: nat, part: seq<nat>)
    requires Fits(d, l) && IsVisit(Table(d, l), first, part)
    ensures InRegion(l, part)
  {
    forall i | 0 <= i < |part|
      ensures 2 <= part[i] < l.limit
    {
      assert InTable(Table(d, l), part[i]);
    }
  }

  lemma LiveInRegion(d: Disk, l: Layout, first: nat, chain: seq<nat>)
    requires Fits(d, l) && IsLive(Table(d, l), first, chain)
    ensures InRegion(l, chain)
  {
    ChainIsVisit(Table(d, l), first, chain);
    VisitInRegion(d, l, first, chain);
  }

  /** The bytes of a part of a visit are as many as its clusters hold. */
  lemma VisitLength(d: Disk, l: Layout, first: nat, part: seq<nat>)
    requires Fits(d, l) && IsVisit(Table(d, l), first, part)
    ensures |ChainBytes(d, l, part)| == Capacity(l, |part|)
  {
    hide Capacity, ChainBytes;
    VisitInRegion(d, l, first, part);
    ChainLength(d, l, part);
  }

  /** No sector changed outside the first copy of the table and the given clusters. */
  ghost predicate SameElsewhere(a: Disk, b: Disk, l: Layout, chain: seq<nat>) {
    && |b| == |a|
    && forall s :: 0 <= s < |a| && !(l.fatStart <= s < l.fatStart + l.fatSize)
         && (forall i :: 0 <= i < |chain| ==>
               !(ClusterToLBA(l, chain[i]) <= s < ClusterToLBA(l, chain[i]) + l.sectorsPerCluster))
         ==> b[s] == a[s]
  }

  /** FatWrite after `used` whole clusters: they hold the first `done` bytes, and no other data sector changed. */
  ghost predicate Written(a: Disk, d: Disk, l: Layout, chain: seq<nat>, used: nat, buf: seq<u8>, size: nat, done: nat) {
    && used <= |chain|
    && done == Min(size, Capacity(l, used)) && done <= |buf|
    && (used > 0 ==> Capacity(l, used - 1) < size)
    && |ChainBytes(d, l, chain[..used])| == Capacity(l, used)
    && buf[..done] == ChainBytes(d, l, chain[..used])[..done]
    && SameElsewhere(a, d, l, chain[..used])
  }

  lemma DataSectorsZero(l: Layout)
    ensures DataSectors(l, 0) == 0
  {
  }

  lemma WriteStarts(d: Disk, l: Layout, first: nat, chain: seq<nat>, buf: seq<u8>, size: nat)
    requires Fits(d, l) && IsLive(Table(d, l), first, chain)
    ensures if chain == [] then Ends(first) else first == chain[0]
    ensures Grown(File(Table(d, l), chain), File(Table(d, l), chain), 0)
    ensures Written(d, d, l, chain, 0, buf, size, 0)
  {
    hide DataSectors;
    assert chain[..0] == [];
    assert DataSectors(l, 0) == 0 by {
      DataSectorsZero(l);
    }
  }

  /** The loop ends when all data is written or no cluster is free behind a fully written chain. */
  lemma WriteStops(a: Disk, d: Disk, l: Layout, s: File, r: File, n: nat, used: nat, buf: seq<u8>, size: nat, done: nat)
    requires |s.fat| >= 2 && Grown(s, r, n) && Written(a, d, l, r.chain, used, buf, size, done)
    requires done == size || (used == |r.chain| && FreeClusters(r.fat) == 0)
    ensures done == Min(size, Capacity(l, |s.chain| + FreeClusters(s.fat)))
    ensures done < size ==> |r.chain| == |s.chain| + FreeClusters(s.fat)
  {
    hide Capacity, FreeClusters, ChainBytes, SameElsewhere;
    CapacityGrows(l, used, |s.chain| + FreeClusters(s.fat));
  }

  lemma WriteEnds(a: Disk, d: Disk, l: Layout, chain: seq<nat>, used: nat, buf: seq<u8>, size: nat, done: nat)
    requires Written(a, d, l, chain, used, buf, size, done) && size <= |buf|
    ensures used <= |chain| && (used > 0 ==> Capacity(l, used - 1) < size) && SameElsewhere(a, d, l, chain[..used])
    ensures done <= |ChainBytes(d, l, chain)| && buf[..done] == ChainBytes(d, l, chain)[..done]
  {
    hide Capacity, ChainBytes, SameElsewhere;
    ChainPrefix(d, l, chain, used);
  }

  /** Text already in place, and the next piece read behind it. */
  lemma Joined(before: seq<u8>, after: seq<u8>, from: nat, to: nat, text: seq<u8>, piece: seq<u8>)
    requires from <= to <= |before| == |after| && from == |text| && to - from <= |piece|
    requires before[..from] == text && after[..from] == before[..from] && after[from..to] == piece[..to - from]
    ensures after[..to] == (text + piece)[..to]
  {
    assert after[..to] == after[..from] + after[from..to];
  }

  lemma EarlierClustersStay(a: Disk, d: Disk, d': Disk, l: Layout, first: nat, chain: seq<nat>, m: nat)
    requires Fits(d, l) && Fits(d', l) && IsLive(Table(d, l), first, chain) && m < |chain|
    requires SameOutsideCluster(d, d', l, chain[m]) && SameElsewhere(a, d, l, chain[..m])
    ensures Table(d', l) == Table(d, l)
    ensures ChainBytes(d', l, chain[..m]) == ChainBytes(d, l, chain[..m])
    ensures SameElsewhere(a, d', l, chain[..m + 1])
  {
    hide DataSectors, ClusterBytes, ClusterToLBA, Table, Entry;
    var f := Table(d, l);
    assert InTable(f, chain[m]);
    TableSameOutsideCluster(d, d', l, chain[m]);
    forall i | 0 <= i < m
      ensures ClusterBytes(d', l, chain[..m][i]) == ClusterBytes(d, l, chain[..m][i])
    {
      ChainHasNoRepeat(f, first, chain, i, m);
      assert InTable(f, chain[i]);
      OtherClusterSame(d, d', l, chain[m], chain[i]);
    }
    ChainSame(d, d', l, chain[..m]);
    assert chain[..m + 1][m] == chain[m];
    assert forall i :: 0 <= i < m ==> chain[..m + 1][i] == chain[..m][i];
  }

  /** Writing cluster `used` of a chain leaves the table and the clusters before it alone. */
  lemma ClusterWritten(a: Disk, d: Disk, d': Disk, l: Layout, first: nat, chain: seq<nat>, used: nat,
                       buf: seq<u8>, size: nat, done: nat, done': nat)
    requires Fits(d, l) && Fits(d', l) && IsLive(Table(d, l), first, chain) && used < |chain|
    requires Written(a, d, l, chain, used, buf, size, done) && done < size <= |buf|
    requires SameOutsideCluster(d, d', l, chain[used])
    requires done' == Min(size, done + l.sectorsPerCluster * SECTOR_SIZE)
    requires |ClusterBytes(d', l, chain[used])| == l.sectorsPerCluster * SECTOR_SIZE
    requires buf[done..done'] == ClusterBytes(d', l, chain[used])[..done' - done]
    ensures Table(d', l) == Table(d, l)
    ensures Written(a, d', l, chain, used + 1, buf, size, done')
  {
    hide DataSectors, ClusterBytes, ClusterToLBA, Table, Entry, Capacity;
    EarlierClustersStay(a, d, d', l, first, chain, used);
    CapacityNext(l, used);
    assert chain[..used + 1][..used] == chain[..used];
    Joined(buf, buf, done, done', ChainBytes(d', l, chain[..used]), ClusterBytes(d', l, chain[used]));
  }

  /** Writing the table leaves the clusters of a chain alone, also when the chain has grown. */
  lemma TableWritten(a: Disk, d: Disk, d': Disk, l: Layout, first: nat, chain: seq<nat>, chain': seq<nat>, used: nat,
                     buf: seq<u8>, size: nat, done: nat)
    requires Fits(d, l) && Fits(d', l) && IsLive(Table(d, l), first, chain) && chain <= chain'
    requires SameOutsideTable(d, d', l) && Written(a, d, l, chain, used, buf, size, done)
    ensures Written(a, d', l, chain', used, buf, size, done)
  {
    hide DataSectors, ClusterBytes, ClusterToLBA, Table, Entry, Capacity;
    forall i | 0 <= i < used
      ensures ClusterBytes(d', l, chain[..used][i]) == ClusterBytes(d, l, chain[..used][i])
    {
      assert InTable(Table(d, l), chain[i]);
      ClusterSameOutsideTable(d, d', l, chain[i]);
    }
    ChainSame(d, d', l, chain[..used]);
    assert chain'[..used] == chain[..used];
  }

  /** A free cluster is taken only for data that the chain cannot hold. */
  lemma SpaceIsLeft(a: Disk, d: Disk, l: Layout, s: File, r: File, n: nat, used: nat, buf: seq<u8>, size: nat,
                    done: nat)
    requires |s.fat| >= 2 && Grown(s, r, n)
    requires Written(a, d, l, r.chain, used, buf, size, done) && done < size
    ensures used == |r.chain| && FreeClusters(r.fat) > 0 ==>
      n + 1 <= FreeClusters(s.fat) && Capacity(l, |s.chain| + n) < size
    ensures used == |r.chain| && size <= Capacity(l, |s.chain| + FreeClusters(s.fat)) ==> FreeClusters(r.fat) > 0
  {
    hide Capacity, FreeClusters, ChainBytes, SameElsewhere;
  }

  /** `now` is `before` with the beginning of `text` at from .. to. */
  ghost predicate Copied(before: seq<u8>, now: seq<u8>, from: nat, to: nat, text: seq<u8>) {
    && from <= to <= |before| == |now| && to - from <= |text|
    && now == before[..from] + text[..to - from] + before[to..]
  }

  lemma NothingCopied(b: seq<u8>, from: nat, text: seq<u8>)
    requires from <= |b|
    ensures Copied(b, b, from, from, text)
  {
  }

  /** Copying a chunk behind a text that is in place whole. */
  lemma CopiedBehind(b: seq<u8>, now: seq<u8>, later: seq<u8>, from: nat, to: nat, chunk: nat, text: seq<u8>,
                     piece: seq<u8>)
    requires Copied(b, now, from, to, text) && to - from == |text|
    requires to + chunk <= |b| && chunk <= |piece| && later == now[..to] + piece[..chunk] + now[to + chunk..]
    ensures Copied(b, later, from, to + chunk, text + piece)
  {
    assert later[..to] == b[..from] + text;
    assert now[to + chunk..] == b[to + chunk..];
  }

  lemma CopiedPrefix(b: seq<u8>, now: seq<u8>, from: nat, to: nat, text: seq<u8>, longer: seq<u8>)
    requires Copied(b, now, from, to, text) && text <= longer
    ensures Copied(b, now, from, to, longer)
  {
    assert longer[..to - from] == text[..to - from];
  }

  lemma CopiedText(b: seq<u8>, now: seq<u8>, to: nat, text: seq<u8>, longer: seq<u8>)
    requires Copied(b, now, 0, to, text) && text <= longer
    ensures to <= |longer| && now == longer[..to] + b[to..]
  {
    CopiedPrefix(b, now, 0, to, text, longer);
  }

  /** A piece copied behind a text that is in place whole. */
  lemma CopiedOn(b: seq<u8>, now: seq<u8>, later: seq<u8>, from: nat, to: nat, text: seq<u8>, piece: seq<u8>)
    requires Copied(b, now, 0, from, text) && from == |text| && Copied(now, later, from, to, piece)
    ensures Copied(b, later, 0, to, text + piece)
  {
    assert now[..from] == text && now[to..] == b[to..];
    assert (text + piece)[..to] == text + piece[..to - from];
  }

  lemma WalkStarts(f: ClusterChains.Fat, start: nat)
    ensures InTable(f, start) ==> Reached(f, start, start)
  {
    assert Walk(f, start, 0) == start;
  }

  lemma VisitedIsReached(f: ClusterChains.Fat, start: nat, visited: set<nat>)
    requires |f| <= CLUSTER_EOF && (Ends(start) || start in visited)
    requires forall c :: c in visited ==> Reached(f, start, c)
    requires forall c :: c in visited ==> InTable(f, c) && (Ends(f[c]) || f[c] in visited)
    ensures forall c :: Reached(f, start, c) <==> c in visited
  {
    forall c | Reached(f, start, c)
      ensures c in visited
    {
      var k: nat :| Walk(f, start, k) == c;
      ClosedSetHoldsWalk(f, start, visited, k);
    }
  }

  lemma ReleasedIsVisited(f: ClusterChains.Fat, start: nat, visited: set<nat>, r: ClusterChains.Fat)
    requires |r| == |f| && forall c :: Reached(f, start, c) <==> c in visited
    requires forall c :: 0 <= c < |f| ==> r[c] == if c in visited then CLUSTER_FREE else f[c]
    ensures r == Released(f, start)
  {
    hide Reached;
  }

  class Volume {
    var disk: Disk
    const sectorBuffer: array<u8>
    const layout: Layout

    ghost predicate Valid()
      reads this
    {
      Fits(disk, layout) && sectorBuffer.Length == SECTOR_SIZE
    }

    /** The file allocation table as stored in its first copy. */
    ghost function Fat(): Fat
      requires Fits(disk, layout)
      reads this
    {
      Table(disk, layout)
    }

    constructor (disk: Disk, layout: Layout)
      requires Fits(disk, layout)
      ensures Valid() && this.disk == disk && this.layout == layout && fresh(sectorBuffer)
    {
      this.disk, this.layout := disk, layout;
      sectorBuffer := new u8[SECTOR_SIZE](_ => 0);
    }

    method AhciReadSector(lba: nat)
      requires Valid() && lba < |disk|
      modifies sectorBuffer
      ensures sectorBuffer[..] == disk[lba]
    {
      var sector := disk[lba];
      forall i | 0 <= i < SECTOR_SIZE {
        sectorBuffer[i] := sector[i];
      }
    }

    method AhciWriteSector(lba: nat)
      requires Valid() && lba < |disk|
      modifies this`disk
      ensures Valid() && disk == old(disk)[lba := sectorBuffer[..]]
    {
      disk := disk[lba := sectorBuffer[..]];
    }

    method ReadFATEntry(cluster: u32) returns (value: u32)
      requires Valid() && cluster < layout.limit
      modifies sectorBuffer
      ensures value == Fat()[cluster] < 0x1000_0000
    {
      hide DataSectors, SectorOf, OffsetOf, Le32;
      EntryPosition(layout, cluster);
      var fatOffset := cluster * 4;
      var fatSector := layout.fatStart + fatOffset / SECTOR_SIZE;
      var offsetInSector := fatOffset % SECTOR_SIZE;
      AhciReadSector(fatSector);
      value := Le32(sectorBuffer[..], offsetInSector) % 0x1000_0000;
    }

    method WriteFATEntry(cluster: u32, value: u32)
      requires Valid() && cluster < layout.limit
      modifies this`disk, sectorBuffer
      ensures Valid() && SameOutsideTable(old(disk), disk, layout)
      ensures Fat() == old(Fat())[cluster := value % 0x1000_0000]
      ensures EntryStored(old(disk), disk, layout, cluster, value)
    {
      hide DataSectors, SectorOf, OffsetOf, Le32, Entry, Table;
      EntryPosition(layout, cluster);
      var fatOffset := cluster * 4;
      var fatSector := layout.fatStart + fatOffset / SECTOR_SIZE;
      var offsetInSector := fatOffset % SECTOR_SIZE;
      AhciReadSector(fatSector);
      sectorBuffer[offsetInSector] := value % 0x100;
      sectorBuffer[offsetInSector + 1] := value / 0x100 % 0x100;
      sectorBuffer[offsetInSector + 2] := value / 0x1_0000 % 0x100;
      sectorBuffer[offsetInSector + 3] := value / 0x100_0000 % 0x10;
      assert sectorBuffer[..] == PutEntry(disk[fatSector], offsetInSector, value);
      AhciWriteSector(fatSector);
      assert disk == WithEntry(old(disk), layout, cluster, value);
      TableAfterPut(old(disk), layout, cluster, value);
    }

    /** Marks the lowest free cluster as the end of a chain.  The search is bounded by the largest cluster
        number and not by the table, so a full table must be the largest one. */
    method FATAllocCluster() returns (cluster: u32)
      requires Valid() && (FreeClusters(Fat()) > 0 || layout.limit == 0x0FFFFFF6)
      modifies this`disk, sectorBuffer
      ensures Valid() && SameOutsideTable(old(disk), disk, layout)
      ensures if old(FreeClusters(Fat())) > 0
              then cluster == LowestFree(old(Fat())) < layout.limit && Fat() == old(Fat())[cluster := 0x0FFFFFF8]
              else cluster == 0 && disk == old(disk)
    {
      hide DataSectors, Entry, CountFree, Table, EntryStored;
      FreeClusterExists(Fat());
      var i: u32 := 2;
      while i < 0x0FFFFFF6
        invariant Valid() && disk == old(disk) && 2 <= i <= LowestFree(Fat())
      {
        var value := ReadFATEntry(i);
        if value == CLUSTER_FREE {
          WriteFATEntry(i, CLUSTER_EOF);
          return i;
        }
        i := i + 1;
      }
      return 0;
    }

    /** Marks every cluster reachable from `startCluster` free and stops, on cyclic tables too. */
    method FATFreeChain(startCluster: u32)
      requires Valid() && IsClosedTable(Fat()) && (Ends(startCluster) || startCluster < layout.limit)
      modifies this`disk, sectorBuffer
      ensures Valid() && SameOutsideTable(old(disk), disk, layout)
      ensures Fat() == Released(old(Fat()), startCluster)
    {
      hide DataSectors, Entry, Table, Walk, Reached, Released, EntryStored;
      ghost var f := Fat();
      ghost var visited: set<nat> := {};
      var current := startCluster;
      WalkStarts(f, startCluster);
      while 2 <= current < 0x0FFFFFF8
        invariant Valid() && SameOutsideTable(old(disk), disk, layout)
        invariant forall c :: 0 <= c < layout.limit ==> Fat()[c] == if c in visited then CLUSTER_FREE else f[c]
        invariant forall c :: c in visited ==> Reached(f, startCluster, c) && InTable(f, c)
        invariant forall c :: c in visited ==> Ends(f[c]) || f[c] in visited || f[c] == current
        invariant Ends(startCluster) || startCluster in visited || startCluster == current
        invariant Ends(current) || (Reached(f, startCluster, current) && InTable(f, current))
        decreases Below(layout.limit) - visited, !Ends(current)
      {
        var next := ReadFATEntry(current);
        WriteFATEntry(current, CLUSTER_FREE);
        if current !in visited && !Ends(next) {
          ReachedStep(f, startCluster, current);
        }
        visited := visited + {current};
        current := next;
      }
      VisitedIsReached(f, startCluster, visited);
      ReleasedIsVisited(f, startCluster, visited, Fat());
    }

    /** The sector loop of FatRead for one cluster. */
    method ReadCluster(cluster: u32, buffer: array<u8>, size: u32, done: u32) returns (done': u32)
      requires Valid() && 2 <= cluster < layout.limit && done <= size <= buffer.Length && buffer != sectorBuffer
      modifies buffer, sectorBuffer
      ensures done' == Min(size, done + layout.sectorsPerCluster * SECTOR_SIZE)
      ensures |ClusterBytes(disk, layout, cluster)| == layout.sectorsPerCluster * SECTOR_SIZE
      ensures Copied(old(buffer[..]), buffer[..], done, done', ClusterBytes(disk, layout, cluster))
    {
      hide DataSectors, ClusterToLBA, Sectors, Copied;
      ClusterOnDisk(disk, layout, cluster);
      var lba := ClusterToLBA(layout, cluster);
      var s := 0;
      done' := done;
      SectorsLength(disk, layout, lba, 0);
      NothingCopied(buffer[..], done, Sectors(disk, lba, 0));
      while s < layout.sectorsPerCluster && size - done' > 0
        invariant 0 <= s <= layout.sectorsPerCluster && done <= done' == Min(size, done + s * SECTOR_SIZE)
        invariant |Sectors(disk, lba, s)| == s * SECTOR_SIZE
        invariant Copied(old(buffer[..]), buffer[..], done, done', Sectors(disk, lba, s))
      {
        ghost var before := buffer[..];
        AhciReadSector(lba + s);
        var chunk := Min(size - done', SECTOR_SIZE);
        Memcpy(buffer, done', sectorBuffer, 0, chunk);
        SectorsLength(disk, layout, lba, s + 1);
        SectorsSnoc(disk, lba, s);
        assert sectorBuffer[0..0 + chunk] == disk[lba + s][..chunk];
        CopiedBehind(old(buffer[..]), before, buffer[..], done, done', chunk, Sectors(disk, lba, s), disk[lba + s]);
        done' := done' + chunk;
        s := s + 1;
      }
      SectorsPrefix(disk, lba, s, layout.sectorsPerCluster);
      SectorsLength(disk, layout, lba, layout.sectorsPerCluster);
      CopiedPrefix(old(buffer[..]), buffer[..], done, done', Sectors(disk, lba, s),
                   ClusterBytes(disk, layout, cluster));
    }

    /** FatRead: always from the first cluster, whatever the file position, for at most `size` bytes of the chain; on a
        cyclic chain `chain` is any part of the visit that holds `size` bytes. */
    method FatRead(file: FatFile?, buffer: array<u8>, size: u32, ghost chain: seq<nat>) returns (result: int)
      requires Valid() && size <= buffer.Length && buffer != sectorBuffer
      requires file != null && file.fileOpen ==>
        && IsVisit(Fat(), file.firstCluster, chain)
        && (IsChain(Fat(), file.firstCluster, chain) || size <= Capacity(layout, |chain|))
      modifies buffer, sectorBuffer
      ensures file == null || !file.fileOpen ==> result == 0 && buffer[..] == old(buffer[..])
      ensures file != null && file.fileOpen ==>
        var n := Min(size, |ChainBytes(disk, layout, chain)|);
        && result == AsInt32(n)
        && buffer[..] == ChainBytes(disk, layout, chain)[..n] + old(buffer[n..])
      ensures file != null && file.fileOpen ==>
        BytesOnDisk(disk, layout, chain, buffer[..], Min(size, |chain| * (layout.sectorsPerCluster * 512)))
    {
      hide DataSectors, ClusterBytes, Table, Entry, Capacity, IsChain, IsVisit, Copied, ChainBytes, BytesOnDisk;
      if file == null || !file.fileOpen {
        return 0;
      }
      var cluster := file.firstCluster;
      var done: u32 := 0;
      ghost var k := 0;
      ghost var first := cluster;
      VisitStarts(Fat(), first, chain);
      VisitLength(disk, layout, first, chain);
      EmptyChain(disk, layout, chain);
      NothingCopied(buffer[..], 0, ChainBytes(disk, layout, chain[..0]));
      while size - done > 0 && 2 <= cluster < 0x0FFFFFF8
        invariant 0 <= k <= |chain| && done <= size
        invariant if k < |chain| then cluster == chain[k] else IsChain(Fat(), first, chain) ==> Ends(cluster)
        invariant done == Min(size, |ChainBytes(disk, layout, chain[..k])|)
        invariant Copied(old(buffer[..]), buffer[..], 0, done, ChainBytes(disk, layout, chain[..k]))
        decreases |chain| - k
      {
        ghost var before, from := buffer[..], done;
        assert chain[..|chain|] == chain;
        VisitLink(Fat(), first, chain, k);
        NextClusterBytes(disk, layout, chain, k);
        done := ReadCluster(cluster, buffer, size, done);
        CopiedOn(old(buffer[..]), before, buffer[..], from, done,
                 ChainBytes(disk, layout, chain[..k]), ClusterBytes(disk, layout, cluster));
        cluster := ReadFATEntry(cluster);
        k := k + 1;
      }
      if k < |chain| {
        VisitLink(Fat(), first, chain, k);
      }
      ChainPrefix(disk, layout, chain, k);
      assert k == |chain| ==> chain[..k] == chain;
      CopiedText(old(buffer[..]), buffer[..], done, ChainBytes(disk, layout, chain[..k]),
                 ChainBytes(disk, layout, chain));
      VisitInRegion(disk, layout, first, chain);
      CapacityIs(layout, |chain|);
      TextOnDisk(disk, layout, chain, buffer[..], done);
      result := AsInt32(size - (size - done));
    }

    /** The sector loop of FatWrite for one cluster; a short last chunk leaves the rest of the sector buffer alone. */
    method WriteCluster(cluster: u32, buffer: array<u8>, size: u32, done: u32) returns (done': u32)
      requires Valid() && 2 <= cluster < layout.limit && done <= size <= buffer.Length && buffer != sectorBuffer
      modifies this`disk, sectorBuffer
      ensures Valid() && SameOutsideCluster(old(disk), disk, layout, cluster)
      ensures done' == Min(size, done + layout.sectorsPerCluster * SECTOR_SIZE)
      ensures |ClusterBytes(disk, layout, cluster)| == layout.sectorsPerCluster * SECTOR_SIZE
      ensures buffer[done..done'] == ClusterBytes(disk, layout, cluster)[..done' - done]
    {
      hide DataSectors, ClusterToLBA, Sectors;
      ClusterOnDisk(disk, layout, cluster);
      var lba := ClusterToLBA(layout, cluster);
      var s := 0;
      done' := done;
      SectorsLength(disk, layout, lba, 0);
      while s < layout.sectorsPerCluster && size - done' > 0
        invariant Valid() && |disk| == |old(disk)|
        invariant forall x :: 0 <= x < |disk| && !(lba <= x < lba + s) ==> disk[x] == old(disk)[x]
        invariant 0 <= s <= layout.sectorsPerCluster && done <= done' == Min(size, done + s * SECTOR_SIZE)
        invariant |Sectors(disk, lba, s)| == s * SECTOR_SIZE
        invariant buffer[done..done'] == Sectors(disk, lba, s)[..done' - done]
      {
        ghost var d := disk;
        var chunk := Min(size - done', SECTOR_SIZE);
        Memcpy(sectorBuffer, 0, buffer, done', chunk);
        AhciWriteSector(lba + s);
        WrittenBehind(d, disk, layout, lba, s, buffer[..], done, done', chunk);
        done' := done' + chunk;
        s := s + 1;
      }
      SectorsPrefix(disk, lba, s, layout.sectorsPerCluster);
      SectorsLength(disk, layout, lba, layout.sectorsPerCluster);
    }

    /** The step of FatWrite to the next cluster: follows the entry, or extends the chain at its end; 0 when no
        cluster is free. */
    method NextForWrite(cluster: u32, ghost first: nat, ghost chain: seq<nat>, ghost m: nat) returns (next: u32)
      requires Valid() && IsLive(Fat(), first, chain) && m < |chain| && cluster == chain[m]
      requires m + 1 == |chain| ==> FreeClusters(Fat()) > 0 || layout.limit == 0x0FFFFFF6
      modifies this`disk, sectorBuffer
      ensures Valid() && SameOutsideTable(old(disk), disk, layout)
      ensures m + 1 < |chain| ==> next == chain[m + 1] && disk == old(disk)
      ensures m + 1 == |chain| ==>
        if old(FreeClusters(Fat())) > 0
        then next != 0 && File(Fat(), chain + [next]) == ExtendOnce(File(old(Fat()), chain))
        else next == 0 && disk == old(disk)
    {
      hide DataSectors, Entry, Table, IsLive, CountFree, EntryStored;
      ghost var f := Fat();
      ChainStep(f, first, chain, m);
      next := ReadFATEntry(cluster);
      if next < 2 || next >= 0x0FFFFFF8 {
        FreeClusterExists(f);
        next := FATAllocCluster();
        if next == 0 {
          return;
        }
        WriteFATEntry(cluster, next);
        WriteFATEntry(next, CLUSTER_EOF);
        assert f[cluster] != CLUSTER_FREE;
        assert Fat() == f[next := CLUSTER_EOF][cluster := next];
      }
    }

    /** Bytes that the chain can hold once every free cluster has been added to it. */
    ghost function Room(chain: seq<nat>): nat
      requires Fits(disk, layout)
      reads this
    {
      Capacity(layout, |chain| + FreeClusters(Fat()))
    }

    /** Writes the buffer from the first cluster on, whatever the file position, growing the chain with the lowest
        free clusters by exactly the number of clusters the data needs; a full volume ends it early. */
    method FatWrite(file: FatFile?, buffer: array<u8>, size: u32, ghost chain: seq<nat>)
      returns (result: int, ghost extra: nat, ghost used: nat)
      requires Valid() && size <= buffer.Length && buffer != sectorBuffer
      requires file != null && file.fileOpen ==>
        && IsLive(Fat(), file.firstCluster, chain)
        && (size <= Room(chain) || layout.limit == 0x0FFFFFF6)
      modifies this`disk, sectorBuffer, file
      ensures Valid()
      ensures file == null || !file.fileOpen || chain == [] ==> result == 0 && disk == old(disk)
      ensures file != null ==> file.fileOpen == old(file.fileOpen) && file.firstCluster == old(file.firstCluster)
      ensures file != null && !file.fileOpen ==>
        file.size == old(file.size) && file.filePosition == old(file.filePosition)
      ensures file != null && file.fileOpen && chain == [] ==>
        file.filePosition == old(file.filePosition) && file.size == Max(old(file.size), file.filePosition)
      ensures file != null && file.fileOpen && chain != [] ==>
        var r := Extend(File(old(Fat()), chain), extra);
        var n := Min(size, old(Room(chain)));
        && result == AsInt32(n)
        && Fat() == r.fat && IsLive(r.fat, file.firstCluster, r.chain) && Grown(File(old(Fat()), chain), r, extra)
        && (extra > 0 ==> Capacity(layout, |chain| + extra - 1) < size)
        && (n < size ==> |r.chain| == |chain| + old(FreeClusters(Fat())))
        && n <= |ChainBytes(disk, layout, r.chain)|
        && buffer[..n] == ChainBytes(disk, layout, r.chain)[..n] && BytesOnDisk(disk, layout, r.chain, buffer[..], n)
        && used <= |r.chain| && (used > 0 ==> Capacity(layout, used - 1) < size)
        && SameElsewhere(old(disk), disk, layout, r.chain[..used])
        && file.filePosition == (old(file.filePosition) + n) % 0x1_0000_0000
        && file.size == Max(old(file.size), file.filePosition)
    {
      hide DataSectors, ClusterBytes, Table, Entry, Capacity, IsLive, ExtendOnce, FreeClusters, SameElsewhere,
           ChainBytes, Written, Grown, BytesOnDisk, InRegion, LowestFrom;
      extra, used := 0, 0;
      if file == null || !file.fileOpen {
        return 0, 0, 0;
      }
      ghost var d0, first, s0 := disk, file.firstCluster, File(Fat(), chain);
      ghost var ch: seq<nat> := chain;
      WriteStarts(disk, layout, first, chain, buffer[..], size);
      ghost var full := false;
      var cluster := file.firstCluster;
      var done: u32 := 0;
      while size - done > 0 && 2 <= cluster < 0x0FFFFFF8
        invariant !full && Valid() && extra <= FreeClusters(s0.fat) && unchanged(file) && done <= size
        invariant File(Fat(), ch) == Extend(s0, extra) && IsLive(Fat(), first, ch) && Grown(s0, File(Fat(), ch), extra)
        invariant chain != [] && size - done > 0 ==> used < |ch| && cluster == ch[used]
        invariant chain == [] ==> Ends(cluster) && done == 0 && disk == d0
        invariant Written(d0, disk, layout, ch, used, buffer[..], size, done)
        invariant extra > 0 ==> Capacity(layout, |chain| + extra - 1) < size
        decreases size - done
      {
        ghost var d, from := disk, done;
        ChainStep(Fat(), first, ch, used);
        done := WriteCluster(cluster, buffer, size, done);
        ClusterWritten(d0, d, disk, layout, first, ch, used, buffer[..], size, from, done);
        used := used + 1;
        if size - done > 0 {
          d := disk;
          ghost var before := ch;
          SpaceIsLeft(d0, disk, layout, s0, File(Fat(), ch), extra, used, buffer[..], size, done);
          var next := NextForWrite(cluster, first, ch, used - 1);
          if next == 0 {
            full := true;
            break;
          }
          if used == |ch| {
            ch, extra := ch + [next as nat], extra + 1;
            ExtendKeepsChain(s0, first, extra);
          } else {
            ChainStep(Fat(), first, ch, used - 1);
          }
          TableWritten(d0, d, disk, layout, first, before, ch, used, buffer[..], size, done);
          cluster := next;
        }
      }
      if chain != [] {
        if size - done > 0 && !full {
          ChainStep(Fat(), first, ch, used);
        }
        WriteStops(d0, disk, layout, s0, File(Fat(), ch), extra, used, buffer[..], size, done);
      }
      WriteEnds(d0, disk, layout, ch, used, buffer[..], size, done);
      LiveInRegion(disk, layout, first, ch);
      TextOnDisk(disk, layout, ch, buffer[..], done);
      var written := size - (size - done);
      file.Advance(written);
      result := AsInt32(written);
    }

    /** What is written is read back, whatever the old length of the chain was, and both calls report how much it is. */
    method WriteThenRead(file: FatFile, data: array<u8>, copy: array<u8>, size: u32, ghost chain: seq<nat>)
      returns (written: int, got: int)
      requires Valid() && data != sectorBuffer && copy != sectorBuffer && data != copy
      requires size <= data.Length && size <= copy.Length
      requires file.fileOpen && chain != [] && IsLive(Fat(), file.firstCluster, chain)
      requires size <= Room(chain) || layout.limit == 0x0FFFFFF6
      modifies this`disk, sectorBuffer, file, copy
      ensures Valid()
      ensures var n := Min(size, old(Room(chain)));
        written == got == AsInt32(n) && copy[..] == data[..n] + old(copy[n..])
    {
      hide DataSectors, ChainBytes, Table, Entry, Capacity, FreeClusters, Extend, Grown, SameElsewhere, IsVisit;
      ghost var extra, used;
      written, extra, used := FatWrite(file, data, size, chain);
      ghost var grown := Extend(File(old(Fat()), chain), extra).chain;
      assert IsChain(Fat(), file.firstCluster, grown);
      ChainIsVisit(Fat(), file.firstCluster, grown);
      VisitLength(disk, layout, file.firstCluster, grown);
      ghost var bytes := ChainBytes(disk, layout, grown);
      got := FatRead(file, copy, size, grown);
      ghost var n := Min(size, old(Room(chain)));
      assert n < size ==> |bytes| == n;
      assert copy[..n] == bytes[..n];
    }
  }

  lemma UnlistedClusterSame(d: Disk, d': Disk, l: Layout, part: seq<nat>, c: nat)
    requires Fits(d, l) && SameElsewhere(d, d', l, part) && InRegion(l, part) && 2 <= c < l.limit && c !in part
    ensures ClusterBytes(d', l, c) == ClusterBytes(d, l, c)
  {
    hide DataSectors, ClusterToLBA;
    ClusterOnDisk(d, l, c);
    forall i | 0 <= i < |part|
      ensures ClusterToLBA(l, c) + l.sectorsPerCluster <= ClusterToLBA(l, part[i])
           || ClusterToLBA(l, part[i]) + l.sectorsPerCluster <= ClusterToLBA(l, c)
    {
      ClustersApart(l, c, part[i]);
    }
    SectorsSame(d, d', ClusterToLBA(l, c), l.sectorsPerCluster);
  }

  /** A file on a chain disjoint from the written one keeps its chain and its contents. */
  lemma OtherFileUntouched(d: Disk, d': Disk, l: Layout, chain: seq<nat>, extra: nat, used: nat, first: nat,
                           other: seq<nat>)
    requires Fits(d, l) && Fits(d', l)
    requires var s := File(Table(d, l), chain); var r := Extend(s, extra);
      && Table(d', l) == r.fat && Grown(s, r, extra)
      && used <= |r.chain| && InRegion(l, r.chain) && SameElsewhere(d, d', l, r.chain[..used])
    requires IsLive(Table(d, l), first, other) && Disjoint(other, chain)
    ensures IsLive(Table(d', l), first, other) && ChainBytes(d', l, other) == ChainBytes(d, l, other)
  {
    hide DataSectors, ClusterToLBA, Table, Entry, Extend, Grown;
    var s := File(Table(d, l), chain);
    var r := Extend(s, extra);
    OtherChainSurvives(s, r, extra, first, other);
    forall i | 0 <= i < |other|
      ensures ClusterBytes(d', l, other[i]) == ClusterBytes(d, l, other[i])
    {
      assert InTable(s.fat, other[i]);
      assert other[i] in other;
      UnlistedClusterSame(d, d', l, r.chain[..used], other[i]);
    }
    ChainSame(d, d', l, other);
  }
}
