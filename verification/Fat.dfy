/** FAT volumes: the allocation table in memory and on disk, cluster numbers, and reading a file along its chain.
    `src/drivers/fs/fat.rs`. */
module Fat {
  import opened Arithmetic
  import opened Outcomes
  import opened BitStreams

  const SECTOR := 512
  const WORD := 0x1_0000_0000_0000_0000

  datatype FatType = Fat12 | Fat16 | Fat32

  /** A partition: its first sector on the device and its bytes. */
  datatype Partition = Partition(start: nat, data: seq<Byte>)

  datatype Volume = Volume(partition: Partition, fatType: FatType, sectorsPerFat: nat, sectorsPerCluster: nat,
                           reservedSectors: nat, fatCount: nat, rootDirectoryCount: nat, bytesPerSector: nat)

  /** Field widths of the parameter block, and what the volume's constructor divides by. */
  predicate VolumeOk(v: Volume) {
    && 1 <= v.sectorsPerCluster < 0x100 && v.fatCount < 0x100 && v.sectorsPerFat < 0x1_0000_0000
    && v.reservedSectors < 0x1_0000 && v.rootDirectoryCount < 0x1_0000 && v.bytesPerSector < 0x1_0000
  }

  function EntryBytes(t: FatType): (n: nat)
    ensures n == 2 || n == 4
  {
    if t == Fat32 then 4 else 2
  }

  function EndOfChain(t: FatType): nat {
    match t
    case Fat12 => 0x0FF8
    case Fat16 => 0xFFF8
    case Fat32 => 0x0FFF_FFF8
  }

  function Masked(t: FatType, entry: nat): nat {
    match t
    case Fat12 => entry % 0x1000
    case Fat16 => entry % 0x1_0000
    case Fat32 => entry % 0x1000_0000
  }

  function LittleEndian(b: seq<Byte>): (n: nat)
    decreases |b|
  {
    if b == [] then 0 else b[0] + 256 * LittleEndian(b[1..])
  }

  predicate InPartition(p: Partition, end: nat) {
    SECTOR * end <= |p.data| && p.start + end < WORD
  }

  /** A read of whole sectors: past the end it is refused, and the device address is computed with overflow checks. */
  function ReadSectors(p: Partition, sector: nat, count: nat): (r: Outcome<seq<Byte>>)
    ensures r.Done? ==> |r.value| == SECTOR * count
  {
    if p.start + sector + count >= WORD then Panicked
    else if SECTOR * (sector + count) > |p.data| then Rejected
    else Done(p.data[SECTOR * sector..SECTOR * (sector + count)])
  }

  // ---------- the allocation table ----------

  function FatStart(v: Volume): nat {
    v.reservedSectors
  }

  function EntryCount(v: Volume): nat {
    v.sectorsPerFat * (SECTOR / EntryBytes(v.fatType))
  }

  /** The whole table lies in the partition. */
  predicate FatInside(v: Volume) {
    v.sectorsPerFat > 0 ==> InPartition(v.partition, FatStart(v) + v.sectorsPerFat)
  }

  /** Entry `c` as it is stored. */
  function RawEntry(v: Volume, c: nat): nat
    requires SECTOR * FatStart(v) + c * EntryBytes(v.fatType) + EntryBytes(v.fatType) <= |v.partition.data|
  {
    var n := EntryBytes(v.fatType);
    var at := SECTOR * FatStart(v) + c * n;
    LittleEndian(v.partition.data[at..at + n])
  }

  lemma TwoBytes(b: seq<Byte>)
    requires |b| == 2
    ensures LittleEndian(b) < 0x1_0000
  {
    assert LittleEndian(b) == b[0] + 256 * LittleEndian(b[1..]);
    assert LittleEndian(b[1..]) == b[1] + 256 * LittleEndian(b[1..][1..]);
  }

  /** Entry `c` lies `c` entries behind the reserved sectors, two bytes each for FAT12 and FAT16 and four for FAT32, the
      low byte first. */
  lemma EntryBytesAt(v: Volume, c: nat)
    requires SECTOR * FatStart(v) + c * EntryBytes(v.fatType) + EntryBytes(v.fatType) <= |v.partition.data|
    ensures var n := if v.fatType == Fat32 then 4 else 2;
      var at := 512 * v.reservedSectors + c * n;
      && 0 <= at && at + n <= |v.partition.data|
      && var b: seq<nat> := v.partition.data[at..at + n];
        RawEntry(v, c) == b[0] + 0x100 * b[1] + if n == 4 then 0x1_0000 * b[2] + 0x100_0000 * b[3] else 0
  {
    var n := EntryBytes(v.fatType);
    var at := SECTOR * FatStart(v) + c * n;
    var b := v.partition.data[at..at + n];
    assert LittleEndian(b) == b[0] + 256 * LittleEndian(b[1..]);
    assert LittleEndian(b[1..]) == b[1] + 256 * LittleEndian(b[1..][1..]);
    assert b[1..][1..] == b[2..];
    if n == 4 {
      assert LittleEndian(b[2..]) == b[2] + 256 * LittleEndian(b[2..][1..]);
      assert LittleEndian(b[2..][1..]) == b[3] + 256 * LittleEndian(b[2..][1..][1..]);
    }
  }

  /** The stored values that end a chain: from 0xFF8 in 12 bits, 0xFFF8 in 16, and 0xFFFFFF8 in 28 on. */
  lemma EndsChain(t: FatType, entry: nat)
    ensures Masked(t, entry) >= EndOfChain(t) <==>
            match t
            case Fat12 => entry % 0x1000 >= 0xFF8
            case Fat16 => entry % 0x1_0000 >= 0xFFF8
            case Fat32 => entry % 0x1000_0000 >= 0xFFF_FFF8
    ensures Masked(t, entry) ==
            entry % match t case Fat12 => 0x1000 case Fat16 => 0x1_0000 case Fat32 => 0x1000_0000
  {
  }

  /** The lookup that reads two sectors of the table from the disk. */
  function NextOnDisk(v: Volume, cluster: nat): Outcome<nat> {
    var at := cluster * EntryBytes(v.fatType);
    match ReadSectors(v.partition, FatStart(v) + at / SECTOR, 2)
    case Done(data) =>
      var entry := LittleEndian(data[at % SECTOR..at % SECTOR + EntryBytes(v.fatType)]);
      Done(if v.fatType == Fat16 then entry else Masked(v.fatType, entry))
    case _ => Panicked
  }

  /** The lookup in the table that `mount` has read into memory. */
  function NextInMemory(t: FatType, fat: seq<nat>, cluster: nat): Outcome<nat> {
    if cluster < |fat| then Done(Masked(t, fat[cluster])) else Panicked
  }

  ghost predicate IsTableOf(v: Volume, fat: seq<nat>) {
    FatInside(v) && |fat| == EntryCount(v) && forall c :: 0 <= c < |fat| ==> fat[c] == RawEntry(v, c)
  }

  /** Entry `c`, which lies inside with the rest of the table. */
  function StoredEntry(v: Volume, c: nat): nat
    requires FatInside(v) && c < EntryCount(v)
  {
    EntrySlice(v, c);
    RawEntry(v, c)
  }

  lemma EntrySlice(v: Volume, c: nat)
    requires FatInside(v) && c < EntryCount(v)
    ensures var n := EntryBytes(v.fatType);
      var sector, at := FatStart(v) + c * n / SECTOR, c * n % SECTOR;
      && sector < FatStart(v) + v.sectorsPerFat && at + n <= SECTOR
      && SECTOR * FatStart(v) + c * n == SECTOR * sector + at
  {
  }

  /** Inside the table both lookups agree, except that the lookup on disk fails where its second sector would lie
      outside the partition, although no entry ever reaches into it. */
  lemma CacheAgreesWithDisk(v: Volume, fat: seq<nat>, c: nat)
    requires IsTableOf(v, fat) && c < |fat|
    ensures NextInMemory(v.fatType, fat, c) == Done(Masked(v.fatType, RawEntry(v, c)))
    ensures var last := FatStart(v) + c * EntryBytes(v.fatType) / SECTOR + 2;
      NextOnDisk(v, c) == NextInMemory(v.fatType, fat, c) <==>
      InPartition(v.partition, last)
  {
    EntrySlice(v, c);
    var n := EntryBytes(v.fatType);
    var sector, at := FatStart(v) + c * n / SECTOR, c * n % SECTOR;
    var r := ReadSectors(v.partition, sector, 2);
    if r.Done? {
      assert r.value[at..at + n] == v.partition.data[SECTOR * sector + at..SECTOR * sector + at + n];
      if n == 2 {
        TwoBytes(r.value[at..at + n]);
      }
    }
  }

  // ---------- cluster numbers ----------

  /** Sectors of the root directory, in checked 16-bit arithmetic. */
  function RootDirectorySectors(v: Volume): Outcome<nat> {
    if v.rootDirectoryCount * 32 >= 0x1_0000 || v.bytesPerSector == 0
       || v.rootDirectoryCount * 32 + (v.bytesPerSector - 1) >= 0x1_0000 then Panicked
    else Done((v.rootDirectoryCount * 32 + (v.bytesPerSector - 1)) / v.bytesPerSector)
  }

  function RootDirectoryStart(v: Volume): nat {
    v.reservedSectors + v.fatCount * v.sectorsPerFat
  }

  /** In 64-bit wrapping arithmetic. */
  function ClusterToSector(v: Volume, cluster: nat): Outcome<nat> {
    match RootDirectorySectors(v)
    case Done(root) =>
      var first: nat := RootDirectoryStart(v) + root;
      Done((((cluster - 2) % WORD) * v.sectorsPerCluster % WORD + first) % WORD)
    case _ => Panicked
  }

  function SectorToCluster(v: Volume, sector: nat): Outcome<nat>
    requires v.sectorsPerCluster > 0
  {
    match RootDirectorySectors(v)
    case Done(root) =>
      var first: nat := RootDirectoryStart(v) + root;
      Done(((sector - first) % WORD / v.sectorsPerCluster + 2) % WORD)
    case _ => Panicked
  }

  lemma StartBound(v: Volume)
    requires VolumeOk(v)
    ensures RootDirectoryStart(v) < 0x8000_0000_0000
  {
    ProductBelow(v.fatCount, v.sectorsPerFat, 0xFF, 0xFFFF_FFFF);
  }

  lemma NoWrap(c: nat, s: nat, first: nat)
    requires c < 0x1_0000_0000 && s < 0x100 && first < 0x1_0000_0000_0000
    ensures 0 <= c * s < 0x100_0000_0000 && (c % WORD * s % WORD + first) % WORD == c * s + first
  {
    ProductBelow(c, s, 0xFFFF_FFFF, 0xFF);
    assert c % WORD == c;
  }

  lemma DataSectors(v: Volume, cluster: nat)
    requires VolumeOk(v) && 2 <= cluster < 0x1_0000_0000 && RootDirectorySectors(v).Done?
    ensures var first := RootDirectoryStart(v) + RootDirectorySectors(v).value;
      && 0 <= (cluster - 2) * v.sectorsPerCluster < 0x100_0000_0000 && first < 0x1_0000_0000_0000
      && ClusterToSector(v, cluster) == Done((cluster - 2) * v.sectorsPerCluster + first)
  {
    StartBound(v);
    RootBound(v);
    NoWrap(cluster - 2, v.sectorsPerCluster, RootDirectoryStart(v) + RootDirectorySectors(v).value);
  }

  lemma RootBound(v: Volume)
    requires RootDirectorySectors(v).Done?
    ensures RootDirectorySectors(v).value < 0x1_0000
  {
  }

  // ---------- where things lie on the volume ----------

  /** The sectors of the root directory, 32 bytes for each entry, are the fewest that hold it. The 16-bit sum panics
      when it does not fit. */
  lemma RootDirectoryHolds(v: Volume)
    ensures RootDirectorySectors(v).Done? <==>
            v.bytesPerSector > 0 && 32 * v.rootDirectoryCount + v.bytesPerSector <= 0x1_0000
            && 32 * v.rootDirectoryCount < 0x1_0000
    ensures RootDirectorySectors(v).Done? ==>
            var n := RootDirectorySectors(v).value;
            && 32 * v.rootDirectoryCount <= n * v.bytesPerSector
            && (n > 0 ==> (n - 1) * v.bytesPerSector < 32 * v.rootDirectoryCount)
  {
    if RootDirectorySectors(v).Done? {
      var x := v.rootDirectoryCount * 32 + (v.bytesPerSector - 1);
      Divided(x, v.bytesPerSector);
      var n := x / v.bytesPerSector;
      if n > 0 {
        Distribute(1, n, v.bytesPerSector);
      }
    }
  }

  /** The areas of a volume follow each other without a gap: reserved sectors, all the tables, the root directory, and
      then cluster 2; every cluster starts where the one before it ends. */
  lemma VolumeLayout(v: Volume, cluster: nat)
    requires VolumeOk(v) && RootDirectorySectors(v).Done? && 2 <= cluster < 0xFFFF_FFFF
    ensures FatStart(v) == v.reservedSectors
    ensures RootDirectoryStart(v) == v.reservedSectors + v.fatCount * v.sectorsPerFat
    ensures ClusterToSector(v, 2) == Done(RootDirectoryStart(v) + RootDirectorySectors(v).value)
    ensures ClusterToSector(v, cluster).Done?
    ensures ClusterToSector(v, cluster + 1) == Done(ClusterToSector(v, cluster).value + v.sectorsPerCluster)
  {
    hide ClusterToSector, VolumeOk, RootDirectorySectors;
    DataSectors(v, 2);
    DataSectors(v, cluster);
    DataSectors(v, cluster + 1);
    Distribute(cluster - 2, cluster - 1, v.sectorsPerCluster);
  }

  /** The first byte of a cluster in the partition. */
  function ClusterStart(v: Volume, cluster: nat): nat
    requires RootDirectorySectors(v).Done? && cluster >= 2
  {
    512 * (v.reservedSectors + v.fatCount * v.sectorsPerFat + RootDirectorySectors(v).value
           + (cluster - 2) * v.sectorsPerCluster)
  }

  /** A cluster that can be read: it lies in the data area and in the partition, and its sectors have numbers. */
  predicate DataCluster(v: Volume, cluster: nat) {
    && RootDirectorySectors(v).Done? && 2 <= cluster < 0x1_0000_0000
    && ClusterStart(v, cluster) + 512 * v.sectorsPerCluster <= |v.partition.data|
    && v.partition.start + ClusterStart(v, cluster) / 512 + v.sectorsPerCluster < 0x1_0000_0000_0000_0000
  }

  function ClusterBytes(v: Volume, cluster: nat): seq<Byte>
    requires DataCluster(v, cluster)
  {
    v.partition.data[ClusterStart(v, cluster)..ClusterStart(v, cluster) + 512 * v.sectorsPerCluster]
  }

  lemma WrappedQuotient(k: nat, s: nat, first: nat, x: nat)
    requires 0 < s < 0x100 && k < 0xFFFF_FFFF && x == k * s < 0x100_0000_0000
    ensures ((x + first - first) % WORD / s + 2) % WORD == k + 2
  {
    DivideSum(k, s, 0, x);
  }

  /** Every data cluster's number comes back from its first sector. */
  lemma ClusterRoundTrip(v: Volume, cluster: nat)
    requires VolumeOk(v) && 2 <= cluster < 0x1_0000_0000 && RootDirectorySectors(v).Done?
    ensures SectorToCluster(v, ClusterToSector(v, cluster).value) == Done(cluster)
  {
    DataSectors(v, cluster);
    hide VolumeOk, RootDirectorySectors, RootDirectoryStart, ClusterToSector;
    WrappedQuotient(cluster - 2, v.sectorsPerCluster, RootDirectoryStart(v) + RootDirectorySectors(v).value,
      (cluster - 2) * v.sectorsPerCluster);
  }

  /** The wrapped quotient times the divisor misses the wrapped difference by the remainder. */
  lemma WrapDivide(d: nat, s: nat)
    requires 0 < s && d < WORD
    ensures ((d / s + 2) % WORD - 2) % WORD * s % WORD == d - d % s
  {
    var q := d / s;
    Divided(d, s);
    QuotientBelow(d, s);
    WrapBack(q);
  }

  lemma QuotientBelow(d: nat, s: nat)
    requires s > 0
    ensures d / s <= d && 0 <= d / s * s <= d
  {
    Divided(d, s);
    ProductBelow(d / s, 1, d / s, s);
  }

  lemma WrapBack(q: nat)
    requires q < WORD
    ensures ((q + 2) % WORD - 2) % WORD == q
  {
  }

  /** The number that the root directory of a FAT12 or FAT16 volume gets leads back to its first sector exactly when
      the sectors per cluster divide the wrapped distance. */
  lemma RootRoundTrip(v: Volume)
    requires VolumeOk(v) && RootDirectorySectors(v).Done?
    ensures var root := RootDirectorySectors(v).value;
      SectorToCluster(v, RootDirectoryStart(v)).Done?
      && (ClusterToSector(v, SectorToCluster(v, RootDirectoryStart(v)).value) == Done(RootDirectoryStart(v)) <==>
          (WORD - root) % WORD % v.sectorsPerCluster == 0)
  {
    RootBound(v);
    StartBound(v);
    RootArithmetic(RootDirectoryStart(v), RootDirectorySectors(v).value, v.sectorsPerCluster);
  }

  lemma WrapDistance(s: nat, root: nat)
    requires root < 0x1_0000
    ensures (s - (s + root)) % WORD == (WORD - root) % WORD
  {
  }

  lemma RootArithmetic(s: nat, root: nat, spc: nat)
    requires root < 0x1_0000 && s < 0x8000_0000_0000 && 0 < spc < 0x100
    ensures var first := s + root;
      var cluster := ((s - first) % WORD / spc + 2) % WORD;
      ((cluster - 2) % WORD * spc % WORD + first) % WORD == s <==> (WORD - root) % WORD % spc == 0
  {
    var d: nat := (WORD - root) % WORD;
    var r: nat := d % spc;
    WrapDistance(s, root);
    WrapDivide(d, spc);
    RemainderAtMost(d, spc);
    WrapSum(d, r, s, root);
  }

  lemma WrapSum(d: nat, r: nat, s: nat, root: nat)
    requires root < 0x1_0000 && s < 0x1_0000_0000_0000 && d == (WORD - root) % WORD && r <= d && r < 0x100
    ensures (d - r + (s + root)) % WORD == s <==> r == 0
  {
  }

  /** For the sector counts that the format allows, which divide 2^64: when they divide the directory's sectors. */
  lemma RootOnClusterBoundary(root: nat, s: nat, k: nat)
    requires s * k == WORD && s < 0x100 && root < 0x1_0000
    ensures (WORD - root) % WORD % s == 0 <==> root % s == 0
  {
    Divided(root, s);
    var q, r := root / s, root % s;
    assert s * k == k * s;
    FewerTimes(q, k, s, root);
    if root > 0 {
      if r == 0 {
        Distribute(q, k, s);
        DivideSum(k - q, s, 0, WORD - root);
      } else {
        Distribute(q + 1, k, s);
        assert (q + 1) * s == q * s + s;
        DivideSum(k - q - 1, s, s - r, WORD - root);
      }
    }
  }

  lemma FewerTimes(q: nat, k: nat, s: nat, root: nat)
    requires s > 0 && q * s <= root < 0x1_0000 && k * s == WORD && s < 0x100
    ensures q + 1 <= k
  {
    if k < q + 1 {
      ProductBelow(k, s, q, s);
    }
  }

  // ---------- reading a file ----------

  function ClusterSize(v: Volume): nat {
    v.sectorsPerCluster * SECTOR
  }

  function ReadCluster(v: Volume, cluster: nat): (r: Outcome<seq<Byte>>)
    ensures r.Done? ==> |r.value| == ClusterSize(v)
  {
    match ClusterToSector(v, cluster)
    case Done(sector) => ReadSectors(v.partition, sector, v.sectorsPerCluster)
    case _ => Panicked
  }

  /** What reading each cluster of a chain gives. */
  function Parts(v: Volume, chain: seq<nat>): (parts: seq<Outcome<seq<Byte>>>)
    ensures |parts| == |chain| && Whole(parts, ClusterSize(v))
    decreases |chain|
  {
    if chain == [] then [] else [ReadCluster(v, chain[0])] + Parts(v, chain[1..])
  }

  /** A cluster that can be read is read whole. */
  ghost predicate Whole(parts: seq<Outcome<seq<Byte>>>, size: nat) {
    forall i :: 0 <= i < |parts| && parts[i].Done? ==> |parts[i].value| == size
  }

  /** Reading a data cluster gives its bytes; one that reaches beyond the partition is refused, and one whose sectors
      have no numbers panics. */
  lemma ReadsItsBytes(v: Volume, cluster: nat)
    requires VolumeOk(v) && RootDirectorySectors(v).Done? && 2 <= cluster < 0x1_0000_0000
    ensures var at, size := ClusterStart(v, cluster), 512 * v.sectorsPerCluster;
      if v.partition.start + at / 512 + v.sectorsPerCluster >= 0x1_0000_0000_0000_0000 then
        ReadCluster(v, cluster) == Panicked
      else if at + size > |v.partition.data| then ReadCluster(v, cluster) == Rejected
      else DataCluster(v, cluster) && ReadCluster(v, cluster) == Done(ClusterBytes(v, cluster))
  {
    DataSectors(v, cluster);
    var sector := (cluster - 2) * v.sectorsPerCluster + (RootDirectoryStart(v) + RootDirectorySectors(v).value);
    StartInBytes(v, cluster, sector);
    hide ClusterToSector, ClusterStart;
    assert ClusterStart(v, cluster) / 512 == sector;
  }

  lemma StartInBytes(v: Volume, cluster: nat, sector: nat)
    requires VolumeOk(v) && RootDirectorySectors(v).Done? && cluster >= 2
    requires sector == (cluster - 2) * v.sectorsPerCluster + (RootDirectoryStart(v) + RootDirectorySectors(v).value)
    ensures ClusterStart(v, cluster) == 512 * sector
  {
  }

  /** The bytes of the clusters of a chain, one after another. */
  function FileBytes(v: Volume, chain: seq<nat>): seq<Byte>
    requires forall c :: c in chain ==> DataCluster(v, c)
    decreases |chain|
  {
    if chain == [] then [] else ClusterBytes(v, chain[0]) + FileBytes(v, chain[1..])
  }

  lemma {:induction false} ContentIsFileBytes(v: Volume, chain: seq<nat>)
    requires VolumeOk(v) && forall c :: c in chain ==> DataCluster(v, c)
    ensures Content(Parts(v, chain)) == Done(FileBytes(v, chain))
    decreases |chain|
  {
    if chain != [] {
      assert DataCluster(v, chain[0]);
      ReadsItsBytes(v, chain[0]);
      ContentIsFileBytes(v, chain[1..]);
    }
  }

  /** The bytes of all clusters, when all of them can be read; otherwise the first failure. */
  function Content(parts: seq<Outcome<seq<Byte>>>): Outcome<seq<Byte>>
    decreases |parts|
  {
    if parts == [] then Done([])
    else match parts[0]
      case Done(data) => (match Content(parts[1..])
        case Done(rest) => Done(data + rest)
        case Rejected => Rejected
        case Panicked => Panicked)
      case Rejected => Rejected
      case Panicked => Panicked
  }

  /** The loop of `read` over the clusters that are left, `file` being what it has copied so far. */
  function ReadOut(size: nat, parts: seq<Outcome<seq<Byte>>>, count: nat, offset: nat,
                   file: seq<Byte>): Outcome<seq<Byte>>
    requires |file| <= count
    decreases |parts|
  {
    if parts == [] then Done(file)
    else match parts[0]
      case Done(data) =>
        var remaining := count - |file|;
        if remaining > size && offset > size then Panicked
        else
          var copy := if remaining > size then size - offset else remaining;
          if offset + copy > |data| then Panicked
          else ReadOut(size, parts[1..], count, 0, file + data[offset..offset + copy])
      case Rejected => Rejected
      case Panicked => Panicked
  }

  function Min(a: nat, b: nat): nat {
    if a < b then a else b
  }

  /** What `read` should return. */
  function Slice(content: seq<Byte>, offset: nat, count: nat): seq<Byte> {
    content[Min(offset, |content|)..Min(offset + count, |content|)]
  }

  /** At most `count` bytes, those at `offset` and behind as far as there are any. */
  lemma SliceIs(content: seq<Byte>, offset: nat, count: nat)
    ensures var r := Slice(content, offset, count);
      && |r| == (if offset >= |content| then 0 else if offset + count <= |content| then count else |content| - offset)
      && forall i :: 0 <= i < |r| ==> r[i] == content[offset + i]
  {
  }

  /** From offset 0 the loop copies on to the end of the chain or of the count, whichever comes first, and it fails
      when any cluster of the chain cannot be read, also one past the count. */
  lemma {:induction false} ReadFromStart(size: nat, parts: seq<Outcome<seq<Byte>>>, count: nat, file: seq<Byte>)
    requires |file| <= count && Whole(parts, size)
    ensures ReadOut(size, parts, count, 0, file) ==
            match Content(parts)
            case Done(content) => Done(file + Slice(content, 0, count - |file|))
            case Rejected => Rejected
            case Panicked => Panicked
    decreases |parts|
  {
    if parts == [] {
      assert file + [] == file;
    } else if parts[0].Done? {
      var data := parts[0].value;
      var copy := Min(count - |file|, size);
      ReadFromStart(size, parts[1..], count, file + data[..copy]);
      var rest := Content(parts[1..]);
      if rest.Done? {
        SliceSplit(file, data, rest.value, count);
      }
    }
  }

  lemma SliceSplit(file: seq<Byte>, data: seq<Byte>, rest: seq<Byte>, count: nat)
    requires |file| <= count
    ensures var copy := Min(count - |file|, |data|);
      file + data[..copy] + Slice(rest, 0, count - |file| - copy) == file + Slice(data + rest, 0, count - |file|)
  {
  }

  /** What `read` returns, for every count and offset, `parts` being the clusters from the one on that holds the
      offset: the offset is used in the first of them as it is, also when it lies beyond that cluster. */
  function ReadResult(size: nat, parts: seq<Outcome<seq<Byte>>>, count: nat, offset: nat): Outcome<seq<Byte>>
    requires parts != []
  {
    if !parts[0].Done? then parts[0]
    else if offset > size || (count <= size && offset + count > size) then Panicked
    else match Content(parts)
      case Done(content) => Done(Slice(content, offset, count))
      case Rejected => Rejected
      case Panicked => Panicked
  }

  /** The loop copies one slice of what the clusters hold, or fails. */
  lemma ReadCharacterised(size: nat, parts: seq<Outcome<seq<Byte>>>, count: nat, offset: nat)
    requires parts != [] && Whole(parts, size)
    ensures ReadOut(size, parts, count, offset, []) == ReadResult(size, parts, count, offset)
  {
    if parts[0].Done? && offset <= size && (count > size || offset + count <= size) {
      var data := parts[0].value;
      var copy := if count > size then size - offset else count;
      var file := [] + data[offset..offset + copy];
      assert file == data[offset..offset + copy];
      ReadFromStart(size, parts[1..], count, file);
      if Content(parts[1..]).Done? {
        SliceFrom(data, Content(parts[1..]).value, offset, copy, count);
      }
    }
  }

  /** The bytes asked for: those at `offset`, counted from the start of the file, whose first `offset / size`
      clusters lie in front of `parts`. */
  ghost predicate ReadRight(size: nat, parts: seq<Outcome<seq<Byte>>>, count: nat, offset: nat)
    requires size > 0 && parts != [] && Content(parts).Done?
  {
    ReadResult(size, parts, count, offset) == Done(Slice(Content(parts).value, offset % size, count))
  }

  ghost predicate AlwaysRight(size: nat, count: nat, offset: nat)
    requires size > 0
  {
    forall parts | parts != [] && Whole(parts, size) && Content(parts).Done? :: ReadRight(size, parts, count, offset)
  }

  /** Requests inside the first cluster, or from there over more than a cluster. */
  predicate GoodRequest(size: nat, count: nat, offset: nat) {
    (offset < size && (count > size || offset + count <= size)) || (offset == size && count == 0)
  }

  /** `read` returns the bytes it was asked for exactly on the good requests. Only at offset `size` the bytes count:
      there a long read is right when what it returns happens to recur a cluster later. */
  lemma ReadRightIff(size: nat, parts: seq<Outcome<seq<Byte>>>, count: nat, offset: nat)
    requires size > 0 && parts != [] && Whole(parts, size) && Content(parts).Done?
    ensures offset != size || count <= size ==>
      (ReadRight(size, parts, count, offset) <==> GoodRequest(size, count, offset))
    ensures offset == size && count > size ==>
      (ReadRight(size, parts, count, offset) <==>
       Slice(Content(parts).value, size, count) == Slice(Content(parts).value, 0, count))
  {
    if offset < size {
      DivideSum(0, size, offset, offset);
    } else if offset == size {
      DivideSum(1, size, 0, offset);
      assert Slice(Content(parts).value, offset, 0) == [] == Slice(Content(parts).value, 0, 0);
    }
  }

  /** Two clusters that differ in every byte. */
  function TwoClusters(size: nat): (parts: seq<Outcome<seq<Byte>>>)
    requires size > 0
    ensures Whole(parts, size)
    ensures Content(parts) == Done(seq(size, i => 0) + seq(size, i => 1))
  {
    var zeros: seq<Byte> := seq(size, i => 0);
    var ones: seq<Byte> := seq(size, i => 1);
    assert Content([Done(ones)]) == Done(ones + []);
    assert [Done(zeros), Done(ones)][1..] == [Done(ones)] && ones + [] == ones;
    [Done(zeros), Done(ones)]
  }

  /** Whatever the file holds, the result is right exactly for the good requests. */
  lemma AlwaysRightIff(size: nat, count: nat, offset: nat)
    requires size > 0
    ensures AlwaysRight(size, count, offset) <==> GoodRequest(size, count, offset)
  {
    forall parts | parts != [] && Whole(parts, size) && Content(parts).Done?
      ensures GoodRequest(size, count, offset) ==> ReadRight(size, parts, count, offset)
    {
      ReadRightIff(size, parts, count, offset);
    }
    var parts := TwoClusters(size);
    var content := Content(parts).value;
    ReadRightIff(size, parts, count, offset);
    if offset == size && count > size {
      assert Slice(content, size, count)[0] == 1 && Slice(content, 0, count)[0] == 0;
      assert !ReadRight(size, parts, count, offset);
    }
  }

  /** In a file that can be read whole, these are the bytes at `offset`. */
  lemma {:induction false} SliceOfTail(size: nat, parts: seq<Outcome<seq<Byte>>>, count: nat, offset: nat, k: nat,
                                       r: nat)
    requires Whole(parts, size) && Content(parts).Done? && k <= |parts| && offset == k * size + r
    ensures Content(parts[k..]).Done?
    ensures Slice(Content(parts[k..]).value, r, count) == Slice(Content(parts).value, offset, count)
    decreases k
  {
    if k == 0 {
      assert parts[0..] == parts;
    } else {
      Distribute(1, k, size);
      SliceOfTail(size, parts[1..], count, (k - 1) * size + r, k - 1, r);
      assert parts[1..][k - 1..] == parts[k..];
      SliceBehind(parts[0].value, Content(parts[1..]).value, offset, count);
    }
  }

  lemma SliceBehind(data: seq<Byte>, rest: seq<Byte>, offset: nat, count: nat)
    requires |data| <= offset
    ensures Slice(rest, offset - |data|, count) == Slice(data + rest, offset, count)
  {
  }

  lemma SliceFrom(data: seq<Byte>, rest: seq<Byte>, offset: nat, copy: nat, count: nat)
    requires offset <= |data| && copy <= count
    requires if count > |data| then copy == |data| - offset else copy == count && offset + count <= |data|
    ensures data[offset..offset + copy] + Slice(rest, 0, count - copy) == Slice(data + rest, offset, count)
  {
  }

  function ClusterOf(v: Volume, offset: nat): nat
    requires VolumeOk(v)
  {
    QuotientNonnegative(offset, ClusterSize(v));
    offset / ClusterSize(v)
  }

  lemma QuotientNonnegative(d: nat, s: nat)
    requires s > 0
    ensures d / s >= 0
  {
    Divided(d, s);
  }

  /** The cluster that holds the byte at an offset: so many whole clusters lie in front of it. */
  lemma ClusterHolds(v: Volume, offset: nat)
    requires VolumeOk(v)
    ensures var size, k := 512 * v.sectorsPerCluster, ClusterOf(v, offset);
      k * size <= offset < (k + 1) * size
  {
    var size := 512 * v.sectorsPerCluster;
    assert ClusterSize(v) == size;
    Divided(offset, size);
    Distribute(offset / size, offset / size + 1, size);
  }

  // ---------- the mounted volume ----------

  lemma EntryInSector(v: Volume, i: nat, j: nat)
    requires InPartition(v.partition, FatStart(v) + i + 1) && j < SECTOR / EntryBytes(v.fatType)
    ensures var n := EntryBytes(v.fatType);
      var c := i * (SECTOR / n) + j;
      && j * n + n <= SECTOR && SECTOR * FatStart(v) + c * n == SECTOR * (FatStart(v) + i) + j * n
      && SECTOR * FatStart(v) + c * n + n <= |v.partition.data|
  {
  }

  /** The entries from `0` on that have been copied are the stored ones. */
  ghost predicate Copied(v: Volume, table: seq<nat>) {
    forall c :: 0 <= c < |table| ==>
      && SECTOR * FatStart(v) + c * EntryBytes(v.fatType) + EntryBytes(v.fatType) <= |v.partition.data|
      && table[c] == RawEntry(v, c)
  }

  lemma SliceOfSlice(data: seq<Byte>, base: nat, size: nat, at: nat, n: nat)
    requires base + size <= |data| && at + n <= size
    ensures data[base..base + size][at..at + n] == data[base + at..base + at + n]
  {
    var inner, outer := data[base..base + size][at..at + n], data[base + at..base + at + n];
    forall k | 0 <= k < n ensures inner[k] == outer[k] {
      assert inner[k] == data[base..base + size][at + k];
    }
    assert inner == outer;
  }

  lemma CopiedEntry(v: Volume, table: seq<nat>, i: nat, j: nat, sector: seq<Byte>)
    requires InPartition(v.partition, FatStart(v) + i + 1) && Copied(v, table)
    requires j < SECTOR / EntryBytes(v.fatType) && |table| == i * (SECTOR / EntryBytes(v.fatType)) + j
    requires sector == v.partition.data[SECTOR * (FatStart(v) + i)..SECTOR * (FatStart(v) + i + 1)]
    ensures var n := EntryBytes(v.fatType);
      && 0 <= j * n && j * n + n <= |sector| && Copied(v, table + [LittleEndian(sector[j * n..j * n + n])])
  {
    var n := EntryBytes(v.fatType);
    EntryInSector(v, i, j);
    SliceOfSlice(v.partition.data, SECTOR * (FatStart(v) + i), SECTOR, j * n, n);
    assert LittleEndian(sector[j * n..j * n + n]) == RawEntry(v, |table|);
  }

  class FatFs {
    const vol: Volume
    /** The feature switch `fat_in_mem`. */
    const inMemory: bool
    var fat: Option<seq<nat>>

    constructor (vol: Volume, inMemory: bool)
      ensures this.vol == vol && this.inMemory == inMemory && fat == None
    {
      this.vol, this.inMemory, fat := vol, inMemory, None;
    }

    /** Copies sector `i` of the table, entry by entry. */
    method CopySector(i: nat, table: seq<nat>, sector: seq<Byte>) returns (grown: seq<nat>)
      requires InPartition(vol.partition, FatStart(vol) + i + 1) && Copied(vol, table)
      requires |table| == i * (SECTOR / EntryBytes(vol.fatType))
      requires sector == vol.partition.data[SECTOR * (FatStart(vol) + i)..SECTOR * (FatStart(vol) + i + 1)]
      ensures |grown| == (i + 1) * (SECTOR / EntryBytes(vol.fatType)) && Copied(vol, grown)
    {
      grown := table;
      var n := EntryBytes(vol.fatType);
      var j := 0;
      while j < SECTOR / n
        invariant j <= SECTOR / n && |grown| == i * (SECTOR / n) + j && Copied(vol, grown)
      {
        CopiedEntry(vol, grown, i, j, sector);
        grown := grown + [LittleEndian(sector[j * n..j * n + n])];
        j := j + 1;
      }
    }

    /** With the switch on, reads the whole table into memory, and panics when it does not lie in the partition. */
    method Mount() returns (r: Outcome<()>)
      modifies this`fat
      ensures inMemory && FatInside(vol) ==> r == Done(()) && fat.Some? && IsTableOf(vol, fat.value)
      ensures inMemory && !FatInside(vol) ==> r == Panicked && fat == old(fat)
      ensures !inMemory ==> r == Done(()) && fat == None
    {
      if !inMemory {
        fat := None;
        return Done(());
      }
      var table: seq<nat> := [];
      var i := 0;
      while i < vol.sectorsPerFat
        invariant i <= vol.sectorsPerFat && |table| == i * (SECTOR / EntryBytes(vol.fatType)) && Copied(vol, table)
        invariant i > 0 ==> InPartition(vol.partition, FatStart(vol) + i)
        invariant fat == old(fat)
      {
        var sector := ReadSectors(vol.partition, FatStart(vol) + i, 1);
        if !sector.Done? {
          return Panicked;
        }
        table := CopySector(i, table, sector.value);
        i := i + 1;
      }
      fat := Some(table);
      return Done(());
    }

    method Unmount()
      modifies this`fat
      ensures fat == None
    {
      fat := None;
    }

    function GetNextCluster(cluster: nat): Outcome<nat>
      reads this
    {
      if !inMemory then NextOnDisk(vol, cluster)
      else match fat
        case Some(table) => NextInMemory(vol.fatType, table, cluster)
        case None => Panicked
    }

    /** With the table in memory, or on a disk whose partition reaches one sector beyond the one of the entry, the
        successor is the stored entry; with the switch on, an unmounted volume and a number behind the table panic. */
    lemma NextIsStored(cluster: nat)
      requires FatInside(vol) && (inMemory && fat.Some? ==> IsTableOf(vol, fat.value))
      ensures cluster < EntryCount(vol)
              && (if inMemory then fat.Some?
                  else InPartition(vol.partition, FatStart(vol) + cluster * EntryBytes(vol.fatType) / SECTOR + 2)) ==>
                SECTOR * FatStart(vol) + cluster * EntryBytes(vol.fatType) + EntryBytes(vol.fatType)
                  <= |vol.partition.data|
                && GetNextCluster(cluster) == Done(Masked(vol.fatType, RawEntry(vol, cluster)))
      ensures inMemory && (fat == None || cluster >= EntryCount(vol)) ==> GetNextCluster(cluster) == Panicked
      ensures !inMemory
              && !InPartition(vol.partition, FatStart(vol) + cluster * EntryBytes(vol.fatType) / SECTOR + 2) ==>
                GetNextCluster(cluster) == Panicked
    {
      if cluster < EntryCount(vol) {
        EntrySlice(vol, cluster);
        var table := seq(EntryCount(vol), c requires 0 <= c < EntryCount(vol) => StoredEntry(vol, c));
        assert IsTableOf(vol, table);
        CacheAgreesWithDisk(vol, table, cluster);
      }
    }

    /** The cluster `skip` links behind `cluster`; end marks are followed like any other number. */
    function Links(cluster: nat, skip: nat): Outcome<nat>
      reads this
      decreases skip
    {
      if skip == 0 then Done(cluster)
      else match GetNextCluster(cluster)
        case Done(next) => Links(next, skip - 1)
        case _ => Panicked
    }

    /** The clusters from `cluster` to the one whose successor marks the end of the chain or cannot be looked up. */
    ghost predicate IsChain(cluster: nat, chain: seq<nat>)
      reads this
      decreases |chain|
    {
      && chain != [] && chain[0] == cluster
      && match GetNextCluster(cluster)
         case Done(next) => if next >= EndOfChain(vol.fatType) then |chain| == 1 else IsChain(next, chain[1..])
         case _ => |chain| == 1
    }

    /** What the steps along a chain give: its clusters, and a failure behind them if the last link cannot be
        looked up. */
    ghost function Pieces(chain: seq<nat>): (parts: seq<Outcome<seq<Byte>>>)
      requires chain != []
      reads this
      ensures parts != [] && Whole(parts, ClusterSize(vol))
    {
      Parts(vol, chain) + if GetNextCluster(chain[|chain| - 1]).Done? then [] else [Panicked]
    }

    /** The chain comes to its end mark, and all its clusters can be read. */
    ghost predicate Readable(chain: seq<nat>)
      reads this
    {
      && chain != [] && GetNextCluster(chain[|chain| - 1]).Done?
      && forall c :: c in chain ==> DataCluster(vol, c)
    }

    /** Inside a chain the links lead along it. */
    lemma {:induction false} LinksInChain(first: nat, chain: seq<nat>, k: nat)
      requires IsChain(first, chain) && k < |chain|
      ensures Links(first, k) == Done(chain[k]) && IsChain(chain[k], chain[k..])
      decreases k
    {
      if k == 0 {
        assert chain[0..] == chain;
      } else {
        LinksInChain(chain[1], chain[1..], k - 1);
        assert chain[1..][k - 1..] == chain[k..];
      }
    }

    /** Follows `skip` links. */
    method Follow(first: nat, skip: nat) returns (r: Outcome<nat>)
      ensures r == Links(first, skip)
    {
      var cluster: nat := first;
      var clusterOffset: nat := skip;
      while clusterOffset > 0
        invariant Links(cluster, clusterOffset) == Links(first, skip)
      {
        var next := GetNextCluster(cluster);
        if !next.Done? {
          return Panicked;
        }
        cluster, clusterOffset := next.value, clusterOffset - 1;
      }
      return Done(cluster);
    }

    /** Reads a file that starts at cluster `first`; `chain` are the clusters from the one on that holds the offset. */
    method Read(first: nat, count: nat, offset: nat, ghost chain: seq<nat>) returns (r: Outcome<seq<Byte>>)
      requires VolumeOk(vol)
      requires var start := Links(first, ClusterOf(vol, offset));
        start.Done? ==> IsChain(start.value, chain)
      ensures match Links(first, ClusterOf(vol, offset))
              case Done(_) => chain != [] && r == ReadResult(ClusterSize(vol), Pieces(chain), count, offset)
              case _ => r == Panicked
      ensures var size := 512 * vol.sectorsPerCluster;
        Links(first, ClusterOf(vol, offset)).Done? && Readable(chain) && offset <= size
        && (count > size || offset + count <= size) ==>
          r == Done(Slice(FileBytes(vol, chain), offset, count))
    {
      var cluster := Follow(first, ClusterOf(vol, offset));
      if !cluster.Done? {
        return Panicked;
      }
      r := ReadFrom(cluster.value, count, offset, chain);
      ReadCharacterised(ClusterSize(vol), Pieces(chain), count, offset);
      if Readable(chain) {
        ContentIsFileBytes(vol, chain);
        assert Pieces(chain) == Parts(vol, chain);
        assert Content(Pieces(chain)).Done? && Pieces(chain)[0].Done?;
      }
    }

    /** One step along a chain. */
    lemma PiecesStep(cluster: nat, chain: seq<nat>)
      requires IsChain(cluster, chain)
      ensures chain != [] && Pieces(chain)[0] == ReadCluster(vol, cluster)
      ensures var next := GetNextCluster(cluster);
        if !next.Done? then Pieces(chain)[1..] == [Panicked]
        else if next.value >= EndOfChain(vol.fatType) then Pieces(chain)[1..] == []
        else chain[1..] != [] && IsChain(next.value, chain[1..]) && Pieces(chain)[1..] == Pieces(chain[1..])
    {
      var last := if GetNextCluster(chain[|chain| - 1]).Done? then [] else [Panicked];
      assert Parts(vol, chain) == [ReadCluster(vol, cluster)] + Parts(vol, chain[1..]);
      assert Pieces(chain)[1..] == Parts(vol, chain[1..]) + last;
    }

    method ReadFrom(start: nat, count: nat, from: nat, ghost chain: seq<nat>) returns (r: Outcome<seq<Byte>>)
      requires VolumeOk(vol) && IsChain(start, chain)
      ensures r == ReadOut(ClusterSize(vol), Pieces(chain), count, from, [])
    {
      hide IsChain, Pieces, ReadCluster;
      var size := ClusterSize(vol);
      var file: seq<Byte> := [];
      var cluster: nat, offset: nat := start, from;
      ghost var left := chain;
      PiecesStep(start, chain);
      while true
        invariant left != [] && IsChain(cluster, left) && |file| <= count
        invariant ReadOut(size, Pieces(chain), count, from, []) == ReadOut(size, Pieces(left), count, offset, file)
        decreases |left|
      {
        PiecesStep(cluster, left);
        var part := ReadCluster(vol, cluster);
        if !part.Done? {
          return part;
        }
        var remaining := count - |file|;
        if remaining > size && offset > size {
          return Panicked;
        }
        var copy := if remaining > size then size - offset else remaining;
        if offset + copy > |part.value| {
          return Panicked;
        }
        file := file + part.value[offset..offset + copy];
        offset := 0;
        var next := GetNextCluster(cluster);
        if !next.Done? {
          return Panicked;
        }
        cluster := next.value;
        if cluster >= EndOfChain(vol.fatType) {
          return Done(file);
        }
        left := left[1..];
      }
    }
  }
}
