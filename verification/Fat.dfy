/** Walking the cluster chain of a file through the file allocation table. */
module Fat {
  import opened Words

  const SECTOR: nat := 512

  type Sector = s: seq<uint8> | |s| == 512 witness seq(512, i => 0)

  /** What fat32_fat_entry_type makes of a table entry; the last one is a panic. */
  datatype EntryType = FreeCluster | ReservedCluster | BadCluster | UsedCluster | LastCluster | BadValue

  function TypeOf(x: uint32): EntryType {
    var v := x % 0x1000_0000;    // the upper four bits do not count
    if v == 0 then FreeCluster
    else if v == 1 then ReservedCluster
    else if v == 0xFFFFFF7 then BadCluster
    else if v <= 0xFFFFFEF then UsedCluster
    else if v <= 0xFFFFFF6 then BadValue
    else LastCluster
  }

  datatype FileSystem = FileSystem(clusterBegin: uint32, sectorsPerCluster: nat, fat: seq<uint32>, disk: seq<Sector>) {
    /** The boot sector check wants a power of two in one byte; zero passes it too, but no disk has it. */
    predicate Valid() {
      sectorsPerCluster in {1, 2, 4, 8, 16, 32, 64, 128} && |disk| <= TWO_32 && |fat| <= TWO_32
    }
  }

  /** cluster_to_lba, in 32 bits */
  function Lba(fs: FileSystem, cluster: nat): uint32
    requires cluster >= 2
  {
    Unsigned(fs.clusterBegin + (cluster - 2) * fs.sectorsPerCluster)
  }

  predicate Readable(fs: FileSystem, cluster: nat) {
    cluster >= 2 && Lba(fs, cluster) + fs.sectorsPerCluster <= |fs.disk|
  }

  // ----- one turn of the loop

  /** End of the chain; a panic, failed assertion or table access out of range; or the next cluster. */
  datatype Turn = Done | Fault | Next(cluster: uint32)

  function Visit(fs: FileSystem, cluster: uint32): Turn {
    match TypeOf(cluster)
    case LastCluster => Done
    case BadValue => Fault
    case _ =>
      if !Readable(fs, cluster) || cluster >= |fs.fat| then Fault else Next(fs.fat[cluster])
  }

  // ----- the whole walk

  /** The clusters read up to a last-cluster mark, or up to an error; or a walk in circles. */
  datatype Walk = Ends(chain: seq<uint32>) | Faults(chain: seq<uint32>) | Cycles

  /** A walk with more clusters in front. */
  function Behind(done: seq<uint32>, w: Walk): Walk {
    match w
    case Ends(chain) => Ends(done + chain)
    case Faults(chain) => Faults(done + chain)
    case Cycles => Cycles
  }

  predicate InTable(fs: FileSystem, i: uint32) {
    i < |fs.fat|
  }

  ghost function Unvisited(fs: FileSystem, seen: set<uint32>): set<uint32> {
    set i: uint32 | 0 <= i < |fs.fat| && InTable(fs, i) && i !in seen
  }

  ghost function WalkFrom(fs: FileSystem, cluster: uint32, seen: set<uint32>): Walk
    decreases |Unvisited(fs, seen)|
  {
    match Visit(fs, cluster)
    case Done => Ends([])
    case Fault => Faults([])
    case Next(next) =>
      if cluster in seen then Cycles
      else
        Fewer(fs, cluster, seen);
        Behind([cluster], WalkFrom(fs, next, seen + {cluster}))
  }

  /** Visiting a cluster for the first time leaves fewer to visit. */
  lemma Fewer(fs: FileSystem, cluster: uint32, seen: set<uint32>)
    requires Visit(fs, cluster).Next? && cluster !in seen
    ensures |Unvisited(fs, seen + {cluster})| < |Unvisited(fs, seen)|
  {
    assert Unvisited(fs, seen + {cluster}) == Unvisited(fs, seen) - {cluster};
    assert cluster in Unvisited(fs, seen);
  }

  /** The cluster number at the start of turn k, as long as the loop runs that far. */
  function ClusterAt(fs: FileSystem, start: uint32, k: nat): Turn {
    if k == 0 then Next(start)
    else
      match ClusterAt(fs, start, k - 1)
      case Next(c) => Visit(fs, c)
      case other => other
  }

  /**
   A walk that ends follows the table from cluster to cluster, never twice to the same
   one, up to a last-cluster mark.
   */
  ghost predicate IsChain(fs: FileSystem, start: uint32, chain: seq<uint32>) {
    && (forall i :: 0 <= i < |chain| ==> ClusterAt(fs, start, i) == Next(chain[i]) && Visit(fs, chain[i]).Next?)
    && (forall i, j :: 0 <= i < j < |chain| ==> chain[i] != chain[j])
    && ClusterAt(fs, start, |chain|).Next? && Visit(fs, ClusterAt(fs, start, |chain|).cluster) == Done
  }

  lemma {:induction false} ClusterAtShift(fs: FileSystem, start: uint32, k: nat)
    requires Visit(fs, start).Next?
    ensures ClusterAt(fs, start, k + 1) == ClusterAt(fs, Visit(fs, start).cluster, k)
  {
    if k > 0 {
      ClusterAtShift(fs, start, k - 1);
    }
  }

  lemma {:induction false} EndsIsChain(fs: FileSystem, start: uint32, seen: set<uint32>)
    requires WalkFrom(fs, start, seen).Ends?
    ensures IsChain(fs, start, WalkFrom(fs, start, seen).chain)
    ensures forall c :: c in WalkFrom(fs, start, seen).chain ==> c !in seen
    decreases |Unvisited(fs, seen)|
  {
    hide Visit;
    var chain := WalkFrom(fs, start, seen).chain;
    if Visit(fs, start).Next? {
      Fewer(fs, start, seen);
      var next := Visit(fs, start).cluster;
      EndsIsChain(fs, next, seen + {start});
      var rest := WalkFrom(fs, next, seen + {start}).chain;
      assert chain == [start] + rest;
      forall i | 0 <= i <= |rest|
        ensures ClusterAt(fs, start, i + 1) == ClusterAt(fs, next, i)
      {
        ClusterAtShift(fs, start, i);
      }
      forall i | 0 <= i < |chain|
        ensures ClusterAt(fs, start, i) == Next(chain[i]) && Visit(fs, chain[i]).Next?
      {
        if i > 0 {
          assert ClusterAt(fs, next, i - 1) == Next(rest[i - 1]);
        }
      }
    }
  }

  /** Once a cluster repeats, the loop is in a circle. */
  lemma {:induction false} Circle(fs: FileSystem, start: uint32, period: nat, k: nat)
    requires period > 0 && ClusterAt(fs, start, period) == Next(start)
    requires forall i :: 0 <= i < period ==> ClusterAt(fs, start, i).Next?
    ensures ClusterAt(fs, start, k).Next?
  {
    if k >= period {
      Circle(fs, start, period, k - period);
      ClusterAtFrom(fs, start, period, k - period);
    }
  }

  lemma {:induction false} ClusterAtFrom(fs: FileSystem, start: uint32, m: nat, k: nat)
    requires ClusterAt(fs, start, m).Next?
    ensures ClusterAt(fs, start, m + k) == ClusterAt(fs, ClusterAt(fs, start, m).cluster, k)
  {
    if k > 0 {
      ClusterAtFrom(fs, start, m, k - 1);
    }
  }

  /** The loop has been at cluster c before turn n. */
  ghost predicate OnPath(fs: FileSystem, start: uint32, n: nat, c: uint32) {
    exists i :: 0 <= i < n && ClusterAt(fs, start, i) == Next(c)
  }

  /** A walk that runs into a cluster of its own path goes round for ever. */
  lemma {:induction false} CyclesForEver(fs: FileSystem, start: uint32, n: nat, seen: set<uint32>, k: nat)
    requires ClusterAt(fs, start, n).Next? && WalkFrom(fs, ClusterAt(fs, start, n).cluster, seen) == Cycles
    requires forall c :: c in seen ==> OnPath(fs, start, n, c)
    ensures ClusterAt(fs, start, k).Next?
    decreases |Unvisited(fs, seen)|
  {
    hide Visit;
    var c := ClusterAt(fs, start, n).cluster;
    if c in seen {
      var i :| 0 <= i < n && ClusterAt(fs, start, i) == Next(c);
      if k <= n {
        Earlier(fs, start, k, n);
      } else {
        forall j | 0 <= j < n - i
          ensures ClusterAt(fs, c, j).Next?
        {
          ClusterAtFrom(fs, start, i, j);
          Earlier(fs, start, i + j, n);
        }
        ClusterAtFrom(fs, start, i, n - i);
        Circle(fs, c, n - i, k - i);
        ClusterAtFrom(fs, start, i, k - i);
      }
    } else {
      Fewer(fs, c, seen);
      forall b | b in seen + {c}
        ensures OnPath(fs, start, n + 1, b)
      {
        if b in seen {
          assert OnPath(fs, start, n, b);
        } else {
          assert ClusterAt(fs, start, n) == Next(b);
        }
      }
      CyclesForEver(fs, start, n + 1, seen + {c}, k);
    }
  }

  /** A loop that reaches turn n has gone through every earlier turn. */
  lemma {:induction false} Earlier(fs: FileSystem, start: uint32, k: nat, n: nat)
    requires k <= n && ClusterAt(fs, start, n).Next?
    ensures ClusterAt(fs, start, k).Next?
    decreases n - k
  {
    if k < n {
      Earlier(fs, start, k + 1, n);
    }
  }

  lemma {:induction false} FaultReached(fs: FileSystem, start: uint32, n: nat, seen: set<uint32>) returns (k: nat)
    requires ClusterAt(fs, start, n).Next? && WalkFrom(fs, ClusterAt(fs, start, n).cluster, seen).Faults?
    ensures ClusterAt(fs, start, k) == Fault
    decreases |Unvisited(fs, seen)|
  {
    hide Visit;
    var c := ClusterAt(fs, start, n).cluster;
    if Visit(fs, c) == Fault {
      k := n + 1;
    } else {
      Fewer(fs, c, seen);
      k := FaultReached(fs, start, n + 1, seen + {c});
    }
  }

  lemma {:induction false} StaysEnded(fs: FileSystem, start: uint32, k: nat, n: nat)
    requires k <= n && !ClusterAt(fs, start, k).Next?
    ensures ClusterAt(fs, start, n) == ClusterAt(fs, start, k)
    decreases n - k
  {
    if k < n {
      StaysEnded(fs, start, k, n - 1);
    }
  }

  /** The loop ends, runs into an error, or never stops, exactly as the walk says. */
  lemma WalkExact(fs: FileSystem, start: uint32)
    ensures var walk := WalkFrom(fs, start, {});
            && (walk.Ends? <==> exists k :: ClusterAt(fs, start, k) == Done)
            && (walk.Faults? <==> exists k :: ClusterAt(fs, start, k) == Fault)
            && (walk.Cycles? <==> forall k :: ClusterAt(fs, start, k).Next?)
  {
    hide Visit, WalkFrom;
    var walk := WalkFrom(fs, start, {});
    if walk.Ends? {
      EndsIsChain(fs, start, {});
      assert ClusterAt(fs, start, |walk.chain| + 1) == Done;
      OneEnd(fs, start, |walk.chain| + 1);
    } else if walk.Faults? {
      var k := FaultReached(fs, start, 0, {});
      OneEnd(fs, start, k);
    } else {
      forall k: nat
        ensures ClusterAt(fs, start, k).Next?
      {
        CyclesForEver(fs, start, 0, {}, k);
      }
    }
  }

  lemma OneEnd(fs: FileSystem, start: uint32, k: nat)
    requires !ClusterAt(fs, start, k).Next?
    ensures forall n :: ClusterAt(fs, start, n).Next? || ClusterAt(fs, start, n) == ClusterAt(fs, start, k)
  {
    forall n: nat
      ensures ClusterAt(fs, start, n).Next? || ClusterAt(fs, start, n) == ClusterAt(fs, start, k)
    {
      if k <= n {
        StaysEnded(fs, start, k, n);
      } else if !ClusterAt(fs, start, n).Next? {
        StaysEnded(fs, start, n, k);
      }
    }
  }

  /** The clusters of a chain with the last-cluster mark behind them: each entry of the table names the next. */
  ghost predicate LinkedUp(fs: FileSystem, chain: seq<uint32>, end: uint32) {
    && TypeOf(end) == LastCluster
    && (forall i, j :: 0 <= i < j < |chain| ==> chain[i] != chain[j])
    && forall i :: 0 <= i < |chain| ==>
         && TypeOf(chain[i]) !in {LastCluster, BadValue} && Readable(fs, chain[i])
         && chain[i] < |fs.fat| && fs.fat[chain[i]] == (chain + [end])[i + 1]
  }

  lemma {:induction false} LinkedUpWalks(fs: FileSystem, chain: seq<uint32>, end: uint32, seen: set<uint32>)
    requires LinkedUp(fs, chain, end) && forall c :: c in chain ==> c !in seen
    ensures WalkFrom(fs, (chain + [end])[0], seen) == Ends(chain)
    decreases |chain|
  {
    hide LinkedUp, Visit, Unvisited;
    LinkedUpFirst(fs, chain, end);
    if chain != [] {
      var c, rest := chain[0], chain[1..];
      LinkedUpWalks(fs, rest, end, seen + {c});
      Fewer(fs, c, seen);
      assert [c] + rest == chain;
    }
  }

  lemma LinkedUpFirst(fs: FileSystem, chain: seq<uint32>, end: uint32)
    requires LinkedUp(fs, chain, end)
    ensures chain == [] ==> Visit(fs, end) == Done
    ensures chain != [] ==> Visit(fs, chain[0]) == Next((chain[1..] + [end])[0])
    ensures chain != [] ==> chain[0] !in chain[1..] && LinkedUp(fs, chain[1..], end)
  {
    hide TypeOf, Readable;
    if chain != [] {
      var rest := chain[1..];
      assert forall i :: 0 <= i <= |rest| ==> (rest + [end])[i] == (chain + [end])[i + 1];
    }
  }

  lemma {:induction false} WalkLinksUp(fs: FileSystem, start: uint32, seen: set<uint32>) returns (end: uint32)
    requires WalkFrom(fs, start, seen).Ends?
    ensures var chain := WalkFrom(fs, start, seen).chain;
            && LinkedUp(fs, chain, end) && (chain + [end])[0] == start
            && forall c :: c in chain ==> c !in seen
    decreases |Unvisited(fs, seen)|
  {
    hide TypeOf, Readable;
    var chain := WalkFrom(fs, start, seen).chain;
    if Visit(fs, start).Next? {
      Fewer(fs, start, seen);
      var next := Visit(fs, start).cluster;
      end := WalkLinksUp(fs, next, seen + {start});
      var rest := WalkFrom(fs, next, seen + {start}).chain;
      assert chain == [start] + rest;
      assert forall i :: 0 <= i <= |rest| ==> (chain + [end])[i + 1] == (rest + [end])[i];
      assert start !in rest;
    } else {
      end := start;
    }
  }

  /** The walk ends with a chain if and only if the table links that chain up from the start to a last-cluster mark. */
  lemma ChainExactly(fs: FileSystem, start: uint32, chain: seq<uint32>)
    ensures WalkFrom(fs, start, {}) == Ends(chain) <==>
            exists end :: LinkedUp(fs, chain, end) && (chain + [end])[0] == start
  {
    hide LinkedUp, WalkFrom;
    if WalkFrom(fs, start, {}) == Ends(chain) {
      var end := WalkLinksUp(fs, start, {});
      assert LinkedUp(fs, chain, end) && (chain + [end])[0] == start;
    }
    forall end | LinkedUp(fs, chain, end) && (chain + [end])[0] == start
      ensures WalkFrom(fs, start, {}) == Ends(chain)
    {
      LinkedUpWalks(fs, chain, end, {});
    }
  }

  // ----- reading

  function Sectors(fs: FileSystem, lba: nat, n: nat): (bytes: seq<uint8>)
    requires lba + n <= |fs.disk|
    ensures |bytes| == n * SECTOR
  {
    if n == 0 then [] else Sectors(fs, lba, n - 1) + fs.disk[lba + n - 1]
  }

  function ClusterBytes(fs: FileSystem, cluster: nat): (bytes: seq<uint8>)
    requires Readable(fs, cluster)
    ensures |bytes| == fs.sectorsPerCluster * SECTOR
  {
    Sectors(fs, Lba(fs, cluster), fs.sectorsPerCluster)
  }

  /** The clusters of a chain, one behind the other. */
  function FileBytes(fs: FileSystem, chain: seq<uint32>): (bytes: seq<uint8>)
    requires forall c :: c in chain ==> Readable(fs, c)
    ensures |bytes| == |chain| * (fs.sectorsPerCluster * SECTOR)
  {
    if chain == [] then [] else ClusterBytes(fs, chain[0]) + FileBytes(fs, chain[1..])
  }

  lemma {:induction false} FileBytesAppend(fs: FileSystem, chain: seq<uint32>, c: uint32)
    requires (forall d :: d in chain ==> Readable(fs, d)) && Readable(fs, c)
    ensures forall d :: d in chain + [c] ==> Readable(fs, d)
    ensures FileBytes(fs, chain + [c]) == FileBytes(fs, chain) + ClusterBytes(fs, c)
  {
    hide ClusterBytes, Readable;
    if chain == [] {
      assert FileBytes(fs, [c]) == ClusterBytes(fs, c) + FileBytes(fs, []);
    } else {
      assert (chain + [c])[1..] == chain[1..] + [c];
      FileBytesAppend(fs, chain[1..], c);
    }
  }

  /** pi_sd_read, as one step */
  method SdRead(fs: FileSystem, data: array<uint8>, at: nat, lba: nat, nsec: nat)
    requires lba + nsec <= |fs.disk| && at + nsec * SECTOR <= data.Length
    modifies data
    ensures data[at..at + nsec * SECTOR] == Sectors(fs, lba, nsec)
    ensures data[..at] == old(data[..at]) && data[at + nsec * SECTOR..] == old(data[at + nsec * SECTOR..])
  {
    var bytes := Sectors(fs, lba, nsec);
    forall i | 0 <= i < |bytes| {
      data[at + i] := bytes[i];
    }
  }

  /**
   read_cluster_chain. False stands for the panics and for table accesses out of range.
   The walk must not go in circles, where the source would not stop, and the buffer
   must be large enough for what is read, which the source assumes too.
   */
  method ReadClusterChain(fs: FileSystem, start: uint32, data: array<uint8>) returns (ok: bool)
    requires WalkFrom(fs, start, {}) != Cycles
    requires |WalkFrom(fs, start, {}).chain| * (fs.sectorsPerCluster * SECTOR) <= data.Length
    modifies data
    ensures var walk := WalkFrom(fs, start, {});
      && (ok <==> walk.Ends?)
      && (forall c :: c in walk.chain ==> Readable(fs, c))
      && var bytes := FileBytes(fs, walk.chain);
         data[..|bytes|] == bytes && data[|bytes|..] == old(data[|bytes|..])
  {
    hide Readable, Lba, ClusterBytes, Unvisited, WalkFrom, Behind, TypeOf;
    BehindNothing(WalkFrom(fs, start, {}));
    var clusterNum: uint32, at := start, 0;
    var size := fs.sectorsPerCluster * SECTOR;
    ghost var seen: set<uint32>, done: seq<uint32> := {}, [];
    ghost var walk := WalkFrom(fs, start, {});
    while TypeOf(clusterNum) != LastCluster
      invariant walk == Behind(done, WalkFrom(fs, clusterNum, seen)) && WalkFrom(fs, clusterNum, seen) != Cycles
      invariant forall c :: c in done ==> Readable(fs, c)
      invariant at == |done| * size <= data.Length
      invariant data[..at] == FileBytes(fs, done) && data[at..] == old(data[at..])
      decreases |Unvisited(fs, seen)|
    {
      WalkTurn(fs, clusterNum, seen, done);
      if TypeOf(clusterNum) == BadValue || !Readable(fs, clusterNum) || clusterNum >= |fs.fat| {
        return false;
      }
      RoomForOneMore(|done|, |walk.chain|, size);
      ghost var before := data[..];
      SdReadCluster(fs, data, at, clusterNum);
      SameFurtherBack(before, old(data[..]), at, at + size);
      assert before[..at] == FileBytes(fs, done) && before[at + size..] == data[at + size..];
      FileBytesAppend(fs, done, clusterNum);
      done, seen := done + [clusterNum], seen + {clusterNum};
      at := at + size;
      clusterNum := fs.fat[clusterNum];
    }
    WalkTurn(fs, clusterNum, seen, done);
    return true;
  }

  lemma SameFurtherBack<A>(s: seq<A>, t: seq<A>, at: nat, end: nat)
    requires at <= end <= |s| == |t| && s[at..] == t[at..]
    ensures s[end..] == t[end..]
  {
    assert s[end..] == s[at..][end - at..];
    assert t[end..] == t[at..][end - at..];
  }

  lemma BehindNothing(w: Walk)
    ensures Behind([], w) == w
  {}

  /** What one turn of the loop does to the walk that is left, `done` being behind it. */
  lemma WalkTurn(fs: FileSystem, c: uint32, seen: set<uint32>, done: seq<uint32>)
    requires WalkFrom(fs, c, seen) != Cycles
    ensures match Visit(fs, c)
            case Done => Behind(done, WalkFrom(fs, c, seen)) == Ends(done)
            case Fault => Behind(done, WalkFrom(fs, c, seen)) == Faults(done)
            case Next(next) =>
              && Behind(done, WalkFrom(fs, c, seen)) == Behind(done + [c], WalkFrom(fs, next, seen + {c}))
              && WalkFrom(fs, next, seen + {c}) != Cycles
              && |Behind(done + [c], WalkFrom(fs, next, seen + {c})).chain| > |done|
              && |Unvisited(fs, seen + {c})| < |Unvisited(fs, seen)|
  {
    hide Visit, Unvisited;
    if Visit(fs, c).Next? {
      Fewer(fs, c, seen);
      var w := WalkFrom(fs, Visit(fs, c).cluster, seen + {c});
      assert done + ([c] + w.chain) == done + [c] + w.chain;
    } else {
      assert done + [] == done;
    }
  }

  lemma RoomForOneMore(m: nat, n: nat, size: nat)
    requires m < n
    ensures m * size + size == (m + 1) * size <= n * size
  {
    assert n * size == (m + 1) * size + (n - m - 1) * size;
  }

  /** The two statements of the loop that fetch one cluster. */
  method SdReadCluster(fs: FileSystem, data: array<uint8>, at: nat, cluster: uint32)
    requires Readable(fs, cluster) && at + fs.sectorsPerCluster * SECTOR <= data.Length
    modifies data
    ensures var end := at + fs.sectorsPerCluster * SECTOR;
            data[..end] == old(data[..at]) + ClusterBytes(fs, cluster) && data[end..] == old(data[end..])
  {
    var lba := Lba(fs, cluster);
    SdRead(fs, data, at, lba, fs.sectorsPerCluster);
    ghost var end := at + fs.sectorsPerCluster * SECTOR;
    assert data[..end] == data[..at] + data[at..end];
  }

  // ----- where clusters lie on the disk

  /** Byte j of the k-th sector read. */
  lemma {:induction false} SectorAt(fs: FileSystem, lba: nat, n: nat, k: nat, j: nat)
    requires lba + n <= |fs.disk| && k < n && j < SECTOR
    ensures k * SECTOR + j < n * SECTOR && Sectors(fs, lba, n)[k * SECTOR + j] == fs.disk[lba + k][j]
    decreases n
  {
    if k < n - 1 {
      SectorAt(fs, lba, n - 1, k, j);
    }
  }

  lemma {:induction false} SectorsConcat(fs: FileSystem, lba: nat, m: nat, n: nat)
    requires lba + m + n <= |fs.disk|
    ensures Sectors(fs, lba, m + n) == Sectors(fs, lba, m) + Sectors(fs, lba + m, n)
    decreases n
  {
    if n > 0 {
      SectorsConcat(fs, lba, m, n - 1);
      var front, more, s := Sectors(fs, lba, m), Sectors(fs, lba + m, n - 1), fs.disk[lba + m + n - 1];
      assert front + more + s == front + (more + s);
    } else {
      assert Sectors(fs, lba, m) + [] == Sectors(fs, lba, m);
    }
  }

  /** The first n clusters: 2, 3, ..., n + 1. */
  function FirstClusters(n: nat): (chain: seq<uint32>)
    requires n + 2 <= TWO_32
    ensures |chain| == n
  {
    if n == 0 then [] else FirstClusters(n - 1) + [n + 1]
  }

  lemma LbaInOrder(fs: FileSystem, i: nat)
    requires fs.clusterBegin + i * fs.sectorsPerCluster < TWO_32
    ensures Lba(fs, i + 2) == fs.clusterBegin + i * fs.sectorsPerCluster
  {
    ModUnique(Lba(fs, i + 2), TWO_32, 0, Lba(fs, i + 2));
  }

  /** The clusters from number 2 on lie one behind the other, the first at the beginning of the data area. */
  lemma {:induction false} ClustersInOrder(fs: FileSystem, n: nat)
    requires fs.Valid() && n + 2 <= TWO_32 && fs.clusterBegin + n * fs.sectorsPerCluster <= |fs.disk|
    ensures forall c :: c in FirstClusters(n) ==> Readable(fs, c)
    ensures FileBytes(fs, FirstClusters(n)) == Sectors(fs, fs.clusterBegin, n * fs.sectorsPerCluster)
    decreases n
  {
    hide Readable, ClusterBytes, Sectors, FileBytes;
    if n == 0 {
      NothingToRead(fs, fs.clusterBegin);
    } else {
      var s := fs.sectorsPerCluster;
      assert n * s == (n - 1) * s + s && (n - 1) * s >= 0;
      ClustersInOrder(fs, n - 1);
      ClusterInOrder(fs, n);
      FileBytesAppend(fs, FirstClusters(n - 1), n + 1);
      SectorsConcat(fs, fs.clusterBegin, (n - 1) * s, s);
    }
  }

  lemma NothingToRead(fs: FileSystem, lba: nat)
    requires lba <= |fs.disk|
    ensures FileBytes(fs, []) == [] == Sectors(fs, lba, 0)
  {}

  lemma ClusterInOrder(fs: FileSystem, n: nat)
    requires fs.Valid() && n > 0 && fs.clusterBegin + n * fs.sectorsPerCluster <= |fs.disk|
    ensures Readable(fs, n + 1) && (n - 1) * fs.sectorsPerCluster >= 0
    ensures ClusterBytes(fs, n + 1)
            == Sectors(fs, fs.clusterBegin + (n - 1) * fs.sectorsPerCluster, fs.sectorsPerCluster)
  {
    hide Lba, Sectors;
    var s := fs.sectorsPerCluster;
    assert n * s == (n - 1) * s + s && (n - 1) * s >= 0;
    LbaInOrder(fs, n - 1);
  }

  /**
   The entry types, told by division: the last eight values of 28 bits end a chain, the
   eight before them are the values that panic and the mark of a bad cluster.
   */
  lemma EntryTypes(x: uint32)
    ensures TypeOf(x) == LastCluster <==> x / 8 % 0x200_0000 == 0x1FF_FFFF
    ensures TypeOf(x) in {BadValue, BadCluster} <==> x / 8 % 0x200_0000 == 0x1FF_FFFE
    ensures TypeOf(x) == BadCluster <==> x % 0x1000_0000 == 0xFFFFFF7
    ensures TypeOf(x) in {FreeCluster, ReservedCluster} <==> x / 2 % 0x800_0000 == 0
    ensures TypeOf(x) == FreeCluster <==> x % 0x1000_0000 == 0
    ensures TypeOf(x) == TypeOf(x % 0x1000_0000)
  {
    var v, h: int := x % 0x1000_0000, x / 0x1000_0000;
    assert x == h * 0x1000_0000 + v;
    ModUnique(x, 8, h * 0x200_0000 + v / 8, v % 8);
    ModUnique(x / 8, 0x200_0000, h, v / 8);
    ModUnique(x, 2, h * 0x800_0000 + v / 2, v % 2);
    ModUnique(x / 2, 0x800_0000, h, v / 2);
  }

  /**
   Two clusters occupy disjoint sectors unless their numbers agree modulo the number of
   clusters that 32-bit sector addresses can tell apart.
   */
  lemma ClustersDisjoint(fs: FileSystem, c: nat, d: nat)
    requires fs.Valid() && Readable(fs, c) && Readable(fs, d)
    ensures (Lba(fs, c) + fs.sectorsPerCluster <= Lba(fs, d) || Lba(fs, d) + fs.sectorsPerCluster <= Lba(fs, c))
            <==> (c - d) % (TWO_32 / fs.sectorsPerCluster) != 0
  {
    var n := fs.sectorsPerCluster;
    var x, y := fs.clusterBegin + (c - 2) * n, fs.clusterBegin + (d - 2) * n;
    assert TWO_32 == TWO_32 / n * n;
    LbaDifference(x, y, n, TWO_32 / n, c - d);
  }

  lemma LbaDifference(x: int, y: int, n: nat, q: nat, k: int)
    requires n > 0 && q > 0 && TWO_32 == q * n && x - y == k * n
    requires x % TWO_32 + n <= TWO_32 && y % TWO_32 + n <= TWO_32
    ensures (x % TWO_32 + n <= y % TWO_32 || y % TWO_32 + n <= x % TWO_32) <==> k % q != 0
  {
    var r := k % q;
    var a, b := x % TWO_32, y % TWO_32;
    // x and y differ by r clusters, up to multiples of the address space
    assert k == k / q * q + r;
    assert k * n == k / q * TWO_32 + r * n;
    ModMultiple(y + r * n, TWO_32, k / q);
    ModAdd(y, r * n, TWO_32);
    assert a == (b + r * n) % TWO_32;
    assert r * n + n <= TWO_32 by {
      RoomForOneMore(r, q, n);
    }
    if r == 0 {
      ModNear(b, TWO_32);
    } else {
      MultipleAtLeast(r, n);
      ModNear(b + r * n, TWO_32);
    }
  }
}
