/** The ring of numbered log files: at most LIMIT files, numbered modulo 10000, the oldest deleted first, and the ends
    of the ring found again after a restart by scanning the directory, whose order is arbitrary. */
module LogRing {

  const NUMERALS := 10000
  const MAX_FILE_NUMERAL := NUMERALS - 1
  const EIO := 5

  type byte = bv8
  type Chunk = seq<byte>

  predicate Numeral(n: int) {
    0 <= n < NUMERALS
  }

  /** The k-th number after a. */
  function At(a: int, k: int): (n: int)
    requires Numeral(a) && 0 <= k <= NUMERALS
    ensures Numeral(n)
  {
    if a + k < NUMERALS then a + k else a + k - NUMERALS
  }

  /** How far b is after a. */
  function Dist(a: int, b: int): (d: int)
    requires Numeral(a) && Numeral(b)
    ensures Numeral(d)
  {
    if b >= a then b - a else b - a + NUMERALS
  }

  function Succ(n: int): int {
    if n + 1 > MAX_FILE_NUMERAL then 0 else n + 1
  }

  /** The numbers of `count` files, consecutive modulo 10000. */
  ghost predicate IsWindow(files: set<int>, first: int, count: int) {
    && Numeral(first) && 0 <= count <= NUMERALS
    && (forall n :: n in files ==> Numeral(n) && Dist(first, n) < count)
    && (forall k :: 0 <= k < count ==> At(first, k) in files)
  }

  lemma {:induction false} WindowSize(files: set<int>, first: int, count: int)
    requires IsWindow(files, first, count)
    ensures |files| == count
    decreases count
  {
    if count > 0 {
      var last := At(first, count - 1);
      assert last in files;
      WindowSize(files - {last}, first, count - 1);
    } else {
      assert forall n :: n !in files;
    }
  }

  lemma WindowDrop(files: set<int>, first: int, count: int)
    requires IsWindow(files, first, count) && count > 0
    ensures first in files && IsWindow(files - {first}, At(first, 1), count - 1)
  {
    assert At(first, 0) in files;
    forall k | 0 <= k < count - 1
      ensures At(At(first, 1), k) in files - {first}
    {
      assert At(first, k + 1) in files;
    }
  }

  lemma WindowAdd(files: set<int>, first: int, count: int, n: int)
    requires IsWindow(files, first, count) && count < NUMERALS && n == At(first, count)
    ensures n !in files && IsWindow(files + {n}, first, count + 1)
  {
  }

  // ---- the directory scan ----

  /** The numbers of the directory's entries, -1 for entries that are no log files, each log file once. */
  ghost predicate Listing(entries: seq<int>, files: set<int>) {
    && (forall i :: 0 <= i < |entries| ==> entries[i] == -1 || entries[i] in files)
    && (forall n :: n in files ==> n in entries)
    && (forall i, j :: 0 <= i < j < |entries| && entries[i] == entries[j] ==> entries[i] == -1)
  }

  /** The first scan: how many log files there are, the lowest and the highest number. */
  method CountFiles(entries: seq<int>, ghost files: set<int>)
    returns (ctr: int, min: int, max: int)
    requires forall n :: n in files ==> Numeral(n)
    requires Listing(entries, files)
    ensures ctr == |files|
    ensures files == {} ==> min == MAX_FILE_NUMERAL && max == 0
    ensures files != {} ==> Bounds(files, min, max)
  {
    ctr, min, max := 0, MAX_FILE_NUMERAL, 0;
    ghost var seen: set<int> := {};
    for i := 0 to |entries|
      invariant Scanned(entries, files, i, seen) && ctr == |seen|
      invariant if seen == {} then min == MAX_FILE_NUMERAL && max == 0 else Bounds(seen, min, max)
    {
      var num := entries[i];
      ScannedNext(entries, files, i, seen);
      if num >= 0 {
        if num > max {
          max := num;
        }
        if num < min {
          min := num;
        }
        seen := seen + {num};
        ctr := ctr + 1;
      }
    }
    AllScanned(entries, files, seen);
  }

  ghost predicate Bounds(files: set<int>, min: int, max: int) {
    min in files && max in files && forall n :: n in files ==> min <= n <= max
  }

  /** `seen` are the log files among the first i entries. */
  ghost predicate Scanned(entries: seq<int>, files: set<int>, i: nat, seen: set<int>)
    requires i <= |entries|
  {
    && seen <= files
    && (forall j :: 0 <= j < i && entries[j] != -1 ==> entries[j] in seen)
    && (forall n :: n in seen ==> exists j :: 0 <= j < i && entries[j] == n)
  }

  lemma ScannedNext(entries: seq<int>, files: set<int>, i: nat, seen: set<int>)
    requires i < |entries| && Listing(entries, files) && Scanned(entries, files, i, seen)
    requires forall n :: n in files ==> Numeral(n)
    ensures entries[i] == -1 || Numeral(entries[i])
    ensures entries[i] != -1 ==> entries[i] !in seen
    ensures Scanned(entries, files, i + 1, if entries[i] == -1 then seen else seen + {entries[i]})
  {
    var seen' := if entries[i] == -1 then seen else seen + {entries[i]};
    forall n | n in seen'
      ensures exists j :: 0 <= j < i + 1 && entries[j] == n
    {
      if n in seen {
        var j :| 0 <= j < i && entries[j] == n;
      } else {
        assert entries[i] == n;
      }
    }
  }

  lemma AllScanned(entries: seq<int>, files: set<int>, seen: set<int>)
    requires Listing(entries, files) && Scanned(entries, files, |entries|, seen)
    requires forall n :: n in files ==> Numeral(n)
    ensures seen == files
  {
    forall n | n in files
      ensures n in seen
    {
      var j :| 0 <= j < |entries| && entries[j] == n;
    }
  }

  /** The second scan, when the numbers have wrapped: the newest file is in the range around the lowest number, the
      oldest in the range around the highest. */
  method FindEnds(entries: seq<int>, min: int, max: int, limit: int, ghost files: set<int>)
    returns (newest: int, oldest: int)
    requires forall n :: n in files ==> Numeral(n)
    requires Listing(entries, files) && min in files && max in files
    requires 1 <= limit && max - min > 2 * limit
    ensures newest in files && newest < min + limit
    ensures forall n :: n in files && n < min + limit ==> n <= newest
    ensures oldest in files && oldest > max - limit
    ensures forall n :: n in files && n > max - limit ==> oldest <= n
  {
    newest, oldest := min, max;
    for i := 0 to |entries|
      invariant newest in files && newest < min + limit
      invariant forall n :: n in files && n in entries[..i] && n < min + limit ==> n <= newest
      invariant oldest in files && oldest > max - limit
      invariant forall n :: n in files && n in entries[..i] && n > max - limit ==> oldest <= n
    {
      var num := entries[i];
      if num < min + limit {
        if newest < num {
          newest := num;
        }
      }
      if num > max - limit {
        if oldest > num {
          oldest := num;
        }
      }
    }
  }

  /** Restart recovery: from two listings of the directory, each in any order, the exact number of files and both ends
      of the window, wrapped or not. An empty directory yields newest 0 and oldest 9999. */
  method ScanDirectory(entries: seq<int>, again: seq<int>, limit: int,
                       ghost files: set<int>, ghost first: int, ghost count: int)
    returns (ctr: int, newest: int, oldest: int)
    requires 1 <= limit <= 4999
    requires IsWindow(files, first, count) && count <= limit
    requires Listing(entries, files) && Listing(again, files)
    ensures ctr == count
    ensures count > 0 ==> newest == At(first, count - 1) && oldest == first
    ensures count == 0 ==> newest == 0 && oldest == MAX_FILE_NUMERAL
  {
    WindowSize(files, first, count);
    var min, max;
    ctr, min, max := CountFiles(entries, files);
    if ctr > 1 && max - min > 2 * limit {
      newest, oldest := FindEnds(again, min, max, limit, files);
      WrappedEnds(files, first, count, limit, min, max, newest, oldest);
    } else {
      newest, oldest := max, min;
      if count > 0 {
        UnwrappedEnds(files, first, count, limit, min, max);
      }
    }
  }

  lemma WrappedEnds(files: set<int>, first: int, count: int, limit: int, min: int, max: int, newest: int, oldest: int)
    requires 1 <= limit <= 4999 && IsWindow(files, first, count) && 1 <= count <= limit
    requires min in files && max in files && max - min > 2 * limit
    requires forall n :: n in files ==> min <= n <= max
    requires newest in files && newest < min + limit
    requires forall n :: n in files && n < min + limit ==> n <= newest
    requires oldest in files && oldest > max - limit
    requires forall n :: n in files && n > max - limit ==> oldest <= n
    ensures newest == At(first, count - 1) && oldest == first
  {
    assert At(first, 0) in files && At(first, count - 1) in files;
  }

  lemma Wraps(files: set<int>, first: int, count: int)
    requires IsWindow(files, first, count)
    ensures first + count > NUMERALS ==> 0 in files && MAX_FILE_NUMERAL in files
  {
    if first + count > NUMERALS {
      assert At(first, NUMERALS - first) in files && At(first, NUMERALS - first - 1) in files;
    }
  }

  /** The scan recognizes a wrapped window by the span of its numbers, for any limit below 5000 and for no other. */
  lemma WrapRecognized(files: set<int>, first: int, count: int, limit: int, min: int, max: int)
    requires IsWindow(files, first, count) && 2 <= count <= limit
    requires min in files && max in files && forall n :: n in files ==> min <= n <= max
    ensures max - min > 2 * limit <==> first + count > NUMERALS && limit <= 4999
  {
    Wraps(files, first, count);
    assert At(first, 0) in files && At(first, count - 1) in files;
  }

  lemma UnwrappedEnds(files: set<int>, first: int, count: int, limit: int, min: int, max: int)
    requires 1 <= limit <= 4999 && IsWindow(files, first, count) && 1 <= count <= limit
    requires min in files && max in files && (max - min <= 2 * limit || count == 1)
    requires forall n :: n in files ==> min <= n <= max
    ensures max == At(first, count - 1) && min == first
  {
    assert At(first, 0) in files && At(first, count - 1) in files;
    Wraps(files, first, count);
  }

  // ---- the ring as a list of files ----

  /** The files from the oldest to the newest, each as the chunks written to it, and whether a file was ever deleted. */
  datatype Ring = Ring(first: int, files: seq<seq<Chunk>>, deleted: bool)

  function Bytes(file: seq<Chunk>): seq<byte> {
    if file == [] then [] else Bytes(file[..|file| - 1]) + file[|file| - 1]
  }

  lemma BytesSnoc(file: seq<Chunk>, c: Chunk)
    ensures Bytes(file + [c]) == Bytes(file) + c
  {
    assert (file + [c])[..|file|] == file;
  }

  function Chunks(files: seq<seq<Chunk>>): seq<Chunk> {
    if files == [] then [] else files[0] + Chunks(files[1..])
  }

  ghost predicate Represents(disk: map<int, seq<byte>>, r: Ring) {
    && IsWindow(disk.Keys, r.first, |r.files|)
    && forall k :: 0 <= k < |r.files| ==> disk[At(r.first, k)] == Bytes(r.files[k])
  }

  function Dropped(r: Ring): Ring
    requires Numeral(r.first) && r.files != []
  {
    Ring(At(r.first, 1), r.files[1..], true)
  }

  /** Room made for a new file if there are `limit` already. */
  function WithRoom(r: Ring, limit: int): Ring
    requires Numeral(r.first) && 1 <= limit
  {
    if |r.files| >= limit then Dropped(r) else r
  }

  /** Room for a new file, and an empty file at the end. */
  function Allocated(r: Ring, limit: int): Ring
    requires Numeral(r.first) && 1 <= limit
  {
    var kept := WithRoom(r, limit);
    kept.(files := kept.files + [[]])
  }

  function Appended(r: Ring, c: Chunk): Ring
    requires r.files != []
  {
    var k := |r.files| - 1;
    r.(files := r.files[k := r.files[k] + [c]])
  }

  /** A directory without files starts over at number 0. */
  function Restarted(r: Ring): Ring {
    if r.files == [] then r.(first := 0) else r
  }

  // ---- file-system errors ----

  /** What fails while a file is allocated: reading the directory, deleting the oldest file, or opening the new one. */
  datatype AllocFault = NoAllocFault | ScanFails | UnlinkFails | OpenFails

  /** What fails while a chunk is written. A failed fs_write writes nothing. */
  datatype WriteFault = NoWriteFault | TellFails | AllocFails(fault: AllocFault) | WriteFails | SyncFails

  datatype BackendState = NotInitialized | Corrupted | Ok

  /** Whether an allocation meets its fault: directories are read only after a restart, files deleted only at the
      limit. */
  predicate Hits(fault: AllocFault, scanning: bool, r: Ring, limit: int) {
    match fault
    case NoAllocFault => false
    case ScanFails => scanning
    case UnlinkFails => |r.files| >= limit
    case OpenFails => true
  }

  /** The ring after a failed allocation: when the new file cannot be opened, the oldest is gone already. */
  function Unallocated(fault: AllocFault, r: Ring, limit: int): Ring
    requires Numeral(r.first) && 1 <= limit
  {
    if fault.OpenFails? then WithRoom(r, limit) else r
  }

  /** The state of the backend and the ring after a write, whether the chunk is on disk, and whether the caller is told
      that it was processed. */
  datatype Outcome = Outcome(state: BackendState, ring: Ring, logged: bool, processed: bool)

  /** The chunk into the newest file. */
  function Stored(r: Ring, c: Chunk, fault: WriteFault): Outcome
    requires r.files != []
  {
    if fault.WriteFails? then Outcome(Ok, r, false, false)
    else Outcome(if fault.SyncFails? then Corrupted else Ok, Appended(r, c), true, true)
  }

  /** A new file if the chunk would take the current one above `fileSize` bytes; then the chunk. */
  function WriteOutcome(r: Ring, c: Chunk, fault: WriteFault, limit: int, fileSize: int): Outcome
    requires Numeral(r.first) && 1 <= limit && r.files != []
  {
    if fault.TellFails? then Outcome(Corrupted, r, false, true)
    else if |Bytes(r.files[|r.files| - 1])| + |c| > fileSize then
      if fault.AllocFails? && Hits(fault.fault, false, r, limit) then
        Outcome(Corrupted, Unallocated(fault.fault, r, limit), false, true)
      else Stored(Allocated(r, limit), c, fault)
    else Stored(r, c, fault)
  }

  /** A whole call: nothing happens while the log volume is not mounted and the backend not initialized, nor once the
      backend has seen an error; such chunks are dropped, but reported as processed. */
  function LogOutcome(state: BackendState, r: Ring, c: Chunk, mounted: bool, initFault: AllocFault, fault: WriteFault,
                      limit: int, fileSize: int): Outcome
    requires Numeral(r.first) && 1 <= limit && (state == Ok ==> r.files != [])
  {
    match state
    case Ok => WriteOutcome(r, c, fault, limit, fileSize)
    case Corrupted => Outcome(Corrupted, r, false, true)
    case NotInitialized =>
      if !mounted then Outcome(NotInitialized, r, false, true)
      else if Hits(initFault, true, r, limit) then Outcome(Corrupted, Unallocated(initFault, r, limit), false, true)
      else WriteOutcome(Allocated(r, limit), c, fault, limit, fileSize)
  }

  lemma DropOldest(disk: map<int, seq<byte>>, r: Ring)
    requires Represents(disk, r) && r.files != []
    ensures r.first in disk && Represents(disk - {r.first}, Dropped(r))
  {
    WindowDrop(disk.Keys, r.first, |r.files|);
    var d, r' := disk - {r.first}, Dropped(r);
    assert d.Keys == disk.Keys - {r.first};
    forall k | 0 <= k < |r'.files|
      ensures d[At(r'.first, k)] == Bytes(r'.files[k])
    {
      assert At(r'.first, k) == At(r.first, k + 1);
    }
  }

  lemma AddFile(disk: map<int, seq<byte>>, r: Ring, n: int)
    requires Represents(disk, r) && |r.files| < NUMERALS && n == At(r.first, |r.files|)
    ensures n !in disk && Represents(disk[n := []], r.(files := r.files + [[]]))
  {
    WindowAdd(disk.Keys, r.first, |r.files|, n);
    assert disk[n := []].Keys == disk.Keys + {n};
    forall k | 0 <= k < |r.files|
      ensures At(r.first, k) != n
    {
    }
  }

  lemma AppendToNewest(disk: map<int, seq<byte>>, r: Ring, n: int, c: Chunk)
    requires Represents(disk, r) && r.files != [] && n == At(r.first, |r.files| - 1)
    ensures n in disk && disk[n] == Bytes(r.files[|r.files| - 1])
    ensures Represents(disk[n := disk[n] + c], Appended(r, c))
  {
    var k := |r.files| - 1;
    assert Dist(r.first, n) == k;
    BytesSnoc(r.files[k], c);
  }

  // ---- the log backend ----

  ghost predicate IsNearest(files: set<int>, from: int, n: int) {
    && Numeral(from) && n in files && Numeral(n)
    && forall m :: m in files && Numeral(m) ==> Dist(from, n) <= Dist(from, m)
  }

  lemma {:induction false} NearestExists(files: set<int>, from: int, n: int)
    requires Numeral(from) && Numeral(n) && n in files
    ensures exists m :: IsNearest(files, from, m)
    decreases Dist(from, n)
  {
    if m :| m in files && Numeral(m) && Dist(from, m) < Dist(from, n) {
      NearestExists(files, from, m);
    } else {
      assert IsNearest(files, from, n);
    }
  }

  /** The nearest file is the number itself if that exists, and else still the nearest from the next number on. */
  lemma NearestStep(files: set<int>, from: int, n: int)
    requires IsNearest(files, from, n)
    ensures from in files ==> n == from
    ensures from !in files ==> IsNearest(files, Succ(from), n) && Dist(Succ(from), n) < Dist(from, n)
  {
    assert Dist(from, from) == 0;
  }

  /** A file's content after `data` is written over it from `pos` on. */
  function WriteAt(content: seq<byte>, pos: int, data: seq<byte>): seq<byte>
    requires 0 <= pos <= |content|
  {
    content[..pos] + data + (if pos + |data| < |content| then content[pos + |data|..] else [])
  }

  class LogBackend {
    const limit: int
    const fileSize: int
    /** The log directory: the content of each log file by its number. */
    var disk: map<int, seq<byte>>
    var state: BackendState
    var fileCtr: int
    var newest: int
    var oldest: int
    /** The position in the open file, which is the newest. */
    var pos: int
    ghost var ring: Ring

    ghost predicate Sound()
      reads `disk, `ring
    {
      && 1 <= limit <= 4999 && |ring.files| <= limit
      && Represents(disk, ring)
    }

    /** `oldest` and the number of files kept in memory are those of the ring, except that `oldest` may be one number
        before the first file: a ring that started empty has `oldest` 9999 and its first file is 0. */
    ghost predicate OldestTracked()
      reads `ring, `fileCtr, `oldest
    {
      && fileCtr == |ring.files|
      && Numeral(oldest) && Numeral(ring.first) && Dist(oldest, ring.first) <= 1
    }

    ghost predicate Valid()
      reads this
    {
      && Sound()
      && match state
         case NotInitialized => fileCtr == 0 && (ring.files == [] ==> ring.first == 0)
         case Corrupted => true
         case Ok =>
           && OldestTracked() && ring.files != []
           && newest == At(ring.first, |ring.files| - 1) && newest in disk && pos == |disk[newest]|
    }

    constructor (limit: int, fileSize: int, disk: map<int, seq<byte>>, ghost ring: Ring)
      requires 1 <= limit <= 4999 && |ring.files| <= limit && Represents(disk, ring)
      requires ring.files == [] ==> ring.first == 0
      ensures Valid() && state == NotInitialized && this.disk == disk && this.ring == ring
      ensures this.limit == limit && this.fileSize == fileSize
    {
      this.limit, this.fileSize, this.disk, this.ring := limit, fileSize, disk, ring;
      state, fileCtr, newest, oldest, pos := NotInitialized, 0, 0, 0, 0;
    }

    method Restart()
      requires Valid()
      modifies this`state, this`fileCtr, this`newest, this`oldest, this`pos, this`ring
      ensures Valid() && state == NotInitialized && ring == Restarted(old(ring))
    {
      state, fileCtr, newest, oldest, pos := NotInitialized, 0, 0, 0, 0;
      ring := Restarted(ring);
    }

    /** Deletes the first existing file at or after `oldest`, and that file only, and leaves `oldest` just after it. */
    method DelOldestLog() returns (ghost deleted: int)
      requires Numeral(oldest) && exists n :: n in disk && Numeral(n)
      modifies this`disk, this`oldest, this`fileCtr
      ensures IsNearest(old(disk).Keys, old(oldest), deleted)
      ensures disk == old(disk) - {deleted} && oldest == Succ(deleted)
      ensures fileCtr == old(fileCtr) - 1
    {
      ghost var some :| some in disk && Numeral(some);
      NearestExists(disk.Keys, oldest, some);
      deleted :| IsNearest(disk.Keys, oldest, deleted);
      while true
        invariant disk == old(disk) && fileCtr == old(fileCtr)
        invariant IsNearest(disk.Keys, oldest, deleted)
        decreases Dist(oldest, deleted)
      {
        NearestStep(disk.Keys, oldest, deleted);
        var found := oldest in disk;
        if found {
          disk := disk - {oldest};
        }
        oldest := oldest + 1;
        if oldest > MAX_FILE_NUMERAL {
          oldest := 0;
        }
        if found {
          fileCtr := fileCtr - 1;
          break;
        }
      }
    }

    /** fs_open with FS_O_CREATE | FS_O_WRITE: an existing file keeps its content and is written from its start. */
    method Open(n: int)
      modifies this`disk, this`pos
      ensures disk == if n in old(disk) then old(disk) else old(disk)[n := []]
      ensures pos == 0
    {
      if n !in disk {
        disk := disk[n := []];
      }
      pos := 0;
    }

    /** Makes room when there are `limit` files. */
    method DeleteAboveLimit()
      requires Sound() && OldestTracked()
      modifies this`disk, this`oldest, this`fileCtr, this`ring
      ensures Sound() && OldestTracked() && fileCtr < limit
      ensures ring == WithRoom(old(ring), limit)
      ensures forall n :: n in disk ==> n in old(disk)
    {
      while fileCtr >= limit
        invariant Sound() && OldestTracked()
        invariant forall n :: n in disk ==> n in old(disk)
        invariant if fileCtr == old(fileCtr) then ring == old(ring)
                  else old(fileCtr) == limit && fileCtr == limit - 1 && ring == Dropped(old(ring))
        decreases fileCtr
      {
        DropOldest(disk, ring);
        FirstIsNearest(disk.Keys, oldest, ring.first, |ring.files|);
        ghost var deleted := DelOldestLog();
        ring := Dropped(ring);
      }
    }

    /** The number for the next file; after a restart the ends of the ring are found again first. */
    method NextNumber(entries: seq<int>, again: seq<int>) returns (num: int)
      requires Valid() && state != Corrupted
      requires state == NotInitialized ==> Listing(entries, disk.Keys) && Listing(again, disk.Keys)
      modifies this`fileCtr, this`newest, this`oldest, this`state
      ensures Sound() && OldestTracked() && state == Ok
      ensures num == At(ring.first, |ring.files|)
    {
      if state == NotInitialized {
        fileCtr, newest, oldest := ScanDirectory(entries, again, limit, disk.Keys, ring.first, |ring.files|);
        num := newest;
        if fileCtr >= 1 {
          num := Succ(num);
        }
        state := Ok;
      } else {
        num := Succ(newest);
      }
    }

    method CreateFile(num: int)
      requires Sound() && OldestTracked() && fileCtr < limit && num == At(ring.first, |ring.files|)
      modifies this`disk, this`ring, this`pos, this`fileCtr, this`newest
      ensures Sound() && OldestTracked()
      ensures ring == old(ring).(files := old(ring).files + [[]])
      ensures newest == num && num !in old(disk) && num in disk && disk[num] == [] && pos == 0
    {
      AddFile(disk, ring, num);
      Open(num);
      ring := ring.(files := ring.files + [[]]);
      fileCtr := fileCtr + 1;
      newest := num;
    }

    /** The file after the newest, in a ring with room for it. */
    method AddNext(num: int)
      requires Sound() && OldestTracked() && num == At(ring.first, |ring.files|)
      modifies this`disk, this`oldest, this`fileCtr, this`ring, this`pos, this`newest
      ensures Sound() && OldestTracked() && ring == Allocated(old(ring), limit)
      ensures newest == num && num !in old(disk) && num in disk && disk[num] == [] && pos == 0
    {
      WindowAdd(disk.Keys, ring.first, |ring.files|, num);
      DeleteAboveLimit();
      CreateFile(num);
    }

    /** Makes room and opens the new file. */
    method Allocate(num: int, fault: AllocFault) returns (rc: int)
      requires Sound() && OldestTracked() && num == At(ring.first, |ring.files|)
      modifies this`disk, this`oldest, this`fileCtr, this`ring, this`pos, this`newest
      ensures rc < 0 <==> Hits(fault, false, old(ring), limit)
      ensures rc >= 0 ==> Sound() && OldestTracked() && ring == Allocated(old(ring), limit)
      ensures rc >= 0 ==> newest == num && num !in old(disk) && num in disk && disk[num] == [] && pos == 0
      ensures rc < 0 ==> Sound() && ring == Unallocated(fault, old(ring), limit)
    {
      if fileCtr >= limit && fault == UnlinkFails {
        return -EIO;
      }
      if fault == OpenFails {
        DeleteAboveLimit();
        return -EIO;
      }
      AddNext(num);
      return 0;
    }

    /** A new, empty, open file after the newest, and the oldest file gone if there were `limit` files. */
    method AllocateNewFile(entries: seq<int>, again: seq<int>, fault: AllocFault) returns (rc: int)
      requires Valid() && state != Corrupted
      requires state == NotInitialized ==> Listing(entries, disk.Keys) && Listing(again, disk.Keys)
      modifies this
      ensures rc < 0 <==> Hits(fault, old(state) == NotInitialized, old(ring), limit)
      ensures rc >= 0 ==>
        Valid() && state == Ok && ring == Allocated(old(ring), limit) && newest !in old(disk)
      ensures rc < 0 ==> Sound() && ring == Unallocated(fault, old(ring), limit)
    {
      if state == NotInitialized && fault == ScanFails {
        return -EIO;
      }
      var num := NextNumber(entries, again);
      rc := Allocate(num, fault);
    }

    /** fs_write at the open file's position. */
    method Append(data: Chunk)
      requires Valid() && state == Ok
      modifies this`disk, this`pos, this`ring
      ensures Valid() && ring == Appended(old(ring), data)
    {
      AppendToNewest(disk, ring, newest, data);
      disk := disk[newest := WriteAt(disk[newest], pos, data)];
      pos := pos + |data|;
      ring := Appended(ring, data);
    }

    /** The write and the sync, into the open file. */
    method Store(data: Chunk, fault: WriteFault) returns (processed: int)
      requires Valid() && state == Ok
      modifies this`disk, this`pos, this`ring, this`state
      ensures Valid() && IsOutcome(Stored(old(ring), data, fault), data, processed)
    {
      if fault == WriteFails {
        return 0;
      }
      Append(data);
      if fault == SyncFails {
        state := Corrupted;
      }
      return |data|;
    }

    ghost predicate IsOutcome(o: Outcome, data: Chunk, processed: int)
      reads `state, `ring
    {
      state == o.state && ring == o.ring && processed == if o.processed then |data| else 0
    }

    /** The write of an initialized backend, into a new file if the chunk would take the current one above the size
        limit. */
    method WriteReady(data: Chunk, fault: WriteFault) returns (processed: int)
      requires Valid() && state == Ok
      modifies this
      ensures Valid() && IsOutcome(WriteOutcome(old(ring), data, fault, limit, fileSize), data, processed)
    {
      if fault == TellFails {
        state := Corrupted;
        return |data|;
      }
      AppendToNewest(disk, ring, newest, data);
      if pos + |data| > fileSize {
        var rc := AllocateNewFile([], [], if fault.AllocFails? then fault.fault else NoAllocFault);
        if rc < 0 {
          state := Corrupted;
          return |data|;
        }
      }
      processed := Store(data, fault);
    }

    /** Writes a chunk, after the ring has been found or created if the backend is not initialized yet. */
    method WriteLogToFile(data: Chunk, mounted: bool, entries: seq<int>, again: seq<int>,
                          initFault: AllocFault, fault: WriteFault)
      returns (processed: int)
      requires Valid()
      requires state == NotInitialized ==> Listing(entries, disk.Keys) && Listing(again, disk.Keys)
      modifies this
      ensures Valid()
      ensures IsOutcome(LogOutcome(old(state), old(ring), data, mounted, initFault, fault, limit, fileSize),
                        data, processed)
    {
      if state == NotInitialized {
        if !mounted {
          return |data|;
        }
        var rc := AllocateNewFile(entries, again, initFault);
        state := if rc < 0 then Corrupted else Ok;
      }
      if state == Ok {
        processed := WriteReady(data, fault);
      } else {
        processed := |data|;
      }
    }
  }

  lemma FirstIsNearest(files: set<int>, from: int, first: int, count: int)
    requires IsWindow(files, first, count) && count > 0
    requires Numeral(from) && Dist(from, first) + count <= NUMERALS
    ensures IsNearest(files, from, first)
    ensures forall n :: IsNearest(files, from, n) ==> n == first
  {
    assert At(first, 0) in files;
  }

  // ---- any run of writes and restarts ----

  /** What is on disk, the state of the backend, and everything logged so far: every chunk that reached the disk. */
  datatype Log = Log(ring: Ring, state: BackendState, logged: seq<Chunk>)

  datatype Event = Write(data: Chunk, mounted: bool, initFault: AllocFault, fault: WriteFault) | Restart

  /** WriteLogToFile and Restart. */
  function Step(l: Log, e: Event, limit: int, fileSize: int): Log
    requires Numeral(l.ring.first) && 1 <= limit && (l.state == Ok ==> l.ring.files != [])
  {
    match e
    case Restart => Log(Restarted(l.ring), NotInitialized, l.logged)
    case Write(data, mounted, initFault, fault) =>
      var o := LogOutcome(l.state, l.ring, data, mounted, initFault, fault, limit, fileSize);
      Log(o.ring, o.state, if o.logged then l.logged + [data] else l.logged)
  }

  predicate Suffix(a: seq<Chunk>, b: seq<Chunk>) {
    |a| <= |b| && b[|b| - |a|..] == a
  }

  /** A file is above the size limit only if it holds a single chunk. */
  ghost predicate Fit(files: seq<seq<Chunk>>, fileSize: int) {
    forall i :: 0 <= i < |files| ==> |Bytes(files[i])| <= fileSize || |files[i]| == 1
  }

  /** The files hold the latest chunks, and all of them as long as no file was deleted. */
  ghost predicate RingInv(r: Ring, logged: seq<Chunk>, limit: int, fileSize: int) {
    && 1 <= limit && 0 <= fileSize
    && Numeral(r.first) && |r.files| <= limit
    && Suffix(Chunks(r.files), logged)
    && (!r.deleted ==> Chunks(r.files) == logged)
    && Fit(r.files, fileSize)
  }

  /** Files are deleted only at the limit; one less is left when the new file could not be opened. */
  ghost predicate LogInv(l: Log, limit: int, fileSize: int) {
    && RingInv(l.ring, l.logged, limit, fileSize)
    && (l.state == Ok ==> l.ring.files != [])
    && (l.ring.deleted ==> |l.ring.files| >= if l.state == Ok then limit else limit - 1)
  }

  lemma {:induction false} ChunksSnoc(files: seq<seq<Chunk>>, f: seq<Chunk>)
    ensures Chunks(files + [f]) == Chunks(files) + f
  {
    if files == [] {
      assert [f][1..] == [];
    } else {
      assert (files + [f])[1..] == files[1..] + [f];
      ChunksSnoc(files[1..], f);
    }
  }

  lemma RoomKeepsInv(r: Ring, logged: seq<Chunk>, limit: int, fileSize: int)
    requires RingInv(r, logged, limit, fileSize)
    ensures RingInv(WithRoom(r, limit), logged, limit, fileSize)
  {
    if |r.files| >= limit {
      SuffixTail(r.files[0], Chunks(r.files[1..]), logged);
    }
  }

  lemma SuffixTail(a: seq<Chunk>, b: seq<Chunk>, c: seq<Chunk>)
    requires Suffix(a + b, c)
    ensures Suffix(b, c)
  {
    assert c[|c| - |b|..] == c[|c| - |a + b|..][|a|..];
  }

  lemma SuffixSnoc(a: seq<Chunk>, b: seq<Chunk>, c: Chunk)
    requires Suffix(a, b)
    ensures Suffix(a + [c], b + [c])
  {
    assert (b + [c])[|b| - |a|..] == b[|b| - |a|..] + [c];
  }

  lemma AllocateKeepsInv(r: Ring, logged: seq<Chunk>, limit: int, fileSize: int)
    requires RingInv(r, logged, limit, fileSize)
    ensures RingInv(Allocated(r, limit), logged, limit, fileSize)
  {
    RoomKeepsInv(r, logged, limit, fileSize);
    ChunksSnoc(WithRoom(r, limit).files, []);
    assert Bytes([]) == [];
  }

  lemma AppendKeepsInv(r: Ring, logged: seq<Chunk>, c: Chunk, limit: int, fileSize: int)
    requires RingInv(r, logged, limit, fileSize) && r.files != []
    requires |Bytes(r.files[|r.files| - 1])| + |c| <= fileSize || r.files[|r.files| - 1] == []
    ensures RingInv(Appended(r, c), logged + [c], limit, fileSize)
  {
    AppendAddsChunk(r, c);
    SuffixSnoc(Chunks(r.files), logged, c);
    BytesSnoc(r.files[|r.files| - 1], c);
  }

  lemma AppendAddsChunk(r: Ring, c: Chunk)
    requires r.files != []
    ensures Chunks(Appended(r, c).files) == Chunks(r.files) + [c]
  {
    var k := |r.files| - 1;
    var f := r.files[k];
    assert r.files == r.files[..k] + [f];
    assert Appended(r, c).files == r.files[..k] + [f + [c]];
    ChunksSnoc(r.files[..k], f);
    ChunksSnoc(r.files[..k], f + [c]);
  }

  ghost predicate OutcomeInv(o: Outcome, logged: seq<Chunk>, c: Chunk, limit: int, fileSize: int) {
    LogInv(Log(o.ring, o.state, if o.logged then logged + [c] else logged), limit, fileSize)
  }

  lemma StoreKeepsInv(r: Ring, logged: seq<Chunk>, c: Chunk, fault: WriteFault, limit: int, fileSize: int)
    requires RingInv(r, logged, limit, fileSize) && r.files != [] && FullOnceDeleted(r, limit)
    requires |Bytes(r.files[|r.files| - 1])| + |c| <= fileSize || r.files[|r.files| - 1] == []
    ensures OutcomeInv(Stored(r, c, fault), logged, c, limit, fileSize)
  {
    AppendKeepsInv(r, logged, c, limit, fileSize);
  }

  /** Files are deleted only to make room for a new one. */
  predicate FullOnceDeleted(r: Ring, limit: int) {
    r.deleted ==> |r.files| >= limit
  }

  lemma AllocatedFull(r: Ring, limit: int)
    requires Numeral(r.first) && 1 <= limit && |r.files| <= limit && FullOnceDeleted(r, limit)
    ensures FullOnceDeleted(Allocated(r, limit), limit) && |Allocated(r, limit).files| <= limit
    ensures var files := Allocated(r, limit).files; files != [] && files[|files| - 1] == []
  {
  }

  /** The chunk needs a new file. */
  lemma NewFileKeepsInv(r: Ring, logged: seq<Chunk>, c: Chunk, fault: WriteFault, limit: int, fileSize: int, r': Ring)
    requires RingInv(r, logged, limit, fileSize) && FullOnceDeleted(r, limit) && r' == Allocated(r, limit)
    ensures OutcomeInv(Stored(r', c, fault), logged, c, limit, fileSize)
  {
    AllocateKeepsInv(r, logged, limit, fileSize);
    AllocatedFull(r, limit);
    StoreKeepsInv(r', logged, c, fault, limit, fileSize);
  }

  /** ... and does not get one. */
  lemma NoFileKeepsInv(r: Ring, logged: seq<Chunk>, c: Chunk, fault: AllocFault, limit: int, fileSize: int)
    requires RingInv(r, logged, limit, fileSize) && (r.deleted ==> |r.files| >= limit - 1)
    ensures OutcomeInv(Outcome(Corrupted, Unallocated(fault, r, limit), false, true), logged, c, limit, fileSize)
  {
    RoomKeepsInv(r, logged, limit, fileSize);
  }

  lemma WriteKeepsInv(r: Ring, logged: seq<Chunk>, c: Chunk, fault: WriteFault, limit: int, fileSize: int)
    requires RingInv(r, logged, limit, fileSize) && r.files != [] && FullOnceDeleted(r, limit)
    ensures OutcomeInv(WriteOutcome(r, c, fault, limit, fileSize), logged, c, limit, fileSize)
  {
    if fault.TellFails? {
    } else if |Bytes(r.files[|r.files| - 1])| + |c| > fileSize {
      if fault.AllocFails? && Hits(fault.fault, false, r, limit) {
        NoFileKeepsInv(r, logged, c, fault.fault, limit, fileSize);
      } else {
        NewFileKeepsInv(r, logged, c, fault, limit, fileSize, Allocated(r, limit));
      }
    } else {
      StoreKeepsInv(r, logged, c, fault, limit, fileSize);
    }
  }

  lemma AllocatedFullUnder(r: Ring, limit: int)
    requires Numeral(r.first) && 1 <= limit && |r.files| <= limit && (r.deleted ==> |r.files| >= limit - 1)
    ensures FullOnceDeleted(Allocated(r, limit), limit)
  {
  }

  lemma InitKeepsInv(l: Log, e: Event, limit: int, fileSize: int)
    requires LogInv(l, limit, fileSize) && e.Write? && l.state == NotInitialized && e.mounted
    ensures LogInv(Step(l, e, limit, fileSize), limit, fileSize)
  {
    if Hits(e.initFault, true, l.ring, limit) {
      NoFileKeepsInv(l.ring, l.logged, e.data, e.initFault, limit, fileSize);
    } else {
      AllocateKeepsInv(l.ring, l.logged, limit, fileSize);
      AllocatedFullUnder(l.ring, limit);
      WriteKeepsInv(Allocated(l.ring, limit), l.logged, e.data, e.fault, limit, fileSize);
    }
  }

  lemma StepKeepsInv(l: Log, e: Event, limit: int, fileSize: int)
    requires LogInv(l, limit, fileSize)
    ensures LogInv(Step(l, e, limit, fileSize), limit, fileSize)
  {
    if e.Write? && l.state == Ok {
      WriteKeepsInv(l.ring, l.logged, e.data, e.fault, limit, fileSize);
    } else if e.Write? && l.state == NotInitialized && e.mounted {
      InitKeepsInv(l, e, limit, fileSize);
    }
  }

  ghost function Run(l: Log, events: seq<Event>, limit: int, fileSize: int): (l': Log)
    requires LogInv(l, limit, fileSize)
    ensures LogInv(l', limit, fileSize)
    decreases |events|
  {
    if events == [] then l
    else
      StepKeepsInv(l, events[0], limit, fileSize);
      Run(Step(l, events[0], limit, fileSize), events[1..], limit, fileSize)
  }

  /** The content of `count` files from `first` on, in circular order. */
  function InOrder(disk: map<int, seq<byte>>, first: int, count: int): seq<byte>
    requires Numeral(first) && 0 <= count <= NUMERALS
    requires forall k :: 0 <= k < count ==> At(first, k) in disk
  {
    if count == 0 then [] else InOrder(disk, first, count - 1) + disk[At(first, count - 1)]
  }

  lemma {:induction false} BytesConcat(a: seq<Chunk>, b: seq<Chunk>)
    ensures Bytes(a + b) == Bytes(a) + Bytes(b)
  {
    if b == [] {
      assert a + b == a;
    } else {
      var k := |b| - 1;
      var c := b[k];
      BytesConcat(a, b[..k]);
      assert b == b[..k] + [c] && a + b == (a + b[..k]) + [c];
      BytesSnoc(b[..k], c);
      BytesSnoc(a + b[..k], c);
      assert (Bytes(a) + Bytes(b[..k])) + c == Bytes(a) + (Bytes(b[..k]) + c);
    }
  }

  lemma {:induction false} InOrderIsChunks(disk: map<int, seq<byte>>, r: Ring, count: int)
    requires Represents(disk, r) && 0 <= count <= |r.files|
    ensures InOrder(disk, r.first, count) == Bytes(Chunks(r.files[..count]))
  {
    if count > 0 {
      InOrderIsChunks(disk, r, count - 1);
      assert r.files[..count] == r.files[..count - 1] + [r.files[count - 1]];
      ChunksSnoc(r.files[..count - 1], r.files[count - 1]);
      BytesConcat(Chunks(r.files[..count - 1]), r.files[count - 1]);
    } else {
      assert r.files[..0] == [];
    }
  }

  /** The files on disk, read in circular order, are the last chunks logged, each whole, and all of them as long as no
      file was deleted. */
  ghost predicate HoldsLatest(disk: map<int, seq<byte>>, r: Ring, logged: seq<Chunk>) {
    && Represents(disk, r)
    && exists k :: 0 <= k <= |logged|
         && InOrder(disk, r.first, |r.files|) == Bytes(logged[k..])
         && (!r.deleted ==> k == 0)
  }

  lemma InvHoldsLatest(disk: map<int, seq<byte>>, r: Ring, logged: seq<Chunk>, limit: int, fileSize: int)
    requires RingInv(r, logged, limit, fileSize) && Represents(disk, r)
    ensures HoldsLatest(disk, r, logged)
  {
    InOrderIsChunks(disk, r, |r.files|);
    assert r.files[..|r.files|] == r.files;
    var k := |logged| - |Chunks(r.files)|;
    assert InOrder(disk, r.first, |r.files|) == Bytes(logged[k..]);
  }

  lemma OneChunk(f: seq<Chunk>)
    requires |f| == 1
    ensures f == [Bytes(f)]
  {
    assert f[..0] == [];
    assert Bytes(f) == [] + f[0] == f[0];
  }

  /** On disk: at most `limit` files that hold the latest chunks, none above the size limit except a file that is a
      single chunk. */
  ghost predicate KeepsLatest(disk: map<int, seq<byte>>, r: Ring, logged: seq<Chunk>, limit: int, fileSize: int) {
    && HoldsLatest(disk, r, logged)
    && |disk.Keys| == |r.files| <= limit
    && forall k :: 0 <= k < |r.files| ==>
         |disk[At(r.first, k)]| <= fileSize || r.files[k] == [disk[At(r.first, k)]]
  }

  lemma InvKeepsLatest(disk: map<int, seq<byte>>, r: Ring, logged: seq<Chunk>, limit: int, fileSize: int)
    requires RingInv(r, logged, limit, fileSize) && Represents(disk, r)
    ensures KeepsLatest(disk, r, logged, limit, fileSize)
  {
    WindowSize(disk.Keys, r.first, |r.files|);
    InvHoldsLatest(disk, r, logged, limit, fileSize);
    forall k | 0 <= k < |r.files|
      ensures |disk[At(r.first, k)]| <= fileSize || r.files[k] == [disk[At(r.first, k)]]
    {
      if |r.files[k]| == 1 {
        OneChunk(r.files[k]);
      }
    }
  }

  /** From an empty directory, or from files that hold the end of an earlier log, after any run of writes, restarts and
      failing file-system calls: the files on disk, read in circular order, are the last chunks that reached the disk,
      each whole; all of them while there are fewer files than the limit allows and none could have been deleted; there
      are never more files than the limit, and a file is above the size limit only if it is a single chunk that is. */
  lemma LatestChunksKept(l: Log, events: seq<Event>, limit: int, fileSize: int)
    requires LogInv(l, limit, fileSize)
    ensures var l' := Run(l, events, limit, fileSize);
      && (|l'.ring.files| < limit - 1 || (l'.state == Ok && |l'.ring.files| < limit) ==> !l'.ring.deleted)
      && forall disk :: Represents(disk, l'.ring) ==> KeepsLatest(disk, l'.ring, l'.logged, limit, fileSize)
  {
    var l' := Run(l, events, limit, fileSize);
    forall disk | Represents(disk, l'.ring)
      ensures KeepsLatest(disk, l'.ring, l'.logged, limit, fileSize)
    {
      InvKeepsLatest(disk, l'.ring, l'.logged, limit, fileSize);
    }
  }

  // ---- runs without failures ----

  predicate FaultFree(e: Event) {
    e.Write? ==> e.mounted && e.initFault == NoAllocFault && e.fault == NoWriteFault
  }

  /** The chunks of all writes, in order. */
  function Writes(events: seq<Event>): seq<Chunk> {
    if events == [] then []
    else (if events[0].Write? then [events[0].data] else []) + Writes(events[1..])
  }

  lemma FaultFreeWrite(r: Ring, c: Chunk, limit: int, fileSize: int)
    requires Numeral(r.first) && 1 <= limit && r.files != [] && |r.files| <= limit && FullOnceDeleted(r, limit)
    ensures var o := WriteOutcome(r, c, NoWriteFault, limit, fileSize);
      o.state == Ok && o.logged && FullOnceDeleted(o.ring, limit)
  {
    AllocatedFull(r, limit);
  }

  /** A write without failures goes to an initialized ring, or to one with a first, empty file. */
  lemma PlainStep(l: Log, e: Event, limit: int, fileSize: int, r: Ring)
    requires Numeral(l.ring.first) && 1 <= limit && e.Write? && FaultFree(e)
    requires if l.state == Ok then l.ring.files != [] && r == l.ring
             else l.state == NotInitialized && r == Allocated(l.ring, limit)
    ensures var o := WriteOutcome(r, e.data, NoWriteFault, limit, fileSize);
      Step(l, e, limit, fileSize)
        == Log(o.ring, o.state, if o.logged then l.logged + [e.data] else l.logged)
  {
  }

  lemma FaultFreeStep(l: Log, e: Event, limit: int, fileSize: int, l': Log)
    requires LogInv(l, limit, fileSize) && l.state != Corrupted && FaultFree(e)
    requires FullOnceDeleted(l.ring, limit)
    requires l' == Step(l, e, limit, fileSize)
    ensures l'.state != Corrupted && FullOnceDeleted(l'.ring, limit)
    ensures l'.logged == l.logged + if e.Write? then [e.data] else []
  {
    if e.Write? {
      AllocatedFull(l.ring, limit);
      var r := if l.state == Ok then l.ring else Allocated(l.ring, limit);
      FaultFreeWriteStep(l, e, limit, fileSize, l', r);
    } else {
      assert l.logged + [] == l.logged;
    }
  }

  lemma FaultFreeWriteStep(l: Log, e: Event, limit: int, fileSize: int, l': Log, r: Ring)
    requires Numeral(l.ring.first) && 1 <= limit && e.Write? && FaultFree(e)
    requires if l.state == Ok then l.ring.files != [] && r == l.ring
             else l.state == NotInitialized && r == Allocated(l.ring, limit)
    requires Numeral(r.first) && r.files != [] && |r.files| <= limit && FullOnceDeleted(r, limit)
    requires l' == Step(l, e, limit, fileSize)
    ensures l'.state != Corrupted && FullOnceDeleted(l'.ring, limit) && l'.logged == l.logged + [e.data]
  {
    PlainStep(l, e, limit, fileSize, r);
    FaultFreeWrite(r, e.data, limit, fileSize);
  }

  lemma RunFirst(l: Log, events: seq<Event>, limit: int, fileSize: int) returns (l': Log)
    requires LogInv(l, limit, fileSize) && events != []
    ensures l' == Step(l, events[0], limit, fileSize) && LogInv(l', limit, fileSize)
    ensures Run(l, events, limit, fileSize) == Run(l', events[1..], limit, fileSize)
  {
    StepKeepsInv(l, events[0], limit, fileSize);
    l' := Step(l, events[0], limit, fileSize);
  }

  /** Without failures nothing written is missing from what is logged, and files are deleted only at the limit. */
  lemma {:induction false} FaultFreeLogsAll(l: Log, events: seq<Event>, limit: int, fileSize: int, last: Log)
    requires LogInv(l, limit, fileSize) && l.state != Corrupted
    requires FullOnceDeleted(l.ring, limit)
    requires forall i :: 0 <= i < |events| ==> FaultFree(events[i])
    requires last == Run(l, events, limit, fileSize)
    ensures last.logged == l.logged + Writes(events)
    ensures FullOnceDeleted(last.ring, limit)
    decreases |events|
  {
    if events != [] {
      var l' := RunFirst(l, events, limit, fileSize);
      FaultFreeStep(l, events[0], limit, fileSize, l');
      FaultFreeLogsAll(l', events[1..], limit, fileSize, last);
      Joined(l.logged, if events[0].Write? then [events[0].data] else [], Writes(events[1..]));
    }
  }

  lemma Joined(a: seq<Chunk>, b: seq<Chunk>, c: seq<Chunk>)
    ensures (a + b) + c == a + (b + c)
  {
  }

  function EmptyLog(): Log {
    Log(Ring(0, [], false), NotInitialized, [])
  }

  /** From an empty directory, after any run of writes and restarts in which no file-system call fails: the files on
      disk, read in circular order, are the last of the chunks written, each whole; all of them while there are fewer
      files than the limit; and the limits hold as in `KeepsLatest`. */
  lemma AllWritesKept(events: seq<Event>, limit: int, fileSize: int)
    requires 1 <= limit && 0 <= fileSize
    requires forall i :: 0 <= i < |events| ==> FaultFree(events[i])
    ensures LogInv(EmptyLog(), limit, fileSize)
    ensures var r := Run(EmptyLog(), events, limit, fileSize).ring;
      && (|r.files| < limit ==> !r.deleted)
      && forall disk :: Represents(disk, r) ==> KeepsLatest(disk, r, Writes(events), limit, fileSize)
  {
    FaultFreeLogsAll(EmptyLog(), events, limit, fileSize, Run(EmptyLog(), events, limit, fileSize));
    LatestChunksKept(EmptyLog(), events, limit, fileSize);
    assert [] + Writes(events) == Writes(events);
  }

  /** A chunk that the caller is told was processed has reached the disk, unless the volume was not mounted or the
      backend has gone to the corrupted state; a chunk it is told was not processed has not, so it can try again. */
  lemma ProcessedIsLogged(state: BackendState, r: Ring, c: Chunk, mounted: bool, initFault: AllocFault,
                          fault: WriteFault, limit: int, fileSize: int)
    requires Numeral(r.first) && 1 <= limit && (state == Ok ==> r.files != [])
    ensures var o := LogOutcome(state, r, c, mounted, initFault, fault, limit, fileSize);
      && (o.processed && o.state == Ok ==> o.logged)
      && (!o.processed ==> !o.logged && o.state == Ok)
      && (o.state == NotInitialized <==> state == NotInitialized && !mounted)
      && (state == Corrupted ==> o.state == Corrupted && o.ring == r && !o.logged)
  {
  }

  /** No failure goes unnoticed: a failing tell or sync, and a failing allocation where one is needed, leave the backend
      corrupted, and only a chunk whose sync failed is on disk then; a failing fs_write is reported to the caller. */
  lemma FailuresShow(r: Ring, c: Chunk, fault: WriteFault, limit: int, fileSize: int)
    requires Numeral(r.first) && 1 <= limit && r.files != []
    ensures var o := WriteOutcome(r, c, fault, limit, fileSize);
      var full := |Bytes(r.files[|r.files| - 1])| + |c| > fileSize;
      && (fault == TellFails || fault == SyncFails ==> o.state == Corrupted)
      && (fault == AllocFails(OpenFails) && full ==> o.state == Corrupted)
      && (fault == AllocFails(UnlinkFails) && full && |r.files| >= limit ==> o.state == Corrupted && o.ring == r)
      && (fault == WriteFails ==> !o.processed && !o.logged)
      && (o.state == Corrupted && o.logged ==> fault == SyncFails)
  {
  }

  /** The same for the first write after a restart. */
  lemma InitFailuresShow(r: Ring, c: Chunk, initFault: AllocFault, fault: WriteFault, limit: int, fileSize: int)
    requires Numeral(r.first) && 1 <= limit
    ensures var o := LogOutcome(NotInitialized, r, c, true, initFault, fault, limit, fileSize);
      && (initFault == ScanFails || initFault == OpenFails ==> o.state == Corrupted && !o.logged)
      && (initFault == UnlinkFails && |r.files| >= limit ==> o.state == Corrupted && !o.logged && o.ring == r)
  {
  }

  /** After a restart, the next chunk begins a file of its own; the other files are those of before, but for the oldest
      if there were as many as the limit (and one more if the chunk is larger than a file). */
  lemma RestartBeginsFile(l: Log, c: Chunk, limit: int, fileSize: int)
    requires LogInv(l, limit, fileSize)
    ensures var l1 := Step(l, Restart, limit, fileSize);
      var l2 := Step(l1, Write(c, true, NoAllocFault, NoWriteFault), limit, fileSize);
      var kept := if |l.ring.files| >= limit then l.ring.files[1..] else l.ring.files;
      && l1.ring.files == l.ring.files && l1.logged == l.logged
      && l2.state == Ok && l2.logged == l.logged + [c]
      && l2.ring.files != [] && l2.ring.files[|l2.ring.files| - 1] == [c]
      && (|c| <= fileSize ==> l2.ring.files == kept + [[c]])
  {
    var l1 := Step(l, Restart, limit, fileSize);
    var r := Allocated(l1.ring, limit);
    PlainStep(l1, Write(c, true, NoAllocFault, NoWriteFault), limit, fileSize, r);
    FaultFreeWriteOk(r, c, limit, fileSize);
    WrittenFiles(r, c, limit, fileSize);
    LastIsFirstChunk(WithRoom(l1.ring, limit).files, c);
  }

  lemma LastIsFirstChunk(files: seq<seq<Chunk>>, c: Chunk)
    ensures var all := files + [[]]; all[|all| - 1 := all[|all| - 1] + [c]] == files + [[c]]
    ensures Bytes((files + [[]])[|files|]) == []
  {
    FirstChunk(files, c);
  }

  // ---- how full files get ----

  /** Writes only, and none fails. */
  predicate PlainWrites(events: seq<Event>) {
    forall i :: 0 <= i < |events| ==> events[i].Write? && FaultFree(events[i])
  }

  lemma PlainTail(events: seq<Event>)
    requires PlainWrites(events) && events != []
    ensures PlainWrites(events[1..]) && events[0].Write? && FaultFree(events[0])
  {
  }

  /** File k - 1 has no room for the first chunk of file k. */
  predicate NoRoom(files: seq<seq<Chunk>>, k: int, fileSize: int)
    requires 0 < k < |files|
  {
    files[k] != [] && |Bytes(files[k - 1])| + |files[k][0]| > fileSize
  }

  /** A file was left only for a chunk that did not fit it. */
  ghost predicate Packed(files: seq<seq<Chunk>>, fileSize: int) {
    forall k :: 0 < k < |files| ==> NoRoom(files, k, fileSize)
  }

  lemma PackedTail(files: seq<seq<Chunk>>, fileSize: int)
    requires Packed(files, fileSize) && files != []
    ensures Packed(files[1..], fileSize)
  {
    forall k | 0 < k < |files[1..]|
      ensures NoRoom(files[1..], k, fileSize)
    {
      assert NoRoom(files, k + 1, fileSize);
    }
  }

  /** A new file with the chunk that did not fit the last one. */
  lemma PackedNewFile(files: seq<seq<Chunk>>, c: Chunk, fileSize: int)
    requires Packed(files, fileSize)
    requires files != [] ==> |Bytes(files[|files| - 1])| + |c| > fileSize
    ensures Packed(files + [[c]], fileSize)
  {
    forall k | 0 < k < |files|
      ensures NoRoom(files + [[c]], k, fileSize)
    {
      assert NoRoom(files, k, fileSize);
    }
  }

  /** One more chunk in the last file. */
  lemma PackedAppend(files: seq<seq<Chunk>>, c: Chunk, fileSize: int)
    requires Packed(files, fileSize) && files != []
    ensures Packed(files[|files| - 1 := files[|files| - 1] + [c]], fileSize)
  {
    var files' := files[|files| - 1 := files[|files| - 1] + [c]];
    forall k | 0 < k < |files'|
      ensures NoRoom(files', k, fileSize)
    {
      assert NoRoom(files, k, fileSize);
    }
  }

  /** The files after a write without failures. */
  lemma WrittenFiles(r: Ring, c: Chunk, limit: int, fileSize: int)
    requires Numeral(r.first) && 1 <= limit && r.files != []
    ensures var k, files := |r.files| - 1, WriteOutcome(r, c, NoWriteFault, limit, fileSize).ring.files;
      files == if |Bytes(r.files[k])| + |c| > fileSize then WithRoom(r, limit).files + [[c]]
               else r.files[k := r.files[k] + [c]]
  {
    FirstChunk(WithRoom(r, limit).files, c);
  }

  lemma FirstChunk(files: seq<seq<Chunk>>, c: Chunk)
    ensures var all := files + [[]]; all[|all| - 1 := all[|all| - 1] + [c]] == files + [[c]]
  {
    assert [] + [c] == [c];
  }

  lemma PackedWrite(r: Ring, c: Chunk, limit: int, fileSize: int, files: seq<seq<Chunk>>)
    requires Numeral(r.first) && 1 <= limit && r.files != [] && Packed(r.files, fileSize)
    requires files == WriteOutcome(r, c, NoWriteFault, limit, fileSize).ring.files
    ensures files != [] && Packed(files, fileSize)
  {
    WrittenFiles(r, c, limit, fileSize);
    if |Bytes(r.files[|r.files| - 1])| + |c| > fileSize {
      PackedTail(r.files, fileSize);
      PackedNewFile(WithRoom(r, limit).files, c, fileSize);
    } else {
      PackedAppend(r.files, c, fileSize);
    }
  }

  /** Before anything was written, or initialized and packed. */
  ghost predicate PackedLog(l: Log, fileSize: int) {
    match l.state
    case NotInitialized => l.ring.files == []
    case Corrupted => false
    case Ok => l.ring.files != [] && Packed(l.ring.files, fileSize)
  }

  lemma PackedStep(l: Log, e: Event, limit: int, fileSize: int, l': Log)
    requires LogInv(l, limit, fileSize) && PackedLog(l, fileSize) && e.Write? && FaultFree(e)
    requires l' == Step(l, e, limit, fileSize)
    ensures PackedLog(l', fileSize)
  {
    var r := if l.state == Ok then l.ring else Allocated(l.ring, limit);
    assert l.state == NotInitialized ==> |r.files| == 1;
    PlainStep(l, e, limit, fileSize, r);
    PackedReady(r, e.data, limit, fileSize, l'.state, l'.ring.files);
  }

  lemma PackedReady(r: Ring, c: Chunk, limit: int, fileSize: int, state: BackendState, files: seq<seq<Chunk>>)
    requires Numeral(r.first) && 1 <= limit && r.files != [] && Packed(r.files, fileSize)
    requires var o := WriteOutcome(r, c, NoWriteFault, limit, fileSize); state == o.state && files == o.ring.files
    ensures state == Ok && files != [] && Packed(files, fileSize)
  {
    FaultFreeWriteOk(r, c, limit, fileSize);
    PackedWrite(r, c, limit, fileSize, files);
  }

  lemma FaultFreeWriteOk(r: Ring, c: Chunk, limit: int, fileSize: int)
    requires Numeral(r.first) && 1 <= limit && r.files != []
    ensures WriteOutcome(r, c, NoWriteFault, limit, fileSize).state == Ok
  {
  }

  lemma {:induction false} PackedRun(l: Log, events: seq<Event>, limit: int, fileSize: int, last: Log)
    requires LogInv(l, limit, fileSize) && PackedLog(l, fileSize)
    requires PlainWrites(events)
    requires last == Run(l, events, limit, fileSize)
    ensures PackedLog(last, fileSize)
    decreases |events|
  {
    if events != [] {
      var l' := RunFirst(l, events, limit, fileSize);
      PlainTail(events);
      PackedStep(l, events[0], limit, fileSize, l');
      PackedRun(l', events[1..], limit, fileSize, last);
    }
  }

  lemma EmptyLogInv(limit: int, fileSize: int)
    requires 1 <= limit && 0 <= fileSize
    ensures LogInv(EmptyLog(), limit, fileSize) && PackedLog(EmptyLog(), fileSize)
  {
  }

  /** From an empty directory, over writes without failures or restarts: of two adjacent files, the first has no room
      for the first chunk of the second. */
  lemma FilesAreFilled(events: seq<Event>, limit: int, fileSize: int)
    requires 1 <= limit && 0 <= fileSize
    requires PlainWrites(events)
    ensures LogInv(EmptyLog(), limit, fileSize)
    ensures Packed(Run(EmptyLog(), events, limit, fileSize).ring.files, fileSize)
  {
    EmptyLogInv(limit, fileSize);
    var last := Run(EmptyLog(), events, limit, fileSize);
    PackedRun(EmptyLog(), events, limit, fileSize, last);
  }

  /** What the log is while everything fits one file. */
  predicate InOneFile(l: Log) {
    match l.state
    case NotInitialized => l == EmptyLog()
    case Corrupted => false
    case Ok => l.ring == Ring(0, [l.logged], false)
  }

  lemma OneFileStep(l: Log, e: Event, limit: int, fileSize: int, l': Log)
    requires 1 <= limit && InOneFile(l) && e.Write? && FaultFree(e)
    requires |Bytes(l.logged)| + |e.data| <= fileSize
    requires l' == Step(l, e, limit, fileSize)
    ensures l' == Log(Ring(0, [l.logged + [e.data]], false), Ok, l.logged + [e.data])
  {
    assert Bytes([]) == [];
    if l.state == NotInitialized {
      assert Allocated(l.ring, limit).files == [[]];
      assert [[]][0 := [e.data]] == [[e.data]] && l.logged + [e.data] == [e.data];
    } else {
      assert [l.logged][0 := l.logged + [e.data]] == [l.logged + [e.data]];
    }
  }

  lemma FitsFirst(logged: seq<Chunk>, c: Chunk, rest: seq<Chunk>, fileSize: int)
    requires |Bytes(logged + ([c] + rest))| <= fileSize
    ensures |Bytes(logged)| + |c| <= fileSize && |Bytes((logged + [c]) + rest)| <= fileSize
  {
    Joined(logged, [c], rest);
    BytesConcat(logged + [c], rest);
    BytesSnoc(logged, c);
  }

  lemma {:induction false} OneFileRun(l: Log, events: seq<Event>, limit: int, fileSize: int, last: Log)
    requires LogInv(l, limit, fileSize) && InOneFile(l)
    requires PlainWrites(events)
    requires |Bytes(l.logged + Writes(events))| <= fileSize
    requires last == Run(l, events, limit, fileSize)
    ensures InOneFile(last) && (events != [] || l.state == Ok ==> last.state == Ok)
    decreases |events|
  {
    if events != [] {
      PlainTail(events);
      FitsFirst(l.logged, events[0].data, Writes(events[1..]), fileSize);
      var l' := RunFirst(l, events, limit, fileSize);
      OneFileStep(l, events[0], limit, fileSize, l');
      OneFileRun(l', events[1..], limit, fileSize, last);
    }
  }

  /** While all writes together fit the size of a file, there is one file, which holds them all, and nothing is
      deleted. */
  lemma OneFileWhileItFits(events: seq<Event>, limit: int, fileSize: int)
    requires 1 <= limit && events != []
    requires PlainWrites(events)
    requires |Bytes(Writes(events))| <= fileSize
    ensures LogInv(EmptyLog(), limit, fileSize)
    ensures Run(EmptyLog(), events, limit, fileSize).ring == Ring(0, [Writes(events)], false)
  {
    EmptyLogInv(limit, fileSize);
    var last := Run(EmptyLog(), events, limit, fileSize);
    assert [] + Writes(events) == Writes(events);
    OneFileRun(EmptyLog(), events, limit, fileSize, last);
    FaultFreeLogsAll(EmptyLog(), events, limit, fileSize, last);
  }

  /** Once the backend has seen an error, it writes nothing until the next restart. */
  lemma {:induction false} CorruptedWritesNothing(l: Log, events: seq<Event>, limit: int, fileSize: int)
    requires LogInv(l, limit, fileSize) && l.state == Corrupted && forall e :: e in events ==> e.Write?
    ensures Run(l, events, limit, fileSize) == l
    decreases |events|
  {
    if events != [] {
      assert events[0] in events;
      assert Step(l, events[0], limit, fileSize) == l;
      CorruptedWritesNothing(l, events[1..], limit, fileSize);
    }
  }
}
