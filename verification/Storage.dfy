/** The storage contract the engine is written against: positioned writes,
    truncation and sync over files whose unsynced operations may be lost. */
module Storage {
  import opened Bytes

  // --- file contents -------------------------------------------------------

  /** Truncate may shrink or zero-extend. */
  function Resize(d: bytes, size: nat): (r: bytes)
    ensures |r| == size
  {
    if size <= |d| then d[..size] else d + Zeros(size - |d|)
  }

  /** A positioned write; a gap before `offset` is filled with zeros. */
  function Splice(d: bytes, offset: nat, data: bytes): (r: bytes)
    ensures |r| == if data == [] then |d| else Max(|d|, offset + |data|)
  {
    if data == [] then d
    else Resize(d, offset) + data + (if offset + |data| < |d| then d[offset + |data|..] else [])
  }

  lemma {:induction false} SpliceKeeps(d: bytes, offset: nat, data: bytes, a: nat, b: nat)
    requires a <= b <= |d| && (b <= offset || offset + |data| <= a)
    ensures Splice(d, offset, data)[a..b] == d[a..b]
  {
    if data != [] && b > offset {
      var r := Splice(d, offset, data);
      forall i | a <= i < b
        ensures r[i] == d[i]
      {
        assert r[i] == d[offset + |data|..][i - offset - |data|];
      }
    }
  }

  lemma {:induction false} SpliceHits(d: bytes, offset: nat, data: bytes)
    requires data != []
    ensures Splice(d, offset, data)[offset..offset + |data|] == data
  {
  }

  /** Two writes that meet are one write. */
  lemma {:induction false} SpliceJoin(d: bytes, offset: nat, x: bytes, y: bytes)
    ensures Splice(Splice(d, offset, x), offset + |x|, y) == Splice(d, offset, x + y)
  {
    if x == [] {
      assert x + y == y;
    } else if y == [] {
      assert x + y == x;
    } else {
      var once := Splice(d, offset, x);
      assert Resize(once, offset + |x|) == Resize(d, offset) + x;
    }
  }

  // --- unsynced operations and crashes -------------------------------------

  datatype Op = Write(offset: nat, data: bytes) | Truncate(size: nat)

  function Apply(d: bytes, op: Op): bytes
  {
    match op
    case Write(offset, data) => Splice(d, offset, data)
    case Truncate(size) => Resize(d, size)
  }

  /** A file as its last synced contents and the operations issued since. */
  datatype File = File(stable: bytes, pending: seq<Op>)

  function Replay(d: bytes, ops: seq<Op>): bytes
  {
    if ops == [] then d else Apply(Replay(d, ops[..|ops| - 1]), ops[|ops| - 1])
  }

  /** What reads see. */
  function Volatile(f: File): bytes { Replay(f.stable, f.pending) }

  function Issue(f: File, op: Op): File { f.(pending := f.pending + [op]) }

  function Sync(f: File): File { File(Volatile(f), []) }

  /** The part of an operation that took effect: k bytes of a write, or none or
      all of a truncation. */
  predicate Part(op: Op, part: Op)
  {
    match op
    case Write(offset, data) => part.Write? && part.offset == offset && part.data <= data
    case Truncate(_) => part == op
  }

  /** A crash keeps a prefix of the unsynced operations, the last one possibly in part. */
  ghost predicate CrashImage(f: File, x: bytes)
  {
    exists n: nat :: n <= |f.pending| && CrashAt(f, n, x)
  }

  ghost predicate CrashAt(f: File, n: nat, x: bytes)
    requires n <= |f.pending|
  {
    var kept := Replay(f.stable, f.pending[..n]);
    x == kept || (n < |f.pending| && exists part :: Part(f.pending[n], part) && x == Apply(kept, part))
  }

  lemma {:induction false} VolatileIsImage(f: File)
    ensures CrashImage(f, Volatile(f))
  {
    assert f.pending[..|f.pending|] == f.pending;
    assert CrashAt(f, |f.pending|, Volatile(f));
  }

  lemma {:induction false} SyncedImage(f: File, x: bytes)
    requires f.pending == [] && CrashImage(f, x)
    ensures x == f.stable
  {
  }

  lemma {:induction false} IssueVolatile(f: File, op: Op)
    ensures Volatile(Issue(f, op)) == Apply(Volatile(f), op)
  {
    assert Issue(f, op).pending[..|f.pending|] == f.pending;
  }

  /** Issuing an operation adds only its own partial effects to the crash images. */
  lemma {:induction false} IssueImage(f: File, op: Op, x: bytes)
    requires CrashImage(Issue(f, op), x)
    ensures CrashImage(f, x) || exists part :: Part(op, part) && x == Apply(Volatile(f), part)
  {
    var g := Issue(f, op);
    var n: nat :| n <= |g.pending| && CrashAt(g, n, x);
    if n == |g.pending| {
      assert g.pending[..n] == g.pending;
      IssueVolatile(f, op);
      assert Part(op, op);
    } else {
      assert g.pending[..n] == f.pending[..n];
      if n == |f.pending| {
        assert f.pending[..n] == f.pending;
        if x == Volatile(f) {
          VolatileIsImage(f);
        }
      } else {
        assert CrashAt(f, n, x);
      }
    }
  }

  /** A partly performed operation leaves no image the whole one could not. */
  lemma {:induction false} PartImage(f: File, op: Op, part: Op, x: bytes)
    requires Part(op, part) && CrashImage(Issue(f, part), x)
    ensures CrashImage(Issue(f, op), x)
  {
    var g, h := Issue(f, part), Issue(f, op);
    var n: nat :| n <= |g.pending| && CrashAt(g, n, x);
    if n < |g.pending| {
      assert g.pending[..n] == h.pending[..n];
      if x != Replay(g.stable, g.pending[..n]) {
        var p :| Part(g.pending[n], p) && x == Apply(Replay(g.stable, g.pending[..n]), p);
        assert Part(h.pending[n], p);
      }
      assert CrashAt(h, n, x);
    } else {
      assert g.pending[..n] == g.pending;
      IssueVolatile(f, part);
      assert h.pending[..|f.pending|] == f.pending;
      assert CrashAt(h, |f.pending|, x);
    }
  }

  // --- a pair of files -----------------------------------------------------

  datatype Disk = Disk(db: File, wal: File)

  datatype Io = Db(op: Op) | Wal(op: Op) | SyncDb | SyncWal

  function Perform(disk: Disk, io: Io): Disk
  {
    match io
    case Db(op) => disk.(db := Issue(disk.db, op))
    case Wal(op) => disk.(wal := Issue(disk.wal, op))
    case SyncDb => disk.(db := Sync(disk.db))
    case SyncWal => disk.(wal := Sync(disk.wal))
  }

  function Execute(disk: Disk, script: seq<Io>): Disk
  {
    if script == [] then disk
    else Perform(Execute(disk, script[..|script| - 1]), script[|script| - 1])
  }

  lemma {:induction false} ExecuteConcat(disk: Disk, a: seq<Io>, b: seq<Io>)
    ensures Execute(disk, a + b) == Execute(Execute(disk, a), b)
  {
    if b == [] {
      assert a + b == a;
    } else {
      ExecuteConcat(disk, a, b[..|b| - 1]);
      assert (a + b)[..|a + b| - 1] == a + b[..|b| - 1];
    }
  }

  /** The disk after a call that failed, or was cut off, somewhere in its script:
      a number of whole operations, then possibly part of the next. A failed
      sync leaves its file's operations unsynced. */
  ghost predicate StoppedIn(disk: Disk, script: seq<Io>, after: Disk)
  {
    exists n: nat :: n <= |script| && StoppedAt(disk, script, n, after)
  }

  ghost predicate StoppedAt(disk: Disk, script: seq<Io>, n: nat, after: Disk)
    requires n <= |script|
  {
    var done := Execute(disk, script[..n]);
    || after == done
    || (n < |script| && match script[n]
                        case Db(op) => exists part :: Part(op, part) && after == Perform(done, Db(part))
                        case Wal(op) => exists part :: Part(op, part) && after == Perform(done, Wal(part))
                        case _ => false)
  }

  /** The pair of images a crash of the machine leaves. */
  ghost predicate Crash(disk: Disk, d: bytes, w: bytes)
  {
    CrashImage(disk.db, d) && CrashImage(disk.wal, w)
  }
}
