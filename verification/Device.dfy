/** A pair of files that may fail at any operation, as the engine sees it. */
module Device {
  import opened Storage

  /** How a call ended, besides success: the library's own results and an I/O error. */
  datatype Status =
    | Success
    | InvalidArgument
    | OutOfOrder
    | WalFull
    | DatabaseFull
    | Overflow
    | BufferTooSmall
    | EndOfBatches
    | InvalidDatabase
    | UnsupportedVersion
    | PairMismatch
    | RecoveryRequired
    | NotOpen
    | IoError

  class Files {
    var disk: Disk

    constructor (initial: Disk)
      ensures disk == initial
    {
      disk := initial;
    }

    /** One write, truncate or sync. It may fail, having taken effect in part; a
        failed sync leaves its file's operations unsynced. */
    method Issue(io: Io) returns (error: bool)
      modifies this
      ensures !error ==> disk == Perform(old(disk), io)
      ensures error ==> StoppedIn(old(disk), [io], disk)
    {
      error := *;
      if error {
        ghost var script := [io];
        assert script[..0] == [];
        assert Execute(old(disk), script[..0]) == old(disk);
        var partly: bool := *;
        match io {
        case Db(Write(offset, data)) =>
          if partly {
            var k: nat :| k <= |data|;
            disk := Perform(disk, Db(Write(offset, data[..k])));
            assert Part(io.op, Write(offset, data[..k]));
          }
        case Wal(Write(offset, data)) =>
          if partly {
            var k: nat :| k <= |data|;
            disk := Perform(disk, Wal(Write(offset, data[..k])));
            assert Part(io.op, Write(offset, data[..k]));
          }
        case Db(Truncate(size)) =>
          if partly {
            disk := Perform(disk, io);
            assert Part(io.op, io.op);
          }
        case Wal(Truncate(size)) =>
          if partly {
            disk := Perform(disk, io);
            assert Part(io.op, io.op);
          }
        case _ =>
        }
        assert StoppedAt(old(disk), script, 0, disk);
      } else {
        disk := Perform(disk, io);
      }
    }
  }

  // --- stopping inside longer scripts --------------------------------------

  lemma {:induction false} StoppedEarlier(disk: Disk, a: seq<Io>, b: seq<Io>, after: Disk)
    requires StoppedIn(disk, a, after)
    ensures StoppedIn(disk, a + b, after)
  {
    var n: nat :| n <= |a| && StoppedAt(disk, a, n, after);
    assert (a + b)[..n] == a[..n];
    assert StoppedAt(disk, a + b, n, after);
  }

  lemma {:induction false} StoppedLater(disk: Disk, a: seq<Io>, b: seq<Io>, after: Disk)
    requires StoppedIn(Execute(disk, a), b, after)
    ensures StoppedIn(disk, a + b, after)
  {
    var n: nat :| n <= |b| && StoppedAt(Execute(disk, a), b, n, after);
    assert (a + b)[..|a| + n] == a + b[..n];
    ExecuteConcat(disk, a, b[..n]);
    assert StoppedAt(disk, a + b, |a| + n, after);
  }

  lemma {:induction false} ExecuteNothing(disk: Disk)
    ensures Execute(disk, []) == disk
  {
  }

  lemma {:induction false} ExecuteOne(disk: Disk, io: Io)
    ensures Execute(disk, [io]) == Perform(disk, io)
  {
    assert [io][..0] == [];
  }
}
