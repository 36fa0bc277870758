/** cgatepp::Dumper: records are appended to memory-mapped volumes of a fixed
    size, and replayed from the first volume on. */
module Dumper {
  import opened Bits
  import opened ByteOrder
  import opened DumperLog
  import opened Sequences
  import opened Wrappers

  /** The files "....vol-0", "....vol-1" and so on; a file's number is its id. */
  class Disk {
    var files: seq<seq<byte>>
    ghost var volumes: seq<seq<Record>>

    constructor ()
      ensures files == [] && volumes == []
    {
      files, volumes := [], [];
    }

    /** Every file is a volume. */
    ghost predicate Valid(fileSize: nat)
      reads this
    {
      |files| == |volumes| && forall i :: 0 <= i < |files| ==> IsVolume(files[i], volumes[i], fileSize)
    }

    /** Everything written so far, by whichever process. */
    ghost function Log(): seq<Record>
      reads this
    {
      Flatten(volumes)
    }
  }

  datatype Mode = Dumping | Replaying

  class Dumper {
    const disk: Disk
    const fileSize: nat
    const machine: EndiannessType
    var currentId: nat
    var state: Mode

    ghost predicate Mapped()
      reads this, disk
    {
      currentId < |disk.files| && |disk.files[currentId]| == fileSize >= HEADER_SIZE
    }

    /** Between calls: no volume is empty, and records are added to the last one. */
    ghost predicate Valid()
      reads this, disk
    {
      && Mapped() && disk.Valid(fileSize)
      && (forall i :: 0 <= i < |disk.volumes| ==> disk.volumes[i] != [])
      && (state == Dumping ==> currentId == |disk.files| - 1)
    }

    /** Writes to the mapped file. */
    method Poke(pos: nat, bytes: seq<byte>)
      requires Mapped() && pos + |bytes| <= fileSize
      modifies disk`files
      ensures disk.files == old(disk.files)[currentId := Written(old(disk.files[currentId]), pos, bytes)]
    {
      var data := disk.files[currentId];
      disk.files := disk.files[currentId := data[..pos] + bytes + data[pos + |bytes|..]];
    }

    /** get_pos: ntoh64 of what is stored. */
    method GetPos() returns (pos: nat)
      requires Mapped()
      ensures pos == HeaderPosition(disk.files[currentId])
    {
      NetworkOrderLoaded(machine, disk.files[currentId][..HEADER_SIZE]);
      pos := Conv64(machine, Loaded(machine, disk.files[currentId][..HEADER_SIZE]));
    }

    method SetPos(pos: nat)
      requires Mapped() && pos < 0x1_0000_0000_0000_0000
      modifies disk`files
      ensures disk.files == old(disk.files)[currentId := Written(old(disk.files[currentId]), 0, BigEndian(pos, 8))]
    {
      NetworkOrder(machine, pos);
      Poke(0, Stored(machine, Conv64(machine, pos), 8));
    }

    /** A zero-filled new file. */
    method CreateFile()
      modifies disk`files
      ensures |disk.files| == |old(disk.files)| + 1 && disk.files[..|old(disk.files)|] == old(disk.files)
      ensures var f := disk.files[|old(disk.files)|]; |f| == fileSize && forall i :: 0 <= i < fileSize ==> f[i] == 0
    {
      disk.files := disk.files + [seq<byte>(fileSize, _ => 0)];
    }

    /** open_file_and_get_pos for a new volume, behind the last one. */
    method OpenNewVolume(id: nat) returns (pos: nat)
      requires disk.Valid(fileSize) && state == Dumping && id == |disk.files|
      requires HEADER_SIZE <= fileSize < 0x1_0000_0000_0000_0000
      modifies disk, this`currentId
      ensures currentId == id && Mapped() && disk.Valid(fileSize)
      ensures disk.volumes == old(disk.volumes) + [[]] && pos == HEADER_SIZE == HeaderPosition(disk.files[currentId])
    {
      hide IsVolume, HeaderPosition, Written;
      CreateFile();
      currentId := id;
      ghost var zeros := disk.files[id];
      NewVolume(zeros, fileSize);
      pos := GetPos();
      if pos == 0 { SetPos(pos + HEADER_SIZE); }
      disk.volumes := disk.volumes + [[]];
      assert IsVolume(disk.files[id], [], fileSize);
      VolumePosition(disk.files[id], [], fileSize);
      pos := GetPos();
    }

    /** open_file_and_get_pos while replaying: reading starts behind the header. */
    method OpenForReplay(id: nat) returns (pos: nat)
      requires state == Replaying && id < |disk.files| && |disk.files[id]| == fileSize >= HEADER_SIZE
      modifies this`currentId
      ensures currentId == id && pos == HEADER_SIZE
    {
      currentId := id;
      pos := HEADER_SIZE;
    }

    /** write_next: the record is the new end of the log.  A record that does not
        fit goes to a new volume. */
    method WriteNext(record: Record)
      requires Mapped() && disk.Valid(fileSize) && state == Dumping && currentId == |disk.files| - 1
      requires forall i :: 0 <= i < |disk.volumes| - 1 ==> disk.volumes[i] != []
      requires disk.volumes[currentId] == [] ==> HeaderPosition(disk.files[currentId]) == HEADER_SIZE
      requires Fits(record, fileSize)
      modifies disk, this`currentId
      ensures Valid() && state == Dumping && disk.Log() == old(disk.Log()) + [record]
    {
      hide IsVolume, HeaderPosition, Flatten;
      VolumePosition(disk.files[currentId], disk.volumes[currentId], fileSize);
      var pos := GetPos();
      if pos + 2 + |record| > fileSize {
        ghost var before := disk.volumes;
        AddEmptyVolume(before);
        pos := OpenNewVolume(currentId + 1);
      }
      AppendRecord(record, pos);
    }

    method AppendRecord(record: Record, pos: nat)
      requires Mapped() && disk.Valid(fileSize) && currentId == |disk.files| - 1
      requires forall i :: 0 <= i < |disk.volumes| - 1 ==> disk.volumes[i] != []
      requires pos == HeaderPosition(disk.files[currentId]) && |record| < 0x1_0000 && pos + 2 + |record| <= fileSize
      modifies disk
      ensures Mapped() && disk.Valid(fileSize) && |disk.files| == |old(disk.files)|
      ensures forall i :: 0 <= i < |disk.volumes| ==> disk.volumes[i] != []
      ensures disk.Log() == old(disk.Log()) + [record]
    {
      hide IsVolume, HeaderPosition, Written, Flatten;
      ghost var data, records := disk.files[currentId], disk.volumes[currentId];
      assert IsVolume(data, records, fileSize);
      VolumeIsSmall(data, records, fileSize);
      NetworkOrder(machine, |record|);
      Poke(pos, Stored(machine, Conv16(machine, |record|), 2));
      ghost var sized := disk.files[currentId];
      Poke(pos + 2, record);
      ghost var filled := disk.files[currentId];
      SetPos(pos + 2 + |record|);
      VolumeAppend(data, records, fileSize, record, pos, sized, filled, disk.files[currentId]);
      FlattenAppend(disk.volumes, record);
      disk.volumes := disk.volumes[currentId := records + [record]];
    }

    /** Where the reader stands: in front of record `k` of the open volume. */
    ghost predicate At(pos: nat, k: nat)
      requires Valid()
      reads this, disk
    {
      k <= |disk.volumes[currentId]| && pos == HEADER_SIZE + |Encode(disk.volumes[currentId][..k])|
    }

    /** How many records of the log lie in front of the reader. */
    ghost function Index(k: nat): nat
      requires Valid()
      reads this, disk
    {
      |Flatten(disk.volumes[..currentId])| + k
    }

    /** read_next: the next record of the log, or nothing at its very end, when
        the last volume is the open one. */
    method ReadNext(pos0: nat, ghost k0: nat) returns (record: Option<Record>, pos: nat, ghost k: nat)
      requires Valid() && state == Replaying && At(pos0, k0)
      modifies this`currentId
      ensures Valid() && At(pos, k)
      ensures record.None? ==> old(Index(k0)) == |disk.Log()| && currentId == |disk.files| - 1
      ensures record.Some? ==>
                && old(Index(k0)) < |disk.Log()| && record.value == disk.Log()[old(Index(k0))]
                && Index(k) == old(Index(k0)) + 1
    {
      hide IsVolume, HeaderPosition, Flatten, Encode, FromBigEndian;
      pos, k := pos0, k0;
      VolumePosition(disk.files[currentId], disk.volumes[currentId], fileSize);
      EncodeEnd(disk.volumes[currentId], k);
      var end := GetPos();
      if pos + 2 > end {
        var lastAvailableId := |disk.files| - 1;
        if currentId + 1 > lastAvailableId {
          LogEnds(disk.volumes);
          return None, pos, k;
        }
        FlattenSplit(disk.volumes, currentId);
        VolumePosition(disk.files[currentId + 1], disk.volumes[currentId + 1], fileSize);
        pos := OpenForReplay(currentId + 1);
        k := 0;
        NothingBefore(disk.volumes[currentId]);
        EncodeEnd(disk.volumes[currentId], 0);
        end := GetPos();
      }
      FrameAt(disk.files[currentId], disk.volumes[currentId], fileSize, k, pos);
      FlattenSplit(disk.volumes, currentId);
      NetworkOrderLoaded(machine, disk.files[currentId][pos..pos + 2]);
      var recordSize := Conv16(machine, Loaded(machine, disk.files[currentId][pos..pos + 2]));
      pos := pos + 2;
      if pos + recordSize > end { assert false; } // a record is never split
      record := Some(disk.files[currentId][pos..pos + recordSize]);
      pos := pos + recordSize;
      k := k + 1;
    }

    /** replay_recorded_stream: the handler gets every record ever written, in
        order; afterwards records are added at the end again. */
    method Replay() returns (replayed: seq<Record>)
      requires Valid() && state == Dumping
      modifies this`currentId, this`state
      ensures Valid() && state == Dumping && replayed == disk.Log()
    {
      hide Flatten, IsVolume, HeaderPosition;
      state := Replaying;
      VolumePosition(disk.files[0], disk.volumes[0], fileSize);
      var pos := OpenForReplay(0);
      ghost var k := 0;
      NothingBefore(disk.volumes[0]);
      assert disk.volumes[..0] == [] && Flatten([]) == [] by { NoVolumes(); }
      replayed := [];
      var record;
      record, pos, k := ReadNext(pos, k);
      while record.Some?
        invariant Valid() && At(pos, k) && state == Replaying
        invariant record.Some? ==>
                    Index(k) == |replayed| + 1 && |replayed| < |disk.Log()| && record.value == disk.Log()[|replayed|]
        invariant record.None? ==> |replayed| == |disk.Log()| && currentId == |disk.files| - 1
        invariant |replayed| <= |disk.Log()| && replayed == disk.Log()[..|replayed|]
        decreases |disk.Log()| - |replayed|, record.Some?
      {
        replayed := replayed + [record.value];
        record, pos, k := ReadNext(pos, k);
      }
      state := Dumping;
    }

    /** The part of the destructor that writes; the volumes stay. */
    method Close(closeRecord: Record)
      requires Valid() && state == Dumping && Fits(closeRecord, fileSize)
      modifies disk, this`currentId
      ensures Valid() && state == Dumping && disk.Log() == old(disk.Log()) + [closeRecord]
    {
      WriteNext(closeRecord);
    }

    /** The fields before the constructor has looked at the disk. */
    constructor Unopened(disk: Disk, fileSize: nat, machine: EndiannessType)
      ensures this.disk == disk && this.fileSize == fileSize && this.machine == machine && state == Dumping
    {
      this.disk, this.fileSize, this.machine := disk, fileSize, machine;
      state, currentId := Dumping, 0;
    }

    /** Continues behind the last record of the last volume. */
    method OpenLast()
      requires |disk.files| > 0 && |disk.files[|disk.files| - 1]| == fileSize >= HEADER_SIZE && disk.Valid(fileSize)
      modifies this`currentId
      ensures currentId == |disk.files| - 1 && Mapped()
    {
      currentId := |disk.files| - 1;
    }
  }

  /** The constructor of Dumper: opens the last volume, or creates the first one,
      and writes a record of its own.  The size of an existing volume must be the
      one asked for. */
  method Open(disk: Disk, fileSize: nat, machine: EndiannessType, openRecord: Record, ghost size: nat)
    returns (dumper: Option<Dumper>)
    requires disk.Valid(size) && forall i :: 0 <= i < |disk.volumes| ==> disk.volumes[i] != []
    requires Fits(openRecord, fileSize) && fileSize < 0x1_0000_0000_0000_0000
    modifies disk
    ensures dumper.None? <==> old(disk.files) != [] && fileSize != size
    ensures dumper.None? ==> disk.files == old(disk.files) && disk.volumes == old(disk.volumes)
    ensures dumper.Some? ==>
              && fresh(dumper.value) && dumper.value.disk == disk && dumper.value.fileSize == fileSize
              && dumper.value.Valid() && dumper.value.state == Dumping
              && disk.Log() == old(disk.Log()) + [openRecord]
  {
    hide IsVolume, Flatten, HeaderPosition;
    var d := new Dumper.Unopened(disk, fileSize, machine);
    if disk.files == [] {
      AddEmptyVolume(disk.volumes);
      var _ := d.OpenNewVolume(0);
    } else {
      var last := |disk.files| - 1;
      VolumePosition(disk.files[last], disk.volumes[last], size);
      if |disk.files[last]| != fileSize { return None; } // size mismatch
      d.OpenLast();
    }
    d.WriteNext(openRecord);
    dumper := Some(d);
  }

  /** The record has a size in 16 bits and fits in a volume. */
  predicate Fits(record: Record, fileSize: nat) {
    |record| < 0x1_0000 && HEADER_SIZE + 2 + |record| <= fileSize
  }

  /** What a run of the program does between opening and closing the dumper. */
  datatype Activity = Dump(record: Record) | ReplayAll

  /** The records that a run dumps. */
  function Dumped(run: seq<Activity>): seq<Record> {
    if run == [] then []
    else
      var last := run[|run| - 1];
      Dumped(run[..|run| - 1]) + if last.Dump? then [last.record] else []
  }

  /** What its replays return, when the log was `before` at its start. */
  function RunReplays(run: seq<Activity>, before: seq<Record>): seq<seq<Record>> {
    if run == [] then []
    else
      var n := |run| - 1;
      RunReplays(run[..n], before) + if run[n].ReplayAll? then [before + Dumped(run[..n])] else []
  }

  /** The log of several runs, one after the other. */
  function SessionsLog(sessions: seq<seq<Activity>>, openRecord: Record, closeRecord: Record): seq<Record> {
    if sessions == [] then []
    else
      SessionsLog(sessions[..|sessions| - 1], openRecord, closeRecord)
      + [openRecord] + Dumped(sessions[|sessions| - 1]) + [closeRecord]
  }

  /** And all that they have replayed. */
  function SessionsReplays(sessions: seq<seq<Activity>>, openRecord: Record, closeRecord: Record): seq<seq<Record>> {
    if sessions == [] then []
    else
      var n := |sessions| - 1;
      SessionsReplays(sessions[..n], openRecord, closeRecord)
      + RunReplays(sessions[n], SessionsLog(sessions[..n], openRecord, closeRecord) + [openRecord])
  }

  predicate AllFit(run: seq<Activity>, fileSize: nat) {
    forall j :: 0 <= j < |run| && run[j].Dump? ==> Fits(run[j].record, fileSize)
  }

  /** Runs the program once for each session, and then once more to replay:
      across restarts, rollovers and replays in between nothing is lost, repeated
      or reordered. */
  method RunSessions(disk: Disk, fileSize: nat, machine: EndiannessType, sessions: seq<seq<Activity>>,
                     openRecord: Record, closeRecord: Record)
    returns (replays: seq<seq<Record>>, replayed: seq<Record>)
    requires disk.files == [] && disk.volumes == []
    requires fileSize < 0x1_0000_0000_0000_0000
    requires Fits(openRecord, fileSize) && Fits(closeRecord, fileSize)
    requires forall i :: 0 <= i < |sessions| ==> AllFit(sessions[i], fileSize)
    modifies disk
    ensures replays == SessionsReplays(sessions, openRecord, closeRecord)
    ensures replayed == SessionsLog(sessions, openRecord, closeRecord) + [openRecord]
  {
    hide IsVolume, AllFit, Fits;
    replays := [];
    for i := 0 to |sessions|
      invariant disk.Valid(fileSize) && forall v :: 0 <= v < |disk.volumes| ==> disk.volumes[v] != []
      invariant disk.Log() == SessionsLog(sessions[..i], openRecord, closeRecord)
      invariant replays == SessionsReplays(sessions[..i], openRecord, closeRecord)
    {
      var result := Open(disk, fileSize, machine, openRecord, fileSize);
      assert sessions[..i + 1][..i] == sessions[..i];
      var more := RunSession(result.value, sessions[i], closeRecord);
      replays := replays + more;
    }
    assert sessions[..|sessions|] == sessions;
    var last := Open(disk, fileSize, machine, openRecord, fileSize);
    replayed := last.value.Replay();
  }

  method RunSession(dumper: Dumper, run: seq<Activity>, closeRecord: Record) returns (replays: seq<seq<Record>>)
    requires dumper.Valid() && dumper.state == Dumping && Fits(closeRecord, dumper.fileSize)
    requires AllFit(run, dumper.fileSize)
    modifies dumper.disk, dumper
    ensures dumper.Valid() && dumper.disk.Log() == old(dumper.disk.Log()) + Dumped(run) + [closeRecord]
    ensures replays == RunReplays(run, old(dumper.disk.Log()))
  {
    hide Flatten, IsVolume, Fits;
    replays := [];
    for j := 0 to |run|
      invariant dumper.Valid() && dumper.state == Dumping
      invariant dumper.disk.Log() == old(dumper.disk.Log()) + Dumped(run[..j])
      invariant replays == RunReplays(run[..j], old(dumper.disk.Log()))
    {
      assert run[..j + 1][..j] == run[..j];
      match run[j] {
        case Dump(record) => dumper.WriteNext(record);
        case ReplayAll =>
          var replayed := dumper.Replay();
          replays := replays + [replayed];
      }
    }
    assert run[..|run|] == run;
    dumper.Close(closeRecord);
  }

  // ----- facts about volumes

  lemma VolumePosition(data: seq<byte>, records: seq<Record>, fileSize: nat)
    requires IsVolume(data, records, fileSize)
    ensures |data| == fileSize < 0x1_0000_0000_0000_0000 && HEADER_SIZE <= fileSize
    ensures HeaderPosition(data) == HEADER_SIZE + |Encode(records)| <= fileSize
    ensures records == [] ==> HeaderPosition(data) == HEADER_SIZE
  {
  }

  lemma VolumeIsSmall(data: seq<byte>, records: seq<Record>, fileSize: nat)
    requires IsVolume(data, records, fileSize)
    ensures fileSize < 0x1_0000_0000_0000_0000
  {
  }

  lemma AddEmptyVolume(volumes: seq<seq<Record>>)
    ensures Flatten(volumes + [[]]) == Flatten(volumes)
  {
    assert (volumes + [[]])[..|volumes|] == volumes;
  }

  lemma FlattenAppend(volumes: seq<seq<Record>>, r: Record)
    requires volumes != []
    ensures var n := |volumes| - 1; Flatten(volumes[n := volumes[n] + [r]]) == Flatten(volumes) + [r]
  {
    var n := |volumes| - 1;
    assert volumes[n := volumes[n] + [r]][..n] == volumes[..n];
  }

  lemma LogEnds(volumes: seq<seq<Record>>)
    requires volumes != []
    ensures var n := |volumes| - 1; |Flatten(volumes[..n])| + |volumes[n]| == |Flatten(volumes)|
  {
  }

  lemma NoVolumes()
    ensures Flatten([]) == []
  {
  }

  lemma NothingBefore(records: seq<Record>)
    ensures records[..0] == [] && Encode(records[..0]) == []
  {
  }

  /** The frame of record `k` lies at its position, inside what is written. */
  lemma FrameAt(data: seq<byte>, records: seq<Record>, fileSize: nat, k: nat, pos: nat)
    requires IsVolume(data, records, fileSize) && k < |records| && pos == HEADER_SIZE + |Encode(records[..k])|
    ensures pos + 2 + |records[k]| <= HeaderPosition(data) <= |data|
    ensures FromBigEndian(data[pos..pos + 2]) == |records[k]|
    ensures data[pos + 2..pos + 2 + |records[k]|] == records[k]
    ensures pos + 2 + |records[k]| == HEADER_SIZE + |Encode(records[..k + 1])|
  {
    hide Encode, BigEndian, FromBigEndian;
    EncodeAt(records, k);
    var all, f := Encode(records), Frame(records[k]);
    var from := |Encode(records[..k])|;
    Pow256Values();
    BigEndianInverse(|records[k]|, 2);
    Nested(data, HEADER_SIZE, HEADER_SIZE + |all|, from, from + |f|);
    Nested(data, pos, pos + |f|, 0, 2);
    Nested(data, pos, pos + |f|, 2, |f|);
    assert f[0..2] == BigEndian(|records[k]|, 2) && f[2..|f|] == records[k];
  }
}
