/** The transactional log: its operations, and what replay returns after any run of them. */
module Wal {
  import opened Options
  import opened Bytes
  import opened WalFormat

  /** The log as a value: what is on disk, what the open transaction holds back, and the counter. */
  datatype Log = Log(durable: seq<Sealed>, pending: seq<Sealed>, active: bool, lsn: int)

  /** `Restart` opens the same file again in a new object. */
  datatype Op =
    | Begin
    | Append(op: string, data: string, nonce: seq<byte>)
    | Commit
    | Rollback
    | Restart

  ghost function MaxLsn(rs: seq<Record>): (m: int)
    ensures forall i :: 0 <= i < |rs| ==> rs[i].lsn <= m
    ensures rs != [] ==> exists i :: 0 <= i < |rs| && rs[i].lsn == m
  {
    if rs == [] then 0
    else if |rs| == 1 then rs[0].lsn
    else
      var m, last := MaxLsn(rs[..|rs| - 1]), rs[|rs| - 1];
      assert forall i :: 0 <= i < |rs| ==> rs[i] == if i < |rs| - 1 then rs[..|rs| - 1][i] else last;
      if last.lsn > m then last.lsn else m
  }

  /** The record an append builds. */
  ghost function Next(l: Log, o: Op): Sealed
    requires o.Append?
  {
    Sealed(o.nonce, Record(l.lsn + 1, o.op, o.data))
  }

  /** One operation. A record too long for its length field raises, after taking a sequence number. */
  ghost function Apply(c: Suite, l: Log, o: Op): Log {
    match o
    case Begin => l.(active := true, pending := [])
    case Append(_, _, _) =>
      var x := Next(l, o);
      if !Packable(c, x) then l.(lsn := l.lsn + 1)
      else if l.active then l.(lsn := l.lsn + 1, pending := l.pending + [x])
      else l.(lsn := l.lsn + 1, durable := l.durable + [x])
    case Commit => if l.active then Log(l.durable + l.pending, [], false, l.lsn) else l
    case Rollback => l.(active := false, pending := [])
    case Restart => Log(l.durable, [], false, MaxLsn(Records(Readable(c, l.durable))))
  }

  /** The file is empty, or has a header, then `base`, then the frames of the records. */
  ghost predicate FileHolds(c: Suite, base: seq<byte>, disk: seq<byte>, xs: seq<Sealed>)
    requires Lawful(c) && AllPackable(c, xs)
  {
    if disk == [] then base == [] && xs == []
    else HasHeader(disk) && disk[HEADER_LEN..] == base + Frames(c, disk[4..HEADER_LEN], xs)
  }

  ghost function Joined(items: seq<seq<byte>>): seq<byte> {
    if items == [] then [] else Joined(items[..|items| - 1]) + items[|items| - 1]
  }

  lemma JoinedSnoc(items: seq<seq<byte>>, last: seq<byte>)
    ensures Joined(items + [last]) == Joined(items) + last
  {
    assert (items + [last])[..|items|] == items;
  }

  /** The transaction buffer holds the frames of the records held back. */
  ghost predicate BufferHolds(c: Suite, salt: seq<byte>, buffer: seq<seq<byte>>, xs: seq<Sealed>)
    requires Lawful(c) && AllPackable(c, xs)
  {
    Joined(buffer) == Frames(c, salt, xs)
  }

  lemma OneBuffered(c: Suite, salt: seq<byte>, x: Sealed)
    requires Lawful(c) && Packable(c, x)
    ensures AllPackable(c, [x]) && BufferHolds(c, salt, [Frame(c, salt, x)], [x])
  {
    OneFrame(c, salt, x);
    JoinedSnoc([], Frame(c, salt, x));
  }

  lemma BufferGrows(c: Suite, salt: seq<byte>, buffer: seq<seq<byte>>, xs: seq<Sealed>, x: Sealed)
    requires Lawful(c) && AllPackable(c, xs) && Packable(c, x) && BufferHolds(c, salt, buffer, xs)
    ensures AllPackable(c, xs + [x]) && BufferHolds(c, salt, buffer + [Frame(c, salt, x)], xs + [x])
  {
    OneFrame(c, salt, x);
    JoinedSnoc([], Frame(c, salt, x));
    FramesConcat(c, salt, xs, [x]);
    JoinedSnoc(buffer, Frame(c, salt, x));
  }

  lemma NewFile(c: Suite, salt: seq<byte>)
    requires Lawful(c) && |salt| == 16
    ensures FileHolds(c, [], FileHeader(salt), []) && FileHeader(salt) != [] && FileHeader(salt)[4..HEADER_LEN] == salt
  {
  }

  /** Whatever is appended to a file leaves its header and salt alone. */
  lemma HeaderStays(disk: seq<byte>, more: seq<byte>)
    requires HasHeader(disk)
    ensures HasHeader(disk + more) && (disk + more)[4..HEADER_LEN] == disk[4..HEADER_LEN]
    ensures (disk + more)[HEADER_LEN..] == disk[HEADER_LEN..] + more
  {
    assert (disk + more)[..4] == disk[..4];
  }

  lemma FileGrows(c: Suite, base: seq<byte>, disk: seq<byte>, xs: seq<Sealed>, buffer: seq<seq<byte>>, ys: seq<Sealed>)
    requires Lawful(c) && AllPackable(c, xs) && AllPackable(c, ys)
    requires disk != [] && FileHolds(c, base, disk, xs) && BufferHolds(c, disk[4..HEADER_LEN], buffer, ys)
    ensures AllPackable(c, xs + ys)
    ensures FileHolds(c, base, disk + Joined(buffer), xs + ys)
    ensures (disk + Joined(buffer))[4..HEADER_LEN] == disk[4..HEADER_LEN]
  {
    var salt := disk[4..HEADER_LEN];
    HeaderStays(disk, Joined(buffer));
    FramesConcat(c, salt, xs, ys);
    Assoc(base, Frames(c, salt, xs), Frames(c, salt, ys));
  }

  class TransactionalWal {
    const suite: Suite
    var disk: seq<byte>
    var v3: bool
    var salt: seq<byte>
    var lsn: int
    var activeTxn: bool
    var buffer: seq<seq<byte>>
    ghost var log: Log
    /** What the file already held behind its header when it was opened. */
    ghost const base: seq<byte>

    ghost predicate Valid()
      reads this
    {
      && Lawful(suite)
      && log.lsn == lsn && log.active == activeTxn
      && AllPackable(suite, log.durable) && AllPackable(suite, log.pending)
      && FileHolds(suite, base, disk, log.durable)
      && (v3 <==> disk != [])
      && (v3 ==> salt == disk[4..HEADER_LEN])
      && BufferHolds(suite, salt, buffer, log.pending)
      && (!v3 || !activeTxn ==> log.pending == [])
    }

    /**
     * Opens a file: reads its header, then takes the counter up where its records leave off. The file may
     * hold anything behind its header, a torn tail for example; that is `kept` and the frames of `durable`.
     */
    constructor (c: Suite, file: seq<byte>, ghost kept: seq<byte>, ghost durable: seq<Sealed>)
      requires Lawful(c) && AllPackable(c, durable) && FileHolds(c, kept, file, durable)
      ensures Valid() && suite == c && disk == file && base == kept
      ensures log == Log(durable, [], false, MaxLsn(Replayed(c, file)))
    {
      suite, disk, base := c, file, kept;
      v3 := |file| >= HEADER_LEN && file[..4] == MAGIC;
      salt := if |file| >= HEADER_LEN then file[4..HEADER_LEN] else [];
      lsn, activeTxn, buffer := 0, false, [];
      log := Log(durable, [], false, 0);
      new;
      var records := Replay();
      if records != [] {
        lsn := Largest(records);
        log := log.(lsn := lsn);
      }
    }

    static method Largest(records: seq<Record>) returns (m: int)
      requires records != []
      ensures m == MaxLsn(records)
    {
      m := records[0].lsn;
      for i := 1 to |records|
        invariant m == MaxLsn(records[..i])
      {
        assert records[..i + 1][..i] == records[..i];
        if records[i].lsn > m {
          m := records[i].lsn;
        }
      }
      assert records[..|records|] == records;
    }

    method BeginTxn()
      requires Valid()
      modifies this
      ensures Valid() && log == Apply(suite, old(log), Begin) && disk == old(disk)
    {
      activeTxn, buffer := true, [];
      log := log.(active := true, pending := []);
    }

    /** Counts the record and encrypts it; the first ever starts the file with `salt16`. */
    method Encrypt(ghost x: Sealed, raw: seq<byte>, nonce: seq<byte>, salt16: seq<byte>) returns (payload: seq<byte>)
      requires Valid() && |nonce| == 16 && |salt16| == 16
      requires x.nonce == nonce && raw == suite.encode(x.record)
      modifies this`v3, this`salt, this`disk
      ensures Valid() && v3
      ensures payload == Seal(suite, salt, nonce, raw)
    {
      if !v3 {
        v3, salt, disk := true, salt16, FileHeader(salt16);
        NewFile(suite, salt16);
      }
      payload := Seal(suite, salt, nonce, raw);
    }

    /** `salt16` are the bytes drawn for the file salt, used only if the file is still empty. */
    method AppendRecord(op: string, data: string, nonce: seq<byte>, salt16: seq<byte>) returns (r: Option<int>)
      requires Valid() && |nonce| == 16 && |salt16| == 16
      modifies this
      ensures Valid() && log == Apply(suite, old(log), Append(op, data, nonce))
      ensures lsn == old(lsn) + 1
      ensures r == if Packable(suite, Next(old(log), Append(op, data, nonce))) then Some(lsn) else None
    {
      lsn, log := lsn + 1, log.(lsn := lsn + 1);
      ghost var x := Sealed(nonce, Record(lsn, op, data));
      assert x == Next(old(log), Append(op, data, nonce));
      var raw := suite.encode(Record(lsn, op, data));
      var payload := Encrypt(x, raw, nonce, salt16);
      if |payload| >= LENGTH_LIMIT {
        return None;
      }
      Keep(Be32(|payload|) + payload, x);
      r := Some(lsn);
    }

    /** A finished frame goes to the open transaction, or straight to disk. */
    method Keep(frame: seq<byte>, ghost x: Sealed)
      requires Valid() && v3 && Packable(suite, x) && frame == Frame(suite, salt, x)
      modifies this
      ensures Valid() && lsn == old(lsn)
      ensures log == if old(activeTxn) then old(log).(pending := old(log).pending + [x])
                     else old(log).(durable := old(log).durable + [x])
    {
      if activeTxn {
        BufferGrows(suite, salt, buffer, log.pending, x);
        buffer := buffer + [frame];
        log := log.(pending := log.pending + [x]);
      } else {
        OneBuffered(suite, salt, x);
        FileGrows(suite, base, disk, log.durable, [frame], [x]);
        WriteDisk([frame]);
        log := log.(durable := log.durable + [x]);
      }
    }

    method CommitTxn()
      requires Valid()
      modifies this
      ensures Valid() && log == Apply(suite, old(log), Commit)
      ensures !old(activeTxn) ==> disk == old(disk)
    {
      if !activeTxn {
        return;
      }
      if v3 {
        FileGrows(suite, base, disk, log.durable, buffer, log.pending);
      }
      WriteDisk(buffer);
      activeTxn, buffer := false, [];
      log := Log(log.durable + log.pending, [], false, log.lsn);
    }

    method RollbackTxn()
      requires Valid()
      modifies this
      ensures Valid() && log == Apply(suite, old(log), Rollback) && disk == old(disk)
    {
      activeTxn, buffer := false, [];
      log := log.(active := false, pending := []);
    }

    method WriteDisk(items: seq<seq<byte>>)
      modifies this`disk
      ensures disk == old(disk) + Joined(items)
    {
      for i := 0 to |items|
        invariant disk == old(disk) + Joined(items[..i])
      {
        JoinedSnoc(items[..i], items[i]);
        assert items[..i + 1] == items[..i] + [items[i]];
        disk := disk + items[i];
      }
      assert items[..|items|] == items;
    }

    /** Reads the file back, whatever it held when it was opened. */
    method Replay() returns (records: seq<Record>)
      requires Valid()
      ensures records == Replayed(suite, disk)
      ensures forall r :: r in records ==> disk != [] && Stands(suite, disk[4..HEADER_LEN], disk[HEADER_LEN..], r)
      ensures base == [] ==> records == Records(Readable(suite, log.durable))
    {
      if disk == [] {
        return [];
      }
      var fileSalt := disk[4..HEADER_LEN];
      ParseFrames(suite, fileSalt, log.durable);
      assert [] + Frames(suite, fileSalt, log.durable) == Frames(suite, fileSalt, log.durable);
      records := ReadFrames(suite, fileSalt, disk[HEADER_LEN..]);
      forall r | r in records ensures Stands(suite, fileSalt, disk[HEADER_LEN..], r) {
        ReplayedGenuine(suite, fileSalt, disk[HEADER_LEN..], r);
      }
    }
  }

  /** Decrypts and decodes one payload; anything that fails contributes nothing. */
  method ReadPayload(c: Suite, salt: seq<byte>, payload: seq<byte>) returns (got: seq<Record>)
    requires Lawful(c)
    ensures got == Opened(c, salt, payload)
  {
    got := [];
    var plain := Unseal(c, salt, payload);
    if plain.Some? && plain.value != [] {
      var record := c.decode(plain.value);
      if record.Some? {
        got := [record.value];
      }
    }
  }

  /** The records of the file are those read and those of the rest. */
  ghost predicate Reads(c: Suite, salt: seq<byte>, file: seq<byte>, records: seq<Record>, rest: seq<byte>)
    requires Lawful(c)
  {
    Parse(c, salt, file) == records + Parse(c, salt, rest)
  }

  lemma ReadsNext(c: Suite, salt: seq<byte>, file: seq<byte>, records: seq<Record>, rest: seq<byte>, got: seq<Record>,
                  after: seq<byte>)
    requires Lawful(c) && Reads(c, salt, file, records, rest) && Reads(c, salt, rest, got, after)
    ensures Reads(c, salt, file, records + got, after)
  {
    Assoc(records, got, Parse(c, salt, after));
  }

  lemma ReadsAll(c: Suite, salt: seq<byte>, file: seq<byte>, records: seq<Record>, rest: seq<byte>)
    requires Lawful(c) && Reads(c, salt, file, records, rest) && Parse(c, salt, rest) == []
    ensures Parse(c, salt, file) == records
  {
  }

  /** Reads one frame, if the next one is readable. */
  method ReadFrame(c: Suite, salt: seq<byte>, file: seq<byte>) returns (more: bool, got: seq<Record>, rest: seq<byte>)
    requires Lawful(c)
    ensures more ==> |rest| < |file| && Reads(c, salt, file, got, rest)
    ensures !more ==> Parse(c, salt, file) == []
  {
    more, got, rest := false, [], file;
    if |file| < 4 {
      ParseNone(c, salt, file);
      return;
    }
    var length := FromBe32(file[..4]);
    if length == 0 || length > MAX_RECORD_BYTES || |file| - 4 < length {
      ParseNone(c, salt, file);
      return;
    }
    ParseNext(c, salt, file, length);
    got := ReadPayload(c, salt, file[4..4 + length]);
    more, rest := true, file[4 + length..];
  }

  /** The replay loop over the part of the file behind its header. */
  method ReadFrames(c: Suite, salt: seq<byte>, file: seq<byte>) returns (records: seq<Record>)
    requires Lawful(c)
    ensures records == Parse(c, salt, file)
  {
    records := [];
    var rest, more := file, true;
    assert Reads(c, salt, file, records, rest);
    while more
      invariant if more then Reads(c, salt, file, records, rest) else Parse(c, salt, file) == records
      decreases more, |rest|
    {
      var got, after;
      more, got, after := ReadFrame(c, salt, rest);
      if more {
        ReadsNext(c, salt, file, records, rest, got, after);
        records, rest := records + got, after;
      } else {
        ReadsAll(c, salt, file, records, rest);
      }
    }
  }
}
