/** A file staged beside its destination: header bytes are inserted in place, and the file is
    published under one name or removed. */
module StagedFiles {
  import opened Arithmetic
  import opened Options
  import opened Pixels

  type Bytes = seq<Byte>
  type Name = nat
  datatype Error = WriteFailed | Cancelled | OutputExists

  const BUFFER: nat := 65_536

  // ---- What the file system does ------------------------------------------------------------

  function Zeros(n: nat): Bytes {
    seq(n, _ => 0)
  }

  /** Writing at a position replaces bytes, extends the file, and fills a gap with zeros. */
  function Written(data: Bytes, pos: nat, bytes: Bytes): Bytes {
    if bytes == [] then data
    else
      var padded := if |data| < pos then data + Zeros(pos - |data|) else data;
      padded[..pos] + bytes + (if pos + |bytes| < |padded| then padded[pos + |bytes|..] else [])
  }

  lemma WrittenShows(data: Bytes, pos: nat, bytes: Bytes)
    requires bytes != []
    ensures var r := Written(data, pos, bytes);
      && |r| == (if |data| < pos + |bytes| then pos + |bytes| else |data|)
      && (forall i {:trigger r[i]} :: pos <= i < pos + |bytes| ==> r[i] == bytes[i - pos])
      && (forall i {:trigger r[i]} :: 0 <= i < |data| && (i < pos || pos + |bytes| <= i) ==> r[i] == data[i])
      && (forall i :: |data| <= i < pos ==> r[i] == 0)
  {
  }

  /** One byte after a write. */
  lemma WrittenAt(data: Bytes, pos: nat, bytes: Bytes, i: nat)
    requires bytes != []
    ensures var r := Written(data, pos, bytes);
      && |r| == (if |data| < pos + |bytes| then pos + |bytes| else |data|)
      && (i < |r| ==> r[i] == if pos <= i < pos + |bytes| then bytes[i - pos] else if i < |data| then data[i] else 0)
  {
    WrittenShows(data, pos, bytes);
    hide Written;
  }

  /** What an input or output operation may do: which call fails, and how much of a failing write
      reached the file. */
  datatype Faults = Faults(stat: bool, read: nat -> bool, write: nat -> Option<nat>)

  // ---- What inserting a header means ------------------------------------------------------------

  /** The payload from `offset` on moves behind the header. */
  function Inserted(data: Bytes, offset: nat, header: Bytes): Bytes {
    if header == [] then data
    else if offset <= |data| then data[..offset] + header + data[offset..]
    else data + Zeros(offset - |data|) + header
  }

  /** Moving the payload: what is still in place, and what already sits behind the gap. */
  ghost predicate Moving(before: Bytes, data: Bytes, offset: nat, gap: nat, remaining: nat) {
    && offset + remaining <= |before|
    && |data| == (if offset + remaining < |before| then |before| + gap else |before|)
    && (forall i {:trigger data[i]} :: 0 <= i < offset + remaining ==> data[i] == before[i])
    && (forall i {:trigger data[i]} :: offset + remaining + gap <= i < |data| ==> data[i] == before[i - gap])
  }

  lemma MovedChunk(before: Bytes, data: Bytes, offset: nat, gap: nat, remaining: nat, count: nat)
    requires Moving(before, data, offset, gap, remaining) && 0 < count <= remaining && gap > 0
    ensures var at := offset + remaining - count;
      Moving(before, Written(data, at + gap, data[at..at + count]), offset, gap, remaining - count)
  {
    var at := offset + remaining - count;
    hide Written;
    var next := Written(data, at + gap, data[at..at + count]);
    assert |data[at..at + count]| == count;
    MovedLength(before, data, offset, gap, remaining, count, next);
    forall i | at + gap <= i < |next|
      ensures next[i] == before[i - gap]
    {
      MovedByte(before, data, offset, gap, remaining, count, next, i);
    }
    forall i | 0 <= i < at
      ensures next[i] == before[i]
    {
      WrittenAt(data, at + gap, data[at..at + count], i);
    }
  }

  lemma MovedLength(before: Bytes, data: Bytes, offset: nat, gap: nat, remaining: nat, count: nat, next: Bytes)
    requires Moving(before, data, offset, gap, remaining) && 0 < count <= remaining && gap > 0
    requires var at := offset + remaining - count; next == Written(data, at + gap, data[at..at + count])
    ensures |next| == |before| + gap
  {
    var at := offset + remaining - count;
    hide Written;
    assert |data[at..at + count]| == count;
    WrittenAt(data, at + gap, data[at..at + count], at);
  }

  lemma MovedByte(before: Bytes, data: Bytes, offset: nat, gap: nat, remaining: nat, count: nat, next: Bytes, i: nat)
    requires Moving(before, data, offset, gap, remaining) && 0 < count <= remaining && gap > 0
    requires var at := offset + remaining - count;
      next == Written(data, at + gap, data[at..at + count]) && |next| == |before| + gap && at + gap <= i < |next|
    ensures next[i] == before[i - gap]
  {
    hide Written;
    var at := offset + remaining - count;
    var chunk := data[at..at + count];
    assert |chunk| == count && forall k :: 0 <= k < count ==> chunk[k] == data[at + k];
    WrittenAt(data, at + gap, chunk, i);
    if i < at + gap + count { assert chunk[i - at - gap] == data[i - gap]; }
  }

  lemma HeaderFillsGap(before: Bytes, data: Bytes, offset: nat, header: Bytes)
    requires header != [] && offset <= |before| && Moving(before, data, offset, |header|, 0)
    ensures Written(data, offset, header) == Inserted(before, offset, header)
  {
    WrittenShows(data, offset, header);
    hide Written;
    assert Written(data, offset, header) == before[..offset] + header + before[offset..];
  }

  lemma HeaderPastEnd(data: Bytes, offset: nat, header: Bytes)
    requires header != [] && offset > |data|
    ensures Written(data, offset, header) == Inserted(data, offset, header)
  {
  }

  /** Everything before the offset is as it was. */
  ghost predicate Kept(before: Bytes, data: Bytes, offset: nat) {
    var n := Min(offset, |before|);
    n <= |data| && forall i {:trigger data[i]} :: 0 <= i < n ==> data[i] == before[i]
  }

  /** A partly written chunk or header leaves everything before the offset alone. */
  lemma KeptByWrite(before: Bytes, data: Bytes, pos: nat, bytes: Bytes, offset: nat)
    requires offset <= pos && Kept(before, data, offset)
    ensures Kept(before, Written(data, pos, bytes), offset)
  {
    if bytes != [] { WrittenShows(data, pos, bytes); }
  }

  /** The state between two chunks; past the end of the file there is nothing to move. */
  ghost predicate Between(before: Bytes, data: Bytes, offset: nat, gap: nat, remaining: nat) {
    if offset <= |before| then Moving(before, data, offset, gap, remaining) else remaining == 0 && data == before
  }

  lemma BetweenStarts(before: Bytes, offset: nat, gap: nat)
    ensures Between(before, before, offset, gap, SaturatingSub(|before|, offset)) && Kept(before, before, offset)
  {
  }

  lemma BetweenKeeps(before: Bytes, data: Bytes, offset: nat, gap: nat, remaining: nat)
    requires Between(before, data, offset, gap, remaining)
    ensures Kept(before, data, offset) && (remaining > 0 ==> offset + remaining <= |data|)
  {
  }

  lemma BetweenMoves(before: Bytes, data: Bytes, offset: nat, gap: nat, remaining: nat, count: nat)
    requires Between(before, data, offset, gap, remaining) && 0 < count <= remaining && gap > 0
    ensures var at := offset + remaining - count;
      && at + count <= |data|
      && Between(before, Written(data, at + gap, data[at..at + count]), offset, gap, remaining - count)
  {
    MovedChunk(before, data, offset, gap, remaining, count);
  }

  lemma BetweenEnds(before: Bytes, data: Bytes, offset: nat, header: Bytes)
    requires header != [] && Between(before, data, offset, |header|, 0)
    ensures Written(data, offset, header) == Inserted(before, offset, header)
  {
    if offset <= |before| {
      HeaderFillsGap(before, data, offset, header);
    } else {
      HeaderPastEnd(before, offset, header);
    }
  }

  // ---- What can go wrong ----------------------------------------------------------------------

  /** Why one chunk cannot be moved. */
  function TurnTrouble(turn: nat, cancelled: nat -> bool, faults: Faults): Option<Error> {
    if cancelled(turn) then Some(Cancelled)
    else if faults.read(turn) || faults.write(turn).Some? then Some(WriteFailed)
    else None
  }

  /** The first trouble among the first `turns` chunks. */
  function MoveTrouble(turns: nat, cancelled: nat -> bool, faults: Faults): Option<Error> {
    if turns == 0 then None
    else
      var before := MoveTrouble(turns - 1, cancelled, faults);
      if before.Some? then before else TurnTrouble(turns - 1, cancelled, faults)
  }

  /** Why a header cannot be inserted into a file of this length. */
  function InsertTrouble(length: nat, offset: nat, header: Bytes, cancelled: nat -> bool,
                         faults: Faults): Option<Error> {
    var turns := DivCeil(SaturatingSub(length, offset), BUFFER);
    var moving := MoveTrouble(turns, cancelled, faults);
    if header == [] then None
    else if faults.stat then Some(WriteFailed)
    else if moving.Some? then moving
    else if faults.write(turns).Some? then Some(WriteFailed)
    else None
  }

  lemma {:induction false} MoveTroubleStays(turn: nat, turns: nat, cancelled: nat -> bool, faults: Faults)
    requires turn < turns && MoveTrouble(turn, cancelled, faults).None? && TurnTrouble(turn, cancelled, faults).Some?
    ensures MoveTrouble(turns, cancelled, faults) == TurnTrouble(turn, cancelled, faults)
  {
    if turns > turn + 1 { MoveTroubleStays(turn, turns - 1, cancelled, faults); }
  }

  lemma {:induction false} NoMoveTrouble(turns: nat, cancelled: nat -> bool, faults: Faults)
    ensures MoveTrouble(turns, cancelled, faults).None? <==>
      forall turn: nat :: turn < turns ==> !cancelled(turn) && !faults.read(turn) && faults.write(turn).None?
  {
    if turns > 0 { NoMoveTrouble(turns - 1, cancelled, faults); }
  }

  /** A header is inserted exactly if it is empty, or no call fails and nothing is cancelled among the
      turns the payload takes. */
  lemma InsertedExactly(length: nat, offset: nat, header: Bytes, cancelled: nat -> bool, faults: Faults)
    ensures var turns := DivCeil(SaturatingSub(length, offset), BUFFER);
      InsertTrouble(length, offset, header, cancelled, faults).None? <==>
        || header == []
        || (&& !faults.stat && faults.write(turns).None?
            && forall turn: nat :: turn < turns ==> !cancelled(turn) && !faults.read(turn) && faults.write(turn).None?)
  {
    NoMoveTrouble(DivCeil(SaturatingSub(length, offset), BUFFER), cancelled, faults);
  }

  /** Nothing goes wrong in the first chunks of 65,536 bytes, counted from the end of the payload. */
  ghost predicate GoesWell(turns: nat, cancelled: nat -> bool, faults: Faults) {
    forall turn: nat :: turn < turns ==> !cancelled(turn) && !faults.read(turn) && faults.write(turn).None?
  }

  /** What is reported: a cancellation exactly if it is noticed before anything fails. */
  lemma InsertionReports(length: nat, offset: nat, header: Bytes, cancelled: nat -> bool, faults: Faults, turns: nat)
    requires offset <= length && turns * 65_536 >= length - offset
    requires turns > 0 ==> (turns - 1) * 65_536 < length - offset
    ensures var trouble := InsertTrouble(length, offset, header, cancelled, faults);
      && (trouble == Some(Cancelled) <==>
            && header != [] && !faults.stat
            && exists turn: nat :: turn < turns && cancelled(turn) && GoesWell(turn, cancelled, faults))
      && (trouble == Some(WriteFailed) <==>
            && header != []
            && (|| faults.stat || (GoesWell(turns, cancelled, faults) && faults.write(turns).Some?)
                || exists turn: nat ::
                     && turn < turns && !cancelled(turn) && (faults.read(turn) || faults.write(turn).Some?)
                     && GoesWell(turn, cancelled, faults)))
      && (trouble.Some? ==> trouble == Some(Cancelled) || trouble == Some(WriteFailed))
  {
    assert DivCeil(SaturatingSub(length, offset), BUFFER) == turns;
    hide DivCeil;
    FirstTrouble(turns, cancelled, faults);
  }

  lemma {:induction false} FirstTrouble(turns: nat, cancelled: nat -> bool, faults: Faults)
    ensures var trouble := MoveTrouble(turns, cancelled, faults);
      && (trouble.None? <==> GoesWell(turns, cancelled, faults))
      && (trouble == Some(Cancelled) <==>
            exists turn: nat :: turn < turns && cancelled(turn) && GoesWell(turn, cancelled, faults))
      && (trouble == Some(WriteFailed) <==>
            exists turn: nat ::
              && turn < turns && !cancelled(turn) && (faults.read(turn) || faults.write(turn).Some?)
              && GoesWell(turn, cancelled, faults))
      && (trouble.Some? ==> trouble == Some(Cancelled) || trouble == Some(WriteFailed))
  {
    if turns > 0 {
      FirstTrouble(turns - 1, cancelled, faults);
      assert GoesWell(turns, cancelled, faults) <==>
        GoesWell(turns - 1, cancelled, faults) && TurnTrouble(turns - 1, cancelled, faults).None?;
    }
  }

  /** A chunk's trouble is the trouble of the whole move; without one, one chunk fewer is left. */
  lemma TurnMatters(turn: nat, turns: nat, remaining: nat, cancelled: nat -> bool, faults: Faults)
    requires remaining > 0 && turn + DivCeil(remaining, BUFFER) == turns && MoveTrouble(turn, cancelled, faults).None?
    ensures turn + 1 + DivCeil(remaining - Min(remaining, BUFFER), BUFFER) == turns
    ensures remaining - Min(remaining, BUFFER) < remaining
    ensures var trouble := TurnTrouble(turn, cancelled, faults);
      if trouble.Some? then MoveTrouble(turns, cancelled, faults) == trouble
      else MoveTrouble(turn + 1, cancelled, faults).None?
  {
    TurnTaken(remaining);
    hide DivCeil;
    if TurnTrouble(turn, cancelled, faults).Some? { MoveTroubleStays(turn, turns, cancelled, faults); }
  }

  /** One chunk fewer is left. */
  lemma TurnTaken(remaining: nat)
    ensures DivCeil(0, BUFFER) == 0
    ensures remaining > 0 ==> DivCeil(remaining, BUFFER) == DivCeil(remaining - Min(remaining, BUFFER), BUFFER) + 1
  {
  }

  // ---- Publishing ----------------------------------------------------------------------------------

  /** What one publication attempt meets: faults of syncing, of reading the size and of renaming,
      and cancellation. */
  datatype Attempt = Attempt(destination: Name, overwrite: bool, syncFails: bool, renameFails: bool, cancelled: bool)

  datatype Disk = Disk(files: map<Name, Bytes>, open: bool)

  /** The outcome of one attempt: the bytes published, or the error and an unchanged disk. */
  function Published(disk: Disk, path: Name, ioError: Option<Error>, a: Attempt): (r: (Result<nat, Error>, Disk))
    ensures r.0.Err? ==> r.1.files == disk.files
  {
    if ioError.Some? then (Err(ioError.value), disk)
    else if disk.open && a.syncFails then (Err(WriteFailed), disk)
    else if path !in disk.files then (Err(WriteFailed), disk)
    else
      var closed := disk.(open := false);
      if a.cancelled then (Err(Cancelled), closed)
      else if !a.overwrite && a.destination in disk.files then (Err(OutputExists), closed)
      else if a.renameFails then (Err(WriteFailed), closed)
      else (Ok(|disk.files[path]|), closed.(files := (disk.files - {path})[a.destination := disk.files[path]]))
  }

  function Dropped(disk: Disk, path: Name): Disk {
    Disk(disk.files - {path}, false)
  }

  /** Attempts made one after another on the same staged file. */
  function Attempts(disk: Disk, path: Name, ioError: Option<Error>, attempts: seq<Attempt>): Disk {
    if attempts == [] then disk
    else Published(Attempts(disk, path, ioError, attempts[..|attempts| - 1]), path, ioError, attempts[|attempts| - 1]).1
  }

  ghost predicate Succeeds(disk: Disk, path: Name, ioError: Option<Error>, attempts: seq<Attempt>, i: nat)
    requires i < |attempts|
  {
    Published(Attempts(disk, path, ioError, attempts[..i]), path, ioError, attempts[i]).0.Ok?
  }

  /** Until an attempt succeeds the disk keeps its files; after one has, no later one does. */
  lemma {:induction false} OneSuccess(disk: Disk, path: Name, ioError: Option<Error>, attempts: seq<Attempt>, i: nat)
    requires forall a :: a in attempts ==> a.destination != path
    requires path in disk.files && i < |attempts| && Succeeds(disk, path, ioError, attempts, i)
    ensures Attempts(disk, path, ioError, attempts).files ==
      (disk.files - {path})[attempts[i].destination := disk.files[path]]
    ensures forall j :: 0 <= j < |attempts| && Succeeds(disk, path, ioError, attempts, j) ==> j == i
    ensures !attempts[i].overwrite ==> attempts[i].destination !in disk.files
    decreases |attempts|
  {
    var n := |attempts| - 1;
    var shorter := attempts[..n];
    assert attempts[i] in attempts && attempts[n] in attempts;
    if i < n {
      assert shorter[..i] == attempts[..i];
      OneSuccess(disk, path, ioError, shorter, i);
      LastFails(disk, path, ioError, attempts);
      hide Published, Attempts;
      forall j | 0 <= j < |attempts| && Succeeds(disk, path, ioError, attempts, j)
        ensures j == i
      {
        if j < n {
          assert shorter[..j] == attempts[..j];
          assert Succeeds(disk, path, ioError, shorter, j);
        }
      }
    } else {
      forall j | 0 <= j < n
        ensures !Succeeds(disk, path, ioError, attempts, j) && !Succeeds(disk, path, ioError, shorter, j)
      {
        assert shorter[..j] == attempts[..j] && shorter[j] == attempts[j];
        assert attempts[j] in attempts && forall a :: a in shorter ==> a in attempts;
        if Succeeds(disk, path, ioError, shorter, j) {
          OneSuccess(disk, path, ioError, shorter, j);
          assert false;
        }
      }
      NoSuccess(disk, path, ioError, shorter);
    }
  }

  /** Once the file has left its own name, the last attempt fails and changes no file. */
  lemma LastFails(disk: Disk, path: Name, ioError: Option<Error>, attempts: seq<Attempt>)
    requires attempts != [] && path !in Attempts(disk, path, ioError, attempts[..|attempts| - 1]).files
    ensures !Succeeds(disk, path, ioError, attempts, |attempts| - 1)
    ensures Attempts(disk, path, ioError, attempts).files ==
      Attempts(disk, path, ioError, attempts[..|attempts| - 1]).files
  {
  }

  lemma {:induction false} NoSuccess(disk: Disk, path: Name, ioError: Option<Error>, attempts: seq<Attempt>)
    requires forall j :: 0 <= j < |attempts| ==> !Succeeds(disk, path, ioError, attempts, j)
    ensures Attempts(disk, path, ioError, attempts).files == disk.files
  {
    if attempts != [] {
      var n := |attempts| - 1;
      var shorter := attempts[..n];
      forall j | 0 <= j < n
        ensures !Succeeds(disk, path, ioError, shorter, j)
      {
        assert shorter[..j] == attempts[..j] && shorter[j] == attempts[j];
        assert !Succeeds(disk, path, ioError, attempts, j);
      }
      NoSuccess(disk, path, ioError, shorter);
      assert !Succeeds(disk, path, ioError, attempts, n);
    }
  }

  /** A staged file's whole life. It ends under exactly the name of its one successful attempt,
      complete, or nowhere; no other file changes, and without permission none is replaced. */
  lemma LifeEnds(disk: Disk, path: Name, ioError: Option<Error>, attempts: seq<Attempt>)
    requires path in disk.files && forall a :: a in attempts ==> a.destination != path
    ensures var after := Dropped(Attempts(disk, path, ioError, attempts), path).files;
      if exists i :: 0 <= i < |attempts| && Succeeds(disk, path, ioError, attempts, i) then
        exists i :: 0 <= i < |attempts| && Succeeds(disk, path, ioError, attempts, i)
          && after == (disk.files - {path})[attempts[i].destination := disk.files[path]]
          && (!attempts[i].overwrite ==> attempts[i].destination !in disk.files)
      else after == disk.files - {path}
  {
    if i :| 0 <= i < |attempts| && Succeeds(disk, path, ioError, attempts, i) {
      OneSuccess(disk, path, ioError, attempts, i);
      assert attempts[i] in attempts;
    } else {
      NoSuccess(disk, path, ioError, attempts);
    }
  }

  /** Only this file's bytes differ. */
  ghost predicate Only(was: Disk, now: Disk, path: Name) {
    path in was.files && path in now.files && now == Disk(was.files[path := now.files[path]], was.open)
  }

  lemma OnlyTwice(was: Disk, between: Disk, now: Disk, path: Name)
    requires Only(was, between, path) && Only(between, now, path)
    ensures Only(was, now, path) && path in now.files
  {
  }

  /** A write that may have stopped partway. */
  ghost predicate PartlyWritten(data: Bytes, now: Bytes, pos: nat, bytes: Bytes) {
    exists n :: 0 <= n <= |bytes| && now == Written(data, pos, bytes[..n])
  }

  lemma PartlyKeeps(before: Bytes, data: Bytes, now: Bytes, pos: nat, bytes: Bytes, offset: nat)
    requires PartlyWritten(data, now, pos, bytes) && offset <= pos && Kept(before, data, offset)
    ensures Kept(before, now, offset)
  {
    var n :| 0 <= n <= |bytes| && now == Written(data, pos, bytes[..n]);
    hide Written, Kept;
    KeptByWrite(before, data, pos, bytes[..n], offset);
  }

  // ---- The staged file ---------------------------------------------------------------------------

  class StagedFile {
    const path: Name
    var disk: Disk
    var ioError: Option<Error>

    constructor (path: Name, files: map<Name, Bytes>)
      requires path !in files
      ensures this.path == path && disk == Disk(files[path := []], true) && ioError == None
    {
      this.path := path;
      disk := Disk(files[path := []], true);
      ioError := None;
    }

    function Data(): Bytes
      reads this
      requires path in disk.files
    {
      disk.files[path]
    }

    method ReadAt(pos: nat, buffer: array<Byte>, count: nat)
      requires path in disk.files && count <= buffer.Length && pos + count <= |Data()|
      modifies buffer
      ensures buffer[..count] == Data()[pos..pos + count]
    {
      forall i | 0 <= i < count { buffer[i] := Data()[pos + i]; }
    }

    method WriteAt(pos: nat, bytes: Bytes)
      requires path in disk.files
      modifies this`disk
      ensures Only(old(disk), disk, path) && Data() == Written(old(Data()), pos, bytes)
    {
      disk := disk.(files := disk.files[path := Written(Data(), pos, bytes)]);
    }

    /** Writes bytes, or a part of them if the call fails. */
    method TryWrite(pos: nat, bytes: Bytes, fault: Option<nat>) returns (ok: bool)
      requires path in disk.files
      modifies this`disk
      ensures Only(old(disk), disk, path)
      ensures ok <==> fault.None?
      ensures ok ==> Data() == Written(old(Data()), pos, bytes)
      ensures !ok ==> PartlyWritten(old(Data()), Data(), pos, bytes)
    {
      hide Written;
      ok := fault.None?;
      if ok {
        WriteAt(pos, bytes);
      } else {
        var n := Min(fault.value, |bytes|);
        WriteAt(pos, bytes[..n]);
      }
    }

    /** Moves the last `count` of the payload bytes still in place behind the gap. */
    method MoveChunk(ghost before: Bytes, offset: nat, gap: nat, remaining: nat, count: nat, buffer: array<Byte>,
                     readFails: bool, fault: Option<nat>) returns (ok: bool)
      requires path in disk.files && 0 < count <= remaining && count <= buffer.Length && gap > 0
      requires Between(before, Data(), offset, gap, remaining)
      modifies this`disk, buffer
      ensures path in disk.files && Only(old(disk), disk, path)
      ensures ok <==> !readFails && fault.None?
      ensures ok ==> Between(before, Data(), offset, gap, remaining - count)
      ensures !ok ==> Kept(before, Data(), offset)
    {
      BetweenKeeps(before, Data(), offset, gap, remaining);
      BetweenMoves(before, Data(), offset, gap, remaining, count);
      hide *;
      if readFails { return false; }
      var at := offset + remaining - count;
      ReadAt(at, buffer, count);
      var chunk := buffer[..count];
      ghost var data := Data();
      assert chunk == data[at..at + count];
      ok := TryWrite(at + gap, chunk, fault);
      if !ok { PartlyKeeps(before, data, Data(), at + gap, chunk, offset); }
    }

    /** One turn: polls the flag, and moves the last chunk still in place. */
    method MoveTurn(ghost was: Disk, ghost before: Bytes, offset: nat, gap: nat, left: nat, turn: nat,
                    buffer: array<Byte>, cancelled: nat -> bool, faults: Faults) returns (r: Result<nat, Error>)
      requires path in disk.files && Only(was, disk, path) && Between(before, Data(), offset, gap, left)
      requires left > 0 && gap > 0 && buffer.Length == BUFFER
      modifies this`disk, buffer
      ensures path in disk.files && Only(was, disk, path)
      ensures r.Err? <==> TurnTrouble(turn, cancelled, faults).Some?
      ensures r.Err? ==>
        TurnTrouble(turn, cancelled, faults) == Some(r.error) && Kept(before, Data(), offset)
      ensures r.Ok? ==> r.value == left - Min(left, BUFFER) && Between(before, Data(), offset, gap, r.value)
    {
      hide Between, Kept, Only;
      BetweenKeeps(before, Data(), offset, gap, left);
      if cancelled(turn) { return Err(Cancelled); }
      ghost var between := disk;
      var count := Min(left, BUFFER);
      var moved := MoveChunk(before, offset, gap, left, count, buffer, faults.read(turn), faults.write(turn));
      OnlyTwice(was, between, disk, path);
      if !moved { return Err(WriteFailed); }
      r := Ok(left - count);
    }

    /** Moves the payload behind the gap with one bounded buffer, backwards, last chunk first. */
    method MovePayload(offset: nat, gap: nat, remaining: nat, cancelled: nat -> bool, faults: Faults)
      returns (r: Result<nat, Error>)
      requires path in disk.files && disk.open && gap > 0 && remaining == SaturatingSub(|Data()|, offset)
      modifies this`disk
      ensures path in disk.files && Only(old(disk), disk, path)
      ensures var trouble := MoveTrouble(DivCeil(remaining, BUFFER), cancelled, faults);
        (r.Err? <==> trouble.Some?) && (r.Err? ==> trouble == Some(r.error))
      ensures r.Ok? ==> r.value == DivCeil(remaining, BUFFER) && Between(old(Data()), Data(), offset, gap, 0)
      ensures Kept(old(Data()), Data(), offset)
    {
      ghost var before, was := Data(), disk;
      assert Only(was, disk, path);
      BetweenStarts(before, offset, gap);
      TurnTaken(0);
      assert MoveTrouble(0, cancelled, faults).None?;
      hide Between, Kept, Only, MoveTrouble, TurnTrouble, DivCeil, Min;
      var left, buffer, turn := remaining, new Byte[BUFFER](_ => 0), 0;
      ghost var turns := DivCeil(remaining, BUFFER);
      while left > 0
        invariant path in disk.files && Only(was, disk, path)
        invariant Between(before, Data(), offset, gap, left)
        invariant fresh(buffer) && buffer.Length == BUFFER
        invariant turn + DivCeil(left, BUFFER) == turns && MoveTrouble(turn, cancelled, faults).None?
        decreases left
      {
        TurnMatters(turn, turns, left, cancelled, faults);
        var moved := MoveTurn(was, before, offset, gap, left, turn, buffer, cancelled, faults);
        if moved.Err? { return Err(moved.error); }
        left, turn := moved.value, turn + 1;
      }
      BetweenKeeps(before, Data(), offset, gap, 0);
      r := Ok(turn);
    }

    /** Inserts the header before the payload. It fails exactly for the first trouble among its
        calls and polls; whatever fails, everything before the offset and every other file is
        untouched. */
    method InsertHeader(offset: nat, header: Bytes, cancelled: nat -> bool, faults: Faults)
      returns (r: Result<(), Error>)
      requires path in disk.files && disk.open
      modifies this`disk
      ensures Only(old(disk), disk, path)
      ensures r.Err? <==> InsertTrouble(old(|Data()|), offset, header, cancelled, faults).Some?
      ensures r.Err? ==> InsertTrouble(old(|Data()|), offset, header, cancelled, faults) == Some(r.error)
      ensures r.Ok? ==> Data() == Inserted(old(Data()), offset, header)
      ensures r.Err? ==> Kept(old(Data()), Data(), offset)
    {
      if header == [] { return Ok(()); }
      hide Between, Kept, Written, Inserted, MoveTrouble, DivCeil;
      ghost var before := Data();
      BetweenStarts(before, offset, |header|);
      if faults.stat { return Err(WriteFailed); }
      var moved := MovePayload(offset, |header|, SaturatingSub(|Data()|, offset), cancelled, faults);
      if moved.Err? { return Err(moved.error); }
      BetweenEnds(before, Data(), offset, header);
      ghost var data := Data();
      var ok := TryWrite(offset, header, faults.write(moved.value));
      if !ok {
        PartlyKeeps(before, data, Data(), offset, header, offset);
        return Err(WriteFailed);
      }
      r := Ok(());
    }

    /** Publishes the file under the attempt's name, if everything allows it: the bytes move to that
        name, no third name changes, and nothing changes otherwise. */
    method Publish(a: Attempt) returns (r: Result<nat, Error>)
      modifies this`disk
      ensures (r, disk) == Published(old(disk), path, ioError, a)
      ensures r.Ok? <==>
        && ioError.None? && !(old(disk).open && a.syncFails) && path in old(disk).files && !a.cancelled
        && (a.overwrite || a.destination !in old(disk).files) && !a.renameFails
      ensures r.Err? && ioError.Some? ==> r.error == ioError.value && disk == old(disk)
      ensures r.Err? && ioError.None? ==>
        r.error == if (old(disk).open && a.syncFails) || path !in old(disk).files then WriteFailed
                   else if a.cancelled then Cancelled
                   else if !a.overwrite && a.destination in old(disk).files then OutputExists else WriteFailed
      ensures r.Ok? ==> !disk.open
      ensures forall name :: name != path && name != a.destination ==>
        && (name in disk.files <==> name in old(disk).files)
        && (name in disk.files ==> disk.files[name] == old(disk).files[name])
      ensures r.Ok? ==>
        && path in old(disk).files && a.destination in disk.files
        && disk.files[a.destination] == old(disk).files[path] && r.value == |disk.files[a.destination]|
      ensures r.Ok? && a.destination != path ==> path !in disk.files
      ensures r.Ok? && !a.overwrite ==> a.destination !in old(disk).files
      ensures r.Err? ==> disk.files == old(disk).files
    {
      if ioError.Some? { return Err(ioError.value); }
      if disk.open && a.syncFails { return Err(WriteFailed); }
      if path !in disk.files { return Err(WriteFailed); }
      var bytes := |disk.files[path]|;
      disk := disk.(open := false);
      if a.cancelled { return Err(Cancelled); }
      if a.overwrite {
        if a.renameFails { return Err(WriteFailed); }
      } else {
        if a.destination in disk.files { return Err(OutputExists); }
        if a.renameFails { return Err(WriteFailed); }
      }
      disk := disk.(files := (disk.files - {path})[a.destination := disk.files[path]]);
      r := Ok(bytes);
    }

    method Drop()
      modifies this`disk
      ensures disk == Dropped(old(disk), path)
    {
      disk := disk.(open := false);
      disk := disk.(files := disk.files - {path});
    }
  }
}
