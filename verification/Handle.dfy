/**
 The pool file and an open handle on it. Every handle operation may fail: each call takes
 one answer from a schedule of faults, and an exhausted schedule means no more faults. A
 failing buffer write leaves the file as it was. Contents and length are read only under both
 locks, and changed only while both are held exclusively.
 */
module Handles {
  import opened Results
  import opened Bytes
  import opened KvpErrors
  import opened PoolLayout

  datatype LockState = Unlocked | Shared | Exclusive

  class PoolFile {
    var present: bool
    var contents: seq<byte>
    var faults: seq<bool>
    /** The modes in which both locks have been taken, one critical section after the other. */
    ghost var sections: seq<LockState>
    /** Has everything that was written been flushed? */
    ghost var flushed: bool

    /** A missing file has no contents. */
    predicate Valid()
      reads this
    {
      !present ==> contents == []
    }

    /** Takes the next answer of the schedule: does this operation fail? */
    method NextFault() returns (fails: bool)
      modifies this`faults
      ensures fails == Fails(old(faults)) && faults == Rest(old(faults))
    {
      fails := false;
      if faults != [] {
        fails, faults := faults[0], faults[1..];
      }
    }
  }

  predicate Fails(faults: seq<bool>) {
    faults != [] && faults[0]
  }

  function Rest(faults: seq<bool>): seq<bool> {
    if faults == [] then [] else faults[1..]
  }

  /** No fault is scheduled any more. */
  predicate Calm(faults: seq<bool>) {
    faults == []
  }

  class Handle {
    const file: PoolFile
    var pos: nat
    var flock: LockState
    var fcntl: LockState

    constructor (file: PoolFile)
      ensures this.file == file && pos == 0 && flock == Unlocked && fcntl == Unlocked
    {
      this.file := file;
      pos, flock, fcntl := 0, Unlocked, Unlocked;
    }

    method Seek(target: nat) returns (r: Result<(), IoError>)
      modifies this`pos, file`faults
      ensures r.Ok? ==> pos == target
      ensures Calm(old(file.faults)) ==> r.Ok? && Calm(file.faults)
    {
      var fails := file.NextFault();
      if fails {
        return Err(Other);
      }
      pos := target;
      return Ok(());
    }

    /** Both locks are held, in this mode at least. */
    predicate Holds(mode: LockState)
      reads this
    {
      flock == fcntl && (flock == Exclusive || (flock == Shared && mode != Exclusive))
    }

    method SeekEnd() returns (r: Result<nat, IoError>)
      requires Holds(Shared)
      modifies this`pos, file`faults
      ensures r.Ok? ==> pos == r.value == |file.contents|
      ensures Calm(old(file.faults)) ==> r.Ok? && Calm(file.faults)
    {
      var fails := file.NextFault();
      if fails {
        return Err(Other);
      }
      pos := |file.contents|;
      return Ok(pos);
    }

    method StreamPosition() returns (r: Result<nat, IoError>)
      modifies file`faults
      ensures r.Ok? ==> r.value == pos
      ensures Calm(old(file.faults)) ==> r.Ok? && Calm(file.faults)
    {
      var fails := file.NextFault();
      if fails {
        return Err(Other);
      }
      return Ok(pos);
    }

    method ReadExact(n: nat) returns (r: Result<seq<byte>, IoError>)
      requires Holds(Shared)
      modifies this`pos, file`faults
      ensures r.Ok? ==> old(pos) + n <= |file.contents| && r.value == file.contents[old(pos)..old(pos) + n]
      ensures r.Ok? ==> pos == old(pos) + n
      ensures Calm(old(file.faults)) ==> Calm(file.faults)
      ensures Calm(old(file.faults)) && old(pos) + n <= |file.contents| ==> r.Ok?
    {
      var fails := file.NextFault();
      if fails {
        return Err(Other);
      }
      if pos + n > |file.contents| {
        if pos < |file.contents| {
          pos := |file.contents|;
        }
        return Err(UnexpectedEof);
      }
      pos := pos + n;
      return Ok(file.contents[pos - n..pos]);
    }

    method WriteAll(data: seq<byte>) returns (r: Result<(), IoError>)
      requires Holds(Exclusive)
      modifies this`pos, file`faults, file`contents, file`flushed
      ensures r.Ok? ==> pos == old(pos) + |data| && file.contents == WriteAt(old(file.contents), old(pos), data)
      ensures r.Err? ==> file.contents == old(file.contents) && file.flushed == old(file.flushed)
      ensures Calm(old(file.faults)) ==> r.Ok? && Calm(file.faults)
    {
      var fails := file.NextFault();
      if fails {
        return Err(Other);
      }
      file.contents := WriteAt(file.contents, pos, data);
      file.flushed := false;
      pos := pos + |data|;
      return Ok(());
    }

    method SetLen(n: nat) returns (r: Result<(), IoError>)
      requires Holds(Exclusive)
      modifies file`faults, file`contents
      ensures r.Ok? ==> file.contents == Resize(old(file.contents), n)
      ensures r.Err? ==> file.contents == old(file.contents)
      ensures Calm(old(file.faults)) ==> r.Ok? && Calm(file.faults)
    {
      var fails := file.NextFault();
      if fails {
        return Err(Other);
      }
      file.contents := Resize(file.contents, n);
      return Ok(());
    }

    method Flush() returns (r: Result<(), IoError>)
      modifies file`faults, file`flushed
      ensures file.flushed == (r.Ok? || old(file.flushed))
      ensures Calm(old(file.faults)) ==> r.Ok? && Calm(file.faults)
    {
      var fails := file.NextFault();
      if fails {
        return Err(Other);
      }
      file.flushed := true;
      return Ok(());
    }

    method Length() returns (r: Result<nat, IoError>)
      requires Holds(Shared)
      modifies file`faults
      ensures r.Ok? ==> r.value == |file.contents|
      ensures Calm(old(file.faults)) ==> r.Ok? && Calm(file.faults)
    {
      var fails := file.NextFault();
      return if fails then Err(Other) else Ok(|file.contents|);
    }

    method Flock(mode: LockState) returns (r: Result<(), IoError>)
      modifies this`flock, file`faults
      ensures flock == if r.Ok? then mode else old(flock)
      ensures r.Err? == Fails(old(file.faults)) && file.faults == Rest(old(file.faults))
    {
      var fails := file.NextFault();
      if fails {
        return Err(Other);
      }
      flock := mode;
      return Ok(());
    }

    method Fcntl(mode: LockState) returns (r: Result<(), IoError>)
      modifies this`fcntl, file`faults
      ensures fcntl == if r.Ok? then mode else old(fcntl)
      ensures r.Err? == Fails(old(file.faults)) && file.faults == Rest(old(file.faults))
    {
      var fails := file.NextFault();
      if fails {
        return Err(Other);
      }
      fcntl := mode;
      return Ok(());
    }

    /**
     `lock_for_writing` and `lock_for_reading`: both locks or, as far as the unlock itself
     succeeds, none. A `flock` that even the unlock cannot drop goes away with the handle.
     */
    method Lock(mode: LockState) returns (r: Result<(), IoError>)
      requires flock == Unlocked && fcntl == Unlocked && mode != Unlocked
      modifies this`flock, this`fcntl, file`faults, file`sections
      ensures r.Ok? ==> flock == mode && fcntl == mode && file.sections == old(file.sections) + [mode]
      ensures r.Err? ==> file.sections == old(file.sections)
      ensures r.Err? ==> fcntl == Unlocked
      ensures r.Err? && flock != Unlocked ==> Fails(Rest(old(file.faults))) && Fails(Rest(Rest(old(file.faults))))
      ensures Calm(old(file.faults)) ==> r.Ok? && Calm(file.faults)
    {
      var _ :- Flock(mode);
      var second := Fcntl(mode);
      if second.Err? {
        var _ := Flock(Unlocked);
      } else {
        file.sections := file.sections + [mode];
      }
      return second;
    }
  }
}
