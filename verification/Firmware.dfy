/** The firmware update service, src/fwu/fwu.c, and the read-only slot files of src/fwu/fwu_fs.c.
    The secondary slot is erased and written by an update and read through open files; the counter
    `readers` keeps the two apart. */
module Firmware {
  import opened Bytes
  import opened Errors
  import Arith
  import Crc

  datatype State = Idle | Receiving | Ready | Failed | Verified

  /** How the flash and bootloader calls of one operation go. */
  datatype Flash = Flash(
    erase: bool, residue: seq<byte>,  // what a failed erase leaves
    open: bool, init: bool,
    write: bool, spill: nat,          // buffered bytes that reach the flash early
    flush: bool,
    upgrade: bool, swapScheduled: bool, needsRevert: bool)

  class Update {
    var state: State
    var total: uint32
    var received: uint32
    var expectedCrc: uint32
    var actualCrc: uint32
    var swapScheduled: bool
    var started: nat
    var completed: nat
    var failed: nat
    var readers: nat
    /** Image bytes in the secondary slot, and those still in the stream buffer. */
    var slot: seq<byte>
    var buffer: seq<byte>
    const maxImage: uint32

    constructor (contents: seq<byte>, maximum: uint32)
      ensures Valid() && state == Idle && readers == 0 && slot == contents && maxImage == maximum
    {
      state, total, received, expectedCrc, actualCrc := Idle, 0, 0, 0, 0;
      swapScheduled, started, completed, failed, readers := false, 0, 0, 0, 0;
      slot, buffer, maxImage := contents, [], maximum;
    }

    /** The bytes a transfer has accepted, wherever they are. */
    function Accepted(): seq<byte>
      reads this
    {
      slot + buffer
    }

    ghost predicate Valid()
      reads this
    {
      && (state == Receiving || state == Failed ==> readers == 0)
      && (state == Receiving ==> received == |Accepted()| <= total && actualCrc == Crc.Checksum(Accepted()))
      && (state == Verified || state == Ready ==> |slot| == total && Crc.Checksum(slot) == expectedCrc)
    }

    // The only operations that change the slot; each needs it to have no reader.

    method EraseSlot(flash: Flash) returns (ok: bool)
      requires readers == 0
      modifies this`slot, this`buffer
      ensures ok == flash.erase && slot == (if ok then [] else flash.residue) && buffer == []
    {
      ok := flash.erase;
      slot, buffer := if ok then [] else flash.residue, [];
    }

    method Program(bytes: seq<byte>, spill: nat)
      requires readers == 0
      modifies this`slot, this`buffer
      ensures Accepted() == old(Accepted()) + bytes
      ensures spill >= |old(buffer)| + |bytes| ==> buffer == []
    {
      var all := buffer + bytes;
      var n := if spill < |all| then spill else |all|;
      assert slot + all == slot + all[..n] + all[n..];
      slot, buffer := slot + all[..n], all[n..];
    }

    // ----- readers -----

    method Acquire() returns (result: Status)
      requires Valid()
      modifies this`readers
      ensures Valid() && readers == (if result.Success? then old(readers) + 1 else old(readers))
      ensures result == if state == Receiving || state == Failed then Failure(EBUSY) else Success
    {
      if state == Receiving || state == Failed {
        return Failure(EBUSY);
      }
      readers := readers + 1;
      result := Success;
    }

    method Release()
      requires Valid() && readers > 0
      modifies this`readers
      ensures Valid() && readers == old(readers) - 1
    {
      readers := readers - 1;
    }

    // ----- transfer -----

    method Begin(size: uint32, crc: uint32, flash: Flash) returns (result: Status)
      requires Valid()
      modifies this
      ensures Valid() && readers == old(readers)
      ensures readers > 0 ==> slot == old(slot) && result.Failure?
      ensures result.Success? ==> state == Receiving && total == size > 0 && expectedCrc == crc && received == 0 && Accepted() == []
      ensures result == Failure(EIO) ==> state == Failed
      ensures result.Failure? && result != Failure(EIO) ==> Unchanged(old(state), old(slot), old(buffer), old(received), old(total), old(expectedCrc)) && actualCrc == old(actualCrc)
      ensures result.Success? ==> actualCrc == 0 && !swapScheduled
      ensures started == old(started) + (if result.Success? then 1 else 0) && completed == old(completed) && failed == old(failed) + (if result == Failure(EIO) then 1 else 0)
      ensures old(state) == Receiving ==> result.Failure? && state == Receiving
      ensures result == if size == 0 then Failure(EINVAL) else if size > maxImage then Failure(EFBIG)
                        else if old(state) == Receiving || readers > 0 || flash.needsRevert then Failure(EBUSY)
                        else if flash.erase && flash.open && flash.init then Success else Failure(EIO)
    {
      if size == 0 {
        return Failure(EINVAL);
      }
      if size > maxImage {
        return Failure(EFBIG);
      }
      if state == Receiving || readers != 0 || flash.needsRevert {
        return Failure(EBUSY);
      }
      var erased := EraseSlot(flash);
      if !erased || !flash.open || !flash.init {
        state, failed := Failed, failed + 1;
        return Failure(EIO);
      }
      total, expectedCrc, received, actualCrc := size, crc, 0, 0;
      swapScheduled, state, started := false, Receiving, started + 1;
      Crc.ChecksumEmpty();
      result := Success;
    }

    /** The transfer and the slot are as they were. */
    predicate Unchanged(s: State, flash: seq<byte>, stream: seq<byte>, count: uint32, size: uint32, crc: uint32)
      reads this
    {
      state == s && slot == flash && buffer == stream && received == count && total == size && expectedCrc == crc
    }

    method Write(offset: uint32, data: seq<byte>, flash: Flash) returns (result: Status)
      requires Valid()
      modifies this
      ensures Valid() && readers == old(readers) && total == old(total) && expectedCrc == old(expectedCrc)
      ensures readers > 0 ==> slot == old(slot)
      ensures result.Success? ==>
                && old(state) == Receiving && state == Receiving && offset == old(received) && data != []
                && Accepted() == old(Accepted()) + data && received == old(received) + |data| <= total
      ensures result == Failure(EIO) ==> state == Failed
      ensures result.Failure? && result != Failure(EIO) ==> Unchanged(old(state), old(slot), old(buffer), old(received), old(total), old(expectedCrc)) && actualCrc == old(actualCrc)
      ensures swapScheduled == old(swapScheduled)
      ensures started == old(started) && completed == old(completed) && failed == old(failed) + (if result == Failure(EIO) then 1 else 0)
      ensures result.Success? <==> old(state) == Receiving && data != [] && offset == old(received)
                                   && offset + |data| <= total && flash.write
      ensures result == if data == [] || old(state) != Receiving then Failure(EINVAL)
                        else if offset != old(received) then Failure(ESPIPE)
                        else if offset + |data| > total then Failure(EFBIG)
                        else if flash.write then Success else Failure(EIO)
    {
      if data == [] {
        return Failure(EINVAL);
      }
      if state != Receiving {
        return Failure(EINVAL);
      }
      if offset != received {
        return Failure(ESPIPE);
      }
      if offset + |data| > total {
        return Failure(EFBIG);
      }
      if !flash.write {
        state, failed := Failed, failed + 1;
        return Failure(EIO);
      }
      Crc.UpdateConcat(Accepted(), data);
      Program(data, flash.spill);
      actualCrc := Crc.Update(actualCrc, data);
      received := received + |data|;
      result := Success;
    }

    /** `fwu_verify_locked`: the boundary after which the slot is readable as the image. */
    method Verify(flash: Flash) returns (result: Status)
      requires Valid()
      modifies this
      ensures Valid() && readers == old(readers) && total == old(total) && expectedCrc == old(expectedCrc)
      ensures readers > 0 ==> slot == old(slot)
      ensures result == if old(state) == Verified then Success else if old(state) != Receiving then Failure(EINVAL)
                        else if old(received) != total then Failure(EAGAIN)
                        else if old(actualCrc) != expectedCrc then Failure(EILSEQ)
                        else if flash.flush then Success else Failure(EIO)
      ensures swapScheduled == old(swapScheduled) && actualCrc == old(actualCrc) && received == old(received)
      ensures result.Success? ==> state == Verified && slot == (if old(state) == Verified then old(slot) else old(Accepted()))
      ensures result in {Failure(EIO), Failure(EILSEQ)} ==> state == Failed
      ensures result == Failure(EILSEQ) && flash.erase ==> slot == []
      ensures result.Failure? && result !in {Failure(EIO), Failure(EILSEQ)} ==> Unchanged(old(state), old(slot), old(buffer), old(received), old(total), old(expectedCrc))
      ensures started == old(started) && completed == old(completed) && failed == old(failed) + (if result in {Failure(EIO), Failure(EILSEQ)} then 1 else 0)
    {
      if state == Verified {
        return Success;
      }
      if state != Receiving {
        return Failure(EINVAL);
      }
      if received != total {
        return Failure(EAGAIN);
      }
      if actualCrc != expectedCrc {
        var _ := EraseSlot(flash);
        state, failed := Failed, failed + 1;
        return Failure(EILSEQ);
      }
      if !flash.flush {
        state, failed := Failed, failed + 1;
        return Failure(EIO);
      }
      ghost var image := Accepted();
      Program([], |buffer|);
      assert slot == Accepted() == image + [] == image;
      state := Verified;
      result := Success;
    }

    method Finish(flash: Flash) returns (result: Status)
      requires Valid()
      modifies this
      ensures Valid() && readers == old(readers)
      ensures readers > 0 ==> slot == old(slot) && result.Failure? && state == old(state)
      ensures result.Success? ==> state == Ready && slot == (if old(state) == Verified then old(slot) else old(Accepted()))
      ensures result in {Failure(EIO), Failure(EILSEQ)} ==> state == Failed
      ensures result.Failure? && result !in {Failure(EIO), Failure(EILSEQ)} ==> Unchanged(old(state), old(slot), old(buffer), old(received), old(total), old(expectedCrc))
      ensures result.Failure? ==> swapScheduled == old(swapScheduled)
      ensures started == old(started) && completed == old(completed) + (if result.Success? then 1 else 0) && failed == old(failed) + (if result in {Failure(EIO), Failure(EILSEQ)} then 1 else 0)
      ensures result.Success? ==> total == old(total)
      ensures result == if readers > 0 then Failure(EBUSY)
                        else if old(state) != Verified && old(state) != Receiving then Failure(EINVAL)
                        else if old(state) == Receiving && old(received) != old(total) then Failure(EAGAIN)
                        else if old(state) == Receiving && old(actualCrc) != old(expectedCrc) then Failure(EILSEQ)
                        else if old(state) == Receiving && !flash.flush then Failure(EIO)
                        else if flash.upgrade && flash.swapScheduled then Success else Failure(EIO)
      ensures result.Success? ==> swapScheduled
      ensures actualCrc == old(actualCrc) && received == old(received)
    {
      if readers != 0 {
        return Failure(EBUSY);
      }
      result := Verify(flash);
      if result.Failure? {
        return;
      }
      if !flash.upgrade || !flash.swapScheduled {
        state, failed := Failed, failed + 1;
        return Failure(EIO);
      }
      swapScheduled, state, completed := true, Ready, completed + 1;
    }

    method Abort(flash: Flash) returns (result: Status)
      requires Valid()
      modifies this
      ensures Valid() && readers == old(readers)
      ensures readers > 0 ==> slot == old(slot) && result.Failure?
      ensures result.Success? ==> state == Idle && slot == []
      ensures result == if readers > 0 || flash.needsRevert then Failure(EBUSY) else if flash.erase then Success else Failure(EIO)
      ensures result.Success? ==> received == 0 && total == 0 && !swapScheduled
      ensures result == Failure(EIO) ==> state == Failed
      ensures result == Failure(EBUSY) ==> Unchanged(old(state), old(slot), old(buffer), old(received), old(total), old(expectedCrc)) && swapScheduled == old(swapScheduled) && actualCrc == old(actualCrc)
      ensures result.Success? ==> actualCrc == 0 && expectedCrc == 0
      ensures started == old(started) && completed == old(completed) && failed == old(failed) + (if result != Failure(EBUSY) && old(state) == Receiving then 1 else 0)
    {
      if readers != 0 || flash.needsRevert {
        return Failure(EBUSY);
      }
      if state == Receiving {
        failed := failed + 1;
      }
      var erased := EraseSlot(flash);
      if !erased {
        state := Failed;
        return Failure(EIO);
      }
      total, received, expectedCrc, actualCrc, swapScheduled, state := 0, 0, 0, 0, false, Idle;
      result := Success;
    }
  }

  // ----- slot files -----

  datatype SlotFile = Closed | Open(secondary: bool, position: nat, extent: Extent)

  ghost function OpenSecondary(files: seq<SlotFile>): nat {
    if files == [] then 0
    else OpenSecondary(files[..|files| - 1])
         + if files[|files| - 1].Open? && files[|files| - 1].secondary then 1 else 0
  }

  ghost function Weight(f: SlotFile): nat {
    if f.Open? && f.secondary then 1 else 0
  }

  lemma {:induction false} OpenSecondaryUpdate(files: seq<SlotFile>, i: nat, f: SlotFile)
    requires i < |files|
    ensures OpenSecondary(files[i := f]) == OpenSecondary(files) - Weight(files[i]) + Weight(f)
    ensures OpenSecondary(files) >= Weight(files[i])
  {
    var n := |files| - 1;
    if i < n {
      assert files[i := f][..n] == files[..n][i := f];
      OpenSecondaryUpdate(files[..n], i, f);
    } else {
      assert files[i := f][..n] == files[..n];
    }
  }

  /** `image_extent` and the flash area calls: what opening an image of either slot finds. */
  datatype Image = Image(areaOpens: bool, extent: Result<Extent>)

  /** Where an image lies in its slot. */
  datatype Extent = Extent(start: nat, size: nat)

  class SlotFiles {
    const update: Update
    const files: array<SlotFile>
    /** Secondary images opened by a stat or a directory read that has not finished. */
    var probes: nat

    constructor (u: Update, handles: Positive)
      requires u.Valid() && u.readers == 0
      ensures Valid() && update == u && fresh(files)
    {
      update := u;
      files := new SlotFile[handles](_ => Closed);
      probes := 0;
      new;
      AllClosed(files[..]);
    }

    /** Every secondary reader is an open file or a probe in progress. */
    ghost predicate Valid()
      reads this, update, files
    {
      update.Valid() && update.readers == OpenSecondary(files[..]) + probes
    }

    /** `open_image`: take the slot, and give it back if the image does not open. */
    method OpenImage(secondary: bool, image: Image) returns (result: Result<SlotFile>)
      requires update.Valid()
      modifies update`readers
      ensures update.Valid()
      ensures update.readers == old(update.readers) + (if result.Ok? then Weight(result.value) else 0)
      ensures result == if secondary && (update.state == Receiving || update.state == Failed) then Err(EBUSY)
                        else if !image.areaOpens then Err(EIO) else if image.extent.Err? then Err(image.extent.error)
                        else Ok(Open(secondary, 0, image.extent.value))
    {
      if secondary {
        var acquired := update.Acquire();
        if acquired.Failure? {
          return Err(acquired.error);
        }
      }
      if !image.areaOpens || image.extent.Err? {
        if secondary {
          update.Release();
        }
        return Err(if !image.areaOpens then EIO else image.extent.error);
      }
      result := Ok(Open(secondary, 0, image.extent.value));
    }

    /** `slot_open`: the first free handle. */
    method OpenFile(secondary: bool, image: Image) returns (result: Result<nat>)
      requires Valid()
      modifies update`readers, files
      ensures Valid()
      ensures result.Ok? ==> result.value < files.Length && old(files[result.value]) == Closed && image.extent.Ok?
                             && files[result.value] == Open(secondary, 0, image.extent.value)
                             && forall i :: 0 <= i < result.value ==> old(files[i]).Open?
      ensures result.Err? ==> result.error == if forall i :: 0 <= i < files.Length ==> old(files[i]).Open? then EMFILE
                              else if secondary && (update.state == Receiving || update.state == Failed) then EBUSY
                              else if !image.areaOpens then EIO else if image.extent.Err? then image.extent.error else result.error
      ensures result.Ok? <==> (exists i :: 0 <= i < files.Length && !old(files[i]).Open?) && image.areaOpens && image.extent.Ok?
                              && !(secondary && (update.state == Receiving || update.state == Failed))
      ensures forall i :: 0 <= i < files.Length && (result.Err? || i != result.value) ==> files[i] == old(files[i])
    {
      var i := 0;
      while i < files.Length && files[i].Open?
        invariant 0 <= i <= files.Length && forall j :: 0 <= j < i ==> files[j].Open?
      {
        i := i + 1;
      }
      if i == files.Length {
        return Err(EMFILE);
      }
      var found := OpenImage(secondary, image);
      if found.Err? {
        return Err(found.error);
      }
      OpenSecondaryUpdate(files[..], i, found.value);
      ghost var before := files[..];
      files[i] := found.value;
      assert files[..] == before[i := found.value];
      result := Ok(i);
    }

    /** `slot_close`. */
    method CloseFile(handle: nat)
      requires Valid() && handle < files.Length && files[handle].Open?
      modifies update`readers, files
      ensures Valid() && files[handle] == Closed
      ensures forall i :: 0 <= i < files.Length && i != handle ==> files[i] == old(files[i])
    {
      ghost var before := files[..];
      OpenSecondaryUpdate(before, handle, Closed);
      if files[handle].secondary {
        update.Release();
      }
      files[handle] := Closed;
      assert files[..] == before[handle := Closed];
    }

    /** `slot_stat` and `slot_readdir` hold the slot while they look, without a table handle. */
    method BeginProbe(secondary: bool, image: Image) returns (result: Result<SlotFile>)
      requires Valid()
      modifies this, update`readers
      ensures Valid()
      ensures result.Ok? ==> image.extent.Ok? && result.value == Open(secondary, 0, image.extent.value)
                             && probes == old(probes) + if secondary then 1 else 0
      ensures result.Ok? <==> image.areaOpens && image.extent.Ok? && !(secondary && (update.state == Receiving || update.state == Failed))
      ensures result.Err? ==> probes == old(probes)
    {
      result := OpenImage(secondary, image);
      if result.Ok? && secondary {
        probes := probes + 1;
      }
    }

    method EndProbe(secondary: bool)
      requires Valid() && (secondary ==> probes > 0)
      modifies this, update`readers
      ensures Valid() && probes == old(probes) - (if secondary then 1 else 0)
    {
      if secondary {
        update.Release();
        probes := probes - 1;
      }
    }

    /** Read from an open file of the secondary slot: no update is under way while it is open. A flash read
        that fails moves nothing. */
    method ReadFile(handle: nat, size: nat, works: bool) returns (r: Result<seq<byte>>)
      requires Valid() && handle < files.Length && files[handle].Open? && files[handle].secondary
      modifies files
      ensures Valid() && update.state != Receiving && update.state != Failed
      ensures update.state == Verified || update.state == Ready ==>
                |update.slot| == update.total && Crc.Checksum(update.slot) == update.expectedCrc
      ensures r.Ok? <==> works || size == 0 || old(files[handle]).position >= old(files[handle]).extent.size
      ensures r.Ok? ==>
                var f := old(files[handle]);
                |r.value| <= size && (r.value != [] ==> f.position + |r.value| <= f.extent.size)
                && IsAt(update.slot, f.extent.start + f.position, r.value)
                && (f.position < f.extent.size && f.extent.start + f.extent.size <= |update.slot| ==> |r.value| == Arith.Min(size, f.extent.size - f.position))
      ensures r.Err? ==> r.error == EIO
      ensures files[handle] == old(files[handle]).(position := old(files[handle]).position + if r.Ok? then |r.value| else 0)
      ensures forall i :: 0 <= i < files.Length && i != handle ==> files[i] == old(files[i])
    {
      var f := files[handle];
      OpenSecondaryUpdate(files[..], handle, f);
      var n := Wanted(f, size);
      if n != 0 && !works {
        return Err(EIO);
      }
      var data := Piece(update.slot, f.extent.start + f.position, n);
      ghost var before := files[..];
      var moved := f.(position := f.position + |data|);
      OpenSecondaryUpdate(before, handle, moved);
      files[handle] := moved;
      assert files[..] == before[handle := moved];
      r := Ok(data);
    }
  }

  /** The bytes lie in the slot at `at`. */
  predicate IsAt(slot: seq<byte>, at: nat, data: seq<byte>) {
    data == [] || (at + |data| <= |slot| && forall i :: 0 <= i < |data| ==> data[i] == slot[at + i])
  }

  /** How much a read asks the flash for. */
  function Wanted(f: SlotFile, size: nat): nat {
    if f.Open? && f.position < f.extent.size then Arith.Min(size, f.extent.size - f.position) else 0
  }

  /** `n` bytes of the slot from `at`, as far as it holds image bytes. */
  function Piece(slot: seq<byte>, at: nat, n: nat): (p: seq<byte>)
    ensures |p| <= n && (at + n <= |slot| ==> |p| == n)
  {
    if at >= |slot| then [] else slot[at..Arith.Min(at + n, |slot|)]
  }

  lemma {:induction false} AllClosed(files: seq<SlotFile>)
    requires forall i :: 0 <= i < |files| ==> files[i] == Closed
    ensures OpenSecondary(files) == 0
  {
    if files != [] {
      AllClosed(files[..|files| - 1]);
    }
  }
}
