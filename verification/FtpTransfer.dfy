/** The resumable transfer engine, src/ftp/ftp_transfer.c, with the two sides that drive it: uploads
    served by src/ftp/ftp_server.c and downloads made by src/ftp/ftp_client.c. */
module FtpTransfer {
  import opened Bytes
  import opened Errors
  import opened FtpStore
  import Arith
  import Crc

  type Source = s: seq<byte> | |s| < 0x1_0000_0000

  /** One DATA message. */
  datatype Frame = Frame(
    opcode: byte, requestId: uint32, status: byte, flags: byte, pathSize: nat, offset: nat, declared: Note, data: seq<byte>)

  datatype Transfer = Transfer(opcode: byte, requestId: uint32, declared: Note, offset: nat, crc: uint32)

  /** `data_message_is_valid`. */
  predicate FrameValid(t: Transfer, f: Frame) {
    && f.opcode == t.opcode && f.requestId == t.requestId && f.status == 0 && f.flags == 0
    && f.pathSize == 0 && f.data != [] && f.offset == t.offset && f.declared == t.declared
    && |f.data| <= t.declared.total - t.offset
  }

  // ----- the storage -----

  /** How one storage operation goes: done, failed, or cut by loss of power after `reached` bytes. */
  datatype Fault = Fine | Fails(reached: nat) | PowerCut(reached: nat)

  /** The storage from some operation on: what each coming operation meets, and whether power is gone.
      Past the script every operation is done; without power nothing reaches the disk any more. */
  datatype Medium = Medium(faults: seq<Fault>, dead: bool) {
    function Next(): Medium {
      if dead || faults == [] then this else Medium(faults[1..], faults[0].PowerCut?)
    }

    predicate Done() {
      !dead && (faults == [] || faults[0].Fine?)
    }

    /** How much of an operation of `size` bytes takes effect. */
    function Reached(size: nat): nat {
      if dead then 0 else if Done() then size else Arith.Min(faults[0].reached, size)
    }

    /** No fault is to come. */
    predicate Sound() {
      !dead && faults == []
    }
  }

  /** Writing a note succeeds: the truncating open, the write and the sync are all done. */
  predicate NoteDone(m: Medium) {
    m.Done() && m.Next().Done() && m.Next().Next().Done()
  }

  /** After writing a note, done or not, the whole note is on the disk: all its bytes got there, and the
      unlink of a failed one did not. */
  predicate NoteStands(m: Medium) {
    var write := m.Next();
    var sync := write.Next();
    && m.Done() && write.Reached(NOTE_SIZE) == NOTE_SIZE
    && if !write.Done() then sync.Reached(1) == 0 else !sync.Done() ==> sync.Next().Reached(1) == 0
  }

  /** Opening a fresh sink takes effect: the unlink or the truncating open does. */
  predicate SinkTouched(m: Medium) {
    m.Reached(1) == 1 || m.Next().Reached(1) == 1
  }

  /** The storage leaves a fresh note standing and the old partial beside it. */
  predicate Window(m: Medium) {
    NoteStands(m) && (NoteDone(m) ==> !SinkTouched(m.Next().Next().Next()))
  }

  /** An attempt at `content` goes through that window: it does not continue, has room, and meets it. */
  predicate Exposes(d: Disk, m: Medium, content: Source, mayResume: bool, hasSpace: bool) {
    hasSpace && StartOf(d, NoteOf(content), mayResume).offset == 0 && Window(m)
  }

  /** Where a receiver starts. */
  function StartOf(d: Disk, wanted: Note, mayResume: bool): Resume {
    if mayResume then ResumePoint(d, wanted) else Resume(0, 0)
  }

  /** The old partial is not the beginning of the content. */
  predicate Foreign(d: Disk, content: Source) {
    d.part.Some? && !(d.part.value <= content)
  }

  // ----- the sending side -----

  function DataFrame(t: Transfer, data: seq<byte>): Frame {
    Frame(t.opcode, t.requestId, 0, 0, 0, t.offset, t.declared, data)
  }

  /** The frame a receiver takes is exactly the one a sender of this transfer would send next: of its kind,
      request and declaration, at its offset, neither empty nor past the end. */
  lemma FrameValidIff(t: Transfer, f: Frame)
    ensures FrameValid(t, f) <==> f == Frame(t.opcode, t.requestId, 0, 0, 0, t.offset, t.declared, f.data) && 0 < |f.data| <= t.declared.total - t.offset
  {
  }

  /** The data of the first `n` frames. */
  ghost function Joined(frames: seq<Frame>, n: nat): (d: seq<byte>)
    requires n <= |frames|
  {
    if n == 0 then [] else Joined(frames, n - 1) + frames[n - 1].data
  }

  /** `frames` carry `source` from the transfer's offset to `end`, in order. */
  ghost predicate FeedsTo(frames: seq<Frame>, t: Transfer, source: Source, end: nat)
    decreases |frames|
  {
    if frames == [] then t.offset == end
    else
      var f := frames[0];
      && f.data != [] && Carries(f, source) && f == DataFrame(t, f.data)
      && FeedsTo(frames[1..], t.(offset := t.offset + |f.data|), source, end)
  }

  /** `frames` carry what the receiver of `t` does not hold yet, up to `end`. */
  ghost predicate Feeds(frames: seq<Frame>, t: Transfer, source: Source, end: nat) {
    t.declared == NoteOf(source) && end <= |source| && FeedsTo(frames, t, source, end)
  }

  ghost predicate Carries(f: Frame, source: Source) {
    f.offset + |f.data| <= |source| && f.data == source[f.offset..f.offset + |f.data|]
  }

  /** Every frame that speaks for the source carries the source's bytes. */
  ghost predicate Genuine(frames: seq<Frame>, source: Option<Source>) {
    forall i :: 0 <= i < |frames| && Names(frames[i].declared, source) ==> Carries(frames[i], source.value)
  }

  /** The note of the source the claims are about, if they are about one. */
  ghost predicate Names(n: Note, source: Option<Source>) {
    source.Some? && n == NoteOf(source.value)
  }

  ghost predicate PrefixOf(d: Disk, source: Option<Source>) {
    source.Some? ==> PartIsPrefix(d, source.value)
  }

  lemma {:induction false} FeedsExtend(frames: seq<Frame>, t: Transfer, source: Source, begin: nat, end: nat)
    requires FeedsTo(frames, t, source, begin) && begin < end <= |source|
    ensures FeedsTo(frames + [DataFrame(t.(offset := begin), source[begin..end])], t, source, end)
    decreases |frames|
  {
    var g := DataFrame(t.(offset := begin), source[begin..end]);
    if frames == [] {
      assert (frames + [g])[0] == g && (frames + [g])[1..] == [];
    } else {
      var f := frames[0];
      assert (frames + [g])[0] == f && (frames + [g])[1..] == frames[1..] + [g];
      FeedsExtend(frames[1..], t.(offset := t.offset + |f.data|), source, begin, end);
    }
  }

  lemma {:induction false} FeedsGenuine(frames: seq<Frame>, t: Transfer, source: Source, end: nat)
    requires FeedsTo(frames, t, source, end)
    ensures forall i :: 0 <= i < |frames| ==> Carries(frames[i], source) && frames[i].declared == t.declared
    decreases |frames|
  {
    if frames != [] {
      FeedsGenuine(frames[1..], t.(offset := t.offset + |frames[0].data|), source, end);
      assert forall i :: 1 <= i < |frames| ==> frames[i] == frames[1..][i - 1];
    }
  }

  /** The next frame of a feed is the one expected, and the rest feed what it leaves. */
  lemma FeedsNext(frames: seq<Frame>, i: nat, t: Transfer, source: Source, end: nat, crc: uint32)
    requires i < |frames| && Feeds(frames[i..], t, source, end)
    ensures FrameValid(t, frames[i]) && Carries(frames[i], source)
    ensures Feeds(frames[i + 1..], t.(offset := t.offset + |frames[i].data|, crc := crc), source, end)
    ensures t.offset + |frames[i].data| <= end <= |source|
  {
    FeedsBound(frames[i..][1..], t.(offset := t.offset + |frames[i].data|), source, end);
    assert frames[i..][0] == frames[i] && frames[i..][1..] == frames[i + 1..];
    FeedsAnyCrc(frames[i + 1..], t.(offset := t.offset + |frames[i].data|), source, end, crc);
  }

  lemma SliceGrows(base: seq<byte>, source: Source, start: nat, middle: nat, end: nat)
    requires start <= middle <= end <= |source|
    ensures base + source[start..middle] + source[middle..end] == base + source[start..end]
  {
  }

  lemma FeedsEnd(frames: seq<Frame>, t: Transfer, source: Source, end: nat)
    requires Feeds(frames[|frames|..], t, source, end)
    ensures t.offset == end && t.declared.total == |source|
  {
  }

  /** The running checksum plays no part in what is sent. */
  lemma {:induction false} FeedsAnyCrc(frames: seq<Frame>, t: Transfer, source: Source, end: nat, crc: uint32)
    requires FeedsTo(frames, t, source, end)
    ensures FeedsTo(frames, t.(crc := crc), source, end)
    decreases |frames|
  {
    if frames != [] {
      FeedsAnyCrc(frames[1..], t.(offset := t.offset + |frames[0].data|), source, end, crc);
    }
  }

  /** `kfsw_ftp_transfer_send`: read the source a chunk at a time from the offset. The file read or the
      link may give up after any number of chunks. */
  method Send(t: Transfer, source: Source, chunk: Positive, chunks: nat) returns (result: Status, frames: seq<Frame>, ghost end: nat)
    requires t.offset <= |source|
    ensures t.offset <= end <= |source| && FeedsTo(frames, t, source, end)
    ensures result.Success? <==> end == |source|
    ensures end == Arith.Min(t.offset + chunks * chunk, |source|)
    ensures chunks > |source| ==> result.Success?
  {
    frames := [];
    var offset := t.offset;
    while offset < |source|
      invariant t.offset <= offset <= |source|
      invariant FeedsTo(frames, t, source, offset)
      invariant |frames| <= chunks && |frames| <= offset
      invariant offset == Arith.Min(t.offset + |frames| * chunk, |source|)
    {
      if |frames| == chunks {
        return Failure(EIO), frames, offset;
      }
      assert (|frames| + 1) * chunk == |frames| * chunk + chunk;
      Arith.Monotone(|frames| + 1, chunks, chunk);
      var stop := Arith.Min(offset + chunk, |source|);
      FeedsExtend(frames, t, source, offset, stop);
      frames := frames + [DataFrame(t.(offset := offset), source[offset..stop])];
      offset := stop;
    }
    Arith.Monotone(|frames|, chunks, chunk);
    return Success, frames, offset;
  }

  // ----- the receiving side -----

  lemma FrameParts(t: Transfer, f: Frame)
    requires FrameValid(t, f)
    ensures f.offset == t.offset && f.declared == t.declared && 0 < |f.data| <= t.declared.total - t.offset
  {
  }

  /** Each of the first `n` frames is the one expected after those before it. */
  ghost predicate AllValid(frames: seq<Frame>, n: nat, t: Transfer) {
    n <= |frames| && forall i :: 0 <= i < n ==> FrameValid(t.(offset := t.offset + |Joined(frames, i)|), frames[i])
  }

  /** What a failed write let through of the next frame. */
  ghost function Torn(frames: seq<Frame>, n: nat, through: nat): seq<byte> {
    if n < |frames| && through <= |frames[n].data| then frames[n].data[..through] else []
  }

  lemma NothingTaken(frames: seq<Frame>, t: Transfer, base: seq<byte>)
    ensures AllValid(frames, 0, t) && Joined(frames, 0) == [] && base + [] == base && t.(offset := t.offset + 0) == t
  {
  }

  lemma NoneTorn(frames: seq<Frame>, n: nat, base: seq<byte>)
    requires n <= |frames|
    ensures Torn(frames, n, 0) == [] && base + Joined(frames, n) + Torn(frames, n, 0) == base + Joined(frames, n)
  {
  }

  lemma TornIs(frames: seq<Frame>, n: nat, through: nat)
    requires n < |frames| && through <= |frames[n].data|
    ensures Torn(frames, n, through) == frames[n].data[..through]
  {
  }

  lemma AllValidNext(frames: seq<Frame>, n: nat, t: Transfer, now: Transfer)
    requires AllValid(frames, n, t) && n < |frames| && FrameValid(now, frames[n])
    requires now == t.(offset := t.offset + |Joined(frames, n)|, crc := now.crc)
    ensures AllValid(frames, n + 1, t)
  {
  }

  lemma FeedsStart(frames: seq<Frame>, t: Transfer, fed: Source, end: nat, base: seq<byte>)
    requires Feeds(frames, t, fed, end)
    ensures t.offset <= end <= |fed| && frames[0..] == frames && base + fed[t.offset..t.offset] == base
  {
    FeedsBound(frames, t, fed, end);
  }

  lemma FeedsDone(rest: seq<Frame>, t: Transfer, fed: Source, end: nat)
    requires Feeds(rest, t, fed, end) && t.offset >= t.declared.total
    ensures t.offset == end == |fed|
  {
    FeedsBound(rest, t, fed, end);
  }

  lemma GenuineAt(frames: seq<Frame>, source: Option<Source>, i: nat)
    requires Genuine(frames, source) && i < |frames|
    ensures Names(frames[i].declared, source) ==> Carries(frames[i], source.value)
  {
  }

  lemma JoinedNext(frames: seq<Frame>, i: nat, base: seq<byte>)
    requires i < |frames|
    ensures base + Joined(frames, i) + frames[i].data == base + Joined(frames, i + 1)
    ensures |Joined(frames, i + 1)| == |Joined(frames, i)| + |frames[i].data|
  {
  }

  lemma FedNext(base: seq<byte>, fed: Source, start: nat, at: nat, next: nat, f: Frame)
    requires Carries(f, fed) && f.offset == at && start <= at && next == at + |f.data|
    ensures next <= |fed| && base + fed[start..at] + f.data == base + fed[start..next]
  {
    SliceGrows(base, fed, start, at, next);
  }

  lemma TouchedNeedsPower(m: Medium)
    ensures SinkTouched(m) ==> !m.dead
    ensures m.Sound() ==> SinkTouched(m)
  {
  }

  lemma DoneStands(m: Medium)
    ensures NoteDone(m) ==> NoteStands(m)
    ensures NoteStands(m) ==> !m.dead
    ensures m.Sound() ==> NoteDone(m) && m.Next().Next().Next() == m && SinkTouched(m)
  {
  }

  /** Removing leftovers breaks no promise. */
  lemma StillPrefix(d: Disk, e: Disk, declared: Note, source: Option<Source>)
    requires source.Some? ==> NoteOn(d) == Some(declared)
    requires Names(declared, source) && d.part.Some? ==> d.part.value <= source.value
    requires (e.part == d.part || e.part == None) && (e.note == d.note || e.note == None)
    ensures PrefixOf(e, source)
  {
    hide ReadNote;
  }

  class Receiver {
    var disk: Disk
    var medium: Medium
    var transfer: Transfer

    constructor (d: Disk, m: Medium)
      ensures disk == d && medium == m
    {
      disk, medium := d, m;
      transfer := Transfer(0, 0, Note(0, 0), 0, 0);
    }

    /** The partial being written is as long as the offset, and the running checksum is its own. */
    ghost predicate Growing()
      reads this
    {
      !medium.dead ==> disk.part.Some? && |disk.part.value| == transfer.offset && transfer.crc == Crc.Checksum(disk.part.value)
    }

    ghost predicate PartOk(source: Option<Source>)
      reads this
    {
      Names(transfer.declared, source) && disk.part.Some? ==> disk.part.value <= source.value
    }

    /** One storage operation of `size` bytes. */
    method Storage(size: nat) returns (ok: bool, reached: nat)
      modifies this`medium
      ensures ok == old(medium).Done() && reached == old(medium).Reached(size) && medium == old(medium).Next()
    {
      ok, reached := medium.Done(), medium.Reached(size);
      medium := medium.Next();
    }

    /** `kfsw_ftp_partial_note_write`: truncate, write, sync; a failed note is unlinked. The note on disk
        afterwards is the new one, whole, exactly when it stands; otherwise it is the old one untouched or
        unreadable. */
    method WriteNote() returns (result: Status)
      modifies this`disk, this`medium
      ensures disk == old(disk).(note := disk.note)
      ensures result.Success? <==> NoteDone(old(medium))
      ensures result.Success? ==> medium == old(medium).Next().Next().Next()
      ensures NoteStands(old(medium)) ==> disk.note == Some(NoteBytes(transfer.declared))
      ensures !NoteStands(old(medium)) ==> NoteOn(disk).None? || disk.note == old(disk.note)
      ensures old(medium).dead ==> medium.dead && disk == old(disk)
      ensures !old(medium).Done() ==> disk.note == if old(medium).Reached(1) == 1 then Some([]) else old(disk.note)
    {
      var ok, reached := Storage(1);
      if reached == 1 {
        disk := disk.(note := Some([]));
      }
      if !ok {
        return Failure(EIO);
      }
      var bytes := NoteBytes(transfer.declared);
      ok, reached := Storage(NOTE_SIZE);
      disk := disk.(note := Some(bytes[..reached]));
      assert reached == NOTE_SIZE ==> bytes[..reached] == bytes;
      if ok {
        ok, reached := Storage(0);
      }
      if !ok {
        ok, reached := Storage(1);
        if reached == 1 {
          disk := disk.(note := None);
        }
        return Failure(EIO);
      }
      result := Success;
    }

    /** `kfsw_ftp_transfer_open_sink`: a fresh transfer discards the old partial, a continued one
        writes past it. The unlink's error is ignored, so a fresh sink keeps the old partial exactly when
        neither operation takes effect. */
    method OpenSink(ghost source: Option<Source>) returns (result: Status)
      requires transfer.offset == 0 ==> transfer.crc == 0
      requires transfer.offset != 0 ==> PartOk(source) && Growing()
      modifies this`disk, this`medium
      ensures disk == old(disk).(part := disk.part)
      ensures transfer.offset != 0 || !SinkTouched(old(medium)) ==> disk == old(disk)
      ensures transfer.offset == 0 && SinkTouched(old(medium)) ==> disk.part == None || disk.part == Some([])
      ensures transfer.offset == 0 && !SinkTouched(old(medium)) ==> result.Failure?
      ensures result.Success? ==> !medium.dead && PartOk(source) && Growing()
      ensures old(medium).Sound() ==> result.Success? && medium.Sound()
      ensures old(medium).Sound() && transfer.offset == 0 ==> disk.part == Some([])
      ensures old(medium).dead ==> disk == old(disk) && medium.dead
    {
      if transfer.offset == 0 {
        var ok, reached := Storage(1);
        if reached == 1 {
          disk := disk.(part := None);
        }
        ok, reached := Storage(1);
        if reached == 1 {
          disk := disk.(part := Some([]));
        }
        Crc.ChecksumEmpty();
        return if ok then Success else Failure(EIO);
      }
      var ok, _ := Storage(0);
      result := if ok then Success else Failure(EIO);
    }

    /** Write one accepted frame at the offset; a cut leaves the beginning of its data. */
    method TakeFrame(f: Frame, ghost source: Option<Source>) returns (ok: bool)
      requires Growing() && PartOk(source) && f.offset == transfer.offset
      requires Names(transfer.declared, source) ==> Carries(f, source.value)
      modifies this`disk, this`medium, this`transfer
      ensures disk == old(disk).(part := disk.part) && PartOk(source)
      ensures old(medium).Sound() ==> ok && medium.Sound()
      ensures old(medium).dead ==> disk == old(disk) && medium.dead
      ensures ok ==> !old(medium).dead && !medium.dead && Growing() && disk.part == Some(old(disk.part.value) + f.data)
      ensures !old(medium).dead ==> disk.part == Some(old(disk.part.value) + f.data[..old(medium).Reached(|f.data|)])
      ensures !ok ==> !old(medium).Done()
      ensures transfer == if ok then old(transfer).(crc := transfer.crc, offset := old(transfer).offset + |f.data|) else old(transfer)
    {
      var reached;
      var powered := !medium.dead;
      ok, reached := Storage(|f.data|);
      if powered {
        ghost var before := disk.part.value;
        disk := disk.(part := Some(disk.part.value + f.data[..reached]));
        if Names(transfer.declared, source) {
          assert disk.part.value == source.value[..transfer.offset + reached];
        }
        if ok {
          assert f.data[..reached] == f.data;
          Crc.UpdateConcat(before, f.data);
          transfer := transfer.(crc := Crc.Update(transfer.crc, f.data), offset := transfer.offset + |f.data|);
        }
      }
    }

    /** What an undisturbed feed has brought: the partial holds `base` and the source from `start`. */
    ghost predicate Fed(rest: seq<Frame>, base: seq<byte>, start: nat, fed: Source, end: nat)
      reads this
    {
      && medium.Sound() && Feeds(rest, transfer, fed, end) && start <= transfer.offset <= end
      && disk.part == Some(base + fed[start..transfer.offset])
    }

    /** The first `n` frames are in the partial, and nothing else is new. */
    ghost predicate Got(frames: seq<Frame>, n: nat, before: Transfer, base: seq<byte>)
      reads this
    {
      && AllValid(frames, n, before) && transfer == before.(offset := before.offset + |Joined(frames, n)|, crc := transfer.crc)
      && (!medium.dead ==> disk.part == Some(base + Joined(frames, n)))
    }

    /** One turn of the receive loop, for the frame expected next. */
    method TakeNext(frames: seq<Frame>, i: nat, ghost source: Option<Source>, ghost before: Transfer, ghost base: seq<byte>, ghost fed: Source, ghost end: nat)
      returns (ok: bool, ghost through: nat)
      requires Growing() && PartOk(source) && Genuine(frames, source)
      requires i < |frames| && FrameValid(transfer, frames[i]) && Got(frames, i, before, base)
      modifies this`disk, this`medium, this`transfer
      ensures disk == old(disk).(part := disk.part) && PartOk(source)
      ensures old(medium).Sound() ==> ok && medium.Sound()
      ensures old(medium).dead ==> !ok && disk == old(disk) && medium.dead
      ensures ok ==> Growing() && Got(frames, i + 1, before, base) && !old(medium).dead && !medium.dead && through == 0
      ensures !ok ==> transfer == old(transfer) && through <= |frames[i].data|
                      && (!old(medium).dead ==> disk.part == Some(base + Joined(frames, i) + Torn(frames, i, through)))
      ensures ok && old(Fed(frames[i..], base, before.offset, fed, end)) ==> Fed(frames[i + 1..], base, before.offset, fed, end)
    {
      hide FeedsTo, Crc.Checksum, FrameValid, Carries, Joined, AllValid, Torn, Feeds;
      var f := frames[i];
      ghost var at, m := transfer, medium;
      ghost var feeding := Fed(frames[i..], base, before.offset, fed, end);
      FrameParts(transfer, f);
      AllValidNext(frames, i, before, transfer);
      GenuineAt(frames, source, i);
      TornIs(frames, i, m.Reached(|f.data|));
      ok := TakeFrame(f, source);
      through := if ok then 0 else m.Reached(|f.data|);
      JoinedNext(frames, i, base);
      if ok && feeding {
        FeedsNext(frames, i, at, fed, end, transfer.crc);
        FedNext(base, fed, before.offset, at.offset, transfer.offset, f);
      }
    }

    /** `kfsw_ftp_transfer_receive`: only the frame expected next advances the transfer. What the partial holds
        afterwards is what it held and the data of the frames taken, then of the next one as much as a failed
        write let through. */
    method Receive(frames: seq<Frame>, ghost source: Option<Source>, ghost fed: Source, ghost end: nat)
      returns (result: Status, ghost taken: nat, ghost through: nat)
      requires Growing() && PartOk(source) && Genuine(frames, source)
      modifies this`disk, this`medium, this`transfer
      ensures disk == old(disk).(part := disk.part)
      ensures PartOk(source) && transfer == old(transfer).(offset := transfer.offset, crc := transfer.crc)
      ensures result.Success? ==> Growing() && transfer.offset >= transfer.declared.total
      ensures old(medium).Sound() ==> medium.Sound()
      ensures old(medium).dead ==> disk == old(disk)
      ensures AllValid(frames, taken, old(transfer)) && transfer.offset == old(transfer).offset + |Joined(frames, taken)|
      ensures !old(medium).dead ==> disk.part == Some(old(disk.part.value) + Joined(frames, taken) + Torn(frames, taken, through))
      ensures result.Failure? ==> transfer.offset < transfer.declared.total
      // Why it stopped: the storage, the link, or a frame that is not the next one.
      ensures match result {
                case Success => through == 0
                case Failure(error) =>
                  if error == EIO then taken < |frames| && through <= |frames[taken].data| && !old(medium).Sound()
                  else through == 0 && if taken == |frames| then error == ETIMEDOUT else error == EBADMSG && !FrameValid(transfer, frames[taken])
              }
      ensures old(medium).Sound() && Feeds(frames, old(transfer), fed, end) ==>
                (result.Success? <==> end == |fed|) && old(transfer).offset <= end
                && disk.part == Some(old(disk.part.value) + fed[old(transfer).offset..end])
    {
      hide FeedsTo, Crc.Checksum, FrameValid, Carries, Joined, AllValid, Torn, Feeds;
      taken, through := 0, 0;
      ghost var start := transfer.offset;
      ghost var base := if disk.part.Some? then disk.part.value else [];
      ghost var feeding := medium.Sound() && Feeds(frames, transfer, fed, end);
      NothingTaken(frames, transfer, base);
      if feeding {
        FeedsStart(frames, transfer, fed, end, base);
      }
      var i := 0;
      while transfer.offset < transfer.declared.total
        invariant 0 <= i <= |frames| && taken == i
        invariant Growing() && PartOk(source) && Got(frames, i, old(transfer), base)
        invariant disk == old(disk).(part := disk.part)
        invariant old(medium).Sound() ==> medium.Sound()
        invariant if old(medium).dead then disk == old(disk) && medium.dead else !medium.dead
        invariant feeding ==> Fed(frames[i..], base, start, fed, end)
        decreases |frames| - i
      {
        NoneTorn(frames, i, base);
        if i == |frames| {
          if feeding {
            FeedsEnd(frames, transfer, fed, end);
          }
          return Failure(ETIMEDOUT), taken, 0;
        }
        var f := frames[i];
        if feeding {
          FeedsNext(frames, i, transfer, fed, end, transfer.crc);
        }
        if !FrameValid(transfer, f) {
          return Failure(EBADMSG), taken, 0;
        }
        var ok;
        ok, through := TakeNext(frames, i, source, old(transfer), base, fed, end);
        if !ok {
          return Failure(EIO), taken, through;
        }
        i := i + 1;
        taken := i;
      }
      NoneTorn(frames, i, base);
      if feeding {
        FeedsDone(frames[i..], transfer, fed, end);
      }
      return Success, taken, 0;
    }

    /** What a commit leaves: the target as before, or content as declared (the source itself, when the
        declaration is the source's). */
    ghost predicate Kept(before: Disk, source: Option<Source>)
      reads this
    {
      disk.target == before.target
      || (disk.target.Some? && Declared(disk.target.value, transfer.declared)
          && (Names(transfer.declared, source) ==> disk.target == source))
    }

    /** The leftovers are as before or gone. */
    ghost predicate OnlyRemoved(before: Disk)
      reads this
    {
      (disk.part == before.part || disk.part == None) && (disk.note == before.note || disk.note == None)
    }

    /** `kfsw_ftp_commit_temporary`: rename on a match, and leave nothing behind either way. */
    method Commit(ghost source: Option<Source>) returns (result: Status)
      requires Growing() && PartOk(source)
      modifies this`disk, this`medium
      ensures Kept(old(disk), source) && OnlyRemoved(old(disk))
      ensures result.Success? ==> disk.target.Some? && Declared(disk.target.value, transfer.declared)
      ensures transfer.offset != transfer.declared.total || transfer.crc != transfer.declared.crc ==>
                result == Failure(EILSEQ) && disk.target == old(disk.target)
      ensures transfer.offset == transfer.declared.total && transfer.crc == transfer.declared.crc ==>
                (result.Success? <==> old(medium).Done()) && disk.target == if old(medium).Reached(1) == 1 then old(disk.part) else old(disk.target)
      ensures old(medium).dead ==> disk == old(disk)
      ensures old(medium).Sound() ==>
                medium.Sound() && disk.part == None && disk.note == None
                && (result.Success? <==> Declared(old(disk.part.value), transfer.declared))
                && (result.Success? ==> disk.target == old(disk.part))
                && (result.Failure? ==> disk.target == old(disk.target))
    {
      var ok, reached := false, 0;
      if transfer.offset != transfer.declared.total || transfer.crc != transfer.declared.crc {
        result := Failure(EILSEQ);
      } else {
        assert !medium.dead && Names(transfer.declared, source) ==> disk.part.value == source.value;
        ok, reached := Storage(1);
        if reached == 1 {
          disk := disk.(target := disk.part, part := None);
        }
        result := if ok then Success else Failure(EIO);
      }
      if result.Failure? {
        ok, reached := Storage(1);
        if reached == 1 {
          disk := disk.(part := None);
        }
      }
      ok, reached := Storage(1);
      if reached == 1 {
        disk := disk.(note := None);
      }
    }

    /** `kfsw_ftp_transfer_finish`: sync whatever came, commit only a whole transfer. */
    method Finish(outcome: Status, ghost source: Option<Source>) returns (result: Status)
      requires PartOk(source) && (outcome.Success? ==> Growing())
      modifies this`disk, this`medium
      ensures Kept(old(disk), source) && OnlyRemoved(old(disk))
      ensures result.Success? ==> disk.target.Some? && Declared(disk.target.value, transfer.declared)
      ensures outcome.Failure? ==> result == outcome && disk == old(disk) && (old(medium).Sound() ==> medium.Sound())
      ensures outcome.Success? && !old(medium).Done() ==> result == Failure(EIO) && disk == old(disk)
      ensures old(medium).dead ==> disk == old(disk)
      ensures old(medium).Sound() && outcome.Success? ==>
                medium.Sound() && disk.part == None && disk.note == None
                && (result.Success? <==> Declared(old(disk.part.value), transfer.declared))
                && (result.Success? ==> disk.target == old(disk.part))
                && (result.Failure? ==> disk.target == old(disk.target))
    {
      var ok, _ := Storage(0);
      if outcome.Failure? {
        return outcome;
      }
      if !ok {
        return Failure(EIO);
      }
      result := Commit(source);
    }

    /** What a preparation leaves. A continued transfer changes nothing; a fresh one with room writes its
        note and nothing else. */
    ghost predicate Prepared(before: Disk, m: Medium, declared: Note, hasSpace: bool, result: Status)
      reads this
    {
      && transfer.declared == declared && (transfer.offset == 0 ==> transfer.crc == 0)
      && disk == before.(note := disk.note) && (m.dead ==> disk == before && medium.dead)
      && (transfer.offset != 0 || !hasSpace ==> disk == before && medium == m)
      && (!hasSpace ==> result.Failure?)
      && (transfer.offset == 0 && hasSpace ==>
            && (result.Success? <==> NoteDone(m))
            && (result.Success? ==> medium == m.Next().Next().Next())
            && (NoteStands(m) ==> disk.note == Some(NoteBytes(declared)))
            && (!NoteStands(m) ==> NoteOn(disk).None? || disk == before))
    }

    /** `prepare_upload_target`: where the upload starts, and the note of a fresh one. `mayResume` is the
        request's flag, and that the partial can be read. */
    method PrepareUpload(declared: Note, mayResume: bool, hasSpace: bool, requestId: uint32) returns (result: Status)
      modifies this`disk, this`medium, this`transfer
      ensures Prepared(old(disk), old(medium), declared, hasSpace, result)
      ensures transfer.offset == StartOf(old(disk), declared, mayResume).offset
      ensures transfer.opcode == OP_PUT_DATA && transfer.requestId == requestId && (!hasSpace ==> result == Failure(ENOSPC))
      ensures transfer.offset != 0 ==> NoteOn(disk) == Some(declared) && Growing() && (hasSpace ==> result.Success?)
    {
      var start := StartOf(disk, declared, mayResume);
      transfer := Transfer(OP_PUT_DATA, requestId, declared, start.offset, start.crc);
      if !hasSpace {
        return Failure(ENOSPC);
      }
      if transfer.offset == 0 {
        result := WriteNote();
        return;
      }
      result := Success;
    }

    /** `prepare_download`, `await_get_info` and `prepare_partial`: claim what the note beside the
        partial describes, and take the start the server answers with. */
    method PrepareDownload(declared: Note, granted: nat, mayResume: bool, hasSpace: bool, requestId: uint32) returns (result: Status)
      modifies this`disk, this`medium, this`transfer
      ensures granted != 0 && granted != Claim(old(disk), mayResume).offset ==>
                result == Failure(EBADMSG) && disk == old(disk) && transfer.declared == declared
      ensures granted == 0 || granted == Claim(old(disk), mayResume).offset ==>
                Prepared(old(disk), old(medium), declared, hasSpace, result) && transfer.offset == granted
      ensures transfer.opcode == OP_GET_DATA && transfer.requestId == requestId
      ensures granted != 0 && hasSpace && result.Success? ==> Growing()
      ensures granted != 0 && hasSpace && granted == Claim(old(disk), mayResume).offset ==> result.Success?
    {
      var claim := Claim(disk, mayResume);
      transfer := Transfer(OP_GET_DATA, requestId, declared, 0, 0);
      if granted != 0 && granted != claim.offset {
        return Failure(EBADMSG);
      }
      transfer := transfer.(offset := granted);
      if granted != 0 {
        transfer := transfer.(crc := claim.crc);
      }
      if !hasSpace {
        return Failure(ENOSPC);
      }
      if granted == 0 {
        result := WriteNote();
        return;
      }
      result := Success;
    }

    /** Open the sink, receive and finish: one attempt once its start is known. A download also waits for
        the sender's result before it commits; `confirmed` is whether that came and was good. */
    method Attempt(frames: seq<Frame>, confirmed: bool, ghost source: Option<Source>, ghost fed: Source, ghost end: nat) returns (result: Status)
      requires transfer.offset == 0 ==> transfer.crc == 0
      requires transfer.offset != 0 ==> PartOk(source) && Growing() && PrefixOf(disk, source)
      requires Genuine(frames, source) && (source.Some? && !medium.dead ==> NoteOn(disk) == Some(transfer.declared))
      modifies this`disk, this`medium, this`transfer
      ensures transfer == old(transfer).(offset := transfer.offset, crc := transfer.crc)
      ensures Kept(old(disk), source)
      ensures old(transfer).offset == 0 && !SinkTouched(old(medium)) ==> disk == old(disk) && result.Failure?
      ensures old(transfer).offset != 0 || SinkTouched(old(medium)) ==> PrefixOf(disk, source)
      ensures result.Success? ==> confirmed && disk.target.Some? && Declared(disk.target.value, transfer.declared)
      ensures old(medium).Sound() && Feeds(frames, old(transfer), fed, end) && end < |fed|
              && (old(transfer).offset == 0 || (old(disk.part).Some? && old(disk.part).value <= fed)) ==>
                disk == old(disk).(part := Some(fed[..end])) && result.Failure? && medium.Sound()
      ensures old(medium).Sound() && confirmed && Feeds(frames, old(transfer), fed, |fed|) && end == |fed| ==> Settled(old(disk), result) && medium.Sound()
      ensures old(medium).Sound() && confirmed && Feeds(frames, old(transfer), fed, |fed|) && end == |fed|
              && (old(transfer).offset == 0 || (old(disk.part).Some? && old(disk.part).value <= fed)) ==>
                disk == Disk(Some(fed), None, None) && result.Success?
    {
      hide FeedsTo, Crc.Checksum, SinkTouched, ReadNote, Genuine;
      TouchedNeedsPower(medium);
      ghost var before := disk;
      result := OpenSink(source);
      if result.Failure? {
        return;
      }
      assert disk.note == before.note;
      result := Take(frames, confirmed, source, fed, end);
    }

    /** The sink is open: receive, wait for the result, finish. */
    method Take(frames: seq<Frame>, confirmed: bool, ghost source: Option<Source>, ghost fed: Source, ghost end: nat) returns (result: Status)
      requires !medium.dead && PartOk(source) && Growing() && Genuine(frames, source)
      requires source.Some? ==> NoteOn(disk) == Some(transfer.declared)
      modifies this`disk, this`medium, this`transfer
      ensures transfer == old(transfer).(offset := transfer.offset, crc := transfer.crc)
      ensures Kept(old(disk), source) && PrefixOf(disk, source)
      ensures result.Success? ==> confirmed && disk.target.Some? && Declared(disk.target.value, transfer.declared)
      ensures old(medium).Sound() && Feeds(frames, old(transfer), fed, end) && end < |fed| && old(disk.part).value <= fed ==>
                disk == old(disk).(part := Some(fed[..end])) && result.Failure? && medium.Sound()
      ensures old(medium).Sound() && confirmed && Feeds(frames, old(transfer), fed, end) && end == |fed| ==> Settled(old(disk), result) && medium.Sound()
      ensures old(medium).Sound() && confirmed && Feeds(frames, old(transfer), fed, end) && end == |fed| && old(disk.part).value <= fed ==>
                disk == Disk(Some(fed), None, None) && result.Success?
    {
      hide FeedsTo, Crc.Checksum, ReadNote, Genuine, FrameValid, Joined;
      ghost var sink, taken, through := disk, 0, 0;
      result, taken, through := Receive(frames, source, fed, end);
      if old(medium).Sound() && Feeds(frames, old(transfer), fed, end) && sink.part.value <= fed {
        assert sink.part.value == fed[..old(transfer).offset];
        assert fed[..old(transfer).offset] + fed[old(transfer).offset..end] == fed[..end];
        assert end == |fed| ==> fed[..end] == fed;
      }
      if result.Success? && !confirmed {
        result := Failure(EIO);
      }
      ghost var received := disk;
      result := Finish(result, source);
      StillPrefix(received, disk, transfer.declared, source);
    }

    /** An attempt that ran through: committed content as declared, or nothing; no leftovers. */
    ghost predicate Settled(before: Disk, result: Status)
      reads this
    {
      && disk.part == None && disk.note == None
      && (if result.Success? then disk.target.Some? && Declared(disk.target.value, transfer.declared)
          else disk.target == before.target)
    }

    /** One upload as the server meets it, `serve_put`, for any frames at all. */
    method ServePut(declared: Note, mayResume: bool, hasSpace: bool, requestId: uint32, frames: seq<Frame>) returns (result: Status)
      modifies this
      ensures transfer.declared == declared && Kept(old(disk), None)
      ensures result.Success? ==> disk.target.Some? && Declared(disk.target.value, declared)
      ensures transfer.opcode == OP_PUT_DATA && transfer.requestId == requestId
      ensures !hasSpace ==> result == Failure(ENOSPC) && disk == old(disk) && medium == old(medium)
      ensures hasSpace && StartOf(old(disk), declared, mayResume).offset == 0 && !NoteDone(old(medium)) ==>
                result.Failure? && disk == old(disk).(note := disk.note)
    {
      result := PrepareUpload(declared, mayResume, hasSpace, requestId);
      if result.Success? {
        result := Attempt(frames, true, None, [], 0);
      }
    }

    /** One download as the client meets it, for any answer and any frames. */
    method Get(declared: Note, granted: nat, mayResume: bool, hasSpace: bool, requestId: uint32, frames: seq<Frame>, confirmed: bool) returns (result: Status)
      modifies this
      ensures transfer.declared == declared && Kept(old(disk), None)
      ensures result.Success? ==> confirmed && disk.target.Some? && Declared(disk.target.value, declared)
      ensures transfer.opcode == OP_GET_DATA && transfer.requestId == requestId
      ensures granted != 0 && granted != Claim(old(disk), mayResume).offset ==> result == Failure(EBADMSG) && disk == old(disk)
      ensures !hasSpace ==> result.Failure? && disk == old(disk)
      ensures hasSpace && granted == 0 && !NoteDone(old(medium)) ==> result.Failure? && disk == old(disk).(note := disk.note)
    {
      result := PrepareDownload(declared, granted, mayResume, hasSpace, requestId);
      if result.Success? {
        result := Attempt(frames, confirmed, None, [], 0);
      }
    }

    /** What one attempt at `content` does to the leftovers: through the window it leaves the fresh note
        beside the old partial, otherwise they still promise what they promised. */
    ghost predicate Left(before: Disk, m: Medium, content: Source, pass: Pass, source: Option<Source>)
      reads this
    {
      if Exposes(before, m, content, pass.mayResume, pass.hasSpace) then disk == before.(note := Some(NoteBytes(NoteOf(content))))
      else PrefixOf(disk, source)
    }

    /** One upload of `content` end to end: `kfsw_ftp_put` sends what `serve_put` asks for, and the
        link may give up after any number of frames. */
    method Upload(content: Source, pass: Pass, requestId: uint32, ghost source: Option<Source>) returns (result: Status)
      requires PrefixOf(disk, source) && (Names(NoteOf(content), source) ==> source.value == content)
      modifies this
      ensures transfer.declared == NoteOf(content) && transfer.opcode == OP_PUT_DATA && transfer.requestId == requestId && Kept(old(disk), source)
      ensures Left(old(disk), old(medium), content, pass, source)
      ensures old(medium).Sound() && pass.hasSpace && StopAt(old(disk), content, pass) < |content|
              && (StartOf(old(disk), NoteOf(content), pass.mayResume).offset == 0 || old(disk.part).value <= content) ==>
                disk == old(disk).(note := disk.note, part := Some(content[..StopAt(old(disk), content, pass)]))
                && NoteOn(disk) == Some(NoteOf(content)) && result.Failure? && medium.Sound()
      ensures old(medium).Sound() && pass.RunsThrough(content) ==> Settled(old(disk), result) && medium.Sound()
      ensures old(medium).Sound() && pass.RunsThrough(content)
              && (StartOf(old(disk), NoteOf(content), pass.mayResume).offset == 0 || old(disk.part).value <= content) ==>
                disk == Disk(Some(content), None, None) && result.Success?
    {
      hide NoteDone, NoteStands, SinkTouched, NoteBytes, ReadNote, Crc.Checksum, ResumePoint;
      DoneStands(medium);
      ReadNoteBytes(NoteOf(content));
      result := PrepareUpload(NoteOf(content), pass.mayResume, pass.hasSpace, requestId);
      if result.Failure? {
        return;
      }
      result := Fetch(content, pass, source);
    }

    /** The second half of either direction: the sender's frames arrive as far as the link carries them. */
    method Fetch(content: Source, pass: Pass, ghost source: Option<Source>) returns (result: Status)
      requires transfer.declared == NoteOf(content) && (transfer.offset == 0 ==> transfer.crc == 0)
      requires transfer.offset <= |content| && (Names(NoteOf(content), source) ==> source.value == content)
      requires transfer.offset != 0 ==> PartOk(source) && Growing() && PrefixOf(disk, source)
      requires source.Some? && !medium.dead ==> NoteOn(disk) == Some(transfer.declared)
      modifies this`disk, this`medium, this`transfer
      ensures transfer == old(transfer).(offset := transfer.offset, crc := transfer.crc) && Kept(old(disk), source)
      ensures old(transfer).offset == 0 && !SinkTouched(old(medium)) ==> disk == old(disk) && result.Failure?
      ensures old(transfer).offset != 0 || SinkTouched(old(medium)) ==> PrefixOf(disk, source)
      ensures old(medium).Sound() && old(transfer).offset + pass.chunks * pass.chunk < |content|
              && (old(transfer).offset == 0 || (old(disk.part).Some? && old(disk.part).value <= content)) ==>
                disk == old(disk).(part := Some(content[..old(transfer).offset + pass.chunks * pass.chunk])) && result.Failure? && medium.Sound()
      ensures old(medium).Sound() && pass.RunsThrough(content) ==> Settled(old(disk), result) && medium.Sound()
      ensures old(medium).Sound() && pass.RunsThrough(content)
              && (old(transfer).offset == 0 || (old(disk.part).Some? && old(disk.part).value <= content)) ==>
                disk == Disk(Some(content), None, None) && result.Success?
    {
      var _, frames, end := Send(transfer, content, pass.chunk, pass.chunks);
      FeedsGenuine(frames, transfer, content, end);
      assert Genuine(frames, source);
      result := Attempt(frames, pass.upload || pass.confirmed, source, content, end);
    }

    /** One download of `content` end to end: `kfsw_ftp_get` claims, `serve_get` grants and sends. */
    method Download(content: Source, pass: Pass, requestId: uint32, ghost source: Option<Source>) returns (result: Status)
      requires PrefixOf(disk, source) && (Names(NoteOf(content), source) ==> source.value == content)
      modifies this
      ensures transfer.declared == NoteOf(content) && transfer.opcode == OP_GET_DATA && transfer.requestId == requestId && Kept(old(disk), source)
      ensures Left(old(disk), old(medium), content, pass, source)
      ensures old(medium).Sound() && pass.hasSpace && StopAt(old(disk), content, pass) < |content|
              && (StartOf(old(disk), NoteOf(content), pass.mayResume).offset == 0 || old(disk.part).value <= content) ==>
                disk == old(disk).(note := disk.note, part := Some(content[..StopAt(old(disk), content, pass)]))
                && NoteOn(disk) == Some(NoteOf(content)) && result.Failure? && medium.Sound()
      ensures old(medium).Sound() && pass.RunsThrough(content) ==> Settled(old(disk), result) && medium.Sound()
      ensures old(medium).Sound() && pass.RunsThrough(content)
              && (StartOf(old(disk), NoteOf(content), pass.mayResume).offset == 0 || old(disk.part).value <= content) ==>
                disk == Disk(Some(content), None, None) && result.Success?
    {
      hide NoteDone, NoteStands, SinkTouched, NoteBytes, ReadNote, Crc.Checksum, ResumePoint;
      DoneStands(medium);
      ReadNoteBytes(NoteOf(content));
      var claim := Claim(disk, pass.mayResume);
      var granted := AcceptedResumeOffset(claim, NoteOn(disk), NoteOf(content));
      result := PrepareDownload(NoteOf(content), granted, pass.mayResume, pass.hasSpace, requestId);
      if result.Failure? {
        return;
      }
      result := Fetch(content, pass, source);
    }
  }

  lemma {:induction false} FeedsBound(frames: seq<Frame>, t: Transfer, source: Source, end: nat)
    requires FeedsTo(frames, t, source, end)
    ensures t.offset <= end
    decreases |frames|
  {
    if frames != [] {
      FeedsBound(frames[1..], t.(offset := t.offset + |frames[0].data|), source, end);
    }
  }

  const OP_PUT_DATA: byte := 10
  const OP_GET_DATA: byte := 14

  /** What a download claims to hold: the partial its own note describes. */
  function Claim(d: Disk, mayResume: bool): (r: Resume)
    ensures r.offset != 0 ==> d.part.Some? && r.offset == |d.part.value| && r.crc == Crc.Checksum(d.part.value)
    ensures r.offset == 0 ==> r.crc == 0
    ensures r.offset != 0 <==> mayResume && NoteOn(d).Some? && d.part.Some? && 0 < |d.part.value| < NoteOn(d).value.total
  {
    if NoteOn(d).None? then Resume(0, 0) else StartOf(d, NoteOn(d).value, mayResume)
  }

  /** `accepted_resume_offset`: the sender honours a claim that describes the file it holds now. */
  function AcceptedResumeOffset(claim: Resume, claimed: Option<Note>, held: Note): (offset: nat)
    ensures offset != 0 ==> offset == claim.offset
    ensures offset != 0 <==> claim.offset != 0 && claimed == Some(held) && claim.offset < held.total
  {
    if claim.offset == 0 || claimed != Some(held) || claim.offset >= held.total then 0 else claim.offset
  }

  // ----- many attempts -----

  /** One attempt: its direction, chunk size, whether it may continue and has room, what the storage does,
      how many chunks the link carries, and whether a download's sender reports success at the end. */
  datatype Pass = Pass(
    upload: bool, chunk: Positive, mayResume: bool, hasSpace: bool, medium: Medium, chunks: nat, confirmed: bool)
  {
    /** Nothing but the storage can stop it. */
    predicate RunsThrough(content: seq<byte>) {
      hasSpace && chunks > |content| && (upload || confirmed)
    }
  }

  /** Where an undisturbed attempt stops when the link gives up. */
  function StopAt(d: Disk, content: Source, pass: Pass): nat {
    StartOf(d, NoteOf(content), pass.mayResume).offset + pass.chunks * pass.chunk
  }

  /** The attempt leaves a note that names the content beside a partial that is not its beginning. */
  predicate Spoils(d: Disk, pass: Pass, content: Source) {
    Exposes(d, pass.medium, content, pass.mayResume, pass.hasSpace) && Foreign(d, content)
  }

  /** One attempt in either direction. The partial beside a note of the content is its beginning
      afterwards, exactly unless the attempt spoils it. */
  method Run(r: Receiver, content: Source, pass: Pass, requestId: uint32) returns (result: Status)
    modifies r
    ensures r.transfer.declared == NoteOf(content) && r.Kept(old(r.disk), None)
    ensures r.transfer.opcode == (if pass.upload then OP_PUT_DATA else OP_GET_DATA) && r.transfer.requestId == requestId
    ensures PartIsPrefix(old(r.disk), content) ==>
              && (PartIsPrefix(r.disk, content) <==> !Spoils(old(r.disk), pass, content))
              && r.Kept(old(r.disk), Some(content))
    // An attempt that the link alone stops is continued where it stopped.
    ensures pass.medium.Sound() && pass.hasSpace && PartIsPrefix(old(r.disk), content) && StopAt(old(r.disk), content, pass) < |content| ==>
              result.Failure? && r.disk.target == old(r.disk).target && r.disk.part == Some(content[..StopAt(old(r.disk), content, pass)])
              && StartOf(r.disk, NoteOf(content), true).offset == StopAt(old(r.disk), content, pass)
    ensures pass.medium.Sound() && pass.RunsThrough(content) ==> r.Settled(old(r.disk), result)
    ensures pass.medium.Sound() && pass.RunsThrough(content)
            && (StartOf(old(r.disk), NoteOf(content), pass.mayResume).offset == 0 || PartIsPrefix(old(r.disk), content)) ==>
              r.disk == Disk(Some(content), None, None) && result.Success?
  {
    hide Window, NoteBytes, Crc.Checksum;
    ghost var source := if PartIsPrefix(r.disk, content) then Some(content) else None;
    ReadNoteBytes(NoteOf(content));
    r.medium := pass.medium;
    if pass.upload {
      result := r.Upload(content, pass, requestId, source);
    } else {
      result := r.Download(content, pass, requestId, source);
    }
  }

  /** Any number of attempts at one unchanged content, each losing power, storage or the link wherever it
      likes. Step by step the leftovers stay a beginning of the content exactly until an attempt spoils them;
      while none has, the target is its old content or the content, and an attempt that runs through commits
      exactly the content. */
  method Attempts(r: Receiver, content: Source, passes: seq<Pass>, requestId: uint32) returns (ghost disks: seq<Disk>)
    requires PartIsPrefix(r.disk, content)
    modifies r
    ensures |disks| == |passes| + 1 && disks[0] == old(r.disk) && disks[|passes|] == r.disk
    ensures forall i :: 0 <= i < |passes| && PartIsPrefix(disks[i], content) ==>
              (PartIsPrefix(disks[i + 1], content) <==> !Spoils(disks[i], passes[i], content))
    ensures Unspoilt(disks, passes, content) <==> forall i :: 0 <= i <= |passes| ==> PartIsPrefix(disks[i], content)
    ensures (forall i :: 0 <= i < |passes| ==> !Window(passes[i].medium)) ==> Unspoilt(disks, passes, content)
    ensures r.disk.target == old(r.disk.target) || (r.disk.target.Some? && Declared(r.disk.target.value, NoteOf(content)))
    ensures Unspoilt(disks, passes, content) ==> r.disk.target == old(r.disk.target) || r.disk.target == Some(content)
    ensures Unspoilt(disks, passes, content) && passes != [] && passes[|passes| - 1].medium.Sound() && passes[|passes| - 1].RunsThrough(content) ==>
              r.disk == Disk(Some(content), None, None)
  {
    hide Spoils, PartIsPrefix, NoteOf;
    disks := [r.disk];
    for n := 0 to |passes|
      invariant |disks| == n + 1 && disks[0] == old(r.disk) && disks[n] == r.disk
      invariant forall i :: 0 <= i < n && PartIsPrefix(disks[i], content) ==>
                  (PartIsPrefix(disks[i + 1], content) <==> !Spoils(disks[i], passes[i], content))
      invariant r.disk.target == old(r.disk.target) || (r.disk.target.Some? && Declared(r.disk.target.value, NoteOf(content)))
      invariant Unspoilt(disks, passes[..n], content) ==>
                  (forall i :: 0 <= i <= n ==> PartIsPrefix(disks[i], content))
                  && (r.disk.target == old(r.disk.target) || r.disk.target == Some(content))
      invariant n > 0 && Unspoilt(disks, passes[..n], content) && passes[n - 1].medium.Sound() && passes[n - 1].RunsThrough(content) ==>
                  r.disk == Disk(Some(content), None, None)
    {
      ghost var before := disks;
      var _ := Run(r, content, passes[n], requestId);
      disks := disks + [r.disk];
      UnspoiltStep(before, disks, passes, n, content);
    }
    assert passes[..|passes|] == passes;
    if forall i :: 0 <= i <= |passes| ==> PartIsPrefix(disks[i], content) {
      forall i | 0 <= i < |passes| ensures !Spoils(disks[i], passes[i], content) {
        assert PartIsPrefix(disks[i], content) && PartIsPrefix(disks[i + 1], content);
      }
    }
    if forall i :: 0 <= i < |passes| ==> !Window(passes[i].medium) {
      SpoiltNeedsWindow(disks, passes, content);
    }
  }

  /** No attempt spoils the disk it starts from. */
  ghost predicate Unspoilt(disks: seq<Disk>, passes: seq<Pass>, content: Source) {
    |disks| > |passes| && forall i :: 0 <= i < |passes| ==> !Spoils(disks[i], passes[i], content)
  }

  lemma UnspoiltStep(before: seq<Disk>, disks: seq<Disk>, passes: seq<Pass>, n: nat, content: Source)
    requires n < |passes| && |before| == n + 1 && |disks| == n + 2 && before == disks[..n + 1]
    ensures Unspoilt(disks, passes[..n + 1], content) <==> Unspoilt(before, passes[..n], content) && !Spoils(disks[n], passes[n], content)
  {
    hide Spoils;
    if Unspoilt(disks, passes[..n + 1], content) {
      assert passes[..n + 1][n] == passes[n];
      forall i | 0 <= i < n ensures !Spoils(before[i], passes[..n][i], content) {
        assert passes[..n + 1][i] == passes[i] && disks[i] == before[i];
      }
    }
    if Unspoilt(before, passes[..n], content) && !Spoils(disks[n], passes[n], content) {
      forall i | 0 <= i < n + 1 ensures !Spoils(disks[i], passes[..n + 1][i], content) {
        assert i < n ==> disks[i] == before[i] && passes[..n][i] == passes[i];
      }
    }
  }

  lemma SpoiltNeedsWindow(disks: seq<Disk>, passes: seq<Pass>, content: Source)
    requires |disks| > |passes| && forall i :: 0 <= i < |passes| ==> !Window(passes[i].medium)
    ensures Unspoilt(disks, passes, content)
  {
    hide Window;
  }

  /** How the storage can go through the window: power cut at the sink, the sink refusing without any loss
      of power, or a failed sync whose note cannot be removed. */
  datatype Way = CutAtSink | SinkRefuses | NoteStuck

  function ScriptOf(way: Way): Medium {
    match way
    case CutAtSink => Medium([Fine, Fine, Fine, PowerCut(0)], false)
    case SinkRefuses => Medium([Fine, Fine, Fine, Fails(0), Fails(0)], false)
    case NoteStuck => Medium([Fine, Fine, Fails(0), Fails(0)], false)
  }

  lemma ScriptsMeetWindow(way: Way)
    ensures Window(ScriptOf(way))
  {
    var m := ScriptOf(way);
    assert m.Next().faults[0] == Fine && m.Next().Next().faults == m.faults[2..] && m.Next().Next().Next().faults == m.faults[3..];
  }

  /** A run into the window. One upload over the partial of another file leaves the new note beside it, and
      the next attempt would continue that partial; only the final checksum stops it. */
  method StaleNoteIsContinued(way: Way, upload: bool) returns (r: Receiver)
    ensures r.disk == Disk(None, Some([2]), Some(NoteBytes(NoteOf([1, 1]))))
    ensures !PartIsPrefix(r.disk, [1, 1]) && ResumePoint(r.disk, NoteOf([1, 1])).offset == 1
  {
    hide Window, NoteBytes;
    var pass := Pass(upload, 1, true, true, ScriptOf(way), 3, true);
    r := new Receiver(Disk(None, Some([2]), None), pass.medium);
    ScriptsMeetWindow(way);
    ReadNoteBytes(NoteOf([1, 1]));
    var result;
    if upload {
      result := r.Upload([1, 1], pass, 1, None);
    } else {
      result := r.Download([1, 1], pass, 1, None);
    }
  }

  /** Whatever was left behind, two attempts that run through in the same or different directions end with
      the content in place: the first clears the leftovers, the second starts at zero. */
  method RunTwice(r: Receiver, content: Source, first: Pass, second: Pass, requestId: uint32)
    requires first.medium.Sound() && first.RunsThrough(content) && second.medium.Sound() && second.RunsThrough(content)
    modifies r
    ensures r.disk == Disk(Some(content), None, None)
  {
    hide Spoils;
    var _ := Run(r, content, first, requestId);
    var _ := Run(r, content, second, requestId);
  }
}
