/** One connection served on the device object without interference, as the thread function
    does it between taking and releasing file_mutex. */
module Conversation {
  import opened Lines
  import opened LineRing
  import opened CommitLog
  import opened Driver
  import opened Drain
  import opened Device
  import opened Server

  /** The non-empty reads it takes from a position to the end. */
  function ReadsLeft(d: Dev, pos: int, count: nat): nat
    requires WellFormed(d.ring) && Addressable(InOrder(d.ring), pos) && 0 < count
  {
    |Chunks(InOrder(d.ring), pos, count)|
  }

  /** A read without faults hands over the next part of what is left, and nothing only when
      nothing is left. */
  lemma ReadTakesFromRest(d: Dev, pos: int, count: nat, r: ReadReply)
    requires WellFormed(d.ring) && Addressable(InOrder(d.ring), pos) && 0 < count
    requires r == Read(d, pos, count, NO_FAULTS)
    ensures r.ret == |r.data| && r.pos == pos + |r.data| && Addressable(InOrder(d.ring), r.pos)
    ensures r.data + Rest(Content(d.ring), r.pos) == Rest(Content(d.ring), pos)
    ensures r.ret == 0 ==> Rest(Content(d.ring), pos) == []
    ensures r.ret != 0 ==> r.pos <= |Content(d.ring)|
    ensures ReadsLeft(d, pos, count) == if r.ret == 0 then 0 else 1 + ReadsLeft(d, r.pos, count)
  {
    ChunkIsSlice(InOrder(d.ring), pos, count);
    assert r.data == Chunk(InOrder(d.ring), pos, count);
    if r.data != [] {
      SliceThenRest(Content(d.ring), pos, r.pos);
    }
  }

  /** The loop that reads until nothing comes and sends every chunk. */
  method SendRest(dev: Device, filp: File, count: nat) returns (sent: bytes, rounds: nat)
    requires dev.buffer.Valid() && dev.model.ring == dev.buffer.model && 0 < count
    requires Addressable(InOrder(dev.model.ring), filp.fPos)
    modifies filp
    ensures sent == Rest(Content(dev.model.ring), old(filp.fPos))
    ensures rounds == ReadsLeft(dev.model, old(filp.fPos), count)
  {
    ghost var model, start := dev.model, filp.fPos;
    ghost var whole := Content(model.ring);
    sent, rounds := [], 0;
    var more := true;
    while more
      invariant Addressable(InOrder(model.ring), filp.fPos)
      invariant sent + Rest(whole, filp.fPos) == Rest(whole, start)
      invariant !more ==> Rest(whole, filp.fPos) == []
      invariant rounds + (if more then ReadsLeft(model, filp.fPos, count) else 0) == ReadsLeft(model, start, count)
      decreases more, |whole| - filp.fPos
    {
      ghost var pos := filp.fPos;
      var bytesRead, data := dev.AesdRead(filp, count, NO_FAULTS);
      ReadTakesFromRest(model, pos, count, ReadReply(bytesRead, data, filp.fPos));
      Associate(sent, data, Rest(whole, filp.fPos));
      sent := sent + data;
      more := bytesRead > 0;
      if more {
        rounds := rounds + 1;
      }
    }
  }

  /** A valid device is in the state its log calls for, and every position in it can be read. */
  lemma ValidIsReadable(dev: Device, pos: int)
    requires dev.Valid() && IsPosition(pos)
    ensures dev.buffer.Valid() && dev.model.ring == dev.buffer.model
    ensures Tracks(dev.model, FeedAll(dev.accepted)) && Addressable(InOrder(dev.model.ring), pos)
  {
    ContentFitsInt(dev.model, FeedAll(dev.accepted));
  }

  /** The cost of reading everything, entry by entry. */
  lemma AllReads(d: Dev)
    requires WellFormed(d.ring) && Addressable(InOrder(d.ring), 0)
    ensures ReadsLeft(d, 0, BUFFERSIZE) == ReadsOfAll(InOrder(d.ring), BUFFERSIZE)
  {
    DrainCost(InOrder(d.ring), BUFFERSIZE);
  }

  /** SEEK_SET on a file still at 0, then the loop: everything is sent. */
  method SendAll(dev: Device, filp: File, f: Faults) returns (sent: bytes, rounds: nat)
    requires dev.buffer.Valid() && dev.model.ring == dev.buffer.model && filp.fPos == 0
    requires Addressable(InOrder(dev.model.ring), 0)
    modifies filp
    ensures sent == Content(dev.model.ring)
    ensures rounds == ReadsLeft(dev.model, 0, BUFFERSIZE)
  {
    var sought := dev.AesdLlseek(filp, 0, SeekSet, f);
    sent, rounds := SendRest(dev, filp, BUFFERSIZE);
  }

  /** The same on a device in use, which stays as it is. */
  method SendContent(dev: Device, filp: File, f: Faults) returns (sent: bytes, rounds: nat)
    requires dev.Valid() && filp.fPos == 0
    modifies filp
    ensures dev.Valid()
    ensures sent == Content(dev.model.ring)
    ensures rounds == ReadsOfAll(InOrder(dev.model.ring), BUFFERSIZE)
  {
    ValidIsReadable(dev, 0);
    AllReads(dev.model);
    sent, rounds := SendAll(dev, filp, f);
  }

  /** The file a thread opens, after its write: a write does not move the position. */
  method OpenAndWrite(dev: Device, text: bytes, f: Faults) returns (filp: File)
    requires dev.Valid() && |text| < BUFFERSIZE
    modifies dev, dev.heap, dev.buffer, dev.buffer.entry
    ensures dev.Valid() && fresh(filp) && filp.fPos == 0
    ensures dev.model == Write(old(dev.model), text, f).dev
  {
    filp := new File();
    var written := dev.AesdWrite(text, f);
  }

  /** A message: written, whatever becomes of the write, and answered with the content of the
      device right after it. A write does not move the position of the fresh file, and SEEK_SET
      keeps it, so it is 0 until the first read. */
  method AnswerMessage(dev: Device, text: bytes, f: Faults) returns (sent: bytes, rounds: nat)
    requires dev.Valid() && |text| < BUFFERSIZE
    modifies dev, dev.heap, dev.buffer, dev.buffer.entry
    ensures dev.Valid()
    ensures dev.model == Write(old(dev.model), text, f).dev
    ensures sent == Content(dev.model.ring)
    ensures rounds == ReadsOfAll(InOrder(dev.model.ring), 48_000)
  {
    var filp := OpenAndWrite(dev, text, f);
    sent, rounds := SendContent(dev, filp, f);
  }

  /** The ioctl on a fresh file puts it where the reply is to start. */
  lemma SeekPlaces(d: Dev, log: Log, cmd: nat, off: nat, f: Faults)
    requires Tracks(d, log)
    ensures SeekTo(d, 0, true, cmd, off, f).pos == StartOf(SeekCommand(cmd, off), f.lockOk && f.copyOk, log.history)
  {
    if cmd < SLOTS {
      SeekToIsExact(d, log, 0, cmd, off);
    }
  }

  /** The ioctl on a file still at 0. */
  method SeekFile(dev: Device, filp: File, cmd: nat, off: nat, f: Faults)
    requires dev.Valid() && filp.fPos == 0
    modifies filp
    ensures dev.buffer.Valid() && dev.model.ring == dev.buffer.model
    ensures filp.fPos == StartOf(SeekCommand(cmd, off), f.lockOk && f.copyOk, FeedAll(dev.accepted).history)
    ensures Addressable(InOrder(dev.model.ring), filp.fPos)
  {
    ValidIsReadable(dev, 0);
    SeekPlaces(dev.model, FeedAll(dev.accepted), cmd, off, f);
    var sought := dev.AesdIoctl(filp, true, cmd, off, f);
  }

  /** A seek command: the content from the position the ioctl sets, or all of it when the ioctl is
      refused. The device is not changed. */
  method AnswerSeek(dev: Device, cmd: nat, off: nat, f: Faults) returns (sent: bytes)
    requires dev.Valid()
    ensures sent == Rest(Content(dev.model.ring),
                         StartOf(SeekCommand(cmd, off), f.lockOk && f.copyOk, FeedAll(dev.accepted).history))
  {
    var filp := new File();
    SeekFile(dev, filp, cmd, off, f);
    var rounds: nat;
    sent, rounds := SendRest(dev, filp, BUFFERSIZE);
  }
}
