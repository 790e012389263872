/** The body of the node's endless loop, on the mutable datagram object. */
module NodeLoop {
  import opened Bytes
  import opened Wrappers
  import opened Datagrams
  import opened CanDatagrams
  import opened DatagramBuffers
  import opened Node
  import Crc32

  class Bootloader {
    var id: byte
    var timeoutEnabled: bool
    var datagramTimeoutRunning: bool
    var rebooted: bool
    var log: seq<Action>
    const dt: CanDatagram
    ghost var fed: seq<byte>

    ghost predicate Valid()
      reads this, dt
    {
      dt.Valid() && dt.capacity == INPUT_BUFFER_SIZE && dt.address.Length == ADDRESS_BUFFER_SIZE
    }

    ghost function View(): State
      requires Valid()
      reads this, dt, dt.address, dt.data
    {
      State(id, dt.View(), fed, timeoutEnabled, datagramTimeoutRunning, rebooted, log)
    }

    constructor (id: byte, timeoutEnabled: bool)
      ensures Valid() && fresh(dt) && fresh(dt.address) && fresh(dt.data)
      ensures this.id == id && this.timeoutEnabled == timeoutEnabled
      ensures !datagramTimeoutRunning && !rebooted && log == [] && Tracks(View())
    {
      var addrBuf := new byte[ADDRESS_BUFFER_SIZE];
      var dataBuf := new byte[INPUT_BUFFER_SIZE];
      var d := new CanDatagram(addrBuf, dataBuf, INPUT_BUFFER_SIZE);
      ghost var r := d.View();
      d.Start();
      this.id, this.timeoutEnabled := id, timeoutEnabled;
      dt, datagramTimeoutRunning, rebooted, log, fed := d, false, false, [], [];
      new;
      assert View().reader == InputAll(Restart(r), INPUT_BUFFER_SIZE, []);
    }

    /** Appends the bytes of a frame to the datagram being received. */
    method InputBytes(data: seq<byte>)
      requires Valid() && DestinationsFit(dt.View(), data)
      modifies dt, dt.address, dt.data
      ensures Valid() && dt.View() == InputAll(old(dt.View()), INPUT_BUFFER_SIZE, data)
    {
      ghost var r := dt.View();
      var i := 0;
      while i < |data|
        invariant i <= |data| && Valid()
        invariant dt.View() == InputAll(r, INPUT_BUFFER_SIZE, data[..i])
      {
        assert InputAll(r, INPUT_BUFFER_SIZE, data[..i]).phase == DstLen ==> data[i] <= ADDRESS_BUFFER_SIZE;
        dt.InputByte(data[i]);
        assert data[..i + 1][..i] == data[..i];
        i := i + 1;
      }
      assert data[..i] == data;
    }

    /** One iteration of the loop. */
    method Iterate(exec: Handler, p: Poll)
      requires Valid() && !rebooted && WithinBuffers(View(), p)
      modifies this, dt, dt.address, dt.data
      ensures Valid() && View() == Step(old(View()), exec, p)
    {
      hide InputAll, Restart, Fed, Conclude, DestinationsFit;
      if timeoutEnabled && p.jumpDue {
        log := log + [Jumped];
        rebooted := true;
        return;
      }
      if datagramTimeoutRunning && p.datagramDue {
        log := log + [Complaint(id, ERROR_DATAGRAM_TIMEOUT)];
        dt.Start();
        fed := [];
        datagramTimeoutRunning := false;
      }
      assert View() == DatagramTimer(old(View()), p.datagramDue);
      if p.frame.None? {
        return;
      }
      var f := p.frame.value;
      if f.id != START_OF_DATAGRAM_MASK && f.id != 0 && f.id != WithStart(id) && f.id != id {
        return;
      }
      ReceiveFrame(f);
      if dt.readerPhase == Trailing || |f.data| < 8 {
        Finish(exec, f.id % 0x100);
      }
    }

    /** A frame for this node: restart on a start frame, then append its bytes. */
    method ReceiveFrame(f: Frame)
      requires Valid() && DestinationsFit((if IsStart(f.id) then Restarted(View()) else View()).reader, f.data)
      modifies this, dt, dt.address, dt.data
      ensures Valid() && View() == Fed(old(View()), f)
    {
      hide InputAll, Restart;
      if IsStart(f.id) {
        dt.Start();
        fed := [];
        datagramTimeoutRunning := true;
      }
      InputBytes(f.data);
      fed := fed + f.data;
    }

    /** The end of a datagram: execute and answer it, or complain; then begin a new one. */
    method Finish(exec: Handler, frameId: byte)
      requires Valid() && (IsComplete(dt.View()) ==> Fits(dt.View()))
      modifies this, dt
      ensures Valid() && View() == Restarted(Conclude(old(View()), exec, frameId)).(waiting := false)
    {
      hide Restart, IsValid, Conclude;
      Assess(exec, frameId);
      dt.Start();
      fed := [];
      datagramTimeoutRunning := false;
    }

    /** The reaction to a datagram, before the reader is restarted. */
    method Assess(exec: Handler, frameId: byte)
      requires Valid() && (IsComplete(dt.View()) ==> Fits(dt.View()))
      modifies `id, `timeoutEnabled, `datagramTimeoutRunning, `log
      ensures Valid()
      ensures View().(waiting := false) == Conclude(old(View()), exec, frameId).(waiting := false)
    {
      hide Restart, Crc32.Checksum, Covered, Answer, Complaint, Execute;
      ghost var n := View();
      var valid := dt.IsDatagramValid();
      if valid {
        datagramTimeoutRunning := false;
        var addressed := ListsNode(n);
        if addressed {
          timeoutEnabled := false;
          assert dt.data[..dt.dataLen] == Received(n.reader).data;
          ExecuteDatagram(exec, frameId);
          Executes(n, exec, Received(n.reader).data, frameId);
        }
      } else {
        log := log + [Complaint(id, ERROR_CORRUPT_DATAGRAM)];
      }
    }

    lemma Executes(n: State, exec: Handler, payload: seq<byte>, frameId: byte)
      ensures
        var o := exec(n.id, payload);
        Execute(n, exec, payload, frameId)
        == n.(id := o.id, jumpEnabled := false, log := n.log + [Executed(payload), Answer(o, frameId)])
    {
    }

    /** Executes the received payload and answers it. */
    method ExecuteDatagram(exec: Handler, frameId: byte)
      requires dt.dataLen <= dt.data.Length
      modifies `id, `log
      ensures var o := exec(old(id), dt.data[..dt.dataLen]);
              id == o.id && log == old(log) + [Executed(dt.data[..dt.dataLen]), Answer(o, frameId)]
    {
      var payload := dt.data[..dt.dataLen];
      var o := exec(id, payload);
      var replyLength := o.result % 0x100;
      id := o.id;
      log := log + [Executed(payload)];
      if replyLength > 0 {
        log := log + [Replied(id, frameId % START_OF_DATAGRAM_MASK, o.output[..replyLength])];
      } else {
        log := log + [Complaint(id, 0)];
      }
    }

    /** The scan of the destination list for the node's identifier. */
    method ListsNode(ghost n: State) returns (addressed: bool)
      requires Valid() && n.reader == dt.View() && n.id == id && IsValid(n.reader)
      ensures addressed == Addressed(n)
    {
      hide Crc32.Checksum, Covered;
      assert dt.address[..dt.dstLen] == Received(n.reader).destinations;
      var i := 0;
      while i < dt.dstLen
        invariant i <= dt.dstLen && id !in dt.address[..i]
      {
        if dt.address[i] == id {
          return true;
        }
        i := i + 1;
      }
      return false;
    }
  }

  /** No destination count among these bytes exceeds the address buffer. */
  predicate DestinationsFit(r: Reader, data: seq<byte>) {
    forall i :: 0 <= i < |data| ==>
      InputAll(r, INPUT_BUFFER_SIZE, data[..i]).phase == DstLen ==> data[i] <= ADDRESS_BUFFER_SIZE
  }

  /** The datagram in progress announces no more destinations and data than the buffers hold. */
  predicate WithinBuffers(n: State, p: Poll) {
    p.frame.None? || !ForMe(n.id, p.frame.value) ||
    var n1 := DatagramTimer(n, p.datagramDue);
    var f := p.frame.value;
    && DestinationsFit((if IsStart(f.id) then Restarted(n1) else n1).reader, f.data)
    && (IsComplete(Fed(n1, f).reader) ==> Fits(Fed(n1, f).reader))
  }
}
