/** A connection as the object it is, over the real output buffer
    (muduo/net/TcpConnection.cc). Each method takes the step of TcpConnection.dfy
    of the same name. */
module TcpConnectionClass {
  import opened Endian
  import opened Buffers
  import Spec = TcpConnections
  import opened TcpConnections

  class TcpConnection {
    const config: Config
    var state: Phase
    // interests of the channel
    var reading: bool
    var writing: bool
    const outputBuffer: Buffer
    // callbacks handed to the loop
    var queued: seq<Callback>

    ghost var kernel: seq<byte>
    ghost var accepted: seq<byte>
    ghost var halfClosed: bool
    ghost var forced: bool

    ghost function State(): Conn
      requires outputBuffer.Valid()
      reads this, outputBuffer, outputBuffer.storage
    {
      Conn(config, state, reading, writing, outputBuffer.Content(), queued, kernel, accepted, halfClosed, forced)
    }

    ghost predicate Valid()
      reads this, outputBuffer, outputBuffer.storage
    {
      outputBuffer.Valid() && Inv(State())
    }

    constructor (config: Config)
      ensures Valid() && State() == New(config)
      ensures fresh(outputBuffer) && fresh(outputBuffer.storage)
    {
      this.config := config;
      state, reading, writing, queued := Connecting, false, false, [];
      kernel, accepted, halfClosed, forced := [], [], false, false;
      outputBuffer := new Buffer();
    }

    method SendInLoop(data: seq<byte>, w: WriteResult)
      requires outputBuffer.Valid() && (TriesSocket(State()) ==> Fits(w, |data|))
      modifies this, outputBuffer, outputBuffer.storage
      ensures outputBuffer.Valid() && State() == Spec.SendInLoop(old(State()), data, w)
      ensures outputBuffer.storage == old(outputBuffer.storage) || fresh(outputBuffer.storage)
    {
      hide Buffer.Content;
      var nwrote := 0;
      var remaining := |data|;
      var faultError := false;
      if state == Disconnected {
        return;
      }
      if !writing && outputBuffer.ReadableBytes() == 0 {
        nwrote, faultError := TryWrite(data, w);
        remaining := |data| - nwrote;
      }
      kernel := kernel + data[..nwrote];
      if !faultError {
        accepted := accepted + data;
        if remaining > 0 {
          Hold(data[nwrote..]);
        }
      }
    }

    /** The write straight to the socket, when nothing is waiting before it. */
    method TryWrite(data: seq<byte>, w: WriteResult) returns (nwrote: nat, faultError: bool)
      requires Fits(w, |data|)
      modifies this`queued
      ensures nwrote == if w.Wrote? then w.n else 0
      ensures faultError <==> w == PeerGone
      ensures queued == old(queued) + if w == Wrote(|data|) && config.onWriteComplete then [WriteComplete] else []
    {
      nwrote, faultError := 0, false;
      match w
      case Wrote(n) =>
        nwrote := n;
        if |data| - nwrote == 0 && config.onWriteComplete {
          queued := queued + [WriteComplete];
        }
      case WouldBlock =>
      case PeerGone =>
        faultError := true;
      case OtherError =>
    }

    /** What the socket did not take waits in the buffer. */
    method Hold(rest: seq<byte>)
      requires outputBuffer.Valid()
      modifies this`queued, this`writing, outputBuffer, outputBuffer.storage
      ensures outputBuffer.Valid() && outputBuffer.Content() == old(outputBuffer.Content()) + rest && writing
      ensures var backlog, mark := |old(outputBuffer.Content())|, config.highWaterMark;
              queued == if backlog < mark <= backlog + |rest| && config.onHighWaterMark
                        then old(queued) + [HighWaterMark(backlog + |rest|)] else old(queued)
      ensures outputBuffer.storage == old(outputBuffer.storage) || fresh(outputBuffer.storage)
    {
      hide Buffer.Content;
      var oldLen := outputBuffer.ReadableBytes();
      if oldLen + |rest| >= config.highWaterMark && oldLen < config.highWaterMark && config.onHighWaterMark {
        queued := queued + [HighWaterMark(oldLen + |rest|)];
      }
      outputBuffer.Append(rest);
      if !writing {
        writing := true;
      }
    }

    method Send(data: seq<byte>, w: WriteResult)
      requires Valid() && (TriesSocket(State()) ==> Fits(w, |data|))
      modifies this, outputBuffer, outputBuffer.storage
      ensures Valid() && State() == Spec.Send(old(State()), data, w)
      ensures outputBuffer.storage == old(outputBuffer.storage) || fresh(outputBuffer.storage)
    {
      hide Inv, Spec.SendInLoop;
      StepKeeps(State(), SendStep(data, w));
      if state == Connected {
        SendInLoop(data, w);
      }
    }

    method ShutdownInLoop()
      requires outputBuffer.Valid()
      modifies this`halfClosed
      ensures State() == Spec.ShutdownInLoop(old(State()))
    {
      if !writing {
        halfClosed := true;
      }
    }

    method Shutdown()
      requires Valid()
      modifies this
      ensures Valid() && State() == Spec.Shutdown(old(State()))
    {
      hide Inv;
      StepKeeps(State(), ShutdownStep);
      if state == Connected {
        state := Disconnecting;
        ShutdownInLoop();
      }
    }

    method HandleWrite(w: WriteResult)
      requires Valid() && (writing ==> Fits(w, |outputBuffer.Content()|))
      modifies this, outputBuffer
      ensures Valid() && State() == Spec.HandleWrite(old(State()), w)
      ensures outputBuffer.storage == old(outputBuffer.storage)
    {
      hide Inv;
      StepKeeps(State(), WritableStep(w));
      if writing {
        if w.Wrote? && w.n > 0 {
          kernel := kernel + outputBuffer.Content()[..w.n];
          outputBuffer.Retrieve(w.n);
          if outputBuffer.ReadableBytes() == 0 {
            writing := false;
            if config.onWriteComplete {
              queued := queued + [WriteComplete];
            }
            if state == Disconnecting {
              ShutdownInLoop();
            }
          }
        }
      }
    }

    method ForceClose()
      requires Valid()
      modifies this
      ensures Valid() && State() == Spec.ForceClose(old(State()))
    {
      hide Inv;
      StepKeeps(State(), ForceCloseStep);
      if state == Connected || state == Disconnecting {
        state := Disconnecting;
        forced := true;
        queued := queued + [ForceCloseInLoop];
      }
    }

    method ForceCloseWithDelay()
      requires Valid()
      modifies this
      ensures Valid() && State() == Spec.ForceCloseWithDelay(old(State()))
    {
      hide Inv;
      StepKeeps(State(), ForceCloseWithDelayStep);
      if state == Connected || state == Disconnecting {
        state := Disconnecting;
        forced := true;
      }
    }

    method RunForceClose()
      requires Valid()
      modifies this
      ensures Valid() && State() == Spec.RunForceClose(old(State()))
    {
      hide Inv;
      StepKeeps(State(), ForceCloseInLoopStep);
      if state == Connected || state == Disconnecting {
        HandleClose();
      }
    }

    method HandleClose()
      requires outputBuffer.Valid() && (state == Connected || state == Disconnecting)
      modifies this`state, this`reading, this`writing
      ensures State() == Spec.HandleClose(old(State()))
    {
      state := Disconnected;
      reading, writing := false, false;
    }

    /** `n` is the result of the read; more than 0 is for the message callback. */
    method HandleRead(n: int)
      requires Valid() && IsOpen(State())
      modifies this
      ensures Valid() && State() == Spec.HandleRead(old(State()), n)
    {
      hide Inv;
      StepKeeps(State(), ReadableStep(n));
      if n == 0 {
        HandleClose();
      }
    }

    method ConnectEstablished()
      requires Valid() && state == Connecting
      modifies this
      ensures Valid() && State() == Spec.ConnectEstablished(old(State()))
    {
      hide Inv;
      StepKeeps(State(), Establish);
      state := Connected;
      reading := true;
    }

    method ConnectDestroyed()
      requires Valid() && state != Connecting
      modifies this
      ensures Valid() && State() == Spec.ConnectDestroyed(old(State()))
    {
      hide Inv;
      StepKeeps(State(), DestroyStep);
      if state == Connected {
        state := Disconnected;
        reading, writing := false, false;
      }
    }
  }
}
