/** The output path and the closing of a connection, in the loop thread
    (muduo/net/TcpConnection.cc), as values and steps. */
module TcpConnections {
  import opened Endian

  datatype Phase = Connecting | Connected | Disconnecting | Disconnected

  datatype Callback = WriteComplete | HighWaterMark(backlog: nat) | ForceCloseInLoop

  /** What a write to the socket returned. `PeerGone` is EPIPE or ECONNRESET. */
  datatype WriteResult = Wrote(n: nat) | WouldBlock | PeerGone | OtherError

  /** Callbacks the user has set. */
  datatype Config = Config(highWaterMark: nat, onWriteComplete: bool, onHighWaterMark: bool)

  /** `queued` are callbacks handed to the loop. `kernel` is what the socket took,
      `accepted` what was given to `send` on an open connection and not lost to a
      gone peer, `halfClosed` that our side was shut down, and `forced` that
      `forceClose` was called, with a delay or without. */
  datatype Conn = Conn(
    config: Config,
    phase: Phase,
    reading: bool,
    writing: bool,
    output: seq<byte>,
    queued: seq<Callback>,
    kernel: seq<byte>,
    accepted: seq<byte>,
    halfClosed: bool,
    forced: bool)

  function New(config: Config): Conn {
    Conn(config, Connecting, false, false, [], [], [], [], false, false)
  }

  predicate IsOpen(c: Conn) {
    c.phase == Connected || c.phase == Disconnecting
  }

  // ------------------------------------------------------------------- steps

  /** Whether `sendInLoop` tries the socket first. */
  predicate TriesSocket(c: Conn) {
    !c.writing && c.output == []
  }

  function Queue(c: Conn, when: bool, callback: Callback): Conn {
    if when then c.(queued := c.queued + [callback]) else c
  }

  predicate Fits(w: WriteResult, offered: nat) {
    w.Wrote? ==> w.n <= offered
  }

  function SendInLoop(c: Conn, data: seq<byte>, w: WriteResult): Conn
    requires TriesSocket(c) ==> Fits(w, |data|)
  {
    if c.phase == Disconnected then c
    else
      var direct := TriesSocket(c);
      var nwrote := if direct && w.Wrote? then w.n else 0;
      var remaining := |data| - nwrote;
      var c1 := Queue(c, direct && w.Wrote? && remaining == 0 && c.config.onWriteComplete, WriteComplete);
      var c2 := c1.(kernel := c.kernel + data[..nwrote]);
      if direct && w == PeerGone then c2
      else if remaining == 0 then c2.(accepted := c.accepted + data)
      else
        var oldLen := |c.output|;
        var crosses := oldLen + remaining >= c.config.highWaterMark && oldLen < c.config.highWaterMark;
        Queue(c2, crosses && c.config.onHighWaterMark, HighWaterMark(oldLen + remaining)).(
          accepted := c.accepted + data,
          output := c.output + data[nwrote..],
          writing := true)
  }

  function Send(c: Conn, data: seq<byte>, w: WriteResult): Conn
    requires TriesSocket(c) ==> Fits(w, |data|)
  {
    if c.phase == Connected then SendInLoop(c, data, w) else c
  }

  function ShutdownInLoop(c: Conn): Conn {
    if !c.writing then c.(halfClosed := true) else c
  }

  function Shutdown(c: Conn): Conn {
    if c.phase == Connected then ShutdownInLoop(c.(phase := Disconnecting)) else c
  }

  function HandleWrite(c: Conn, w: WriteResult): Conn
    requires c.writing ==> Fits(w, |c.output|)
  {
    if c.writing && w.Wrote? && w.n > 0 then
      var c1 := c.(kernel := c.kernel + c.output[..w.n], output := c.output[w.n..]);
      if c1.output != [] then c1
      else
        var c2 := Queue(c1.(writing := false), c.config.onWriteComplete, WriteComplete);
        if c.phase == Disconnecting then ShutdownInLoop(c2) else c2
    else c
  }

  function ForceClose(c: Conn): Conn {
    if IsOpen(c) then Queue(c.(phase := Disconnecting, forced := true), true, ForceCloseInLoop) else c
  }

  /** The close itself comes later, as a `forceClose` from a timer. */
  function ForceCloseWithDelay(c: Conn): Conn {
    if IsOpen(c) then c.(phase := Disconnecting, forced := true) else c
  }

  function HandleClose(c: Conn): Conn {
    c.(phase := Disconnected, reading := false, writing := false)
  }

  function RunForceClose(c: Conn): Conn {
    if IsOpen(c) then HandleClose(c) else c
  }

  /** `n` is what `readFd` returned. */
  function HandleRead(c: Conn, n: int): Conn {
    if n == 0 then HandleClose(c) else c
  }

  function ConnectEstablished(c: Conn): Conn {
    c.(phase := Connected, reading := true)
  }

  function ConnectDestroyed(c: Conn): Conn {
    if c.phase == Connected then HandleClose(c) else c
  }

  datatype Step =
    | Establish
    | SendStep(data: seq<byte>, w: WriteResult)
    | ShutdownStep
    | WritableStep(w: WriteResult)
    | ReadableStep(n: int)
    | ForceCloseStep
    | ForceCloseWithDelayStep
    | ForceCloseInLoopStep
    | DestroyStep

  /** What the loop and the asserts allow. Callbacks act through further steps. */
  predicate Enabled(c: Conn, step: Step) {
    match step
    case Establish => c.phase == Connecting
    case SendStep(data, w) => TriesSocket(c) ==> Fits(w, |data|)
    case WritableStep(w) => c.writing ==> Fits(w, |c.output|)
    case ReadableStep(_) => IsOpen(c)
    case DestroyStep => c.phase != Connecting
    case _ => true
  }

  function Apply(c: Conn, step: Step): Conn
    requires Enabled(c, step)
  {
    match step
    case Establish => ConnectEstablished(c)
    case SendStep(data, w) => Send(c, data, w)
    case ShutdownStep => Shutdown(c)
    case WritableStep(w) => HandleWrite(c, w)
    case ReadableStep(n) => HandleRead(c, n)
    case ForceCloseStep => ForceClose(c)
    case ForceCloseWithDelayStep => ForceCloseWithDelay(c)
    case ForceCloseInLoopStep => RunForceClose(c)
    case DestroyStep => ConnectDestroyed(c)
  }

  // -------------------------------------------------------------- invariants

  predicate Conserved(c: Conn) {
    c.kernel + c.output == c.accepted
  }

  predicate Inv(c: Conn) {
    && Conserved(c)
    && (IsOpen(c) ==> (c.writing <==> c.output != []))
    && (!IsOpen(c) ==> !c.writing)
    && (IsOpen(c) <==> c.reading)
    && (c.phase == Connecting ==> c.output == [] && c.kernel == [])
    && (c.halfClosed ==> c.output == [] && (c.phase == Disconnecting || c.phase == Disconnected))
    && (c.phase == Disconnecting && c.output == [] && !c.forced ==> c.halfClosed)
  }

  lemma SendConserves(c: Conn, data: seq<byte>, w: WriteResult)
    requires Conserved(c) && (TriesSocket(c) ==> Fits(w, |data|))
    ensures Conserved(Send(c, data, w))
  {
    var nwrote := if TriesSocket(c) && w.Wrote? then w.n else 0;
    var c' := Send(c, data, w);
    if c' != c {
      SendShape(c, data, w, nwrote);
      Taken(c.kernel, c.output, data, nwrote);
    }
  }

  /** Without the callbacks: what goes to the socket and what is held. */
  lemma SendShape(c: Conn, data: seq<byte>, w: WriteResult, nwrote: nat)
    requires c.phase == Connected && (TriesSocket(c) ==> Fits(w, |data|))
    requires nwrote == if TriesSocket(c) && w.Wrote? then w.n else 0
    ensures var c' := Send(c, data, w);
            && nwrote <= |data|
            && (nwrote > 0 ==> c.output == [])
            && c'.kernel == c.kernel + data[..nwrote]
            && (c'.accepted, c'.output) == if TriesSocket(c) && w == PeerGone then (c.accepted, c.output)
                                           else (c.accepted + data, c.output + data[nwrote..])
  {
    assert data[..0] == [] && (nwrote == |data| ==> data[nwrote..] == []);
    assert c.output + [] == c.output;
  }

  lemma Taken(kernel: seq<byte>, output: seq<byte>, data: seq<byte>, n: nat)
    requires n <= |data| && (n > 0 ==> output == [])
    ensures kernel + data[..n] + (output + data[n..]) == kernel + output + data
    ensures kernel + data[..0] == kernel
  {
    assert data[..n] + data[n..] == data;
  }

  lemma WriteConserves(c: Conn, w: WriteResult)
    requires Conserved(c) && (c.writing ==> Fits(w, |c.output|))
    ensures Conserved(HandleWrite(c, w))
  {
    if c.writing && w.Wrote? {
      assert c.kernel + c.output[..w.n] + c.output[w.n..] == c.kernel + c.output;
    }
  }

  lemma StepKeeps(c: Conn, step: Step)
    requires Inv(c) && Enabled(c, step)
    ensures Inv(Apply(c, step))
  {
    match step
    case SendStep(data, w) => SendConserves(c, data, w);
    case WritableStep(w) => WriteConserves(c, w);
    case _ =>
  }

  predicate Legal(c: Conn, steps: seq<Step>)
    decreases |steps|
  {
    steps == [] || (Enabled(c, steps[0]) && Legal(Apply(c, steps[0]), steps[1..]))
  }

  function Run(c: Conn, steps: seq<Step>): Conn
    requires Legal(c, steps)
    decreases |steps|
  {
    if steps == [] then c else Run(Apply(c, steps[0]), steps[1..])
  }

  lemma {:induction false} RunKeeps(c: Conn, steps: seq<Step>)
    requires Inv(c) && Legal(c, steps)
    ensures Inv(Run(c, steps))
    decreases |steps|
  {
    hide Inv, Enabled, Apply;
    if steps != [] {
      StepKeeps(c, steps[0]);
      RunKeeps(Apply(c, steps[0]), steps[1..]);
    }
  }

  // ---------------------------------------------- what a run amounts to

  /** A connection as its steps alone tell: how open it is, how much is held, and
      whether our side has been shut down. */
  datatype Track = Track(phase: Phase, backlog: nat, halfClosed: bool)

  const UNCONNECTED := Track(Connecting, 0, false)

  predicate IsOpenAt(t: Track) {
    t.phase == Connected || t.phase == Disconnecting
  }

  /** A writable socket takes something of what is held. */
  predicate IsTaken(t: Track, w: WriteResult) {
    IsOpenAt(t) && w.Wrote? && 0 < w.n <= t.backlog
  }

  predicate Drains(t: Track, w: WriteResult) {
    IsTaken(t, w) && w.n == t.backlog
  }

  function TrackStep(t: Track, step: Step): Track {
    match step
    case Establish => t.(phase := Connected)
    case SendStep(data, w) =>
      if t.phase != Connected then t
      else if t.backlog > 0 then t.(backlog := t.backlog + |data|)
      else if w == PeerGone then t
      else t.(backlog := if w.Wrote? && w.n <= |data| then |data| - w.n else |data|)
    case ShutdownStep =>
      if t.phase == Connected then t.(phase := Disconnecting, halfClosed := t.backlog == 0) else t
    case WritableStep(w) =>
      if !Drains(t, w) then if IsTaken(t, w) then t.(backlog := t.backlog - w.n) else t
      else t.(backlog := 0, halfClosed := t.phase == Disconnecting)
    case ReadableStep(n) => if n == 0 then t.(phase := Disconnected) else t
    case ForceCloseStep => if IsOpenAt(t) then t.(phase := Disconnecting) else t
    case ForceCloseWithDelayStep => if IsOpenAt(t) then t.(phase := Disconnecting) else t
    case ForceCloseInLoopStep => if IsOpenAt(t) then t.(phase := Disconnected) else t
    case DestroyStep => if t.phase == Connected then t.(phase := Disconnected) else t
  }

  function TrackAfter(t: Track, steps: seq<Step>): Track
    decreases |steps|
  {
    if steps == [] then t else TrackAfter(TrackStep(t, steps[0]), steps[1..])
  }

  /** Sends reach the stream while connected, except one tried directly on a
      socket whose peer is gone. */
  predicate IsAccepted(t: Track, step: Step) {
    step.SendStep? && t.phase == Connected && !(t.backlog == 0 && step.w == PeerGone)
  }

  function AcceptedBy(t: Track, step: Step): seq<byte> {
    if IsAccepted(t, step) then step.data else []
  }

  /** The messages of the steps that are not lost, one after the other. */
  function Accepted(t: Track, steps: seq<Step>): seq<byte>
    decreases |steps|
  {
    if steps == [] then [] else AcceptedBy(t, steps[0]) + Accepted(TrackStep(t, steps[0]), steps[1..])
  }

  predicate Follows(c: Conn, t: Track) {
    t.phase == c.phase && t.backlog == |c.output| && t.halfClosed == c.halfClosed
  }

  /** The callbacks that a step hands to the loop. */
  function CallbacksBy(config: Config, t: Track, step: Step): seq<Callback> {
    match step
    case SendStep(data, w) =>
      var left := if t.backlog == 0 && w.Wrote? && w.n <= |data| then |data| - w.n else |data|;
      if !IsAccepted(t, step) then []
      else if t.backlog == 0 && left == 0 && w.Wrote? then
        if config.onWriteComplete then [WriteComplete] else []
      else if left > 0 && t.backlog < config.highWaterMark <= t.backlog + left && config.onHighWaterMark then
        [HighWaterMark(t.backlog + left)]
      else []
    case WritableStep(w) => if Drains(t, w) && config.onWriteComplete then [WriteComplete] else []
    case ForceCloseStep => if IsOpenAt(t) then [ForceCloseInLoop] else []
    case _ => []
  }

  function Callbacks(config: Config, t: Track, steps: seq<Step>): seq<Callback>
    decreases |steps|
  {
    if steps == [] then []
    else CallbacksBy(config, t, steps[0]) + Callbacks(config, TrackStep(t, steps[0]), steps[1..])
  }

  lemma StepQueues(c: Conn, t: Track, step: Step)
    requires Inv(c) && Enabled(c, step) && Follows(c, t)
    ensures Apply(c, step).queued == c.queued + CallbacksBy(c.config, t, step)
    ensures Apply(c, step).config == c.config
  {
    assert c.queued + [] == c.queued;
  }

  lemma {:induction false} RunQueues(c: Conn, t: Track, steps: seq<Step>)
    requires Inv(c) && Legal(c, steps) && Follows(c, t)
    ensures Run(c, steps).queued == c.queued + Callbacks(c.config, t, steps)
    decreases |steps|
  {
    hide Inv, Enabled, Apply, Follows, TrackStep, CallbacksBy;
    if steps == [] {
      assert c.queued + [] == c.queued;
    } else {
      StepKeeps(c, steps[0]);
      StepFollows(c, t, steps[0]);
      StepQueues(c, t, steps[0]);
      var c', t' := Apply(c, steps[0]), TrackStep(t, steps[0]);
      RunQueues(c', t', steps[1..]);
      var first, later := CallbacksBy(c.config, t, steps[0]), Callbacks(c.config, t', steps[1..]);
      assert c.queued + first + later == c.queued + (first + later);
    }
  }

  lemma StepFollows(c: Conn, t: Track, step: Step)
    requires Inv(c) && Enabled(c, step) && Follows(c, t)
    ensures Follows(Apply(c, step), TrackStep(t, step))
    ensures Apply(c, step).accepted == c.accepted + AcceptedBy(t, step)
  {
    assert c.accepted + [] == c.accepted;
  }

  lemma {:induction false} RunFollows(c: Conn, t: Track, steps: seq<Step>)
    requires Inv(c) && Legal(c, steps) && Follows(c, t)
    ensures Follows(Run(c, steps), TrackAfter(t, steps))
    ensures Run(c, steps).accepted == c.accepted + Accepted(t, steps)
    decreases |steps|
  {
    hide Inv, Enabled, Apply, Follows, TrackStep, AcceptedBy;
    if steps == [] {
      assert c.accepted + [] == c.accepted;
    } else {
      StepKeeps(c, steps[0]);
      StepFollows(c, t, steps[0]);
      var c', t' := Apply(c, steps[0]), TrackStep(t, steps[0]);
      RunFollows(c', t', steps[1..]);
      var first := AcceptedBy(t, steps[0]);
      assert c.accepted + first + Accepted(t', steps[1..]) == c.accepted + (first + Accepted(t', steps[1..]));
    }
  }

  lemma {:induction false} AcceptedSplits(t: Track, a: seq<Step>, b: seq<Step>)
    ensures Accepted(t, a + b) == Accepted(t, a) + Accepted(TrackAfter(t, a), b)
    ensures TrackAfter(t, a + b) == TrackAfter(TrackAfter(t, a), b)
    decreases |a|
  {
    hide TrackStep, AcceptedBy;
    if a == [] {
      assert a + b == b;
    } else {
      assert (a + b)[0] == a[0] && (a + b)[1..] == a[1..] + b;
      AcceptedSplits(TrackStep(t, a[0]), a[1..], b);
    }
  }

  // ------------------------------------------------------------ main results

  /** Whatever the socket takes at a time, the bytes it took and the bytes still
      held are the messages that were not lost, in order and without gap. */
  lemma OutputConserved(config: Config, steps: seq<Step>)
    requires Legal(New(config), steps)
    ensures var c := Run(New(config), steps);
            && c.kernel + c.output == Accepted(UNCONNECTED, steps)
            && |c.output| == TrackAfter(UNCONNECTED, steps).backlog
  {
    RunKeeps(New(config), steps);
    RunFollows(New(config), UNCONNECTED, steps);
    assert [] + Accepted(UNCONNECTED, steps) == Accepted(UNCONNECTED, steps);
  }

  /** In every run a message sent while connected is either in the stream, between
      what was accepted before and after it, or missing from it altogether; it is
      missing exactly when nothing was held before it and the peer was gone. */
  lemma LostIff(config: Config, before: seq<Step>, data: seq<byte>, w: WriteResult, after: seq<Step>)
    requires Legal(New(config), before + [SendStep(data, w)] + after)
    requires TrackAfter(UNCONNECTED, before).phase == Connected
    ensures var c := Run(New(config), before + [SendStep(data, w)] + after);
            var t := TrackAfter(UNCONNECTED, before);
            var later := Accepted(TrackStep(t, SendStep(data, w)), after);
            var lost := t.backlog == 0 && w == PeerGone;
            c.kernel + c.output == Accepted(UNCONNECTED, before) + (if lost then [] else data) + later
  {
    var send, t := SendStep(data, w), TrackAfter(UNCONNECTED, before);
    OutputConserved(config, before + [send] + after);
    AcceptedSplits(UNCONNECTED, before + [send], after);
    AcceptedSplits(UNCONNECTED, before, [send]);
    assert [send][1..] == [];
    assert Accepted(t, [send]) == AcceptedBy(t, send) + [];
  }

  /** In every run the callbacks handed to the loop are those that the steps call
      for, in order: write-complete when nothing is left, high-water on crossing
      the mark, and one close for each `forceClose` of an open connection. */
  lemma CallbacksAreDue(config: Config, steps: seq<Step>)
    requires Legal(New(config), steps)
    ensures Run(New(config), steps).queued == Callbacks(config, UNCONNECTED, steps)
  {
    RunQueues(New(config), UNCONNECTED, steps);
    assert [] + Callbacks(config, UNCONNECTED, steps) == Callbacks(config, UNCONNECTED, steps);
  }

  /** In every run the phase and the half-close are what the steps amount to. */
  lemma PhaseIsTracked(config: Config, steps: seq<Step>)
    requires Legal(New(config), steps)
    ensures var c, t := Run(New(config), steps), TrackAfter(UNCONNECTED, steps);
            c.phase == t.phase && c.halfClosed == t.halfClosed && (c.reading <==> IsOpenAt(t))
  {
    RunKeeps(New(config), steps);
    RunFollows(New(config), UNCONNECTED, steps);
  }

  /** How many closes the steps ask for while the connection is open. */
  function ForceCloses(t: Track, steps: seq<Step>): nat
    decreases |steps|
  {
    if steps == [] then 0
    else (if steps[0] == ForceCloseStep && IsOpenAt(t) then 1 else 0) + ForceCloses(TrackStep(t, steps[0]), steps[1..])
  }

  lemma {:induction false} ClosesAreCounted(config: Config, t: Track, steps: seq<Step>)
    ensures multiset(Callbacks(config, t, steps))[ForceCloseInLoop] == ForceCloses(t, steps)
    decreases |steps|
  {
    hide TrackStep;
    if steps != [] {
      ClosesAreCounted(config, TrackStep(t, steps[0]), steps[1..]);
    }
  }

  /** Every `forceClose` of an open connection queues its close, no other step
      queues one, and the close, when it runs, ends the connection. */
  lemma ForceCloseCloses(config: Config, steps: seq<Step>)
    requires Legal(New(config), steps)
    ensures var c := Run(New(config), steps);
            && multiset(c.queued)[ForceCloseInLoop] == ForceCloses(UNCONNECTED, steps)
            && (IsOpen(c) ==>
                  var closing := Apply(c, ForceCloseStep);
                  && closing.queued == c.queued + [ForceCloseInLoop] && closing.phase == Disconnecting
                  && var closed := Apply(closing, ForceCloseInLoopStep);
                  closed.phase == Disconnected && !closed.reading && !closed.writing)
            && (!IsOpen(c) ==> Apply(c, ForceCloseStep) == c)
  {
    CallbacksAreDue(config, steps);
    ClosesAreCounted(config, UNCONNECTED, steps);
  }

  /** On an open connection the loop watches for writability exactly while there
      is something to write. */
  lemma WatchesIffBacklog(config: Config, steps: seq<Step>)
    requires Legal(New(config), steps)
    ensures var c := Run(New(config), steps);
            (IsOpen(c) ==> (c.writing <==> c.output != [])) && (!IsOpen(c) ==> !c.writing)
  {
    RunKeeps(New(config), steps);
  }

  /** The half-close comes only after everything accepted has been taken, and it
      is not forgotten: a connection shutting down on its own with nothing left
      to write has done it. */
  lemma HalfCloseAfterDrain(config: Config, steps: seq<Step>)
    requires Legal(New(config), steps)
    ensures var c := Run(New(config), steps);
            && (c.halfClosed ==> c.kernel == Accepted(UNCONNECTED, steps))
            && (c.phase == Disconnecting && c.output == [] && !c.forced ==> c.halfClosed)
  {
    RunKeeps(New(config), steps);
    OutputConserved(config, steps);
    var c := Run(New(config), steps);
    assert c.output == [] ==> c.kernel + c.output == c.kernel;
  }

  /** And it is final: no byte follows it. */
  lemma {:induction false} NothingAfterHalfClose(c: Conn, steps: seq<Step>)
    requires Inv(c) && c.halfClosed && Legal(c, steps)
    ensures var r := Run(c, steps); r.halfClosed && r.kernel == c.kernel && r.accepted == c.accepted
    decreases |steps|
  {
    if steps != [] {
      StepKeeps(c, steps[0]);
      NothingAfterHalfClose(Apply(c, steps[0]), steps[1..]);
    }
  }

  /** `channel_->remove()` asserts that no interest is left. `connectDestroyed`
      meets it exactly when the connection was not shutting down. */
  lemma DestroyLeavesNothingIff(config: Config, steps: seq<Step>)
    requires Legal(New(config), steps) && Run(New(config), steps).phase != Connecting
    ensures var c := Run(New(config), steps);
            var c' := ConnectDestroyed(c);
            !c'.reading && !c'.writing <==> c.phase != Disconnecting
  {
    RunKeeps(New(config), steps);
  }

  /** Destroyed right after `shutdown`, the channel still has its interest in
      reading. */
  lemma DestroyKeepsReading(config: Config)
    ensures var steps := [Establish, ShutdownStep];
            && Legal(New(config), steps)
            && Run(New(config), steps).phase == Disconnecting
            && ConnectDestroyed(Run(New(config), steps)).reading
  {
    var c := Apply(New(config), Establish);
    assert [Establish, ShutdownStep][1..] == [ShutdownStep] && [ShutdownStep][1..] == [];
    assert Legal(c, [ShutdownStep]) && Run(c, [ShutdownStep]) == Apply(c, ShutdownStep);
  }

  /** The high-water callback is queued exactly when the backlog crosses the mark
      from below, with the new backlog. */
  lemma HighWaterIff(c: Conn, data: seq<byte>, w: WriteResult)
    requires Inv(c) && c.phase == Connected && c.config.onHighWaterMark && (TriesSocket(c) ==> Fits(w, |data|))
    ensures var c' := Send(c, data, w);
            var mark := c.config.highWaterMark;
            && c.queued <= c'.queued
            && (HighWaterMark(|c'.output|) in c'.queued[|c.queued|..] <==> |c.output| < mark <= |c'.output|)
            && (forall b :: HighWaterMark(b) in c'.queued[|c.queued|..] ==> b == |c'.output|)
  {
  }

  /** The write-complete callback follows exactly the writes that leave nothing. */
  lemma WriteCompleteIff(c: Conn, step: Step)
    requires Inv(c) && IsOpen(c) && c.config.onWriteComplete && Enabled(c, step)
    requires (step.SendStep? && c.phase == Connected) || step.WritableStep?
    ensures var c' := Apply(c, step);
            && c.queued <= c'.queued
            && (WriteComplete in c'.queued[|c.queued|..] <==>
                  step.w.Wrote? && c'.output == [] && (step.SendStep? || c.output != []))
  {
  }
}
