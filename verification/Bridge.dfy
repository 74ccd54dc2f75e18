/** The two-way bridge between user and server: two reader goroutines hand chunks over
    one-place channels to a main loop that writes them to the other side. */
module Bridge {
  import opened Wrappers

  type Chunk = seq<int>

  /** A reader reads, offers what it read, signals its exit, and ends. `last` says that the read
      also returned an error. */
  datatype Reader = Reading | Offering(chunk: Chunk, last: bool) | Exiting | Signalled | Ended

  /** One direction: all that was read, the reader, the channel, the chunk the main loop holds,
      all that was written to the other side, and what was dropped after the bridge was done. */
  datatype Pipe = Pipe(read: seq<Chunk>, reader: Reader, channel: seq<Chunk>, closed: bool,
                       hand: Option<Chunk>, written: seq<Chunk>, dropped: seq<Chunk>)

  datatype Main = Looping | Stopped(drained: bool)

  datatype State = State(server: Pipe, user: Pipe, recorded: seq<Chunk>, signals: nat, main: Main)

  const Fresh := Pipe([], Reading, [], false, None, [], [])
  const Init := State(Fresh, Fresh, [], 0, Looping)

  /** The direction a step belongs to: from the server to the user, or back. */
  datatype Side = Server | User

  datatype Action =
    | Read(side: Side, chunk: Chunk, last: bool)
    | Push(side: Side)
    | Drop                       // the server's reader sees that the bridge is done
    | Signal(side: Side)
    | Close                      // the server's reader closes its channel
    | Take(side: Side)
    | Record
    | Write(side: Side)
    | SeeClosed
    | SeeSignal
    | Leave                      // idle, expired, terminated, window channel closed, connection gone

  function PipeOf(s: State, side: Side): Pipe {
    if side == Server then s.server else s.user
  }

  function WithPipe(s: State, side: Side, p: Pipe): State {
    if side == Server then s.(server := p) else s.(user := p)
  }

  /** The main loop is in its select, holding nothing. */
  predicate AtSelect(s: State) {
    s.main.Looping? && s.server.hand.None? && s.user.hand.None?
  }

  /** What the recorder has been handed: all chunks written to the user, and the one about to be. */
  predicate RecordedInHand(s: State) {
    s.server.hand.Some? && s.recorded == s.server.written + [s.server.hand.value]
  }

  predicate Enabled(s: State, a: Action) {
    match a
    case Read(side, _, _) => PipeOf(s, side).reader.Reading?
    case Push(side) => PipeOf(s, side).reader.Offering? && |PipeOf(s, side).channel| < 1
    case Drop => s.server.reader.Offering? && s.main.Stopped?
    case Signal(side) => PipeOf(s, side).reader.Exiting? && s.signals < 1
    case Close => s.server.reader.Signalled?
    case Take(side) => AtSelect(s) && PipeOf(s, side).channel != []
    case Record => s.main.Looping? && s.server.hand.Some? && !RecordedInHand(s)
    case Write(side) => s.main.Looping? && PipeOf(s, side).hand.Some? && (side == Server ==> RecordedInHand(s))
    case SeeClosed => AtSelect(s) && s.server.closed && s.server.channel == []
    case SeeSignal => AtSelect(s) && s.signals > 0
    case Leave => AtSelect(s)
  }

  function Apply(s: State, a: Action): State
    requires Enabled(s, a)
  {
    match a
    case Read(side, chunk, last) =>
      var p := PipeOf(s, side);
      WithPipe(s, side,
        if chunk == [] then p.(reader := if last then Exiting else Reading)
        else p.(read := p.read + [chunk], reader := Offering(chunk, last)))
    case Push(side) =>
      var p := PipeOf(s, side);
      WithPipe(s, side, p.(channel := p.channel + [p.reader.chunk], reader := if p.reader.last then Exiting else Reading))
    case Drop => s.(server := s.server.(dropped := s.server.dropped + [s.server.reader.chunk], reader := Exiting))
    case Signal(side) =>
      WithPipe(s, side, PipeOf(s, side).(reader := if side == Server then Signalled else Ended)).(signals := s.signals + 1)
    case Close => s.(server := s.server.(closed := true, reader := Ended))
    case Take(side) =>
      var p := PipeOf(s, side);
      WithPipe(s, side, p.(channel := p.channel[1..], hand := Some(p.channel[0])))
    case Record => s.(recorded := s.recorded + [s.server.hand.value])
    case Write(side) =>
      var p := PipeOf(s, side);
      WithPipe(s, side, p.(written := p.written + [p.hand.value], hand := None))
    case SeeClosed => s.(main := Stopped(true))
    case SeeSignal => s.(signals := s.signals - 1, main := Stopped(false))
    case Leave => s.(main := Stopped(false))
  }

  ghost predicate IsRun(states: seq<State>, actions: seq<Action>) {
    && |states| == |actions| + 1 && states[0] == Init
    && forall i | 0 <= i < |actions| :: Enabled(states[i], actions[i]) && states[i + 1] == Apply(states[i], actions[i])
  }

  function Held(hand: Option<Chunk>): seq<Chunk> {
    if hand.Some? then [hand.value] else []
  }

  function Offered(r: Reader): seq<Chunk> {
    if r.Offering? then [r.chunk] else []
  }

  /** What has been read and not been written, in order. */
  function Underway(p: Pipe): seq<Chunk> {
    Held(p.hand) + p.channel + Offered(p.reader) + p.dropped
  }

  /** Nothing is lost, invented or reordered on the way. */
  predicate Conserved(p: Pipe) {
    && p.read == p.written + Underway(p)
    && |p.channel| <= 1
    && (p.dropped != [] ==> !p.reader.Reading? && !p.reader.Offering?)
    && (p.closed ==> p.reader.Ended?)
  }

  predicate Inv(s: State) {
    && Conserved(s.server) && Conserved(s.user) && s.user.dropped == [] && !s.user.closed
    && (s.recorded == s.server.written || RecordedInHand(s))
    && (s.main.Looping? ==> s.server.dropped == [])
    && (s.main == Stopped(true) ==> s.server.closed && s.server.channel == [] && s.server.dropped == [] && s.server.hand.None?)
  }

  lemma ReadConserves(p: Pipe, chunk: Chunk, last: bool)
    requires Conserved(p) && p.reader.Reading? && chunk != []
    ensures Conserved(p.(read := p.read + [chunk], reader := Offering(chunk, last)))
  {
    var q := p.(read := p.read + [chunk], reader := Offering(chunk, last));
    assert q.read == p.written + (Held(p.hand) + p.channel) + [chunk];
  }

  lemma PushConserves(p: Pipe, r: Reader)
    requires Conserved(p) && p.reader.Offering? && p.channel == [] && !r.Offering? && !p.closed
    ensures Conserved(p.(channel := p.channel + [p.reader.chunk], reader := r))
  {
  }

  lemma TakeConserves(p: Pipe)
    requires Conserved(p) && p.hand.None? && p.channel != []
    ensures Conserved(p.(channel := p.channel[1..], hand := Some(p.channel[0])))
  {
    assert p.channel == [p.channel[0]] + p.channel[1..];
  }

  lemma WriteConserves(p: Pipe)
    requires Conserved(p) && p.hand.Some?
    ensures Conserved(p.(written := p.written + [p.hand.value], hand := None))
  {
    var q := p.(written := p.written + [p.hand.value], hand := None);
    assert Underway(p) == [p.hand.value] + Underway(q);
  }

  lemma ReaderKeepsInv(s: State, a: Action)
    requires Inv(s) && Enabled(s, a) && (a.Read? || a.Push?)
    ensures Inv(Apply(s, a))
  {
    hide Underway;
    match a
    case Read(side, chunk, last) =>
      var p := PipeOf(s, side);
      if chunk == [] {
        QuietConserves(p, if last then Exiting else Reading);
      } else {
        ReadConserves(p, chunk, last);
      }
    case Push(side) =>
      var p := PipeOf(s, side);
      PushConserves(p, if p.reader.last then Exiting else Reading);
  }

  lemma QuietConserves(p: Pipe, r: Reader)
    requires Conserved(p) && p.reader.Reading? && (r.Reading? || r.Exiting?)
    ensures Conserved(p.(reader := r))
  {
  }

  lemma MainKeepsInv(s: State, a: Action)
    requires Inv(s) && Enabled(s, a) && (a.Take? || a.Write?)
    ensures Inv(Apply(s, a))
  {
    hide Underway;
    match a
    case Take(side) => TakeConserves(PipeOf(s, side));
    case Write(side) => WriteConserves(PipeOf(s, side));
  }

  lemma StepKeepsInv(s: State, a: Action)
    requires Inv(s) && Enabled(s, a)
    ensures Inv(Apply(s, a))
  {
    if a.Read? || a.Push? {
      ReaderKeepsInv(s, a);
    } else if a.Take? || a.Write? {
      MainKeepsInv(s, a);
    }
  }

  lemma {:induction false} RunKeepsInv(states: seq<State>, actions: seq<Action>, n: nat)
    requires IsRun(states, actions) && n < |states|
    ensures Inv(states[n])
  {
    if n > 0 {
      RunKeepsInv(states, actions, n - 1);
      StepKeepsInv(states[n - 1], actions[n - 1]);
    }
  }

  function Bytes(chunks: seq<Chunk>): seq<int> {
    if chunks == [] then [] else Bytes(chunks[..|chunks| - 1]) + chunks[|chunks| - 1]
  }

  lemma {:induction false} BytesConcat(a: seq<Chunk>, b: seq<Chunk>)
    ensures Bytes(a + b) == Bytes(a) + Bytes(b)
  {
    if b == [] {
      assert a + b == a;
    } else {
      assert (a + b)[..|a + b| - 1] == a + b[..|b| - 1];
      BytesConcat(a, b[..|b| - 1]);
    }
  }

  /** In every interleaving of the readers and the main loop, in each direction the bytes read
      are the bytes forwarded followed by those in hand, in the channel and with the reader;
      so what each side is sent is an in-order prefix of what the other side wrote. The
      recorder is handed the chunks sent to the user, at most one of them ahead. */
  lemma ForwardsPrefix(states: seq<State>, actions: seq<Action>, n: nat, side: Side)
    requires IsRun(states, actions) && n < |states|
    ensures var p := PipeOf(states[n], side);
      && p.read == p.written + Underway(p)
      && Bytes(p.read) == Bytes(p.written) + Bytes(Underway(p))
      && Bytes(p.written) <= Bytes(p.read)
    ensures states[n].server.written <= states[n].recorded && |states[n].recorded| <= |states[n].server.written| + 1
  {
    RunKeepsInv(states, actions, n);
    var p := PipeOf(states[n], side);
    BytesConcat(p.written, Underway(p));
  }

  /** A bridge that ends because the server's channel is closed has forwarded and recorded all
      server output. */
  lemma DrainedForwardsAll(states: seq<State>, actions: seq<Action>, n: nat)
    requires IsRun(states, actions) && n < |states| && states[n].main == Stopped(true)
    ensures states[n].server.written == states[n].server.read == states[n].recorded
  {
    RunKeepsInv(states, actions, n);
  }

  predicate Stops(a: Action) {
    a.SeeClosed? || a.SeeSignal? || a.Leave?
  }

  /** Nothing is written once the main loop has stopped. */
  lemma {:induction false} StoppedWritesNothing(states: seq<State>, actions: seq<Action>, n: nat, m: nat, side: Side)
    requires IsRun(states, actions) && n <= m < |states| && states[n].main.Stopped?
    ensures states[m].main.Stopped? && PipeOf(states[m], side).written == PipeOf(states[n], side).written
    decreases m
  {
    hide Enabled, Apply;
    if n < m {
      StoppedWritesNothing(states, actions, n, m - 1, side);
      StoppedStep(states[m - 1], actions[m - 1], side);
    }
  }

  lemma StoppedStep(s: State, a: Action, side: Side)
    requires Enabled(s, a) && s.main.Stopped?
    ensures Apply(s, a).main.Stopped? && PipeOf(Apply(s, a), side).written == PipeOf(s, side).written
  {
  }

  /** When a bridge that stops at step `n` has forwarded, by then and ever after, all that was
      read on a side: exactly if at that step its channel was empty and its reader was not
      offering a chunk. */
  lemma StopForwardsExactly(states: seq<State>, actions: seq<Action>, n: nat, m: nat, side: Side)
    requires IsRun(states, actions) && n < |actions| && Stops(actions[n]) && n < m < |states|
    ensures PipeOf(states[n + 1], side).read == PipeOf(states[n], side).read
    ensures PipeOf(states[m], side).written == PipeOf(states[n], side).read
            <==> PipeOf(states[n], side).channel == [] && !PipeOf(states[n], side).reader.Offering?
  {
    RunKeepsInv(states, actions, n);
    assert Enabled(states[n], actions[n]) && states[n + 1] == Apply(states[n], actions[n]);
    StoppedWritesNothing(states, actions, n + 1, m, side);
    var p := PipeOf(states[n], side);
    assert p.written == p.read <==> Underway(p) == [] by {
      assert p.read == p.written + Underway(p);
      assert p.written == p.read ==> |Underway(p)| == 0;
    }
  }

  /** An exit signal can overtake the data: then the last chunk stays in the channel. */
  lemma SignalCanOvertakeData(chunk: Chunk)
    requires chunk != []
    ensures var actions := [Read(Server, chunk, true), Push(Server), Signal(Server), SeeSignal];
      exists states: seq<State> :: IsRun(states, actions) && states[4].main == Stopped(false)
                       && states[4].server.read == [chunk] && states[4].server.written == []
  {
    var a0, a1, a2, a3 := Read(Server, chunk, true), Push(Server), Signal(Server), SeeSignal;
    var s1 := Apply(Init, a0);
    var s2 := Apply(s1, a1);
    var s3 := Apply(s2, a2);
    var s4 := Apply(s3, a3);
    assert IsRun([Init, s1, s2, s3, s4], [a0, a1, a2, a3]);
  }

  // How the readers end ---------------------------------------------------------

  /** The reader has met the end of what it reads, or has left on seeing the bridge done. */
  predicate Over(r: Reader) {
    r.Exiting? || r.Signalled? || r.Ended? || (r.Offering? && r.last)
  }

  /** The steps after which a side reads no more: a read that fails, and giving up its chunk. */
  predicate EndsReading(a: Action, side: Side) {
    (a.Read? && a.side == side && a.last) || (a.Drop? && side == Server)
  }

  lemma StepEnds(s: State, a: Action, side: Side)
    requires Enabled(s, a)
    ensures var r, r' := PipeOf(s, side).reader, PipeOf(Apply(s, a), side).reader;
      && (Over(r') <==> Over(r) || EndsReading(a, side))
      && (r'.Signalled? || r'.Ended? <==> r.Signalled? || r.Ended? || a == Signal(side))
      && (side == Server ==> (r'.Ended? <==> r.Ended? || a == Close))
    ensures Apply(s, a).server.closed <==> s.server.closed || a == Close
  {
  }

  /** A reader stops exactly after a read that failed, or after it gave up its chunk to a finished
      bridge; an empty read does not stop it. It has signalled exactly if it took that step, and the
      server's channel is closed exactly if its reader did so, as the last thing. */
  lemma {:induction false} ReaderEndsExactly(states: seq<State>, actions: seq<Action>, n: nat, side: Side)
    requires IsRun(states, actions) && n < |states|
    ensures var r := PipeOf(states[n], side).reader;
      && (Over(r) <==> exists i | 0 <= i < n :: EndsReading(actions[i], side))
      && (r.Signalled? || r.Ended? <==> Signal(side) in actions[..n])
      && (side == Server ==> (r.Ended? <==> Close in actions[..n]))
    ensures states[n].server.closed <==> Close in actions[..n]
  {
    hide Enabled, Apply, EndsReading, Over;
    if n == 0 {
      NothingEnded(side);
    } else {
      ReaderEndsExactly(states, actions, n - 1, side);
      StepEnds(states[n - 1], actions[n - 1], side);
      assert actions[..n] == actions[..n - 1] + [actions[n - 1]];
    }
  }

  lemma NothingEnded(side: Side)
    ensures var r := PipeOf(Init, side).reader; !Over(r) && !r.Signalled? && !r.Ended?
    ensures !Init.server.closed
  {
  }

  /** So the reads of a side come one after the other, up to and including its first failed one. */
  lemma NoReadAfterError(states: seq<State>, actions: seq<Action>, i: nat, j: nat, side: Side)
    requires IsRun(states, actions) && i < j < |actions| && EndsReading(actions[i], side)
    ensures !(actions[j].Read? && actions[j].side == side)
  {
    ReaderEndsExactly(states, actions, j, side);
    assert Enabled(states[j], actions[j]);
  }
}
