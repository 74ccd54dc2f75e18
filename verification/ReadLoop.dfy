/** The read loop as a function of the bytes received: decode a key, apply it, repeat
    until only a partial key is left. */
module ReadLoop {
  import opened Wrappers
  import opened Utf8
  import opened KeyDecoder
  import opened Screen
  import opened LineEditor

  /** Capacity of the input buffer; a partial key occupies part of it. */
  const BufferSize: nat := 256

  /** What a call of `readLine` returns: a line, marked if all of it was pasted, or end of file. */
  datatype Event = Line(text: Text, pasted: bool) | Eof

  /** `rest` is the undecoded input; `pasted` is the mark of the line being entered;
      `events` are the results of the calls so far. */
  datatype Reader = Reader(ed: Editor, rest: seq<Byte>, pasted: bool, events: seq<Event>)

  /** Effect of one decoded key, including the return to the caller and the next call. */
  function TakeKey(r: Reader, key: Rune, complete: Completer): (r': Reader)
    ensures r'.rest == r.rest
    ensures r.events <= r'.events && |r'.events| <= |r.events| + 1
  {
    if !r.ed.paste && key == KeyCtrlD && r.ed.text.Line() == [] then
      r.(events := r.events + [Eof], pasted := false)
    else if !r.ed.paste && key == KeyPasteStart then
      r.(ed := r.ed.(paste := true), pasted := r.pasted || r.ed.text.Line() == [])
    else if r.ed.paste && key == KeyPasteEnd then
      r.(ed := r.ed.(paste := false))
    else
      var pasted := r.pasted && r.ed.paste;
      var (e, line) := Press(r.ed, key, complete);
      if line.None? then
        r.(ed := e, pasted := pasted)
      else
        r.(ed := Finish(e, line.value), pasted := e.paste, events := r.events + [Line(line.value, pasted)])
  }

  /** The reader after the first key of its input. */
  function Next(r: Reader, complete: Completer): (r': Reader)
    ensures BytesToKey(r.rest, r.ed.paste).key != RuneError ==> |r'.rest| < |r.rest|
  {
    var d := BytesToKey(r.rest, r.ed.paste);
    TakeKey(r.(rest := d.rest), d.key, complete)
  }

  /** All keys that the input holds, applied in order. */
  function Pump(r: Reader, complete: Completer): Reader
    decreases |r.rest|
  {
    var d := BytesToKey(r.rest, r.ed.paste);
    if d.key == RuneError then r.(rest := d.rest) else Pump(Next(r, complete), complete)
  }

  /** What may be asked of the keys in a stream: nothing; that they leave the line displayable;
      and also that they do not clear the screen. */
  datatype Demand = Anything | Displayed | Kept

  predicate Meets(demand: Demand, key: Rune, paste: bool) {
    demand == Anything
    || ((StaysDisplayable(key, paste) || (paste && key == KeyPasteEnd)) && (demand == Kept ==> paste || key != KeyClearScreen))
  }

  /** Decoding stops only where more input is needed: after the last key, and after a first
      undecodable code point if there is one, at most a partial key is left. */
  predicate Settles(r: Reader, complete: Completer)
    decreases |r.rest|
  {
    var d := BytesToKey(r.rest, r.ed.paste);
    if d.key == RuneError then Partial(d.rest, r.ed.paste)
    else Settles(Next(r, complete), complete)
  }

  /** All keys in the input meet the demand, also those after undecodable code points. */
  predicate AllMeet(r: Reader, complete: Completer, demand: Demand)
    decreases |r.rest|
  {
    var d := BytesToKey(r.rest, r.ed.paste);
    if Partial(r.rest, r.ed.paste) then true
    else if d.key == RuneError then AllMeet(r.(rest := d.rest), complete, demand)
    else Meets(demand, d.key, r.ed.paste) && AllMeet(Next(r, complete), complete, demand)
  }

  function Receive(r: Reader, more: seq<Byte>): Reader {
    r.(rest := r.rest + more)
  }

  /** Applying a key commutes with the arrival of more input. */
  lemma NextReceive(r: Reader, more: seq<Byte>, complete: Completer)
    requires r.rest != [] && !Partial(r.rest, r.ed.paste)
    ensures BytesToKey(Receive(r, more).rest, r.ed.paste).key == BytesToKey(r.rest, r.ed.paste).key
    ensures Next(Receive(r, more), complete) == Receive(Next(r, complete), more)
  {
    hide BytesToKey, Press;
    KeyStable(r.rest, more, r.ed.paste);
  }

  /** Where decoding stops, it stops with more input to come if it does so in the end. */
  lemma StopsForInput(r: Reader, more: seq<Byte>, complete: Completer)
    requires Settles(Receive(r, more), complete)
    requires BytesToKey(r.rest, r.ed.paste).key == RuneError
    ensures var stopped := r.(rest := BytesToKey(r.rest, r.ed.paste).rest);
      && Partial(stopped.rest, r.ed.paste)
      && Settles(Receive(stopped, more), complete)
      && Pump(Receive(r, more), complete) == Pump(Receive(stopped, more), complete)
  {
    hide BytesToKey, TakeKey;
    if !Partial(r.rest, r.ed.paste) {
      assert r.rest != [] by {
        EmptyIsPartial(r.ed.paste);
      }
      KeyStable(r.rest, more, r.ed.paste);
      PartialPrefix(BytesToKey(r.rest, r.ed.paste).rest, more, r.ed.paste);
    }
  }

  /** Decoding before or after the rest of the input has arrived makes no difference. */
  lemma {:induction false} PumpReceive(r: Reader, more: seq<Byte>, complete: Completer)
    requires Settles(Receive(r, more), complete)
    ensures Settles(r, complete) && Settles(Receive(Pump(r, complete), more), complete)
    ensures Pump(Receive(r, more), complete) == Pump(Receive(Pump(r, complete), more), complete)
    decreases |r.rest|
  {
    hide BytesToKey, TakeKey;
    if BytesToKey(r.rest, r.ed.paste).key == RuneError {
      StopsForInput(r, more, complete);
    } else {
      NextReceive(r, more, complete);
      PumpReceive(Next(r, complete), more, complete);
    }
  }

  lemma SettlesNext(r: Reader, more: seq<Byte>, complete: Completer)
    requires Settles(Receive(r, more), complete)
    requires BytesToKey(r.rest, r.ed.paste).key != RuneError
    ensures Settles(Receive(Next(r, complete), more), complete)
  {
    hide BytesToKey, TakeKey;
    NextReceive(r, more, complete);
  }

  /** One key meets the demand and leaves a stream of keys that do. */
  lemma AllMeetNext(r: Reader, more: seq<Byte>, complete: Completer, demand: Demand)
    requires AllMeet(Receive(r, more), complete, demand)
    requires BytesToKey(r.rest, r.ed.paste).key != RuneError
    ensures AllMeet(Receive(Next(r, complete), more), complete, demand)
    ensures Meets(demand, BytesToKey(r.rest, r.ed.paste).key, r.ed.paste)
  {
    hide BytesToKey, TakeKey, Meets;
    NextReceive(r, more, complete);
  }

  /** So does the point where decoding stops. */
  lemma AllMeetStop(r: Reader, more: seq<Byte>, complete: Completer, demand: Demand)
    requires AllMeet(Receive(r, more), complete, demand)
    requires BytesToKey(r.rest, r.ed.paste).key == RuneError
    ensures AllMeet(Receive(r.(rest := BytesToKey(r.rest, r.ed.paste).rest), more), complete, demand)
  {
    hide BytesToKey, TakeKey, Meets;
    if !Partial(r.rest, r.ed.paste) {
      assert r.rest != [] by {
        EmptyIsPartial(r.ed.paste);
      }
      KeyStable(r.rest, more, r.ed.paste);
    }
  }

  /** All keys decoded from what is left and from the rest of the stream meet the demand. */
  ghost predicate Tame(now: Reader, stream: seq<Byte>, used: nat, complete: Completer, demand: Demand) {
    used <= |stream| && AllMeet(Receive(now, stream[used..]), complete, demand)
  }

  lemma TameStart(start: Reader, stream: seq<Byte>, complete: Completer, demand: Demand)
    ensures Tame(start, stream, 0, complete, demand) <==> AllMeet(Receive(start, stream), complete, demand)
  {
    hide AllMeet;
    assert stream[0..] == stream;
  }

  lemma TameIs(now: Reader, stream: seq<Byte>, used: nat, complete: Completer, demand: Demand)
    ensures Tame(now, stream, used, complete, demand) <==>
      used <= |stream| && AllMeet(Receive(now, stream[used..]), complete, demand)
  {
  }

  lemma TameMore(now: Reader, stream: seq<Byte>, used: nat, n: nat, complete: Completer, demand: Demand)
    requires used + n <= |stream| && Tame(now, stream, used, complete, demand)
    ensures Tame(Receive(now, stream[used..used + n]), stream, used + n, complete, demand)
  {
    hide AllMeet;
    StreamParts(now, stream, used, n);
  }

  /** A later call sees the rest of the stream. */
  lemma TameLater(now: Reader, stream: seq<Byte>, used: nat, u: nat, complete: Completer, demand: Demand)
    requires used + u <= |stream|
    ensures Tame(now, stream[used..], u, complete, demand) <==> Tame(now, stream, used + u, complete, demand)
  {
    hide AllMeet;
    SliceOfRest(stream, used, u);
  }

  /** `now` is where `start` has come to after the first `used` bytes of the stream, up to keys
      still to be decoded, and the rest of the stream settles from there. */
  ghost predicate Agrees(start: Reader, now: Reader, stream: seq<Byte>, used: nat, complete: Completer) {
    && used <= |stream|
    && Pump(now, complete) == Pump(Receive(start, stream[..used]), complete)
    && Settles(Receive(now, stream[used..]), complete)
  }

  lemma StartAgrees(start: Reader, stream: seq<Byte>, sizes: seq<nat>, complete: Completer)
    requires Settles(Receive(start, stream), complete)
    ensures Agrees(start, start, stream, 0, complete)
    ensures SoFar(start, stream, sizes, 0, 0, 0, complete)
  {
    hide Settles, Pump;
    assert Receive(start, stream[..0]) == start && stream[0..] == stream;
  }

  lemma AgreesSettles(start: Reader, now: Reader, stream: seq<Byte>, used: nat, complete: Completer)
    requires Agrees(start, now, stream, used, complete)
    ensures used <= |stream| && Settles(Receive(now, stream[used..]), complete)
    ensures Pump(now, complete) == Pump(Receive(start, stream[..used]), complete)
    ensures Pump(Pump(now, complete), complete) == Pump(now, complete)
  {
    var rest := stream[used..];
    hide Settles, Pump;
    PumpReceive(now, rest, complete);
    PumpSettles(now, complete);
    PumpAgain(Pump(now, complete), complete);
  }

  /** Decoding keeps the agreement. */
  lemma DecodedAgrees(start: Reader, was: Reader, now: Reader, stream: seq<Byte>, used: nat, complete: Completer)
    requires Agrees(start, was, stream, used, complete)
    requires Pump(now, complete) == Pump(was, complete) && Settles(Receive(now, stream[used..]), complete)
    ensures Agrees(start, now, stream, used, complete)
  {
  }

  lemma StreamParts(r: Reader, stream: seq<Byte>, used: nat, n: nat)
    requires used + n <= |stream|
    ensures var m, tail := stream[used..used + n], stream[used + n..];
      && Receive(Receive(r, stream[..used]), m) == Receive(r, stream[..used + n])
      && Receive(Receive(r, stream[..used + n]), tail) == Receive(r, stream)
      && Receive(Receive(r, m), tail) == Receive(r, stream[used..])
  {
    var m, tail := stream[used..used + n], stream[used + n..];
    assert stream[..used] + m == stream[..used + n];
    assert stream[..used + n] + tail == stream;
    assert m + tail == stream[used..];
    assert r.rest + stream[..used] + m == r.rest + stream[..used + n];
    assert r.rest + stream[..used + n] + tail == r.rest + stream;
    assert r.rest + m + tail == r.rest + stream[used..];
  }

  /** And so does reading on. */
  lemma ReadMore(start: Reader, now: Reader, stream: seq<Byte>, used: nat, n: nat, complete: Completer)
    requires used + n <= |stream| && Settles(Receive(start, stream), complete)
    requires Agrees(start, now, stream, used, complete)
    ensures Agrees(start, Receive(now, stream[used..used + n]), stream, used + n, complete)
  {
    hide Settles, Pump, Receive;
    var head, m, tail := Receive(start, stream[..used]), stream[used..used + n], stream[used + n..];
    StreamParts(start, stream, used, n);
    StreamParts(now, stream, used, n);
    PumpReceive(Receive(head, m), tail, complete);
    PumpReceive(head, m, complete);
    PumpReceive(Receive(now, m), tail, complete);
    PumpReceive(now, m, complete);
  }

  lemma SliceOfRest(stream: seq<Byte>, used: nat, n: nat)
    requires used + n <= |stream|
    ensures stream[used..][..n] == stream[used..used + n] && stream[used..][n..] == stream[used + n..]
  {
  }

  lemma {:induction false} PumpEvents(r: Reader, complete: Completer)
    ensures r.events <= Pump(r, complete).events
    decreases |r.rest|
  {
    hide BytesToKey, Press, Finish;
    if BytesToKey(r.rest, r.ed.paste).key != RuneError {
      PumpEvents(Next(r, complete), complete);
    }
  }

  lemma ReceiveNothing(r: Reader, stream: seq<Byte>)
    ensures Receive(r, stream[..0]) == r
  {
  }

  /** A pumped reader has nothing left to decode. */
  lemma {:induction false} PumpSettles(r: Reader, complete: Completer)
    requires Settles(r, complete)
    ensures Partial(Pump(r, complete).rest, Pump(r, complete).ed.paste)
    decreases |r.rest|
  {
    hide BytesToKey, TakeKey;
    if BytesToKey(r.rest, r.ed.paste).key != RuneError {
      PumpSettles(Next(r, complete), complete);
    }
  }

  lemma PumpAgain(r: Reader, complete: Completer)
    requires Partial(r.rest, r.ed.paste)
    ensures Pump(r, complete) == r
  {
  }

  // Amounts read ------------------------------------------------------------

  function Smallest(a: nat, b: nat, c: nat): (m: nat)
    ensures m <= a && m <= b && m <= c && (m == a || m == b || m == c)
  {
    var m := if a < b then a else b;
    if m < c then m else c
  }

  /** What a read of the given size yields: never more than the buffer has room for beside the
      partial key, and never more than there is. */
  function Amount(size: nat, partial: nat, left: nat): (n: nat)
    ensures n <= left && partial + n <= if partial < 256 then 256 else partial
    ensures n == size || n == left || partial + n >= 256
  {
    Smallest(size, if partial < BufferSize then BufferSize - partial else 0, left)
  }

  /** How much of the stream reads of the given sizes have taken, each after decoding what was
      there. */
  function Consumed(r: Reader, stream: seq<Byte>, sizes: seq<nat>, complete: Completer): (c: nat)
    ensures c <= |stream|
  {
    if sizes == [] then 0
    else
      var c := Consumed(r, stream, sizes[..|sizes| - 1], complete);
      var partial := |Pump(Receive(r, stream[..c]), complete).rest|;
      c + Amount(sizes[|sizes| - 1], partial, |stream| - c)
  }

  /** The reads so far: `used` bytes in `calls` reads, `seen` of them before the last. */
  ghost predicate SoFar(start: Reader, stream: seq<Byte>, sizes: seq<nat>, calls: nat, seen: nat, used: nat, complete: Completer) {
    && calls <= |sizes| && used == Consumed(start, stream, sizes[..calls], complete)
    && seen == if calls > 0 then Consumed(start, stream, sizes[..calls - 1], complete) else 0
  }

  lemma NothingRead(r: Reader, stream: seq<Byte>, sizes: seq<nat>, complete: Completer)
    ensures Consumed(r, stream, sizes[..0], complete) == 0
  {
  }

  lemma SoFarNext(start: Reader, now: Reader, stream: seq<Byte>, sizes: seq<nat>, calls: nat, seen: nat, used: nat, n: nat,
                  complete: Completer)
    requires SoFar(start, stream, sizes, calls, seen, used, complete) && calls < |sizes|
    requires Agrees(start, now, stream, used, complete) && Pump(now, complete) == now
    requires n == Amount(sizes[calls], |now.rest|, |stream| - used)
    ensures SoFar(start, stream, sizes, calls + 1, used, used + n, complete)
  {
    hide Pump, Settles;
    assert sizes[..calls + 1][..calls] == sizes[..calls];
  }

  /** Reading on amounts to having read all along. */
  lemma {:induction false} ConsumedLater(start: Reader, now: Reader, stream: seq<Byte>, used: nat,
                                         first: seq<nat>, later: seq<nat>, complete: Completer)
    requires Settles(Receive(start, stream), complete)
    requires Agrees(start, now, stream, used, complete)
    requires used == Consumed(start, stream, first, complete)
    ensures used + Consumed(now, stream[used..], later, complete) == Consumed(start, stream, first + later, complete)
  {
    hide Settles, Pump, Receive, Agrees;
    AgreesSettles(start, now, stream, used, complete);
    if later == [] {
      assert first + [] == first;
    } else {
      var m := |later| - 1;
      ConsumedLater(start, now, stream, used, first, later[..m], complete);
      var x := Consumed(now, stream[used..], later[..m], complete);
      SliceOfRest(stream, used, x);
      ReadMore(start, now, stream, used, x, complete);
      AgreesSettles(start, Receive(now, stream[used..used + x]), stream, used + x, complete);
      assert (first + later)[..|first| + m] == first + later[..m];
    }
  }

  /** A later call that agrees with where it started from agrees with the first start. */
  lemma LaterAgrees(start: Reader, mid: Reader, now: Reader, stream: seq<Byte>, used: nat, u: nat, sizes: seq<nat>, calls: nat,
                    c: nat, seen: nat, complete: Completer)
    requires Settles(Receive(start, stream), complete) && calls <= |sizes|
    requires Agrees(start, mid, stream, used, complete) && used == Consumed(start, stream, sizes[..calls], complete)
    requires Agrees(mid, now, stream[used..], u, complete)
    requires SoFar(mid, stream[used..], sizes[calls..], c, seen, u, complete)
    ensures Agrees(start, now, stream, used + u, complete)
    ensures calls + c <= |sizes| && used + u == Consumed(start, stream, sizes[..calls + c], complete)
  {
    hide Settles, Pump, Receive, Consumed;
    SliceOfRest(stream, used, u);
    ReadMore(start, mid, stream, used, u, complete);
    ConsumedLater(start, mid, stream, used, sizes[..calls], sizes[calls..][..c], complete);
    assert sizes[..calls] + sizes[calls..][..c] == sizes[..calls + c];
  }

  /** No partial key ever fills the input buffer. */
  ghost predicate FitsBuffer(r: Reader, stream: seq<Byte>, complete: Completer) {
    forall k | 0 <= k <= |stream| :: |Pump(Receive(r, stream[..k]), complete).rest| < BufferSize
  }

  /** Reads that may return something do, until the whole stream is read. */
  lemma {:induction false} ReadsProgress(r: Reader, stream: seq<Byte>, sizes: seq<nat>, complete: Completer)
    requires FitsBuffer(r, stream, complete) && forall i | 0 <= i < |sizes| :: sizes[i] > 0
    ensures Consumed(r, stream, sizes, complete) == |stream| || Consumed(r, stream, sizes, complete) >= |sizes|
  {
    hide Pump;
    if sizes != [] {
      ReadsProgress(r, stream, sizes[..|sizes| - 1], complete);
    }
  }

  // Valid UTF-8 -----------------------------------------------------------

  predicate Decodable(rs: seq<Rune>) {
    forall i | 0 <= i < |rs| :: IsScalar(rs[i]) && rs[i] != RuneError
  }

  /** Every byte of a longer encoding is outside ASCII. */
  lemma EncodeHighBytes(r: Rune, i: nat)
    requires IsScalar(r) && i < |Encode(r)| && |Encode(r)| > 1
    ensures Encode(r)[i] >= 0x80
  {
  }

  /** Cutting valid UTF-8 after an ASCII byte leaves valid UTF-8. */
  lemma {:induction false} CutAfterAscii(rs: seq<Rune>, n: nat) returns (k: nat)
    requires Decodable(rs) && 0 < n <= |EncodeAll(rs)| && EncodeAll(rs)[n - 1] < 0x80
    ensures k <= |rs| && EncodeAll(rs)[n..] == EncodeAll(rs[k..])
  {
    var b, e := EncodeAll(rs), Encode(rs[0]);
    if n <= |e| {
      assert b[n - 1] == e[n - 1];
      if |e| > 1 {
        EncodeHighBytes(rs[0], n - 1);
      }
      k := 1;
    } else {
      assert b[n - 1] == EncodeAll(rs[1..])[n - |e| - 1];
      var j := CutAfterAscii(rs[1..], n - |e|);
      k := j + 1;
      assert rs[1..][j..] == rs[k..];
    }
  }

  /** A key decoded from valid UTF-8 leaves valid UTF-8. */
  lemma KeyKeepsValid(rs: seq<Rune>, paste: bool) returns (k: nat)
    requires Decodable(rs) && rs != []
    ensures k <= |rs|
    ensures BytesToKey(EncodeAll(rs), paste).rest == EncodeAll(rs[k..])
    ensures BytesToKey(EncodeAll(rs), paste).key == RuneError ==> Partial(EncodeAll(rs), paste)
  {
    var b := EncodeAll(rs);
    if !paste && ControlKey(b[0]).Some? {
      k := CutAfterAscii(rs, 1);
    } else if b[0] != KeyEscape {
      DecodeEncode(rs[0], EncodeAll(rs[1..]));
      k := 1;
    } else if KnownSequence(b, paste).Some? {
      var n := |b| - |KnownSequence(b, paste).value.rest|;
      KnownSequenceEnds(b, paste);
      k := CutAfterAscii(rs, n);
    } else if SequenceEnd(b).Some? {
      k := CutAfterAscii(rs, SequenceEnd(b).value);
    } else {
      k := 0;
    }
  }

  lemma KnownSequenceEnds(b: seq<Byte>, paste: bool)
    requires |b| > 0 && b[0] == KeyEscape && KnownSequence(b, paste).Some?
    ensures var n := |b| - |KnownSequence(b, paste).value.rest|;
            0 < n <= |b| && b[n - 1] < 0x80 && KnownSequence(b, paste).value.rest == b[n..]
  {
    if |b| >= 6 {
      assert b[..6][5] == b[5];
    }
  }

  /** Valid UTF-8 without U+FFFD settles, whatever keys and pastes it encodes. */
  lemma {:induction false} ValidSettles(r: Reader, rs: seq<Rune>, complete: Completer)
    requires Decodable(rs) && r.rest == EncodeAll(rs)
    ensures Settles(r, complete)
    decreases |r.rest|
  {
    hide BytesToKey, TakeKey;
    if rs == [] {
      EmptyIsPartial(r.ed.paste);
    } else {
      var k := KeyKeepsValid(rs, r.ed.paste);
      if BytesToKey(r.rest, r.ed.paste).key != RuneError {
        ValidSettles(Next(r, complete), rs[k..], complete);
      }
    }
  }

  lemma EmptyIsPartial(paste: bool)
    ensures Partial([], paste)
  {
  }

  // Splits of the stream --------------------------------------------------

  /** The reader after input that arrived in pieces: each read is decoded as far as it goes. */
  function ReceiveAll(r: Reader, pieces: seq<seq<Byte>>, complete: Completer): Reader {
    if pieces == [] then Pump(r, complete)
    else Pump(Receive(ReceiveAll(r, pieces[..|pieces| - 1], complete), pieces[|pieces| - 1]), complete)
  }

  function Join(pieces: seq<seq<Byte>>): seq<Byte> {
    if pieces == [] then [] else Join(pieces[..|pieces| - 1]) + pieces[|pieces| - 1]
  }

  lemma {:induction false} PiecesJoin(r: Reader, pieces: seq<seq<Byte>>, complete: Completer)
    requires Settles(Receive(r, Join(pieces)), complete)
    ensures ReceiveAll(r, pieces, complete) == Pump(Receive(r, Join(pieces)), complete)
  {
    hide Settles, Pump;
    if pieces == [] {
      assert Receive(r, []) == r;
    } else {
      var front, last := pieces[..|pieces| - 1], pieces[|pieces| - 1];
      var head := Receive(r, Join(front));
      assert Receive(head, last) == Receive(r, Join(pieces));
      PumpReceive(head, last, complete);
      PiecesJoin(r, front, complete);
    }
  }

  /** Chunk independence: however the reads split a stream of valid UTF-8 without U+FFFD,
      the keys applied, the lines returned and the partial key left over are the same. */
  lemma ChunkIndependence(r: Reader, rs: seq<Rune>, a: seq<seq<Byte>>, b: seq<seq<Byte>>, complete: Completer)
    requires Decodable(rs)
    requires r.rest + Join(a) == EncodeAll(rs) && Join(a) == Join(b)
    ensures ReceiveAll(r, a, complete) == ReceiveAll(r, b, complete)
  {
    ValidSettles(Receive(r, Join(a)), rs, complete);
    PiecesJoin(r, a, complete);
    PiecesJoin(r, b, complete);
  }

  lemma {:induction false} PumpShrinks(r: Reader, complete: Completer)
    ensures |Pump(r, complete).rest| <= |r.rest|
    ensures Pump(r, complete).rest == r.rest ==> Partial(r.rest, r.ed.paste)
    decreases |r.rest|
  {
    hide BytesToKey, TakeKey;
    if BytesToKey(r.rest, r.ed.paste).key != RuneError {
      PumpShrinks(Next(r, complete), complete);
    }
  }

  /** If decoding again without new input changes nothing, the stream settles. */
  lemma {:induction false} StableSettles(r: Reader, complete: Completer)
    requires Pump(Pump(r, complete), complete) == Pump(r, complete)
    ensures Settles(r, complete)
    decreases |r.rest|
  {
    hide BytesToKey, TakeKey;
    if BytesToKey(r.rest, r.ed.paste).key == RuneError {
      PumpShrinks(Pump(r, complete), complete);
    } else {
      StableSettles(Next(r, complete), complete);
    }
  }

  /** Chunk independence, exactly: the result of reading a stream does not depend on how the reads
      split it if and only if the stream settles. */
  lemma SplitsAgreeExactly(r: Reader, stream: seq<Byte>, complete: Completer)
    requires Partial(r.rest, r.ed.paste)
    ensures Settles(Receive(r, stream), complete) <==>
      forall a, b | Join(a) == stream && Join(b) == stream :: ReceiveAll(r, a, complete) == ReceiveAll(r, b, complete)
  {
    hide Settles, Pump, ReceiveAll, Join;
    if Settles(Receive(r, stream), complete) {
      forall a, b | Join(a) == stream && Join(b) == stream
        ensures ReceiveAll(r, a, complete) == ReceiveAll(r, b, complete)
      {
        PiecesJoin(r, a, complete);
        PiecesJoin(r, b, complete);
      }
    } else {
      TwoSplits(r, stream, complete);
      if ReceiveAll(r, [stream], complete) == ReceiveAll(r, [stream, []], complete) {
        StableSettles(Receive(r, stream), complete);
      }
    }
  }

  /** The stream in one read, and the same with an empty read after it. */
  lemma TwoSplits(r: Reader, stream: seq<Byte>, complete: Completer)
    requires Partial(r.rest, r.ed.paste)
    ensures Join([stream]) == stream && Join([stream, []]) == stream
    ensures ReceiveAll(r, [stream], complete) == Pump(Receive(r, stream), complete)
    ensures ReceiveAll(r, [stream, []], complete) == Pump(Pump(Receive(r, stream), complete), complete)
  {
    hide Pump;
    PumpAgain(r, complete);
    ReceiveOne(r, [], stream, complete);
    assert [] + [stream] == [stream] && [stream] + [[]] == [stream, []];
    ReceiveOne(r, [stream], [], complete);
    var once := Pump(Receive(r, stream), complete);
    assert Receive(once, []) == once;
    assert Join([stream]) == Join([stream][..0]) + stream;
    assert [stream, []][..1] == [stream];
  }

  /** A stream that does not settle: an undecodable byte ends the decoding of what was read with
      it, so the line behind it is returned only by a later read. */
  lemma SplitMattersAfterError(ed: Editor, complete: Completer)
    requires !ed.paste && ed.text == Replace([])
    ensures var r := Reader(ed, [], false, []);
            ReceiveAll(r, [[0xFF, 13]], complete).events == [] &&
            ReceiveAll(r, [[0xFF], [13]], complete).events == [Line([], false)]
  {
    hide ReceiveAll, Pump, BytesToKey;
    var r := Reader(ed, [], false, []);
    PumpNothing(r, complete);
    ReceiveOne(r, [], [0xFF, 13], complete);
    assert [] + [[0xFF, 13]] == [[0xFF, 13]] && [0xFF] + [13] == [0xFF, 13];
    PumpError(Receive(r, [0xFF, 13]), [13], complete);
    ReceiveOne(r, [], [0xFF], complete);
    assert [] + [[0xFF]] == [[0xFF]] && [0xFF] + [] == [0xFF];
    PumpError(Receive(r, [0xFF]), [], complete);
    ReceiveOne(r, [[0xFF]], [13], complete);
    assert [[0xFF]] + [[13]] == [[0xFF], [13]];
    PumpEnter(Receive(r, [13]), complete);
  }

  lemma PumpNothing(r: Reader, complete: Completer)
    requires r.rest == []
    ensures Pump(r, complete) == r == ReceiveAll(r, [], complete)
  {
  }

  lemma PumpError(r: Reader, tail: seq<Byte>, complete: Completer)
    requires !r.ed.paste && r.rest == [0xFF] + tail
    ensures Pump(r, complete) == r.(rest := tail)
  {
    hide TakeKey, KnownSequence, SequenceEnd;
    assert r.rest[0] == 0xFF && r.rest[1..] == tail;
    assert FullRune(r.rest) && DecodeRune(r.rest) == (RuneError, 1);
    assert BytesToKey(r.rest, false) == Decoded(RuneError, tail);
  }

  lemma PumpEnter(r: Reader, complete: Completer)
    requires !r.ed.paste && r.rest == [13] && r.ed.text == Replace([])
    ensures Pump(r, complete).events == r.events + [Line([], false)]
  {
    assert BytesToKey(r.rest, false) == Decoded(13, []);
    assert Next(r, complete).rest == [];
  }

  lemma ReceiveOne(r: Reader, front: seq<seq<Byte>>, last: seq<Byte>, complete: Completer)
    ensures ReceiveAll(r, front + [last], complete) == Pump(Receive(ReceiveAll(r, front, complete), last), complete)
  {
    assert (front + [last])[..|front|] == front;
  }
}
