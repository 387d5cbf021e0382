/** The TCP side of the RPC server: records are cut out of a byte stream that
    arrives in arbitrary pieces (section 10 of RFC 1057). Each record is one
    fragment with the last-fragment bit set; at most one record is handled per
    receive. */
module TcpRecords {
  import opened Bytes
  import opened BinaryBuilder
  import opened BinaryReader

  const LAST_FRAGMENT: int := 0x8000_0000
  const MAX_MESSAGE: int := 0xFFFFF

  /** The router: from the server's state and a request to the new state and an
      answer. An empty answer is not sent. */
  type Handler<!S> = (S, seq<byte>) -> (S, seq<byte>)

  // ----- the stream by itself -----

  /** What a stream begins with. */
  datatype Head = Wait | Bad | Record(body: seq<byte>, rest: seq<byte>)

  predicate BadHeader(size: u32)
  {
    size < LAST_FRAGMENT || size - LAST_FRAGMENT > MAX_MESSAGE
  }

  function HeaderWord(s: seq<byte>): u32
    requires 4 <= |s|
  {
    NumBound(s[..4]);
    PowValues();
    Num(s[..4])
  }

  function HeadOf(s: seq<byte>): (h: Head)
    ensures h.Record? ==> |h.rest| < |s| && |h.body| <= MAX_MESSAGE
  {
    if |s| < 4 then Wait
    else
      var word := HeaderWord(s);
      if BadHeader(word) then Bad
      else
        var size := word - LAST_FRAGMENT;
        if |s| < 4 + size then Wait else Record(s[4..4 + size], s[4 + size..])
  }

  /** All complete records of a stream, up to the first bad header. */
  function Records(s: seq<byte>): seq<seq<byte>>
    decreases |s|
  {
    match HeadOf(s)
    case Record(body, rest) => [body] + Records(rest)
    case _ => []
  }

  /** What is left of a stream behind its complete records. */
  function Remainder(s: seq<byte>): seq<byte>
    decreases |s|
  {
    match HeadOf(s)
    case Record(_, rest) => Remainder(rest)
    case _ => s
  }

  /** The stream runs into a bad header behind its complete records. */
  predicate EndsBad(s: seq<byte>)
  {
    HeadOf(Remainder(s)).Bad?
  }

  function Frame(body: seq<byte>): seq<byte>
  {
    Be(LAST_FRAGMENT + |body|, 4) + body
  }

  function Frames(bodies: seq<seq<byte>>): seq<byte>
  {
    if bodies == [] then [] else Frame(bodies[0]) + Frames(bodies[1..])
  }

  // ----- laws of the stream -----

  lemma HeadAppend(s: seq<byte>, more: seq<byte>)
    ensures HeadOf(s).Record? ==>
              HeadOf(s + more) == Record(HeadOf(s).body, HeadOf(s).rest + more)
    ensures HeadOf(s).Bad? ==> HeadOf(s + more).Bad?
  {
    if 4 <= |s| {
      assert (s + more)[..4] == s[..4];
      var word := HeaderWord(s);
      if !BadHeader(word) && 4 + (word - LAST_FRAGMENT) <= |s| {
        var n := 4 + (word - LAST_FRAGMENT);
        assert (s + more)[4..n] == s[4..n];
        assert (s + more)[n..] == s[n..] + more;
      }
    }
  }

  /** A complete record is its frame, followed by the rest. */
  lemma HeadIsFrame(s: seq<byte>)
    requires HeadOf(s).Record?
    ensures s == Frame(HeadOf(s).body) + HeadOf(s).rest
  {
    var word := HeaderWord(s);
    BeOfNum(s[..4]);
    assert s == s[..4] + s[4..4 + (word - LAST_FRAGMENT)] + s[4 + (word - LAST_FRAGMENT)..];
  }

  lemma HeadOfFrame(body: seq<byte>, rest: seq<byte>)
    requires |body| <= MAX_MESSAGE
    ensures HeadOf(Frame(body) + rest) == Record(body, rest)
  {
    var s := Frame(body) + rest;
    PowValues();
    NumOfBe(LAST_FRAGMENT + |body|, 4);
    assert s[..4] == Be(LAST_FRAGMENT + |body|, 4);
    assert s[4..4 + |body|] == body;
    assert s[4 + |body|..] == rest;
  }

  /** Records and remainder are all of the stream. */
  lemma {:induction false} StreamIsRecords(s: seq<byte>)
    ensures s == Frames(Records(s)) + Remainder(s)
    decreases |s|
  {
    hide HeaderWord, BadHeader, Frame;
    match HeadOf(s)
    case Record(body, rest) =>
      HeadIsFrame(s);
      StreamIsRecords(rest);
      assert Records(s)[0] == body && Records(s)[1..] == Records(rest);
      assert Frame(body) + (Frames(Records(rest)) + Remainder(rest)) == Frames(Records(s)) + Remainder(s);
    case _ =>
  }

  /** More bytes only add records behind the ones that are there. */
  lemma {:induction false} RecordsAppend(s: seq<byte>, more: seq<byte>)
    ensures Records(s + more) == Records(s) + (if EndsBad(s) then [] else Records(Remainder(s) + more))
    ensures Remainder(s + more) == if EndsBad(s) then Remainder(s) + more else Remainder(Remainder(s) + more)
    ensures EndsBad(s) ==> EndsBad(s + more)
    decreases |s|
  {
    HeadAppend(s, more);
    Unfolded(s);
    Unfolded(s + more);
    hide HeadOf, Records, Remainder;
    match HeadOf(s)
    case Record(body, rest) =>
      RecordsAppend(rest, more);
      var tail := if EndsBad(rest) then [] else Records(Remainder(rest) + more);
      Regroup([body], Records(rest), tail);
    case Bad =>
    case Wait =>
  }

  lemma Unfolded(s: seq<byte>)
    ensures match HeadOf(s)
            case Record(body, rest) => Records(s) == [body] + Records(rest) && Remainder(s) == Remainder(rest)
            case _ => Records(s) == [] && Remainder(s) == s
  {
    hide HeadOf;
  }

  lemma {:induction false} RecordsOfFrames(bodies: seq<seq<byte>>)
    requires forall i :: 0 <= i < |bodies| ==> |bodies[i]| <= MAX_MESSAGE
    ensures Records(Frames(bodies)) == bodies && Remainder(Frames(bodies)) == []
  {
    hide HeadOf, Frame;
    if bodies == [] {
      assert HeadOf([]).Wait? by { EmptyWaits(); }
    } else {
      HeadOfFrame(bodies[0], Frames(bodies[1..]));
      RecordsOfFrames(bodies[1..]);
    }
  }

  lemma EmptyWaits()
    ensures HeadOf([]) == Wait
  {}

  lemma {:induction false} FramesAppend(a: seq<seq<byte>>, b: seq<seq<byte>>)
    ensures Frames(a + b) == Frames(a) + Frames(b)
  {
    hide Frame;
    if a == [] {
      assert a + b == b;
    } else {
      assert (a + b)[1..] == a[1..] + b;
      FramesAppend(a[1..], b);
    }
  }

  // ----- one session -----

  datatype Status = Open | Dropped | Ended

  /** The server's state, the receive buffer, what went out, and, for the
      statements below, the requests handled and all bytes received. */
  datatype Session<S> = Session(
    server: S, buffer: seq<byte>, sent: seq<byte>, handled: seq<seq<byte>>, received: seq<byte>, status: Status)

  function Fresh<S>(server: S): Session<S>
  {
    Session(server, [], [], [], [], Open)
  }

  /** 0x80000000 | size, cut to 32 bits when it is written. */
  function WithTopBit(size: nat): nat
  {
    if size / LAST_FRAGMENT % 2 == 1 then size else size + LAST_FRAGMENT
  }

  function Outgoing(answer: seq<byte>): seq<byte>
  {
    if answer == [] then [] else Be(WithTopBit(|answer|), 4) + answer
  }

  /** The header word as the callback reads it. The receive before it has extended
      the buffer by zero bytes and cut it back, so zeros stand for the bytes the
      buffer does not have yet. */
  function PeekHeader(buffer: seq<byte>): u32
  {
    View(buffer + Zeros(4), 0, |buffer|).Get32(0)
  }

  /** The callback on the buffer it is given. */
  function Process<S>(st: Session<S>, handler: Handler<S>): Session<S>
  {
    var word := PeekHeader(st.buffer);
    if BadHeader(word) then st.(status := Dropped)
    else
      var size := word - LAST_FRAGMENT;
      if |st.buffer| < 4 + size then st
      else
        var request := st.buffer[4..4 + size];
        var (server, answer) := handler(st.server, request);
        st.(server := server, handled := st.handled + [request], sent := st.sent + Outgoing(answer),
            buffer := st.buffer[4 + size..])
  }

  /** One turn of the receive loop: receiving nothing ends it. */
  function Receive<S>(st: Session<S>, chunk: seq<byte>, handler: Handler<S>): Session<S>
  {
    if st.status != Open then st
    else if chunk == [] then st.(status := Ended)
    else Process(st.(buffer := st.buffer + chunk, received := st.received + chunk), handler)
  }

  function Run<S>(ds: seq<seq<byte>>, server: S, handler: Handler<S>): Session<S>
  {
    if ds == [] then Fresh(server)
    else Receive(Run(ds[..|ds| - 1], server, handler), ds[|ds| - 1], handler)
  }

  class TcpSession<S> {
    var server: S
    var buffer: seq<byte>
    var sent: seq<byte>
    ghost var handled: seq<seq<byte>>
    ghost var received: seq<byte>

    constructor (server: S)
      ensures State(Open) == Fresh(server)
    {
      this.server := server;
      buffer := [];
      sent := [];
      handled := [];
      received := [];
    }

    ghost function State(status: Status): Session<S>
      reads this
    {
      Session(server, buffer, sent, handled, received, status)
    }

    /** The record callback. */
    method OnReceive(handler: Handler<S>) returns (keep: bool)
      modifies this
      ensures State(if keep then Open else Dropped) == Process(old(State(Open)), handler)
    {
      hide Overlay, Be, WithTopBit, View.Get32;
      var reader := View(buffer + Zeros(4), 0, |buffer|);
      var word := BinaryReader.Get32(reader, 0);
      var messageSize: int := word;
      if messageSize < LAST_FRAGMENT {
        return false;
      }
      messageSize := messageSize - LAST_FRAGMENT;
      if MAX_MESSAGE < messageSize {
        return false;
      }
      if |buffer| < 4 + messageSize {
        return true;
      }
      var request := buffer[4..4 + messageSize];
      var (after, result) := handler(server, request);
      server := after;
      handled := handled + [request];
      if result != [] {
        var builder := new Builder();
        builder.Append32(WithTopBit(|result|));
        builder.AppendBinary(result);
        sent := sent + builder.binary;
      }
      buffer := buffer[4 + messageSize..];
      return true;
    }

    /** The receive loop, given what the socket will deliver. */
    method Loop(ds: seq<seq<byte>>, handler: Handler<S>) returns (status: Status)
      requires State(Open) == Fresh(server)
      modifies this
      ensures State(status) == Run(ds, old(server), handler)
    {
      status := Open;
      var n := 0;
      while n < |ds|
        invariant 0 <= n <= |ds|
        invariant State(status) == Run(ds[..n], old(server), handler)
      {
        assert ds[..n + 1][..n] == ds[..n];
        if status == Open {
          if ds[n] == [] {
            status := Ended;
          } else {
            buffer := buffer + ds[n];
            received := received + ds[n];
            var keep := OnReceive(handler);
            if !keep {
              status := Dropped;
            }
          }
        }
        n := n + 1;
      }
      assert ds[..n] == ds;
    }
  }

  // ----- headers that are not there yet -----

  function ByteOrZero(s: seq<byte>, i: nat): byte
  {
    if i < |s| then s[i] else 0
  }

  function Word(a: int, b: int, c: int, d: int): int
  {
    a * 0x100_0000 + b * 0x1_0000 + c * 0x100 + d
  }

  lemma FourBytes(s: seq<byte>)
    requires |s| == 4
    ensures Num(s) == Word(s[0], s[1], s[2], s[3])
  {
    assert s[..3][..2] == s[..2] && s[..2][..1] == s[..1] && s[..1][..0] == [];
    assert Num(s[..1]) == s[0];
    assert Num(s[..2]) == Word(0, 0, s[0], s[1]);
    assert Num(s[..3]) == Word(0, s[0], s[1], s[2]);
  }

  lemma PeekValue(s: seq<byte>)
    ensures PeekHeader(s) == Word(ByteOrZero(s, 0), ByteOrZero(s, 1), ByteOrZero(s, 2), ByteOrZero(s, 3))
  {
    var v := View(s + Zeros(4), 0, |s|);
    FourBytes(v.Slice(0, 4));
  }

  /** Whenever the four bytes are there, the header read is the header sent. */
  lemma PeekIsHeader(buffer: seq<byte>)
    requires 4 <= |buffer|
    ensures PeekHeader(buffer) == HeaderWord(buffer)
  {
    assert View(buffer + Zeros(4), 0, |buffer|).Slice(0, 4) == buffer[..4];
  }

  /** The header is bad, or as much of it as there is, completed by zeros. */
  predicate Doomed(s: seq<byte>)
  {
    s != [] && BadHeader(PeekHeader(s))
  }

  /** Zeros keep the top bit and make the least word of all completions, so more
      bytes never mend a header that looks bad. */
  lemma DoomedStays(s: seq<byte>, more: seq<byte>)
    requires Doomed(s)
    ensures Doomed(s + more)
  {
    PeekValue(s);
    PeekValue(s + more);
    assert forall i :: 0 <= i < |s| ==> (s + more)[i] == s[i];
    hide PeekHeader;
  }

  /** Bytes look bad exactly when every way to go on has a bad header. */
  lemma DoomedIff(s: seq<byte>)
    requires s != []
    ensures Doomed(s) <==> forall more {:trigger HeadOf(s + more)} :: 4 <= |s + more| ==> HeadOf(s + more).Bad?
  {
    forall more | Doomed(s) && 4 <= |s + more| ensures HeadOf(s + more).Bad? {
      DoomedStays(s, more);
      PeekIsHeader(s + more);
    }
    if !Doomed(s) {
      PeekIsHeader(s + Zeros(4));
      PeekValue(s);
      PeekValue(s + Zeros(4));
      hide PeekHeader;
      assert !HeadOf(s + Zeros(4)).Bad?;
    }
  }

  /** Behind the complete records stands something no bytes can mend. */
  predicate EndsDoomed(s: seq<byte>)
  {
    Doomed(Remainder(s))
  }

  lemma DoomedIsNoRecord(s: seq<byte>)
    requires Doomed(s)
    ensures HeadOf(s) == (if |s| < 4 then Wait else Bad) && Records(s) == [] && Remainder(s) == s
  {
    if 4 <= |s| {
      PeekIsHeader(s);
    }
  }

  lemma {:induction false} RemainderRests(s: seq<byte>)
    ensures !HeadOf(Remainder(s)).Record? && Records(Remainder(s)) == [] && Remainder(Remainder(s)) == Remainder(s)
    decreases |s|
  {
    match HeadOf(s)
    case Record(_, rest) => RemainderRests(rest);
    case _ =>
  }

  lemma EndsDoomedStays(s: seq<byte>, more: seq<byte>)
    requires EndsDoomed(s)
    ensures EndsDoomed(s + more)
  {
    var r := Remainder(s);
    RecordsAppend(s, more);
    DoomedStays(r, more);
    DoomedIsNoRecord(r + more);
    hide Doomed, Records, Remainder, HeadOf;
  }

  /** No beginning of a stream of frames is doomed, wherever it is cut. */
  lemma FramedIsSound(s: seq<byte>, bodies: seq<seq<byte>>)
    requires s <= Frames(bodies)
    requires forall i :: 0 <= i < |bodies| ==> |bodies[i]| <= MAX_MESSAGE
    ensures !EndsDoomed(s)
  {
    RecordsOfFrames(bodies);
    var rest := Frames(bodies)[|s|..];
    assert s + rest == Frames(bodies);
    if EndsDoomed(s) {
      EndsDoomedStays(s, rest);
    }
  }

  // ----- what a session does -----

  /** The callback in terms of the stream: it takes the first record if there is
      one, and drops exactly on bytes that no more can mend. */
  lemma ProcessMeaning<S>(st: Session<S>, handler: Handler<S>)
    requires st.buffer != []
    ensures var next := Process(st, handler);
            if Doomed(st.buffer) then next == st.(status := Dropped)
            else match HeadOf(st.buffer)
              case Record(body, rest) =>
                && next.handled == st.handled + [body] && next.buffer == rest
                && next.received == st.received && next.status == st.status
              case _ => next == st
  {
    if 4 <= |st.buffer| {
      PeekIsHeader(st.buffer);
    }
  }

  /** All bytes received are accounted for: the frames of the handled requests,
      then the buffer. So the requests handled are the first records of the stream. */
  ghost predicate Accounted<S>(st: Session<S>)
  {
    && st.received == Frames(st.handled) + st.buffer
    && Records(st.received) == st.handled + Records(st.buffer)
    && Remainder(st.received) == Remainder(st.buffer)
  }

  lemma FrameOne(body: seq<byte>)
    ensures Frames([body]) == Frame(body)
  {
    assert Frames([body]) == Frame(body) + Frames([]);
  }

  lemma ProcessAccounted<S>(st: Session<S>, handler: Handler<S>)
    requires Accounted(st) && st.buffer != []
    ensures Accounted(Process(st, handler))
  {
    ProcessMeaning(st, handler);
    hide HeadOf, Process, Doomed;
    match HeadOf(st.buffer)
    case Record(body, rest) =>
      if !Doomed(st.buffer) {
        TakeOneAccounted(st, body, rest);
      }
    case _ =>
  }

  lemma TakeOneAccounted<S>(st: Session<S>, body: seq<byte>, rest: seq<byte>)
    requires Accounted(st) && HeadOf(st.buffer) == Record(body, rest)
    ensures Accounted(st.(handled := st.handled + [body], buffer := rest))
  {
    assert Records(st.buffer) == [body] + Records(rest) && Remainder(st.buffer) == Remainder(rest);
    assert st.handled + ([body] + Records(rest)) == st.handled + [body] + Records(rest);
    FramesTakeOne(st.handled, st.buffer, body, rest);
    hide *;
  }

  lemma FramesTakeOne(handled: seq<seq<byte>>, buffer: seq<byte>, body: seq<byte>, rest: seq<byte>)
    requires HeadOf(buffer) == Record(body, rest)
    ensures Frames(handled) + buffer == Frames(handled + [body]) + rest
  {
    HeadIsFrame(buffer);
    FramesAppend(handled, [body]);
    FrameOne(body);
    Regroup(Frames(handled), Frame(body), rest);
    hide *;
  }

  lemma AppendAccounted<S>(st: Session<S>, chunk: seq<byte>)
    requires Accounted(st)
    ensures Accounted(Given(st, chunk))
  {
    hide Records, Remainder, Frames;
    RecordsAppend(st.received, chunk);
    RecordsAppend(st.buffer, chunk);
    var more := Records(Remainder(st.buffer) + chunk);
    Regroup(Frames(st.handled), st.buffer, chunk);
    Regroup(st.handled, Records(st.buffer), more);
    assert st.handled + Records(st.buffer) + [] == st.handled + Records(st.buffer);
    assert Records(st.buffer) + [] == Records(st.buffer);
  }

  /** However the stream is cut. */
  lemma {:induction false} RunAccounted<S>(ds: seq<seq<byte>>, server: S, handler: Handler<S>)
    ensures Accounted(Run(ds, server, handler))
  {
    hide Records, Remainder, Process;
    if ds == [] {
      assert Accounted(Fresh(server)) by { NothingAccounted(server); }
    } else {
      var before := Run(ds[..|ds| - 1], server, handler);
      var chunk := ds[|ds| - 1];
      RunAccounted(ds[..|ds| - 1], server, handler);
      AppendAccounted(before, chunk);
      if before.status == Open && chunk != [] {
        ProcessAccounted(Given(before, chunk), handler);
      }
    }
  }

  /** The session as the callback finds it. */
  function Given<S>(st: Session<S>, chunk: seq<byte>): Session<S>
  {
    st.(buffer := st.buffer + chunk, received := st.received + chunk)
  }

  lemma NothingAccounted<S>(server: S)
    ensures Accounted(Fresh(server))
  {
    EmptyWaits();
  }

  function Stream(ds: seq<seq<byte>>): seq<byte>
  {
    if ds == [] then [] else Stream(ds[..|ds| - 1]) + ds[|ds| - 1]
  }

  /** While the loop runs, everything delivered has been received. */
  lemma {:induction false} OpenReceivesAll<S>(ds: seq<seq<byte>>, server: S, handler: Handler<S>)
    requires Run(ds, server, handler).status == Open
    ensures Run(ds, server, handler).received == Stream(ds)
  {
    if ds == [] {
    } else {
      OpenReceivesAll(ds[..|ds| - 1], server, handler);
    }
  }

  /** The requests handled are the first records of the stream delivered so far,
      and handled requests and buffer together are all of its bytes. */
  lemma HandledIsPrefix<S>(ds: seq<seq<byte>>, server: S, handler: Handler<S>)
    requires Run(ds, server, handler).status == Open
    ensures var st := Run(ds, server, handler);
            && st.handled <= Records(Stream(ds))
            && Frames(st.handled) + st.buffer == Stream(ds)
  {
    RunAccounted(ds, server, handler);
    OpenReceivesAll(ds, server, handler);
  }

  /** The connection is dropped exactly when every complete record delivered has
      been handled and what stands behind them is doomed. */
  lemma {:induction false} DropsExactlyOnBadHeader<S>(ds: seq<seq<byte>>, server: S, handler: Handler<S>)
    requires ds != [] && ds[|ds| - 1] != []
    requires Run(ds[..|ds| - 1], server, handler).status == Open
    ensures var handled := Run(ds[..|ds| - 1], server, handler).handled;
            var st := Run(ds, server, handler);
            && st.status != Ended
            && (st.status == Dropped <==> handled == Records(Stream(ds)) && EndsDoomed(Stream(ds)))
            && (st.status == Dropped ==> st.handled == handled)
  {
    var front, chunk := ds[..|ds| - 1], ds[|ds| - 1];
    var before := Run(front, server, handler);
    var given := Given(before, chunk);
    ProcessMeaning(given, handler);
    OpenReceivesAll(front, server, handler);
    RunAccounted(front, server, handler);
    AppendAccounted(before, chunk);
    assert Run(ds, server, handler) == Process(given, handler);
    assert Records(Stream(ds)) == before.handled + Records(given.buffer);
    assert Remainder(Stream(ds)) == Remainder(given.buffer);
    hide Run, Process, Stream;
    if Doomed(given.buffer) {
      DoomedIsNoRecord(given.buffer);
    } else if before.handled == Records(Stream(ds)) {
      assert Records(given.buffer) == [];
      assert !HeadOf(given.buffer).Record?;
    }
  }

  ghost predicate NoneEmpty(ds: seq<seq<byte>>)
  {
    forall i :: 0 <= i < |ds| ==> ds[i] != []
  }

  /** A session on a stream that is not doomed stays open, however it is cut. */
  lemma {:induction false} SoundStaysOpen<S>(ds: seq<seq<byte>>, server: S, handler: Handler<S>)
    requires NoneEmpty(ds) && !EndsDoomed(Stream(ds))
    ensures Run(ds, server, handler).status == Open
  {
    hide Doomed, Remainder, Process;
    if ds == [] {
    } else {
      var front := ds[..|ds| - 1];
      if EndsDoomed(Stream(front)) {
        EndsDoomedStays(Stream(front), ds[|ds| - 1]);
      }
      SoundStaysOpen(front, server, handler);
      DropsExactlyOnBadHeader(ds, server, handler);
    }
  }

  /** A session on well-formed records is never dropped, wherever they are cut,
      inside a header included. */
  lemma FramedStaysOpen<S>(ds: seq<seq<byte>>, bodies: seq<seq<byte>>, server: S, handler: Handler<S>)
    requires NoneEmpty(ds) && Stream(ds) <= Frames(bodies)
    requires forall i :: 0 <= i < |bodies| ==> |bodies[i]| <= MAX_MESSAGE
    ensures Run(ds, server, handler).status == Open
    ensures Run(ds, server, handler).handled <= bodies
  {
    hide Doomed, Remainder, Records, Frames;
    FramedIsSound(Stream(ds), bodies);
    SoundStaysOpen(ds, server, handler);
    HandledIsPrefix(ds, server, handler);
    RecordsOfFrames(bodies);
    var rest := Frames(bodies)[|Stream(ds)|..];
    assert Stream(ds) + rest == Frames(bodies);
    RecordsAppend(Stream(ds), rest);
    PrefixTransitive(Run(ds, server, handler).handled, Records(Stream(ds)), bodies);
  }

  lemma PrefixTransitive<T>(a: seq<T>, b: seq<T>, c: seq<T>)
    requires a <= b && b <= c
    ensures a <= c
  {}

  // ----- the backlog law -----

  /** Complete records among the first j deliveries. */
  function Arrived(ds: seq<seq<byte>>, j: nat): nat
    requires j <= |ds|
  {
    |Records(Stream(ds[..j]))|
  }

  /** One receive handles one more request if one is there, else none. */
  lemma HandledStep<S>(ds: seq<seq<byte>>, server: S, handler: Handler<S>)
    requires ds != [] && Run(ds, server, handler).status == Open
    ensures var h := |Run(ds[..|ds| - 1], server, handler).handled|;
            && h <= Arrived(ds, |ds| - 1) <= Arrived(ds, |ds|)
            && |Run(ds, server, handler).handled| == if h < Arrived(ds, |ds|) then h + 1 else h
  {
    var front, chunk := ds[..|ds| - 1], ds[|ds| - 1];
    assert ds[..|ds|] == ds;
    var before := Run(front, server, handler);
    assert before.status == Open && chunk != [];
    var given := Given(before, chunk);
    HandledIsPrefix(front, server, handler);
    RecordsAppend(Stream(front), chunk);
    RunAccounted(front, server, handler);
    AppendAccounted(before, chunk);
    OpenReceivesAll(front, server, handler);
    ProcessMeaning(given, handler);
    assert Run(ds, server, handler) == Process(given, handler);
    assert Records(Stream(ds)) == before.handled + Records(given.buffer);
    hide Run, Process, Stream, Remainder, Accounted, Doomed;
  }

  /** While a session is open, the requests handled after n receives are the
      minimum, over all j up to n, of the records that had arrived by then plus one
      for each receive since. */
  lemma {:induction false} BacklogLaw<S>(ds: seq<seq<byte>>, server: S, handler: Handler<S>)
    requires Run(ds, server, handler).status == Open
    ensures var h := |Run(ds, server, handler).handled|;
            && (forall j :: 0 <= j <= |ds| ==> h <= Arrived(ds, j) + (|ds| - j))
            && (exists j :: 0 <= j <= |ds| && h == Arrived(ds, j) + (|ds| - j))
  {
    hide Records, Remainder, Process;
    var h := |Run(ds, server, handler).handled|;
    if ds == [] {
      assert Arrived(ds, 0) == 0 by { EmptyArrives(ds); }
    } else {
      var front := ds[..|ds| - 1];
      BacklogLaw(front, server, handler);
      HandledStep(ds, server, handler);
      ArrivedFront(ds);
      hide Run, Arrived;
      var n := |ds|;
      var h0 := |Run(front, server, handler).handled|;
      var i :| 0 <= i <= n - 1 && h0 == Arrived(front, i) + (n - 1 - i);
      forall j | 0 <= j <= n ensures h <= Arrived(ds, j) + (n - j) {
        if j < n {
          assert Arrived(front, j) == Arrived(ds, j);
        }
      }
      if h0 < Arrived(ds, n) {
        assert h == Arrived(ds, i) + (n - i);
      } else {
        assert h == Arrived(ds, n) + (n - n);
      }
    }
  }

  lemma EmptyArrives(ds: seq<seq<byte>>)
    requires ds == []
    ensures Arrived(ds, 0) == 0
  {
    EmptyWaits();
    assert ds[..0] == [];
  }

  lemma ArrivedFront(ds: seq<seq<byte>>)
    requires ds != []
    ensures forall j :: 0 <= j <= |ds| - 1 ==> Arrived(ds[..|ds| - 1], j) == Arrived(ds, j)
  {
    forall j | 0 <= j <= |ds| - 1 ensures Arrived(ds[..|ds| - 1], j) == Arrived(ds, j) {
      assert ds[..|ds| - 1][..j] == ds[..j];
    }
  }

  // ----- independence of the cutting -----

  /** Two ways of cutting one stream handle the same requests in the same order, as
      far as both have come. */
  lemma CuttingDoesNotMatter<S>(ds: seq<seq<byte>>, es: seq<seq<byte>>, server: S, handler: Handler<S>)
    requires Stream(ds) == Stream(es)
    requires Run(ds, server, handler).status == Open && Run(es, server, handler).status == Open
    ensures var a, b := Run(ds, server, handler), Run(es, server, handler);
            && (a.handled <= b.handled || b.handled <= a.handled)
            && (|a.handled| == |b.handled| ==> a == b)
  {
    hide Frames, Records, Run, Stream, Serve, SentFor;
    HandledIsPrefix(ds, server, handler);
    HandledIsPrefix(es, server, handler);
    RunServes(ds, server, handler);
    RunServes(es, server, handler);
    OpenReceivesAll(ds, server, handler);
    OpenReceivesAll(es, server, handler);
    var a, b, all := Run(ds, server, handler), Run(es, server, handler), Records(Stream(ds));
    assert a.handled == all[..|a.handled|] && b.handled == all[..|b.handled|];
    if |a.handled| == |b.handled| {
      var f := Frames(a.handled);
      assert (f + a.buffer)[|f|..] == a.buffer && (f + b.buffer)[|f|..] == b.buffer;
    }
  }

  // ----- what is sent -----

  /** Handling a list of requests in order: the server's state and the answers. */
  function Serve<S>(requests: seq<seq<byte>>, server: S, handler: Handler<S>): (S, seq<seq<byte>>)
  {
    if requests == [] then (server, [])
    else
      var (s, answers) := Serve(requests[..|requests| - 1], server, handler);
      var (s', answer) := handler(s, requests[|requests| - 1]);
      (s', answers + [answer])
  }

  function SentFor(answers: seq<seq<byte>>): seq<byte>
  {
    if answers == [] then [] else SentFor(answers[..|answers| - 1]) + Outgoing(answers[|answers| - 1])
  }

  /** The server has handled the requests in order and sent just their answers. */
  lemma {:induction false} RunServes<S>(ds: seq<seq<byte>>, server: S, handler: Handler<S>)
    ensures var st := Run(ds, server, handler);
            var (s, answers) := Serve(st.handled, server, handler);
            st.server == s && st.sent == SentFor(answers)
  {
    if ds == [] {
    } else {
      var front, d := ds[..|ds| - 1], ds[|ds| - 1];
      RunServes(front, server, handler);
      var before, st := Run(front, server, handler), Run(ds, server, handler);
      if st.handled != before.handled {
        assert st.handled[..|st.handled| - 1] == before.handled;
        var (s, answers) := Serve(before.handled, server, handler);
        var (s', answer) := handler(s, st.handled[|st.handled| - 1]);
        assert (answers + [answer])[..|answers|] == answers;
      }
    }
  }

  function NonEmpty(answers: seq<seq<byte>>): seq<seq<byte>>
  {
    if answers == [] then []
    else NonEmpty(answers[..|answers| - 1]) + if answers[|answers| - 1] == [] then [] else [answers[|answers| - 1]]
  }

  lemma OutgoingIsFrame(answer: seq<byte>)
    requires |answer| < LAST_FRAGMENT
    ensures Outgoing(answer) == if answer == [] then [] else Frame(answer)
  {}

  /** Answers below 2^31 bytes go out as well-formed records; empty ones not at all. */
  lemma {:induction false} SentIsFrames(answers: seq<seq<byte>>)
    requires forall i :: 0 <= i < |answers| ==> |answers[i]| < LAST_FRAGMENT
    ensures SentFor(answers) == Frames(NonEmpty(answers))
  {
    if answers == [] {
    } else {
      var front, last := answers[..|answers| - 1], answers[|answers| - 1];
      SentIsFrames(front);
      FramesAppend(NonEmpty(front), [last]);
      FrameOne(last);
      OutgoingIsFrame(last);
      hide Frames, Frame, Outgoing;
      assert NonEmpty(front) + [] == NonEmpty(front);
    }
  }
}
