/** The router behind the record stream: what a client that sends calls over one
    connection gets back. */
module RpcSession {
  import opened Bytes
  import opened BinaryReader
  import opened Rpc
  import opened Router
  import opened TcpRecords
  import opened XdrDecoder

  /** The router as the record callback uses it. */
  function RouterHandler<S>(programs: map<u32, VersionMap<S>>, sender: OctetString): Handler<S>
  {
    (server, request) => Answer(programs, server, sender, Whole(request))
  }

  function Requests(calls: seq<Call>): (r: seq<seq<byte>>)
    ensures |r| == |calls|
    ensures forall i :: 0 <= i < |calls| ==> r[i] == EncCall(calls[i])
  {
    if calls == [] then [] else Requests(calls[..|calls| - 1]) + [EncCall(calls[|calls| - 1])]
  }

  /** Every call is well-formed and within the server's limit for a message. */
  ghost predicate CallsFit(calls: seq<Call>)
  {
    forall i :: 0 <= i < |calls| ==> CallFits(calls[i]) && |EncCall(calls[i])| <= MAX_MESSAGE
  }

  /** What each of the calls, one after the other, should be answered with: a denial
      for another protocol version, else the decision of the dispatcher. */
  ghost function Expected<S>(added: seq<Program<S>>, sender: OctetString, server: S, calls: seq<Call>):
    (r: (S, seq<Reply>))
    requires Admissible(added)
    ensures |r.1| == |calls|
  {
    if calls == [] then (server, [])
    else
      var (before, replies) := Expected(added, sender, server, calls[..|calls| - 1]);
      var (after, reply) := ExpectedOne(added, sender, before, calls[|calls| - 1]);
      (after, replies + [reply])
  }

  ghost function ExpectedOne<S>(added: seq<Program<S>>, sender: OctetString, server: S, c: Call): (S, Reply)
    requires Admissible(added)
  {
    if c.rpcVersion != RPC_VERSION then (server, Reply.RpcMismatch(c.xid, RPC_VERSION, RPC_VERSION))
    else
      var (after, stat) :=
        Select(Registry(added), server, sender, c.program, c.version, c.procedure, c.parameters);
      (after, Accepted(c.xid, AUTH_NULL, stat))
  }

  lemma OneAnswer<S>(added: seq<Program<S>>, sender: OctetString, server: S, c: Call)
    requires Admissible(added) && CallFits(c) && |EncCall(c)| <= MAX_MESSAGE
    ensures var (after, answer) := Answer(Registry(added), server, sender, Whole(EncCall(c)));
            var (expected, reply) := ExpectedOne(added, sender, server, c);
            after == expected && TakeReply(answer) == Got(reply, []) && answer != []
  {
    WholeAt(EncCall(c));
    hide Answer, Select, Registry;
    CallIsAnswered(added, server, sender, Whole(EncCall(c)), c);
  }

  /** Serving the calls gives the expected states and answers that decode to the
      expected replies. */
  lemma {:induction false} ServeAnswers<S>(added: seq<Program<S>>, sender: OctetString, server: S, calls: seq<Call>)
    requires Admissible(added) && CallsFit(calls)
    ensures var (after, answers) := Serve(Requests(calls), server, RouterHandler(Registry(added), sender));
            var (expected, replies) := Expected(added, sender, server, calls);
            && after == expected
            && |answers| == |calls|
            && NonEmpty(answers) == answers
            && forall i :: 0 <= i < |calls| ==> TakeReply(answers[i]) == Got(replies[i], [])
  {
    hide Answer, TakeReply, EncCall, Registry, ExpectedOne;
    if calls == [] {
    } else {
      var front, last := calls[..|calls| - 1], calls[|calls| - 1];
      var h := RouterHandler(Registry(added), sender);
      ServeAnswers(added, sender, server, front);
      var (s, answers) := Serve(Requests(front), server, h);
      var all := Requests(calls);
      assert all[..|all| - 1] == Requests(front) && all[|all| - 1] == EncCall(last);
      OneAnswer(added, sender, s, last);
      var (after, answer) := h(s, EncCall(last));
      assert Serve(Requests(calls), server, h) == (after, answers + [answer]);
      assert (answers + [answer])[..|answers|] == answers;
      hide Serve, Requests;
    }
  }

  lemma {:induction false} ServePrefix<S>(requests: seq<seq<byte>>, n: nat, server: S, handler: Handler<S>)
    requires n <= |requests|
    ensures |Serve(requests, server, handler).1| == |requests|
    ensures Serve(requests[..n], server, handler).1 <= Serve(requests, server, handler).1
  {
    if requests == [] {
    } else {
      var front := requests[..|requests| - 1];
      if n == |requests| {
        ServePrefix(front, n - 1, server, handler);
        assert requests[..n] == requests;
      } else {
        ServePrefix(front, n, server, handler);
        assert front[..n] == requests[..n];
      }
    }
  }

  /** A client sends well-formed calls, and the stream is cut anywhere. The session
      stays open; it has handled the first so many calls; and what it has sent is
      one record for each of them, in order, that decodes to the reply the call
      should get, state changes of the calls before it included. The answers must
      be shorter than 2^31 bytes, the limit of record marking. */
  lemma {:induction false} SessionAnswersCalls<S>(
    added: seq<Program<S>>, sender: OctetString, server: S, calls: seq<Call>, ds: seq<seq<byte>>)
    requires Admissible(added) && CallsFit(calls)
    requires NoneEmpty(ds) && Stream(ds) <= Frames(Requests(calls))
    requires var answers := Serve(Requests(calls), server, RouterHandler(Registry(added), sender)).1;
             forall i :: 0 <= i < |answers| ==> |answers[i]| < LAST_FRAGMENT
    ensures var h := RouterHandler(Registry(added), sender);
            var st := Run(ds, server, h);
            var n := |st.handled|;
            && st.status == Open && n <= |calls| && st.handled == Requests(calls[..n])
            && var answers := Serve(st.handled, server, h).1;
               var (after, replies) := Expected(added, sender, server, calls[..n]);
               && st.server == after
               && st.sent == Frames(answers) && |answers| == n
               && forall i :: 0 <= i < n ==> TakeReply(answers[i]) == Got(replies[i], [])
  {
    hide Answer, TakeReply, Registry, Run, Serve, Frames, RouterHandler, NonEmpty, SentFor, Expected, EncCall, Stream;
    var h := RouterHandler(Registry(added), sender);
    FramedStaysOpen(ds, Requests(calls), server, h);
    var n := |Run(ds, server, h).handled|;
    RequestsPrefix(calls, Run(ds, server, h).handled);
    ServeAnswers(added, sender, server, calls[..n]);
    RunServes(ds, server, h);
    ServePrefix(Requests(calls), n, server, h);
    assert Requests(calls)[..n] == Requests(calls[..n]);
    SentIsFrames(Serve(Requests(calls[..n]), server, h).1);
  }

  lemma RequestsPrefix(calls: seq<Call>, handled: seq<seq<byte>>)
    requires handled <= Requests(calls)
    ensures |handled| <= |calls| && handled == Requests(calls[..|handled|])
  {}
}
