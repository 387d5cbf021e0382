/** RPC messages: the program's call reader and reply writer against the message
    formats of section 8 of RFC 1057. */
module Rpc {
  import opened Bytes
  import opened BinaryBuilder
  import opened BinaryReader
  import opened Xdr
  import opened XdrDecoder

  const RPC_VERSION: u32 := 2
  const CALL: u32 := 0
  const REPLY: u32 := 1
  const MAX_AUTH: nat := 400

  // ----- calls -----

  datatype Auth = Auth(flavor: u32, body: seq<byte>)

  datatype Call = Call(
    xid: u32, rpcVersion: u32, program: u32, version: u32, procedure: u32,
    credential: Auth, verifier: Auth, parameters: seq<byte>)

  function EncAuth(a: Auth): seq<byte>
  {
    Be(a.flavor, 4) + EncOpaque(a.body)
  }

  function EncBody(c: Call): seq<byte>
  {
    Be(c.rpcVersion, 4) + (Be(c.program, 4) + (Be(c.version, 4) + (Be(c.procedure, 4)
    + (EncAuth(c.credential) + (EncAuth(c.verifier) + c.parameters)))))
  }

  function EncCall(c: Call): seq<byte>
  {
    Be(c.xid, 4) + (Be(CALL, 4) + EncBody(c))
  }

  ghost predicate CallFits(c: Call)
  {
    |c.credential.body| < TWO_32 && |c.verifier.body| < TWO_32
  }

  // ----- the program's call reader -----

  datatype AuthReader = AuthReader(reader: View, body: Opaque) {
    static function On(v: View): AuthReader
    {
      AuthReader(v, OpaqueReader(v, 4, MAX_AUTH))
    }

    function Size(): nat
    {
      4 + body.ReadSize()
    }
  }

  datatype CallBodyReader = CallBodyReader(reader: View, credential: AuthReader, verification: AuthReader) {
    static function On(v: View): CallBodyReader
    {
      var credential := AuthReader.On(v.Tail(16));
      CallBodyReader(v, credential, AuthReader.On(v.Tail(16 + credential.Size())))
    }

    function Size(): nat
    {
      16 + credential.Size() + verification.Size()
    }

    predicate Valid()
    {
      reader.HasSize(Size())
    }

    function Version(): u32
    {
      reader.Get32(0)
    }

    function Program(): u32
    {
      reader.Get32(4)
    }

    function ProgramVersion(): u32
    {
      reader.Get32(8)
    }

    function Procedure(): u32
    {
      reader.Get32(12)
    }

    /** The bytes the parameter reader views. */
    function Parameters(): seq<byte>
    {
      var v := reader.Tail(Size());
      v.Slice(0, v.Size())
    }
  }

  lemma AuthRoundTrip(v: View, a: Auth)
    requires |a.body| < TWO_32 && v.At(0, EncAuth(a))
    ensures AuthReader.On(v).Size() == |EncAuth(a)|
  {
    AtSplit(v, 0, Be(a.flavor, 4), EncOpaque(a.body));
    OpaqueRoundTrip(v, 4, a.body, MAX_AUTH);
  }

  lemma BodyLayout(v: View, c: Call)
    requires v.At(0, EncBody(c))
    ensures v.At(0, Be(c.rpcVersion, 4)) && v.At(4, Be(c.program, 4)) && v.At(8, Be(c.version, 4))
    ensures v.At(12, Be(c.procedure, 4))
    ensures var n := 16 + |EncAuth(c.credential)|;
            var m := n + |EncAuth(c.verifier)|;
            && v.At(16, EncAuth(c.credential)) && v.At(n, EncAuth(c.verifier)) && v.At(m, c.parameters)
            && |EncBody(c)| == m + |c.parameters|
  {
    hide EncAuth, View.At;
    var n := 16 + |EncAuth(c.credential)|;
    var s6 := EncAuth(c.verifier) + c.parameters;
    var s5 := EncAuth(c.credential) + s6;
    var s4 := Be(c.procedure, 4) + s5;
    var s3 := Be(c.version, 4) + s4;
    AtSplit(v, 0, Be(c.rpcVersion, 4), Be(c.program, 4) + s3);
    AtSplit(v, 4, Be(c.program, 4), s3);
    AtSplit(v, 8, Be(c.version, 4), s4);
    AtSplit(v, 12, Be(c.procedure, 4), s5);
    AtSplit(v, 16, EncAuth(c.credential), s6);
    AtSplit(v, n, EncAuth(c.verifier), c.parameters);
  }

  lemma BodySizes(v: View, c: Call)
    requires CallFits(c) && v.At(0, EncBody(c))
    ensures var r := CallBodyReader.On(v);
            && r.credential.Size() == |EncAuth(c.credential)| && r.verification.Size() == |EncAuth(c.verifier)|
            && r.Size() + |c.parameters| == |EncBody(c)|
  {
    var n := 16 + |EncAuth(c.credential)|;
    BodyLayout(v, c);
    AtTail(v, 16, 0, EncAuth(c.credential));
    AuthRoundTrip(v.Tail(16), c.credential);
    AtTail(v, n, 0, EncAuth(c.verifier));
    AuthRoundTrip(v.Tail(n), c.verifier);
    hide EncBody, EncAuth, View.At, AuthReader.Size;
  }

  lemma ParametersView(v: View, c: Call)
    requires v.At(0, EncBody(c)) && v.Size() == |EncBody(c)|
    ensures var w := v.Tail(|EncBody(c)| - |c.parameters|);
            |c.parameters| <= |EncBody(c)| && w.Slice(0, w.Size()) == c.parameters
  {
    var m := 16 + |EncAuth(c.credential)| + |EncAuth(c.verifier)|;
    AtMeansInside(v, EncBody(c));
    BodyLayout(v, c);
    hide EncBody, EncAuth;
    AtTail(v, m, 0, c.parameters);
    AtSlice(v.Tail(m), 0, c.parameters);
  }

  /** The reader finds every field of a well-formed call body, behind
      authentication data of any length. */
  lemma BodyRoundTrip(v: View, c: Call)
    requires CallFits(c) && v.At(0, EncBody(c)) && v.Size() == |EncBody(c)|
    ensures var r := CallBodyReader.On(v);
            && r.Valid() && r.Version() == c.rpcVersion && r.Program() == c.program
            && r.ProgramVersion() == c.version && r.Procedure() == c.procedure
            && r.Parameters() == c.parameters
  {
    hide EncBody, EncAuth, View.At, CallBodyReader.Size;
    BodySizes(v, c);
    ParametersView(v, c);
    assert v.Get32(0) == c.rpcVersion by { BodyLayout(v, c); At32(v, 0, c.rpcVersion); }
    assert v.Get32(4) == c.program by { BodyLayout(v, c); At32(v, 4, c.program); }
    assert v.Get32(8) == c.version by { BodyLayout(v, c); At32(v, 8, c.version); }
    assert v.Get32(12) == c.procedure by { BodyLayout(v, c); At32(v, 12, c.procedure); }
  }

  lemma AtMeansInside(v: View, s: seq<byte>)
    requires v.At(0, s) && v.Size() == |s|
    ensures v.end - v.begin == |s| < TWO_64
  {}

  // ----- replies -----

  datatype AcceptStat =
    | Success(results: seq<byte>)
    | ProgUnavail
    | ProgMismatch(low: u32, high: u32)
    | ProcUnavail
    | GarbageArgs

  /** A reply as section 8 of RFC 1057 has it: accepted with a verifier, or denied. */
  datatype Reply =
    | Accepted(xid: u32, verifier: Auth, stat: AcceptStat)
    | RpcMismatch(xid: u32, low: u32, high: u32)
    | AuthError(xid: u32, reason: u32)

  function TakeAcceptStat(s: seq<byte>): Parsed<AcceptStat>
  {
    match Take32(s)
    case Bad => Bad
    case Got(0, rest) => Got(Success(rest), [])
    case Got(1, rest) => Got(ProgUnavail, rest)
    case Got(2, rest) =>
      (match Take32(rest)
       case Bad => Bad
       case Got(low, rest1) =>
         match Take32(rest1)
         case Bad => Bad
         case Got(high, rest2) => Got(ProgMismatch(low, high), rest2))
    case Got(3, rest) => Got(ProcUnavail, rest)
    case Got(4, rest) => Got(GarbageArgs, rest)
    case Got(_, _) => Bad
  }

  function TakeDenied(xid: u32, s: seq<byte>): Parsed<Reply>
  {
    match Take32(s)
    case Bad => Bad
    case Got(0, rest) =>
      (match Take32(rest)
       case Bad => Bad
       case Got(low, rest1) =>
         match Take32(rest1)
         case Bad => Bad
         case Got(high, rest2) => Got(RpcMismatch(xid, low, high), rest2))
    case Got(1, rest) =>
      (match Take32(rest)
       case Bad => Bad
       case Got(reason, rest1) => Got(AuthError(xid, reason), rest1))
    case Got(_, _) => Bad
  }

  function TakeAccepted(xid: u32, s: seq<byte>): Parsed<Reply>
  {
    match Take32(s)
    case Bad => Bad
    case Got(flavor, s1) =>
      match TakeOpaque(s1, MAX_AUTH)
      case Bad => Bad
      case Got(body, s2) =>
        match TakeAcceptStat(s2)
        case Bad => Bad
        case Got(stat, rest) => Got(Accepted(xid, Auth(flavor, body), stat), rest)
  }

  /** A decoder of reply messages, from the standard. */
  function TakeReply(s: seq<byte>): Parsed<Reply>
  {
    match Take32(s)
    case Bad => Bad
    case Got(xid, s1) =>
      match Take32(s1)
      case Bad => Bad
      case Got(messageType, s2) =>
        if messageType != REPLY then Bad else
        match Take32(s2)
        case Bad => Bad
        case Got(0, s3) => TakeAccepted(xid, s3)
        case Got(1, s3) => TakeDenied(xid, s3)
        case Got(_, _) => Bad
  }

  const AUTH_NULL: Auth := Auth(0, [])

  // ----- the program's reply writer -----

  /** The decisions the program can come to about a call. */
  datatype Outcome = Denied(low: u32, high: u32) | Answered(stat: AcceptStat)

  function ReplyOf(xid: u32, o: Outcome): Reply
  {
    match o
    case Denied(low, high) => RpcMismatch(xid, low, high)
    case Answered(stat) => Accepted(xid, AUTH_NULL, stat)
  }

  function StatWord(a: AcceptStat): u32
  {
    match a
    case Success(_) => 0
    case ProgUnavail => 1
    case ProgMismatch(_, _) => 2
    case ProcUnavail => 3
    case GarbageArgs => 4
  }

  function StatTail(a: AcceptStat): seq<byte>
  {
    match a
    case Success(results) => results
    case ProgMismatch(low, high) => Be(low, 4) + Be(high, 4)
    case _ => []
  }

  /** The bytes of a reply, word by word. */
  function ReplyBytes(xid: u32, o: Outcome): seq<byte>
  {
    match o
    case Denied(low, high) =>
      Be(xid, 4) + (Be(REPLY, 4) + (Be(1, 4) + (Be(0, 4) + (Be(low, 4) + Be(high, 4)))))
    case Answered(stat) =>
      Be(xid, 4) + (Be(REPLY, 4) + (Be(0, 4) + (Be(0, 4) + (Be(0, 4) + (Be(StatWord(stat), 4) + StatTail(stat))))))
  }

  /** reply(xid).reject().mismatch(...) */
  method WriteDenied(xid: u32, low: u32, high: u32) returns (binary: seq<byte>)
    ensures binary == ReplyBytes(xid, Denied(low, high))
  {
    hide Overlay, Be;
    var builder := new Builder();
    builder.Append32(xid);
    builder.Append32(REPLY);
    builder.Append32(1);
    builder.Append32(0);
    builder.Append32(low);
    builder.Append32(high);
    binary := builder.binary;
  }

  /** reply(xid).accept().null_auth(), then the status and what belongs to it. */
  method WriteAnswered(xid: u32, stat: AcceptStat) returns (binary: seq<byte>)
    ensures binary == ReplyBytes(xid, Answered(stat))
  {
    hide Overlay, Be;
    var builder := new Builder();
    builder.Append32(xid);
    builder.Append32(REPLY);
    builder.Append32(0);
    builder.Append32(0);
    builder.Append32(0);
    ghost var head := builder.binary;
    WriteStat(builder, stat);
    assert builder.binary == head + (Be(StatWord(stat), 4) + StatTail(stat));
    hide StatTail, StatWord;
    binary := builder.binary;
  }

  method WriteStat(builder: Builder, stat: AcceptStat)
    requires builder.AtEnd()
    modifies builder
    ensures builder.AtEnd()
    ensures builder.binary == old(builder.binary) + (Be(StatWord(stat), 4) + StatTail(stat))
  {
    hide Overlay, Be;
    builder.Append32(StatWord(stat));
    match stat
    case Success(results) =>
      builder.AppendBinary(results);
    case ProgMismatch(low, high) =>
      builder.Append32(low);
      builder.Append32(high);
    case _ =>
  }

  lemma TakeAcceptStatOfBytes(a: AcceptStat)
    ensures TakeAcceptStat(Be(StatWord(a), 4) + StatTail(a)) == Got(a, [])
  {
    hide Take32;
    Take32OfBe(StatWord(a), StatTail(a));
    match a
    case ProgMismatch(low, high) =>
      Take32OfBe(low, Be(high, 4));
      Take32OfBe(high, []);
      assert Be(high, 4) + [] == Be(high, 4);
    case _ =>
  }

  /** Every reply the program writes is a reply message of the standard with the
      same xid, and nothing follows it. */
  lemma ReplyRoundTrip(xid: u32, o: Outcome)
    ensures TakeReply(ReplyBytes(xid, o)) == Got(ReplyOf(xid, o), [])
  {
    match o
    case Denied(low, high) =>
      var s3 := Be(0, 4) + (Be(low, 4) + Be(high, 4));
      hide Take32, Be;
      Take32OfBe(xid, Be(REPLY, 4) + (Be(1, 4) + s3));
      Take32OfBe(REPLY, Be(1, 4) + s3);
      Take32OfBe(1, s3);
      Take32OfBe(0, Be(low, 4) + Be(high, 4));
      Take32OfBe(low, Be(high, 4));
      Take32OfBe(high, []);
      assert Be(high, 4) + [] == Be(high, 4);
    case Answered(stat) =>
      AnsweredRoundTrip(xid, stat);
  }

  lemma AnsweredRoundTrip(xid: u32, stat: AcceptStat)
    ensures TakeReply(ReplyBytes(xid, Answered(stat))) == Got(Accepted(xid, AUTH_NULL, stat), [])
  {
    var s5 := Be(StatWord(stat), 4) + StatTail(stat);
    var s4 := Be(0, 4) + s5;
    var s3 := Be(0, 4) + s4;
    NullBody(s5);
    TakeAcceptStatOfBytes(stat);
    hide Take32, Be, TakeOpaque, TakeAcceptStat, StatWord, StatTail;
    Take32OfBe(xid, Be(REPLY, 4) + (Be(0, 4) + s3));
    Take32OfBe(REPLY, Be(0, 4) + s3);
    Take32OfBe(0, s3);
    Take32OfBe(0, s4);
  }

  lemma NullBody(rest: seq<byte>)
    ensures TakeOpaque(Be(0, 4) + rest, MAX_AUTH) == Got([], rest)
  {
    TakeOpaqueOfEnc([], MAX_AUTH, rest);
    assert EncOpaque([]) == Be(0, 4) + [] + Zeros(0);
    assert EncOpaque([]) == Be(0, 4);
  }
}
