/** The RPC router: programs by number, versions by range, procedures by range. */
module Router {
  import opened Wrappers
  import opened Bytes
  import opened BinaryReader
  import opened RangeMap
  import opened Rpc
  import opened XdrDecoder

  /** Who asks and with which parameter bytes. */
  datatype Args = Args(sender: OctetString, parameters: seq<byte>)

  /** A procedure: from the server's state and the arguments to the new state and
      the response, or None for invalid arguments. */
  type Callback<!S> = (S, Args) -> (S, Option<seq<byte>>)

  datatype Procedure<!S> = Procedure(name: Option<OctetString>, callback: Option<Callback<S>>)

  type ProcedureMap<!S> = Range<Procedure<S>>
  type VersionMap<!S> = Range<ProcedureMap<S>>

  datatype Program<!S> = Program(id: u32, version: u32, procedures: ProcedureMap<S>)

  function BlankProcedure<S>(): Procedure<S>
  {
    Procedure(None, None)
  }

  function NoProcedures<S>(): ProcedureMap<S>
  {
    Empty(BlankProcedure<S>())
  }

  // ----- what the router decides -----

  /** The decision chain behind the version check of the protocol: the status, and
      the server's state after at most one callback. */
  function Select<S>(programs: map<u32, VersionMap<S>>, server: S, sender: OctetString,
                     program: u32, version: u32, procedure: u32, parameters: seq<byte>): (S, AcceptStat)
  {
    if program !in programs then (server, ProgUnavail)
    else
      var versions := programs[program];
      if !versions.Contains(version) then
        (server, ProgMismatch(versions.RangeStart(), (versions.RangeEnd() - 1) % TWO_32))
      else
        match versions.Lookup(version)
        case None => (server, ProcUnavail)
        case Some(procedures) =>
          match procedures.Lookup(procedure)
          case None => (server, ProcUnavail)
          case Some(p) =>
            if p.callback.None? || p.name.None? then (server, ProcUnavail)
            else
              var (after, response) := p.callback.value(server, Args(sender, parameters));
              (after, match response
                      case None => GarbageArgs
                      case Some(results) => AcceptStat.Success(results))
  }

  class Router<S> {
    var programs: map<u32, VersionMap<S>>

    constructor ()
      ensures programs == map[]
    {
      programs := map[];
    }

    method Add(p: Program<S>)
      requires VersionsOf(programs, p.id).SetInBounds(p.version)
      modifies this
      ensures programs == old(programs)[p.id := VersionsOf(old(programs), p.id).Set(p.version, p.procedures)]
    {
      var versions := new RangeMap(VersionsOf(programs, p.id));
      versions.Set(p.version, p.procedures);
      programs := programs[p.id := versions.Value()];
    }

    /** handle: bytes in, bytes out; an empty answer means no reply. */
    method Handle(server: S, sender: OctetString, request: View) returns (after: S, reply: seq<byte>)
      ensures (after, reply) == Answer(programs, server, sender, request)
    {
      after, reply := server, [];
      if !request.HasSize(8) {
        return;
      }
      var xid := BinaryReader.Get32(request, 0);
      var messageType := BinaryReader.Get32(request, 4);
      if messageType != CALL {
        return;
      }
      var body := CallBodyReader.On(request.Tail(8));
      if !body.Valid() {
        return;
      }
      if body.Version() != RPC_VERSION {
        reply := WriteDenied(xid, RPC_VERSION, RPC_VERSION);
        return;
      }
      var (next, stat) := Select(
        programs, server, sender, body.Program(), body.ProgramVersion(), body.Procedure(), body.Parameters());
      after := next;
      reply := WriteAnswered(xid, stat);
    }
  }

  function VersionsOf<S>(programs: map<u32, VersionMap<S>>, id: u32): VersionMap<S>
  {
    if id in programs then programs[id] else Empty(NoProcedures<S>())
  }

  function Answer<S>(programs: map<u32, VersionMap<S>>, server: S, sender: OctetString, request: View): (S, seq<byte>)
  {
    if !request.HasSize(8) || request.Get32(4) != CALL then (server, [])
    else
      var body := CallBodyReader.On(request.Tail(8));
      if !body.Valid() then (server, [])
      else if body.Version() != RPC_VERSION then
        (server, ReplyBytes(request.Get32(0), Denied(RPC_VERSION, RPC_VERSION)))
      else
        var (next, stat) := Select(
          programs, server, sender, body.Program(), body.ProgramVersion(), body.Procedure(), body.Parameters());
        (next, ReplyBytes(request.Get32(0), Answered(stat)))
  }

  // ----- the registry -----

  /** The version settings of one program among those added. */
  function SettingsOf<S>(added: seq<Program<S>>, id: u32): seq<Setting<ProcedureMap<S>>>
  {
    if added == [] then []
    else
      var p := added[|added| - 1];
      SettingsOf(added[..|added| - 1], id) + if p.id == id then [Setting(p.version, p.procedures)] else []
  }

  /** No program is added below its own first version. */
  ghost predicate Admissible<S>(added: seq<Program<S>>)
  {
    forall id: u32 :: NeverBelowFirst(SettingsOf(added, id))
  }

  function Ids<S>(added: seq<Program<S>>): set<u32>
  {
    if added == [] then {} else Ids(added[..|added| - 1]) + {added[|added| - 1].id}
  }

  lemma {:induction false} IdsHaveSettings<S>(added: seq<Program<S>>, id: u32)
    ensures id in Ids(added) <==> SettingsOf(added, id) != []
  {
    if added == [] {
    } else {
      IdsHaveSettings(added[..|added| - 1], id);
    }
  }

  /** What the router holds after the programs were added in order: under each
      number the range its version settings build. */
  ghost function Registry<S>(added: seq<Program<S>>): map<u32, VersionMap<S>>
    requires Admissible(added)
  {
    map id | id in Ids(added) :: Build(SettingsOf(added, id), NoProcedures<S>())
  }

  lemma SettingsSnoc<S>(front: seq<Program<S>>, p: Program<S>, id: u32)
    ensures SettingsOf(front + [p], id)
         == SettingsOf(front, id) + if p.id == id then [Setting(p.version, p.procedures)] else []
    ensures Ids(front + [p]) == Ids(front) + {p.id}
  {
    assert (front + [p])[..|front|] == front;
  }

  /** Adding a program not below its first version is always in bounds, and takes
      the registry of the programs before to the registry with it. */
  lemma RegistryAdd<S>(front: seq<Program<S>>, p: Program<S>)
    requires Admissible(front) && Admissible(front + [p])
    ensures var versions := VersionsOf(Registry(front), p.id);
            && versions.SetInBounds(p.version)
            && Registry(front + [p]) == Registry(front)[p.id := versions.Set(p.version, p.procedures)]
  {
    AddedVersions(front, p);
    hide Registry, VersionsOf, Admissible, Range.Set, Range.SetInBounds;
    forall id: u32 | id != p.id
      ensures id in Registry(front + [p]) <==> id in Registry(front)
      ensures id in Registry(front) ==> Registry(front + [p])[id] == Registry(front)[id]
    {
      OtherVersions(front, p, id);
    }
    IsUpdate(Registry(front), Registry(front + [p]), p.id);
  }

  lemma IsUpdate<T>(a: map<u32, T>, b: map<u32, T>, id: u32)
    requires id in b
    requires forall k: u32 :: k != id ==> (k in b <==> k in a) && (k in a ==> b[k] == a[k])
    ensures b == a[id := b[id]]
  {}

  lemma AddedVersions<S>(front: seq<Program<S>>, p: Program<S>)
    requires Admissible(front) && Admissible(front + [p])
    ensures var versions := VersionsOf(Registry(front), p.id);
            && versions.SetInBounds(p.version)
            && p.id in Registry(front + [p])
            && Registry(front + [p])[p.id] == versions.Set(p.version, p.procedures)
  {
    VersionsAreBuilt(front, p.id);
    VersionsAreBuilt(front + [p], p.id);
    SettingsSnoc(front, p, p.id);
    hide Registry, SettingsOf, Build, Ids, Range.Set, Range.SetInBounds;
    BuildSnoc(SettingsOf(front, p.id), Setting(p.version, p.procedures), NoProcedures<S>());
  }

  lemma OtherVersions<S>(front: seq<Program<S>>, p: Program<S>, id: u32)
    requires Admissible(front) && Admissible(front + [p]) && id != p.id
    ensures id in Registry(front + [p]) <==> id in Registry(front)
    ensures id in Registry(front) ==> Registry(front + [p])[id] == Registry(front)[id]
  {
    VersionsAreBuilt(front, id);
    VersionsAreBuilt(front + [p], id);
    SettingsSnoc(front, p, id);
    hide Registry, SettingsOf, Build, Ids;
    assert SettingsOf(front, id) + [] == SettingsOf(front, id);
  }

  lemma BuildSnoc<T>(sets: seq<Setting<T>>, last: Setting<T>, blank: T)
    requires NeverBelowFirst(sets) && NeverBelowFirst(sets + [last])
    ensures var m := Build(sets, blank);
            && m.SetInBounds(last.key)
            && Build(sets + [last], blank) == m.Set(last.key, last.data)
  {
    var all := sets + [last];
    assert all[..|all| - 1] == sets && all[|all| - 1] == last;
    assert all[0].key <= last.key < TWO_32 - 1;
    SetUpdates(Build(sets, blank), last.key, last.data);
  }

  // ----- the flat view -----

  /** The last program added under a number and version. */
  function LastAdded<S>(added: seq<Program<S>>, id: u32, version: u32): Option<Program<S>>
  {
    if added == [] then None
    else
      var p := added[|added| - 1];
      if p.id == id && p.version == version then Some(p) else LastAdded(added[..|added| - 1], id, version)
  }

  /** The versions added under a number. */
  function VersionSet<S>(added: seq<Program<S>>, id: u32): set<u32>
  {
    if added == [] then {}
    else
      var p := added[|added| - 1];
      VersionSet(added[..|added| - 1], id) + if p.id == id then {p.version} else {}
  }

  predicate IsLeast(x: u32, s: set<u32>)
  {
    x in s && forall y :: y in s ==> x <= y
  }

  predicate IsGreatest(x: u32, s: set<u32>)
  {
    x in s && forall y :: y in s ==> y <= x
  }

  /** The procedure registered under program, version and number, if it can be called. */
  function Registered<S>(added: seq<Program<S>>, program: u32, version: u32, procedure: u32): Option<Procedure<S>>
  {
    match LastAdded(added, program, version)
    case None => None
    case Some(p) => Callable(p.procedures.Lookup(procedure))
  }

  function Callable<S>(p: Option<Procedure<S>>): Option<Procedure<S>>
  {
    if p.Some? && p.value.name.Some? && p.value.callback.Some? then p else None
  }

  /** A table built by settings in any order that never goes below the first has
      exactly the callable procedures that were last set at each number. */
  lemma {:induction false} TableIsFlat<S>(sets: seq<Setting<Procedure<S>>>, number: u32)
    requires NeverBelowFirst(sets)
    ensures Callable(Build(sets, BlankProcedure<S>()).Lookup(number)) == Callable(Latest(sets, number))
  {
    BuildLookup(sets, BlankProcedure<S>(), number);
  }

  lemma {:induction false} LatestSetting<S>(added: seq<Program<S>>, id: u32, version: u32)
    ensures var p := LastAdded(added, id, version);
            Latest(SettingsOf(added, id), version) == if p.Some? then Some(p.value.procedures) else None
  {
    if added == [] {
    } else {
      var front, p := added[..|added| - 1], added[|added| - 1];
      LatestSetting(front, id, version);
      var all := SettingsOf(added, id);
      if p.id == id {
        assert all[..|all| - 1] == SettingsOf(front, id);
      } else {
        assert all == SettingsOf(front, id);
      }
    }
  }

  function KeySet<T>(sets: seq<Setting<T>>): set<u32>
  {
    if sets == [] then {} else KeySet(sets[..|sets| - 1]) + {sets[|sets| - 1].key}
  }

  lemma {:induction false} SettingKeys<S>(added: seq<Program<S>>, id: u32)
    ensures KeySet(SettingsOf(added, id)) == VersionSet(added, id)
  {
    if added == [] {
    } else {
      var front, p := added[..|added| - 1], added[|added| - 1];
      SettingKeys(front, id);
      var all := SettingsOf(added, id);
      if p.id == id {
        assert all[..|all| - 1] == SettingsOf(front, id);
      } else {
        assert all == SettingsOf(front, id);
      }
    }
  }

  lemma {:induction false} KeyBounds<T>(sets: seq<Setting<T>>)
    requires sets != [] && NeverBelowFirst(sets)
    ensures IsLeast(sets[0].key, KeySet(sets)) && IsGreatest(Highest(sets), KeySet(sets))
  {
    var front, last := sets[..|sets| - 1], sets[|sets| - 1];
    assert sets[0].key <= last.key;
    if |sets| > 1 {
      assert front[0] == sets[0];
      KeyBounds(front);
    } else {
      assert front == [] && KeySet(sets) == KeySet(front) + {last.key};
    }
  }

  /** What a callable procedure makes of a call: it runs once. */
  function Perform<S>(p: Procedure<S>, server: S, args: Args): (S, AcceptStat)
    requires p.callback.Some?
  {
    var (after, response) := p.callback.value(server, args);
    (after, match response
            case None => GarbageArgs
            case Some(results) => AcceptStat.Success(results))
  }

  lemma VersionsAreBuilt<S>(added: seq<Program<S>>, id: u32)
    requires Admissible(added)
    ensures NeverBelowFirst(SettingsOf(added, id))
    ensures id in Registry(added) <==> SettingsOf(added, id) != []
    ensures VersionsOf(Registry(added), id) == Build(SettingsOf(added, id), NoProcedures<S>())
  {
    assert NeverBelowFirst(SettingsOf(added, id));
    IdsHaveSettings(added, id);
  }

  lemma LeastIsMember(x: u32, s: set<u32>)
    requires IsLeast(x, s)
    ensures s != {}
  {}

  /** A program is known when some version of it was added; its range then runs
      from the least version added to the greatest. */
  lemma BoundsAreFlat<S>(added: seq<Program<S>>, program: u32)
    requires Admissible(added)
    ensures var all := VersionSet(added, program);
            var versions := VersionsOf(Registry(added), program);
            && (program in Registry(added) <==> all != {})
            && (all != {} ==> IsLeast(versions.RangeStart(), all) && versions.RangeEnd() > 0
                              && IsGreatest(versions.RangeEnd() - 1, all))
  {
    hide Registry, VersionsOf, Build, VersionSet, SettingsOf, Highest, Range.RangeEnd, IsLeast, IsGreatest;
    VersionsAreBuilt(added, program);
    SettingKeys(added, program);
    BuildLookup(SettingsOf(added, program), NoProcedures<S>(), 0);
    if SettingsOf(added, program) != [] {
      KeyBounds(SettingsOf(added, program));
      LeastIsMember(SettingsOf(added, program)[0].key, VersionSet(added, program));
    }
  }

  lemma {:induction false} LastIsMember<S>(added: seq<Program<S>>, id: u32, version: u32)
    ensures LastAdded(added, id, version).Some? ==> version in VersionSet(added, id)
  {
    if added == [] {
    } else {
      LastIsMember(added[..|added| - 1], id, version);
    }
  }

  /** A version is found when it was added, with what was added last; between the
      versions added there are empty programs. */
  lemma VersionIsFlat<S>(added: seq<Program<S>>, program: u32, version: u32)
    requires Admissible(added)
    ensures var versions := VersionsOf(Registry(added), program);
            var last := LastAdded(added, program, version);
            && versions.Lookup(version) == (if last.Some? then Some(last.value.procedures)
                                            else if versions.Contains(version) then Some(NoProcedures<S>())
                                            else None)
            && (last.Some? ==> versions.Contains(version))
            && (last.Some? ==> VersionSet(added, program) != {})
  {
    hide Registry, VersionsOf, Build, SettingsOf, VersionSet, Highest, Latest, LastAdded, Range.Lookup, Range.Contains;
    VersionsAreBuilt(added, program);
    LastIsMember(added, program, version);
    LatestSetting(added, program, version);
    BuildLookup(SettingsOf(added, program), NoProcedures<S>(), version);
  }

  /** The decision chain in terms of one version range. */
  lemma SelectByRange<S>(programs: map<u32, VersionMap<S>>, server: S, sender: OctetString,
                         program: u32, version: u32, procedure: u32, parameters: seq<byte>)
    ensures var versions := VersionsOf(programs, program);
            var found := versions.Lookup(version);
            var usable := if found.Some? then Callable(found.value.Lookup(procedure)) else None;
            var (after, stat) := Select(programs, server, sender, program, version, procedure, parameters);
            && (stat.ProgUnavail? <==> program !in programs)
            && (stat.ProgMismatch? <==> program in programs && !versions.Contains(version))
            && (stat.ProgMismatch? ==>
                  stat.low == versions.RangeStart() && stat.high == (versions.RangeEnd() - 1) % TWO_32)
            && (program in programs && versions.Contains(version) && usable.Some? ==>
                  (after, stat) == Perform(usable.value, server, Args(sender, parameters)))
            && (program in programs && versions.Contains(version) && usable.None? ==>
                  (after, stat) == (server, ProcUnavail))
            && (stat.ProgUnavail? || stat.ProgMismatch? ==> after == server)
  {
    hide Range.Lookup, Range.Contains, Range.RangeEnd;
  }

  /** Routing over nested ranges decides as the flat registry does: an unknown
      program; a version outside the ones added, answered with the least and the
      greatest of them; a callable procedure, which runs once; and in all other
      cases, gaps between versions or procedures included, no such procedure. */
  lemma SelectIsFlat<S>(added: seq<Program<S>>, server: S, sender: OctetString,
                        program: u32, version: u32, procedure: u32, parameters: seq<byte>)
    requires Admissible(added)
    ensures var all := VersionSet(added, program);
            var registered := Registered(added, program, version, procedure);
            var (after, stat) := Select(Registry(added), server, sender, program, version, procedure, parameters);
            && (stat.ProgUnavail? <==> all == {})
            && (stat.ProgMismatch? <==> all != {} && Outside(version, all))
            && (stat.ProgMismatch? ==> IsLeast(stat.low, all) && IsGreatest(stat.high, all))
            && (registered.Some? ==>
                  var (returned, response) := registered.value.callback.value(server, Args(sender, parameters));
                  && after == returned
                  && (response.None? ==> stat == GarbageArgs)
                  && (response.Some? ==> stat == AcceptStat.Success(response.value)))
            && (registered.None? ==> after == server && (stat.ProgUnavail? || stat.ProgMismatch? || stat.ProcUnavail?))
  {
    hide Registry, VersionSet, LastAdded, Select, VersionsOf, Range.Lookup, Callable;
    BoundsAreFlat(added, program);
    VersionIsFlat(added, program, version);
    SelectByRange(Registry(added), server, sender, program, version, procedure, parameters);
    NothingCallable<S>(procedure);
    var all, versions := VersionSet(added, program), VersionsOf(Registry(added), program);
    if all != {} {
      OutsideBounds(version, all, versions.RangeStart(), versions.RangeEnd() - 1);
    }
  }

  /** Below or above every version of the set. */
  predicate Outside(version: u32, all: set<u32>)
  {
    (forall v :: v in all ==> version < v) || (forall v :: v in all ==> v < version)
  }

  lemma OutsideBounds(version: u32, all: set<u32>, low: u32, high: u32)
    requires IsLeast(low, all) && IsGreatest(high, all)
    ensures Outside(version, all) <==> version < low || high < version
  {}

  lemma NothingCallable<S>(procedure: u32)
    ensures Callable(NoProcedures<S>().Lookup(procedure)) == None
  {}

  // ----- whole calls -----

  /** For every well-formed call the router writes exactly one reply, a reply
      message of the standard with the call's xid, nothing behind it: a denial if
      the protocol version is not 2, else the decision of the flat registry. */
  lemma CallIsAnswered<S>(added: seq<Program<S>>, server: S, sender: OctetString, request: View, c: Call)
    requires Admissible(added) && CallFits(c)
    requires request.At(0, EncCall(c)) && request.Size() == |EncCall(c)|
    ensures var (after, reply) := Answer(Registry(added), server, sender, request);
            var (expected, stat) :=
              Select(Registry(added), server, sender, c.program, c.version, c.procedure, c.parameters);
            if c.rpcVersion != RPC_VERSION
            then after == server && TakeReply(reply) == Got(Reply.RpcMismatch(c.xid, RPC_VERSION, RPC_VERSION), [])
            else after == expected && TakeReply(reply) == Got(Accepted(c.xid, AUTH_NULL, stat), [])
  {
    hide Registry, Select, TakeReply, ReplyBytes;
    var body := request.Tail(8);
    assert request.Get32(0) == c.xid && request.Get32(4) == CALL && request.HasSize(8) by { CallLayout(request, c); }
    assert body.At(0, EncBody(c)) && body.Size() == |EncBody(c)| by { CallLayout(request, c); }
    BodyRoundTrip(body, c);
    ReplyRoundTrip(c.xid, Denied(RPC_VERSION, RPC_VERSION));
    var (expected, stat) := Select(Registry(added), server, sender, c.program, c.version, c.procedure, c.parameters);
    ReplyRoundTrip(c.xid, Answered(stat));
  }

  lemma CallLayout(request: View, c: Call)
    requires request.At(0, EncCall(c)) && request.Size() == |EncCall(c)|
    ensures request.Get32(0) == c.xid && request.Get32(4) == CALL && request.HasSize(8)
    ensures request.Tail(8).At(0, EncBody(c)) && request.Tail(8).Size() == |EncBody(c)|
  {
    hide EncBody;
    AtMeansInside(request, EncCall(c));
    AtSplit(request, 0, Be(c.xid, 4), Be(CALL, 4) + EncBody(c));
    AtSplit(request, 4, Be(CALL, 4), EncBody(c));
    At32(request, 0, c.xid);
    At32(request, 4, CALL);
    AtTail(request, 8, 0, EncBody(c));
  }

  /** Whatever is not a call gets no reply and changes nothing. */
  lemma NoCallNoReply<S>(programs: map<u32, VersionMap<S>>, server: S, sender: OctetString, request: View)
    requires || !request.HasSize(8) || request.Get32(4) != CALL
             || !CallBodyReader.On(request.Tail(8)).Valid()
    ensures Answer(programs, server, sender, request) == (server, [])
  {}
}
