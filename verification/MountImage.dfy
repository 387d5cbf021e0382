/** Saving the mount cache to a binary image and restoring it.

    The image has three counted lists: mounts with their Windows paths, queried
    paths with their mounts, and clients with theirs. Handles, the path index and
    the next id are not saved. */
module MountImage {
  import opened Bytes
  import opened BinaryReader
  import opened MountCache

  datatype PathRecord = PathRecord(id: u64, path: WString)
  datatype QueryRecord = QueryRecord(query: OctetString, id: u64)
  datatype ClientRecord = ClientRecord(client: OctetString, ids: seq<u64>)
  datatype Image = Image(paths: seq<PathRecord>, queries: seq<QueryRecord>, clients: seq<ClientRecord>)

  // ----- the layout -----

  function EncPath(r: PathRecord): seq<byte>
  {
    Be(r.id, 8) + (Be(|r.path|, 4) + WBytes(r.path))
  }

  function EncPaths(rs: seq<PathRecord>): seq<byte>
  {
    if rs == [] then [] else EncPath(rs[0]) + EncPaths(rs[1..])
  }

  function EncQuery(r: QueryRecord): seq<byte>
  {
    Be(|r.query|, 4) + (r.query + Be(r.id, 8))
  }

  function EncQueries(rs: seq<QueryRecord>): seq<byte>
  {
    if rs == [] then [] else EncQuery(rs[0]) + EncQueries(rs[1..])
  }

  function EncIds(ids: seq<u64>): (r: seq<byte>)
    ensures |r| == 8 * |ids|
  {
    if ids == [] then [] else Be(ids[0], 8) + EncIds(ids[1..])
  }

  function EncClient(r: ClientRecord): seq<byte>
  {
    Be(|r.client|, 4) + (r.client + (Be(|r.ids|, 4) + EncIds(r.ids)))
  }

  function EncClients(rs: seq<ClientRecord>): seq<byte>
  {
    if rs == [] then [] else EncClient(rs[0]) + EncClients(rs[1..])
  }

  function EncImage(i: Image): seq<byte>
  {
    Be(|i.paths|, 4) + (EncPaths(i.paths) + (Be(|i.queries|, 4) + (EncQueries(i.queries)
    + (Be(|i.clients|, 4) + EncClients(i.clients)))))
  }

  lemma {:induction false} BeSmall(x: byte, n: nat)
    requires n > 0
    ensures Be(x, n) == Zeros(n - 1) + [x]
  {
    if n == 1 {
      assert Be(x / 256, 0) == [];
    } else {
      BeZero(n - 1);
    }
  }

  lemma {:induction false} BeZero(n: nat)
    ensures Be(0, n) == Zeros(n)
  {
    if n == 0 {
    } else {
      BeZero(n - 1);
    }
  }

  /** A small number in four bytes and in eight. */
  function Word(x: byte): seq<byte>
  {
    [0, 0, 0, x]
  }

  function Long(x: byte): seq<byte>
  {
    [0, 0, 0, 0, 0, 0, 0, x]
  }

  lemma WordsAre(x: byte)
    ensures Be(x, 4) == Word(x) && Be(x, 8) == Long(x)
  {
    BeSmall(x, 4);
    BeSmall(x, 8);
  }

  lemma OnePath(id: byte, path: byte)
    ensures EncPaths([PathRecord(id, [path])]) == Long(id) + Word(1) + [path, 0]
  {
    WordsAre(id);
    WordsAre(1);
    hide Be, Word, Long;
    var p := PathRecord(id, [path]);
    assert EncPaths([p]) == EncPath(p) + EncPaths([]);
    assert WBytes([path]) == [path, 0] + WBytes([]);
  }

  lemma OneQuery(query: byte, id: byte)
    ensures EncQueries([QueryRecord([query], id)]) == Word(1) + [query] + Long(id)
  {
    WordsAre(id);
    WordsAre(1);
    hide Be, Word, Long;
    var q := QueryRecord([query], id);
    assert EncQueries([q]) == EncQuery(q) + EncQueries([]);
  }

  lemma OneClient(client: byte, id: byte)
    ensures EncClients([ClientRecord([client], [id])]) == Word(1) + [client] + Word(1) + Long(id)
  {
    WordsAre(id);
    WordsAre(1);
    hide Be, Word, Long;
    var c := ClientRecord([client], [id]);
    assert EncClients([c]) == EncClient(c) + EncClients([]);
    assert EncIds([id]) == Long(id) + EncIds([]);
  }

  /** The image of a cache with one mount, on a path of one letter, asked for by one
      client under a path of one letter: numbers have their most significant byte
      first, code units their least significant one, as they lie in memory. */
  lemma ImageOfOne(id: byte, path: byte, query: byte, client: byte)
    ensures EncImage(Image([PathRecord(id, [path])], [QueryRecord([query], id)], [ClientRecord([client], [id])])) ==
            Word(1) + (Long(id) + Word(1) + [path, 0])
            + Word(1) + (Word(1) + [query] + Long(id))
            + Word(1) + (Word(1) + [client] + Word(1) + Long(id))
  {
    WordsAre(1);
    OnePath(id, path);
    OneQuery(query, id);
    OneClient(client, id);
    hide Be, Word, Long, EncPaths, EncQueries, EncClients;
  }

  // ----- restoring: reading at a 32-bit offset -----

  function Add32(offset: u32, n: nat): u32
  {
    (offset + n) % TWO_32
  }

  function GetWString(v: View, offset: nat, size: nat): WString
  {
    WOf(v.Slice(offset, 2 * size), size)
  }

  /** max(id + 1, next), id + 1 in 64 bits. */
  function NextAfter(id: u64, next: u64): u64
  {
    if (id + 1) % TWO_64 > next then (id + 1) % TWO_64 else next
  }

  function RestorePath(st: CacheState, fs: FileSystem, r: PathRecord): CacheState
  {
    var mounted := MountWindowsPath(st, fs, r.id, r.path).0;
    mounted.(next := NextAfter(r.id, mounted.next))
  }

  function RestoreQuery(st: CacheState, r: QueryRecord): CacheState
  {
    if r.id in st.mounts then st.(queries := st.queries[r.query := r.id]) else st
  }

  function RestoreSender(st: CacheState, client: OctetString, id: u64): CacheState
  {
    if id in st.mounts then MountSender(st, client, id) else st
  }

  function PathAt(v: View, offset: u32): (PathRecord, u32)
  {
    var behindId := Add32(offset, 8);
    var size := v.Get32(behindId);
    var behindSize := Add32(behindId, 4);
    (PathRecord(v.Get64(offset), GetWString(v, behindSize, size)), Add32(behindSize, size * 2))
  }

  function QueryAt(v: View, offset: u32): (QueryRecord, u32)
  {
    var size := v.Get32(offset);
    var behind := Add32(Add32(offset, 4), size);
    (QueryRecord(v.Slice(Add32(offset, 4), size), v.Get64(behind)), Add32(behind, 8))
  }

  function RestorePaths(st: CacheState, fs: FileSystem, v: View, offset: u32, n: nat): (CacheState, u32)
    decreases n
  {
    if n == 0 then (st, offset)
    else
      var (r, next) := PathAt(v, offset);
      RestorePaths(RestorePath(st, fs, r), fs, v, next, n - 1)
  }

  function RestoreQueries(st: CacheState, v: View, offset: u32, n: nat): (CacheState, u32)
    decreases n
  {
    if n == 0 then (st, offset)
    else
      var (r, next) := QueryAt(v, offset);
      RestoreQueries(RestoreQuery(st, r), v, next, n - 1)
  }

  function RestoreIds(st: CacheState, client: OctetString, v: View, offset: u32, n: nat): (CacheState, u32)
    decreases n
  {
    if n == 0 then (st, offset)
    else RestoreIds(RestoreSender(st, client, v.Get64(offset)), client, v, Add32(offset, 8), n - 1)
  }

  function RestoreClient(st: CacheState, v: View, offset: u32): (CacheState, u32)
  {
    var size := v.Get32(offset);
    var client := v.Slice(Add32(offset, 4), size);
    var behind := Add32(Add32(offset, 4), size);
    RestoreIds(st, client, v, Add32(behind, 4), v.Get32(behind))
  }

  function RestoreClients(st: CacheState, v: View, offset: u32, n: nat): (CacheState, u32)
    decreases n
  {
    if n == 0 then (st, offset)
    else
      var (after, next) := RestoreClient(st, v, offset);
      RestoreClients(after, v, next, n - 1)
  }

  /** What restoring any image makes of a cache. */
  function Restored(st: CacheState, fs: FileSystem, binary: seq<byte>): CacheState
  {
    RestoredView(st, fs, Whole(binary))
  }

  function RestoredView(st: CacheState, fs: FileSystem, v: View): CacheState
  {
    var (s1, o1) := RestorePaths(st, fs, v, Add32(0, 4), v.Get32(0));
    var (s2, o2) := RestoreQueries(s1, v, Add32(o1, 4), v.Get32(o1));
    RestoreClients(s2, v, Add32(o2, 4), v.Get32(o2)).0
  }

  method SafeRestore(cache: MountCache, fs: FileSystem, binary: seq<byte>)
    modifies cache
    ensures cache.State() == Restored(old(cache.State()), fs, binary)
  {
    hide Add32, View.Get32, View.Slice, RestorePaths, RestoreQueries;
    var reader := Whole(binary);
    var offset: u32 := 0;
    var pathCount := BinaryReader.Get32(reader, offset);
    offset := Add32(offset, 4);
    offset := RestorePathList(cache, fs, reader, offset, pathCount);
    var queryCount := BinaryReader.Get32(reader, offset);
    offset := Add32(offset, 4);
    offset := RestoreQueryList(cache, reader, offset, queryCount);
    var clientCount := BinaryReader.Get32(reader, offset);
    offset := Add32(offset, 4);
    ghost var before, start := cache.State(), offset;
    var i := 0;
    while i < clientCount
      invariant 0 <= i <= clientCount
      invariant RestoreClients(before, reader, start, clientCount)
             == RestoreClients(cache.State(), reader, offset, clientCount - i)
    {
      var size := BinaryReader.Get32(reader, offset);
      offset := Add32(offset, 4);
      var client := reader.Slice(offset, size);
      offset := Add32(offset, size);
      var idCount := BinaryReader.Get32(reader, offset);
      offset := Add32(offset, 4);
      offset := RestoreIdList(cache, client, reader, offset, idCount);
      i := i + 1;
    }
  }

  method RestorePathList(cache: MountCache, fs: FileSystem, reader: View, start: u32, count: u32) returns (offset: u32)
    modifies cache
    ensures (cache.State(), offset) == RestorePaths(old(cache.State()), fs, reader, start, count)
  {
    hide Add32, GetWString, MountWindowsPath, View.Get32, View.Get64;
    offset := start;
    var i := 0;
    while i < count
      invariant 0 <= i <= count
      invariant RestorePaths(old(cache.State()), fs, reader, start, count)
             == RestorePaths(cache.State(), fs, reader, offset, count - i)
    {
      ghost var before, at := cache.State(), offset;
      var id := BinaryReader.Get64(reader, offset);
      offset := Add32(offset, 8);
      var size := BinaryReader.Get32(reader, offset);
      offset := Add32(offset, 4);
      var path := GetWString(reader, offset, size);
      var pathBytes: int := size;
      offset := Add32(offset, pathBytes * 2);
      var _ := cache.SafeMountWindowsPath(fs, id, path);
      cache.nextMount := NextAfter(id, cache.nextMount);
      assert PathAt(reader, at) == (PathRecord(id, path), offset);
      assert cache.State() == RestorePath(before, fs, PathRecord(id, path));
      i := i + 1;
    }
  }

  method RestoreQueryList(cache: MountCache, reader: View, start: u32, count: u32) returns (offset: u32)
    modifies cache
    ensures (cache.State(), offset) == RestoreQueries(old(cache.State()), reader, start, count)
  {
    offset := start;
    var i := 0;
    while i < count
      invariant 0 <= i <= count
      invariant RestoreQueries(old(cache.State()), reader, start, count)
             == RestoreQueries(cache.State(), reader, offset, count - i)
    {
      ghost var before, at := cache.State(), offset;
      var size := BinaryReader.Get32(reader, offset);
      offset := Add32(offset, 4);
      var query := reader.Slice(offset, size);
      offset := Add32(offset, size);
      var id := BinaryReader.Get64(reader, offset);
      offset := Add32(offset, 8);
      if id in cache.mountMap {
        cache.queryMap := cache.queryMap[query := id];
      }
      assert QueryAt(reader, at) == (QueryRecord(query, id), offset);
      assert cache.State() == RestoreQuery(before, QueryRecord(query, id));
      i := i + 1;
    }
  }

  method RestoreIdList(cache: MountCache, client: OctetString, reader: View, start: u32, count: u32)
    returns (offset: u32)
    modifies cache
    ensures (cache.State(), offset) == RestoreIds(old(cache.State()), client, reader, start, count)
  {
    offset := start;
    var j := 0;
    while j < count
      invariant 0 <= j <= count
      invariant RestoreIds(old(cache.State()), client, reader, start, count)
             == RestoreIds(cache.State(), client, reader, offset, count - j)
    {
      var id := BinaryReader.Get64(reader, offset);
      offset := Add32(offset, 8);
      if id in cache.mountMap {
        cache.SafeMountSender(client, id);
      }
      j := j + 1;
    }
  }

  // ----- restoring undoes the layout -----

  function ReplayPaths(st: CacheState, fs: FileSystem, rs: seq<PathRecord>): CacheState
    decreases rs
  {
    if rs == [] then st else ReplayPaths(RestorePath(st, fs, rs[0]), fs, rs[1..])
  }

  function ReplayQueries(st: CacheState, rs: seq<QueryRecord>): CacheState
    decreases rs
  {
    if rs == [] then st else ReplayQueries(RestoreQuery(st, rs[0]), rs[1..])
  }

  function ReplayIds(st: CacheState, client: OctetString, ids: seq<u64>): CacheState
    decreases ids
  {
    if ids == [] then st else ReplayIds(RestoreSender(st, client, ids[0]), client, ids[1..])
  }

  function ReplayClients(st: CacheState, rs: seq<ClientRecord>): CacheState
    decreases rs
  {
    if rs == [] then st else ReplayClients(ReplayIds(st, rs[0].client, rs[0].ids), rs[1..])
  }

  /** Restoring the records of an image one by one. */
  function Replay(st: CacheState, fs: FileSystem, i: Image): CacheState
  {
    ReplayClients(ReplayQueries(ReplayPaths(st, fs, i.paths), i.queries), i.clients)
  }

  lemma Add32Small(offset: nat, n: nat)
    requires offset + n < TWO_32
    ensures Add32(offset, n) == offset + n
  {}

  lemma PathLocated(v: View, offset: nat, r: PathRecord)
    requires v.At(offset, EncPath(r)) && |r.path| < TWO_32
    ensures v.Get64(offset) == r.id && v.Get32(offset + 8) == |r.path|
    ensures GetWString(v, offset + 12, |r.path|) == r.path
  {
    hide View.At;
    AtSplit(v, offset, Be(r.id, 8), Be(|r.path|, 4) + WBytes(r.path));
    AtSplit(v, offset + 8, Be(|r.path|, 4), WBytes(r.path));
    hide EncPath, Be, WBytes, WOf;
    At64(v, offset, r.id);
    At32(v, offset + 8, |r.path|);
    AtSlice(v, offset + 12, WBytes(r.path));
    WOfWBytes(r.path);
  }

  lemma PathAtEnc(v: View, offset: u32, r: PathRecord)
    requires v.At(offset, EncPath(r)) && offset + |EncPath(r)| < TWO_32
    ensures PathAt(v, offset) == (r, offset + |EncPath(r)|)
  {
    assert |EncPath(r)| == 12 + 2 * |r.path|;
    hide View.At, EncPath, Add32, GetWString, View.Get32, View.Get64;
    PathLocated(v, offset, r);
    Add32Small(offset, 8);
    Add32Small(offset + 8, 4);
    Add32Small(offset + 12, |r.path| * 2);
  }

  lemma QueryLocated(v: View, offset: nat, r: QueryRecord)
    requires v.At(offset, EncQuery(r)) && |r.query| < TWO_32
    ensures v.Get32(offset) == |r.query| && v.Slice(offset + 4, |r.query|) == r.query
    ensures v.Get64(offset + 4 + |r.query|) == r.id
  {
    hide View.At;
    AtSplit(v, offset, Be(|r.query|, 4), r.query + Be(r.id, 8));
    AtSplit(v, offset + 4, r.query, Be(r.id, 8));
    hide EncQuery, Be;
    At32(v, offset, |r.query|);
    AtSlice(v, offset + 4, r.query);
    At64(v, offset + 4 + |r.query|, r.id);
  }

  lemma QueryAtEnc(v: View, offset: u32, r: QueryRecord)
    requires v.At(offset, EncQuery(r)) && offset + |EncQuery(r)| < TWO_32
    ensures QueryAt(v, offset) == (r, offset + |EncQuery(r)|)
  {
    assert |EncQuery(r)| == 12 + |r.query|;
    hide View.At, EncQuery, Add32, View.Slice, View.Get32, View.Get64;
    QueryLocated(v, offset, r);
    Add32Small(offset, 4);
    Add32Small(offset + 4, |r.query|);
    Add32Small(offset + 4 + |r.query|, 8);
  }

  lemma {:induction false} RestorePathsOfEnc(st: CacheState, fs: FileSystem, v: View, offset: u32, rs: seq<PathRecord>)
    requires v.At(offset, EncPaths(rs)) && offset + |EncPaths(rs)| < TWO_32
    ensures RestorePaths(st, fs, v, offset, |rs|) == (ReplayPaths(st, fs, rs), offset + |EncPaths(rs)|)
    decreases rs
  {
    hide View.At, EncPath, PathAt, RestorePath;
    if rs == [] {
    } else {
      AtSplit(v, offset, EncPath(rs[0]), EncPaths(rs[1..]));
      PathAtEnc(v, offset, rs[0]);
      RestorePathsOfEnc(RestorePath(st, fs, rs[0]), fs, v, offset + |EncPath(rs[0])|, rs[1..]);
    }
  }

  lemma {:induction false} RestoreQueriesOfEnc(st: CacheState, v: View, offset: u32, rs: seq<QueryRecord>)
    requires v.At(offset, EncQueries(rs)) && offset + |EncQueries(rs)| < TWO_32
    ensures RestoreQueries(st, v, offset, |rs|) == (ReplayQueries(st, rs), offset + |EncQueries(rs)|)
    decreases rs
  {
    hide View.At, EncQuery, QueryAt, RestoreQuery;
    if rs == [] {
    } else {
      AtSplit(v, offset, EncQuery(rs[0]), EncQueries(rs[1..]));
      QueryAtEnc(v, offset, rs[0]);
      RestoreQueriesOfEnc(RestoreQuery(st, rs[0]), v, offset + |EncQuery(rs[0])|, rs[1..]);
    }
  }

  lemma {:induction false} RestoreIdsOfEnc(st: CacheState, client: OctetString, v: View, offset: u32, ids: seq<u64>)
    requires v.At(offset, EncIds(ids)) && offset + |EncIds(ids)| < TWO_32
    ensures RestoreIds(st, client, v, offset, |ids|) == (ReplayIds(st, client, ids), offset + |EncIds(ids)|)
    decreases ids
  {
    hide View.At, RestoreSender, View.Get64, Be;
    if ids == [] {
    } else {
      AtSplit(v, offset, Be(ids[0], 8), EncIds(ids[1..]));
      At64(v, offset, ids[0]);
      RestoreIdsOfEnc(RestoreSender(st, client, ids[0]), client, v, offset + 8, ids[1..]);
    }
  }

  lemma ClientLocated(v: View, offset: nat, r: ClientRecord)
    requires v.At(offset, EncClient(r)) && |r.client| < TWO_32 && |r.ids| < TWO_32
    ensures v.Get32(offset) == |r.client| && v.Slice(offset + 4, |r.client|) == r.client
    ensures v.Get32(offset + 4 + |r.client|) == |r.ids|
    ensures v.At(offset + 8 + |r.client|, EncIds(r.ids))
  {
    hide View.At, EncIds;
    var behind := offset + 4 + |r.client|;
    AtSplit(v, offset, Be(|r.client|, 4), r.client + (Be(|r.ids|, 4) + EncIds(r.ids)));
    AtSplit(v, offset + 4, r.client, Be(|r.ids|, 4) + EncIds(r.ids));
    AtSplit(v, behind, Be(|r.ids|, 4), EncIds(r.ids));
    hide EncClient, Be;
    At32(v, offset, |r.client|);
    AtSlice(v, offset + 4, r.client);
    At32(v, behind, |r.ids|);
  }

  lemma RestoreClientOfEnc(st: CacheState, v: View, offset: u32, r: ClientRecord)
    requires v.At(offset, EncClient(r)) && offset + |EncClient(r)| < TWO_32
    ensures RestoreClient(st, v, offset) == (ReplayIds(st, r.client, r.ids), offset + |EncClient(r)|)
  {
    assert |EncClient(r)| == 8 + |r.client| + |EncIds(r.ids)|;
    hide View.At, EncClient, EncIds, ReplayIds, RestoreIds, Add32, View.Slice, View.Get32;
    ClientLocated(v, offset, r);
    Add32Small(offset, 4);
    Add32Small(offset + 4, |r.client|);
    Add32Small(offset + 4 + |r.client|, 4);
    var at := offset + 8 + |r.client|;
    assert RestoreClient(st, v, offset) == RestoreIds(st, r.client, v, at, |r.ids|);
    hide RestoreClient;
    RestoreIdsOfEnc(st, r.client, v, at, r.ids);
  }

  lemma {:induction false} RestoreClientsOfEnc(st: CacheState, v: View, offset: u32, rs: seq<ClientRecord>)
    requires v.At(offset, EncClients(rs)) && offset + |EncClients(rs)| < TWO_32
    ensures RestoreClients(st, v, offset, |rs|) == (ReplayClients(st, rs), offset + |EncClients(rs)|)
    decreases rs
  {
    hide View.At, EncClient, RestoreClient, ReplayIds;
    if rs == [] {
    } else {
      AtSplit(v, offset, EncClient(rs[0]), EncClients(rs[1..]));
      RestoreClientOfEnc(st, v, offset, rs[0]);
      RestoreClientsOfEnc(ReplayIds(st, rs[0].client, rs[0].ids), v, offset + |EncClient(rs[0])|, rs[1..]);
    }
  }

  lemma ImageLayout(v: View, i: Image)
    requires v.At(0, EncImage(i))
    ensures var p := 4 + |EncPaths(i.paths)|;
            var q := p + 4 + |EncQueries(i.queries)|;
            && v.At(0, Be(|i.paths|, 4)) && v.At(4, EncPaths(i.paths))
            && v.At(p, Be(|i.queries|, 4)) && v.At(p + 4, EncQueries(i.queries))
            && v.At(q, Be(|i.clients|, 4)) && v.At(q + 4, EncClients(i.clients))
            && |EncImage(i)| == q + 4 + |EncClients(i.clients)|
  {
    hide View.At, EncPaths, EncQueries, EncClients;
    var p := 4 + |EncPaths(i.paths)|;
    var q := p + 4 + |EncQueries(i.queries)|;
    var s4 := Be(|i.clients|, 4) + EncClients(i.clients);
    var s3 := EncQueries(i.queries) + s4;
    var s2 := Be(|i.queries|, 4) + s3;
    AtSplit(v, 0, Be(|i.paths|, 4), EncPaths(i.paths) + s2);
    AtSplit(v, 4, EncPaths(i.paths), s2);
    AtSplit(v, p, Be(|i.queries|, 4), s3);
    AtSplit(v, p + 4, EncQueries(i.queries), s4);
    AtSplit(v, q, Be(|i.clients|, 4), EncClients(i.clients));
  }

  lemma {:induction false} PathCountBound(rs: seq<PathRecord>)
    ensures |rs| <= |EncPaths(rs)|
  {
    if rs == [] {
    } else {
      PathCountBound(rs[1..]);
    }
  }

  lemma {:induction false} QueryCountBound(rs: seq<QueryRecord>)
    ensures |rs| <= |EncQueries(rs)|
  {
    if rs == [] {
    } else {
      QueryCountBound(rs[1..]);
    }
  }

  lemma {:induction false} ClientCountBound(rs: seq<ClientRecord>)
    ensures |rs| <= |EncClients(rs)|
  {
    if rs == [] {
    } else {
      ClientCountBound(rs[1..]);
    }
  }

  lemma ImageCounts(v: View, i: Image)
    requires v.At(0, EncImage(i)) && |EncImage(i)| < TWO_32
    ensures v.Get32(0) == |i.paths| && v.Get32(4 + |EncPaths(i.paths)|) == |i.queries|
    ensures v.Get32(8 + |EncPaths(i.paths)| + |EncQueries(i.queries)|) == |i.clients|
  {
    hide View.At, EncImage, EncPaths, EncQueries, EncClients, Be;
    ImageLayout(v, i);
    PathCountBound(i.paths);
    QueryCountBound(i.queries);
    ClientCountBound(i.clients);
    At32(v, 0, |i.paths|);
    At32(v, 4 + |EncPaths(i.paths)|, |i.queries|);
    At32(v, 8 + |EncPaths(i.paths)| + |EncQueries(i.queries)|, |i.clients|);
  }

  lemma RestoredViewIsReplay(st: CacheState, fs: FileSystem, v: View, i: Image)
    requires v.At(0, EncImage(i)) && |EncImage(i)| < TWO_32
    ensures RestoredView(st, fs, v) == Replay(st, fs, i)
  {
    hide View.At, EncImage, EncPaths, EncQueries, EncClients, RestorePaths, RestoreQueries, RestoreClients;
    hide ReplayPaths, ReplayQueries, ReplayClients, View.Get32, Be, Add32;
    ImageLayout(v, i);
    ImageCounts(v, i);
    var p := 4 + |EncPaths(i.paths)|;
    var q := p + 4 + |EncQueries(i.queries)|;
    Add32Small(0, 4);
    Add32Small(p, 4);
    Add32Small(q, 4);
    RestorePathsOfEnc(st, fs, v, 4, i.paths);
    var s1 := ReplayPaths(st, fs, i.paths);
    RestoreQueriesOfEnc(s1, v, p + 4, i.queries);
    RestoreClientsOfEnc(ReplayQueries(s1, i.queries), v, q + 4, i.clients);
  }

  /** Restoring an image below 4 GB replays exactly its records, in order. */
  lemma RestoredIsReplay(st: CacheState, fs: FileSystem, i: Image)
    requires |EncImage(i)| < TWO_32
    ensures Restored(st, fs, EncImage(i)) == Replay(st, fs, i)
  {
    WholeAt(EncImage(i));
    RestoredViewIsReplay(st, fs, Whole(EncImage(i)), i);
  }
}
