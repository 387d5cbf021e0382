/** The alias table: which exported path stands for which Windows path, kept by
    the source that declared it. */
module MountAliases {
  import opened Wrappers
  import opened Bytes

  const COLON: byte := 58
  const QUESTION_MARK: byte := 63

  datatype AliasEntry = AliasEntry(source: u32, aliasPath: OctetString, windowsPath: WString)

  type Store = seq<AliasEntry>

  /** A Windows path to export and the alias asked for; empty asks for a derived one. */
  datatype AliasRequest = AliasRequest(windowsPath: WString, aliasPath: OctetString)

  /** The paths that open, with their final names. */
  type PathOpener = WString -> Option<WString>

  // ----- matching -----

  /** The test of the search loop: the same path, or a prefix that ends where a
      component of the path ends. */
  predicate Matches(alias: OctetString, path: OctetString)
  {
    || alias == path
    || (|alias| < |path| && path[..|alias|] == alias && path[|alias|] == SLASH)
  }

  /** A path's components: the pieces between slashes. */
  function Components(path: OctetString): (r: seq<OctetString>)
    ensures |r| > 0
  {
    if path == [] then [[]]
    else
      var rest := Components(path[1..]);
      if path[0] == SLASH then [[]] + rest else [[path[0]] + rest[0]] + rest[1..]
  }

  /** The loop's test is the component-wise prefix. */
  lemma {:induction false} MatchesIsComponentPrefix(alias: OctetString, path: OctetString)
    ensures Matches(alias, path) <==> Components(alias) <= Components(path)
  {
    if alias == [] && path == [] {
    } else if alias != [] && path != [] && alias[0] == path[0] {
      MatchesIsComponentPrefix(alias[1..], path[1..]);
      MatchesTail(alias, path);
      PrefixTail(alias, path);
    } else if alias != [] && path != [] {
      var a, p := Components(alias[1..]), Components(path[1..]);
      assert Components(alias)[0] != Components(path)[0] by {
        if alias[0] != SLASH && path[0] != SLASH {
          assert ([alias[0]] + a[0])[0] != ([path[0]] + p[0])[0];
        }
      }
    } else if alias == [] && path != [] {
      assert Components(alias) == [[]];
      assert path[..0] == [];
      var p := Components(path);
      if path[0] == SLASH {
        assert p[..1] == [[]];
      } else {
        assert p[0] == [path[0]] + Components(path[1..])[0];
        assert p[0] != [];
      }
    } else if alias != [] && alias[0] != SLASH {
      assert Components(alias)[0] == [alias[0]] + Components(alias[1..])[0];
      assert Components(alias)[0] != Components(path)[0];
    }
  }

  lemma MatchesTail(alias: OctetString, path: OctetString)
    requires alias != [] && path != [] && alias[0] == path[0]
    ensures Matches(alias, path) <==> Matches(alias[1..], path[1..])
  {
    assert alias == [alias[0]] + alias[1..] && path == [path[0]] + path[1..];
    if |alias| < |path| {
      assert path[..|alias|] == [path[0]] + path[1..][..|alias| - 1];
    }
  }

  lemma PrefixTail(alias: OctetString, path: OctetString)
    requires alias != [] && path != [] && alias[0] == path[0]
    ensures Components(alias) <= Components(path) <==> Components(alias[1..]) <= Components(path[1..])
  {
    var a, p := Components(alias[1..]), Components(path[1..]);
    var a', p' := Components(alias), Components(path);
    if alias[0] == SLASH {
      assert a'[1..] == a && p'[1..] == p;
      assert a' == [[]] + a && p' == [[]] + p;
      ConsPrefix([], a, p);
    } else {
      HeadPrefix(alias[0], a, p);
    }
  }

  lemma ConsPrefix(x: OctetString, a: seq<OctetString>, p: seq<OctetString>)
    ensures [x] + a <= [x] + p <==> a <= p
  {
    if [x] + a <= [x] + p {
      assert ([x] + p)[..1 + |a|] == [x] + p[..|a|];
      assert ([x] + a)[1..] == a && ([x] + p[..|a|])[1..] == p[..|a|];
    }
  }

  lemma HeadPrefix(c: byte, a: seq<OctetString>, p: seq<OctetString>)
    requires |a| > 0 && |p| > 0
    ensures [[c] + a[0]] + a[1..] <= [[c] + p[0]] + p[1..] <==> a <= p
  {
    assert a == [a[0]] + a[1..] && p == [p[0]] + p[1..];
    if [c] + a[0] == [c] + p[0] {
      assert ([c] + a[0])[1..] == a[0] && ([c] + p[0])[1..] == p[0];
      ConsPrefix([c] + a[0], a[1..], p[1..]);
      ConsPrefix(a[0], a[1..], p[1..]);
    } else {
      assert ([[c] + a[0]] + a[1..])[0] != ([[c] + p[0]] + p[1..])[0];
    }
  }

  // ----- resolving -----

  /** The remainder of a path, widened and with its slashes turned. */
  function SubpathToWindows(path: OctetString): (r: WString)
    ensures |r| == |path|
    ensures forall i :: 0 <= i < |path| ==> r[i] == if path[i] == SLASH then BACKSLASH else path[i]
  {
    if path == [] then []
    else [if path[0] == SLASH then BACKSLASH else path[0]] + SubpathToWindows(path[1..])
  }

  /** The entry the search loop holds after the first n entries. */
  function BestUpTo(store: Store, path: OctetString, n: nat): Option<nat>
    requires n <= |store|
    ensures BestUpTo(store, path, n).Some? ==> BestUpTo(store, path, n).value < n
  {
    if n == 0 then None
    else
      var before := BestUpTo(store, path, n - 1);
      var bestLength := if before.Some? then |store[before.value].aliasPath| else 0;
      if |store[n - 1].aliasPath| >= bestLength && Matches(store[n - 1].aliasPath, path)
      then Some(n - 1) else before
  }

  function Resolve(store: Store, path: OctetString): WString
  {
    match BestUpTo(store, path, |store|)
    case None => []
    case Some(k) => store[k].windowsPath + SubpathToWindows(path[MatchLength(store, path, k)..])
  }

  /** How much of the path the entry covers. */
  function MatchLength(store: Store, path: OctetString, k: nat): (n: nat)
    requires k < |store|
    ensures n <= |path|
  {
    if |store[k].aliasPath| <= |path| then |store[k].aliasPath| else 0
  }

  /** The alias covers the path: its components are the first of the path's. */
  predicate Covers(alias: OctetString, path: OctetString)
  {
    Components(alias) <= Components(path)
  }

  /** Of the first n entries: a longest one that covers the path, and the latest of
      those. */
  ghost predicate IsBest(store: Store, path: OctetString, n: nat, k: nat)
    requires n <= |store|
  {
    && k < n
    && Covers(store[k].aliasPath, path)
    && forall j :: 0 <= j < n && Covers(store[j].aliasPath, path) ==>
         |store[j].aliasPath| < |store[k].aliasPath|
         || (|store[j].aliasPath| == |store[k].aliasPath| && j <= k)
  }

  lemma {:induction false} BestIsBest(store: Store, path: OctetString, n: nat)
    requires n <= |store|
    ensures match BestUpTo(store, path, n)
            case None => forall j :: 0 <= j < n ==> !Covers(store[j].aliasPath, path)
            case Some(k) => IsBest(store, path, n, k)
  {
    if n == 0 {
    } else {
      BestIsBest(store, path, n - 1);
      MatchesIsComponentPrefix(store[n - 1].aliasPath, path);
      hide Components, Matches;
      assert Matches(store[n - 1].aliasPath, path) <==> Covers(store[n - 1].aliasPath, path);
      hide Covers;
    }
  }

  /** Resolving finds nothing exactly when no alias covers the path; else it takes
      the latest among the longest that do, and appends the rest of the path with
      its slashes turned. */
  lemma ResolveMeaning(store: Store, path: OctetString)
    ensures match BestUpTo(store, path, |store|)
            case None =>
              && (forall j :: 0 <= j < |store| ==> !Covers(store[j].aliasPath, path))
              && Resolve(store, path) == []
            case Some(k) =>
              && IsBest(store, path, |store|, k)
              && |store[k].aliasPath| <= |path|
              && Resolve(store, path) == store[k].windowsPath + SubpathToWindows(path[|store[k].aliasPath|..])
  {
    BestIsBest(store, path, |store|);
    var best := BestUpTo(store, path, |store|);
    if best.Some? {
      MatchesIsComponentPrefix(store[best.value].aliasPath, path);
      CoveringIsShort(store[best.value].aliasPath, path);
    }
  }

  lemma CoveringIsShort(alias: OctetString, path: OctetString)
    ensures Covers(alias, path) ==> |alias| <= |path|
  {
    MatchesIsComponentPrefix(alias, path);
    hide Components;
  }

  // ----- deriving an alias from a Windows path -----

  /** Narrowing of one code unit; the identity on ASCII. */
  function Narrow(c: u16): byte
  {
    c % 256
  }

  const LONG_PREFIX: WString := [BACKSLASH, BACKSLASH, QUESTION_MARK, BACKSLASH]

  predicate HasLongPrefix(path: WString)
  {
    |path| >= 4 && path[0] == BACKSLASH && path[1] == BACKSLASH && path[2] == QUESTION_MARK && path[3] == BACKSLASH
  }

  function TurnBackslash(c: byte): byte
  {
    if c == BACKSLASH then SLASH else c
  }

  function Turned(path: WString): (r: OctetString)
    ensures |r| == |path|
    ensures forall i :: 0 <= i < |path| ==> r[i] == TurnBackslash(Narrow(path[i]))
  {
    if path == [] then [] else [TurnBackslash(Narrow(path[0]))] + Turned(path[1..])
  }

  /** C: becomes /C, and anything else gets a slash in front. */
  function Rooted(p: OctetString): OctetString
  {
    if |p| >= 2 && p[1] == COLON then [SLASH, p[0]] + p[2..]
    else if |p| >= 1 && p[0] != SLASH then [SLASH] + p
    else p
  }

  function Trimmed(p: OctetString): OctetString
  {
    if |p| >= 1 && p[|p| - 1] == SLASH then Trimmed(p[..|p| - 1]) else p
  }

  function AliasOf(path: WString): OctetString
  {
    Trimmed(Rooted(Turned(if HasLongPrefix(path) then path[4..] else path)))
  }

  method WindowsToAliasPath(path: WString) returns (result: OctetString)
    ensures result == AliasOf(path)
  {
    var offset := 0;
    if |path| >= 4 && path[0] == BACKSLASH && path[1] == BACKSLASH && path[2] == QUESTION_MARK && path[3] == BACKSLASH {
      offset := 4;
    }
    assert path[0..] == path;
    hide Turned, Rooted, Trimmed;
    result := TurnSlashes(path[offset..]);
    result := EnsureRoot(result);
    result := TrimSlashes(result);
  }

  /** Narrows each code unit and turns the backslashes. */
  method TurnSlashes(path: WString) returns (result: OctetString)
    ensures result == Turned(path)
  {
    result := [];
    for i := 0 to |path|
      invariant result == Turned(path)[..i]
    {
      result := result + [TurnBackslash(Narrow(path[i]))];
    }
  }

  method EnsureRoot(path: OctetString) returns (result: OctetString)
    ensures result == Rooted(path)
  {
    result := path;
    if |result| >= 2 && result[1] == COLON {
      result := result[1 := result[0]];
      result := result[0 := SLASH];
    } else if |result| >= 1 && result[0] != SLASH {
      result := [SLASH] + result;
    }
  }

  method TrimSlashes(path: OctetString) returns (result: OctetString)
    ensures result == Trimmed(path)
  {
    result := path;
    while |result| >= 1 && result[|result| - 1] == SLASH
      invariant Trimmed(result) == Trimmed(path)
    {
      result := result[..|result| - 1];
    }
  }

  /** A derived alias has no backslash and no slash at its end, and starts with a
      slash unless it is empty. */
  lemma AliasOfIsClean(path: WString)
    ensures var a := AliasOf(path);
            && BACKSLASH !in a
            && (a != [] ==> a[0] == SLASH && a[|a| - 1] != SLASH)
  {
    var t := Turned(if HasLongPrefix(path) then path[4..] else path);
    assert BACKSLASH !in t by {
      assert forall i :: 0 <= i < |t| ==> t[i] != BACKSLASH;
    }
    hide Turned, HasLongPrefix, Narrow;
    RootedIsClean(t);
    TrimmedIsPrefix(Rooted(t));
    PrefixIsClean(Trimmed(Rooted(t)), Rooted(t));
    hide Trimmed, Rooted;
  }

  lemma PrefixIsClean(a: OctetString, b: OctetString)
    requires a <= b && BACKSLASH !in b
    ensures BACKSLASH !in a && (a != [] ==> b != [] && a[0] == b[0])
  {}

  lemma RootedIsClean(t: OctetString)
    requires BACKSLASH !in t
    ensures BACKSLASH !in Rooted(t) && (Rooted(t) != [] ==> Rooted(t)[0] == SLASH)
  {}

  lemma {:induction false} TrimmedIsPrefix(p: OctetString)
    ensures Trimmed(p) <= p
    ensures Trimmed(p) != [] ==> Trimmed(p)[|Trimmed(p)| - 1] != SLASH
  {
    if p == [] || p[|p| - 1] != SLASH {
    } else {
      TrimmedIsPrefix(p[..|p| - 1]);
    }
  }

  /** A list of components without the empty ones. */
  function NonEmpty(parts: seq<OctetString>): seq<OctetString>
  {
    if parts == [] then [] else (if parts[0] == [] then [] else [parts[0]]) + NonEmpty(parts[1..])
  }

  lemma {:induction false} NonEmptySnoc(parts: seq<OctetString>)
    ensures NonEmpty(parts + [[]]) == NonEmpty(parts)
  {
    if parts == [] {
      var one: seq<OctetString> := [[]];
      assert one[1..] == [] && parts + one == one;
    } else {
      assert (parts + [[]])[1..] == parts[1..] + [[]];
      NonEmptySnoc(parts[1..]);
    }
  }

  lemma {:induction false} ComponentsSnoc(p: OctetString)
    ensures Components(p + [SLASH]) == Components(p) + [[]]
  {
    if p == [] {
      assert [SLASH][1..] == [] && p + [SLASH] == [SLASH];
      assert Components([SLASH]) == [[]] + Components([]);
    } else {
      assert (p + [SLASH])[1..] == p[1..] + [SLASH];
      ComponentsSnoc(p[1..]);
    }
  }

  lemma {:induction false} TrimmedComponents(p: OctetString)
    ensures NonEmpty(Components(Trimmed(p))) == NonEmpty(Components(p))
  {
    if p == [] || p[|p| - 1] != SLASH {
    } else {
      var front := p[..|p| - 1];
      assert p == front + [SLASH];
      ComponentsSnoc(front);
      NonEmptySnoc(Components(front));
      TrimmedComponents(front);
    }
  }

  lemma SlashInFront(p: OctetString)
    ensures NonEmpty(Components([SLASH] + p)) == NonEmpty(Components(p))
  {
    assert ([SLASH] + p)[1..] == p;
    assert Components([SLASH] + p) == [[]] + Components(p);
    assert ([[]] + Components(p))[1..] == Components(p);
  }

  /** The Windows path in the alias's terms: without the long prefix, with slashes,
      and with the drive as a letter. */
  function Plain(path: WString): OctetString
  {
    var t := Turned(if LONG_PREFIX <= path then path[4..] else path);
    if |t| >= 2 && t[1] == COLON then [t[0]] + t[2..] else t
  }

  /** A derived alias has exactly the components of the path, the drive letter being
      the start of the first: slashes at its ends and doubled ones aside, nothing is
      lost and nothing is added. */
  lemma AliasHasComponents(path: WString)
    ensures NonEmpty(Components(AliasOf(path))) == NonEmpty(Components(Plain(path)))
  {
    assert HasLongPrefix(path) <==> LONG_PREFIX <= path;
    var t := Turned(if LONG_PREFIX <= path then path[4..] else path);
    TrimmedComponents(Rooted(t));
    hide Turned, HasLongPrefix, Components, NonEmpty, Trimmed;
    if |t| >= 2 && t[1] == COLON {
      assert Rooted(t) == [SLASH] + ([t[0]] + t[2..]);
      SlashInFront([t[0]] + t[2..]);
    } else if |t| >= 1 && t[0] != SLASH {
      SlashInFront(t);
    }
  }

  // ----- changing the table -----

  predicate HasAlias(store: Store, alias: OctetString)
  {
    exists i :: 0 <= i < |store| && store[i].aliasPath == alias
  }

  /** Refused when the alias asked for is in the table, or the path does not open. */
  function AddTo(store: Store, open: PathOpener, source: u32, r: AliasRequest): Store
  {
    if HasAlias(store, r.aliasPath) || open(r.windowsPath).None? then store
    else store + [AliasEntry(source, if r.aliasPath == [] then AliasOf(r.windowsPath) else r.aliasPath,
                             open(r.windowsPath).value)]
  }

  function AddAllTo(store: Store, open: PathOpener, source: u32, rs: seq<AliasRequest>): Store
  {
    if rs == [] then store
    else AddTo(AddAllTo(store, open, source, rs[..|rs| - 1]), open, source, rs[|rs| - 1])
  }

  /** The entries of all other sources, in order. */
  function Without(store: Store, source: u32): Store
  {
    if store == [] then []
    else Without(store[..|store| - 1], source)
         + if store[|store| - 1].source == source then [] else [store[|store| - 1]]
  }

  function Replaced(store: Store, open: PathOpener, source: u32, rs: seq<AliasRequest>): Store
  {
    AddAllTo(Without(store, source), open, source, rs)
  }

  class MountAliases {
    var nextSource: u32
    var store: Store

    constructor ()
      ensures nextSource == 1 && store == []
    {
      nextSource, store := 1, [];
    }

    method CreateSource() returns (source: u32)
      modifies this
      ensures source == old(nextSource) && nextSource == (old(nextSource) + 1) % TWO_32
      ensures store == old(store)
    {
      source := nextSource;
      nextSource := (nextSource + 1) % TWO_32;
    }

    /** The search loop of by_alias_path_safe. */
    method ByAliasPath(path: OctetString) returns (windowsPath: WString)
      ensures windowsPath == Resolve(store, path)
    {
      var best, bestLength: nat := None, 0;
      for i := 0 to |store|
        invariant best == BestUpTo(store, path, i)
        invariant bestLength == if best.Some? then |store[best.value].aliasPath| else 0
        invariant best.Some? ==> Matches(store[best.value].aliasPath, path)
      {
        var alias := store[i].aliasPath;
        if |alias| > |path| {
          continue;
        }
        if |alias| < bestLength {
          continue;
        }
        if |alias| == |path| {
          if alias != path {
            continue;
          }
        } else {
          if path[..|alias|] != alias {
            continue;
          }
          if path[|alias|] != SLASH {
            continue;
          }
        }
        best, bestLength := Some(i), |alias|;
      }
      if best.None? {
        return [];
      }
      return store[best.value].windowsPath + SubpathToWindows(path[bestLength..]);
    }

    method Add(open: PathOpener, source: u32, r: AliasRequest) returns (added: bool)
      modifies `store
      ensures store == AddTo(old(store), open, source, r)
      ensures added <==> store != old(store)
    {
      if exists i :: 0 <= i < |store| && store[i].aliasPath == r.aliasPath {
        return false;
      }
      var directory := open(r.windowsPath);
      if directory.None? {
        return false;
      }
      var alias := r.aliasPath;
      if alias == [] {
        alias := WindowsToAliasPath(r.windowsPath);
      }
      store := store + [AliasEntry(source, alias, directory.value)];
      return true;
    }

    /** Takes out the source's entries, then adds the new ones. */
    method SetAliases(open: PathOpener, source: u32, rs: seq<AliasRequest>)
      modifies `store
      ensures store == Replaced(old(store), open, source, rs)
    {
      ghost var was := store;
      ghost var done := 0;
      var it := 0;
      while it < |store|
        invariant 0 <= it <= |store| && done <= |was|
        invariant store[..it] == Without(was[..done], source)
        invariant store[it..] == was[done..]
        decreases |store| - it
      {
        assert store[it] == was[done] && store[it + 1..] == was[done + 1..];
        assert was[..done + 1][..done] == was[..done];
        if store[it].source == source {
          var front, back := store[..it], store[it + 1..];
          store := front + back;
          assert store[..it] == front && store[it..] == back;
        } else {
          assert store[..it + 1] == store[..it] + [store[it]];
          it := it + 1;
        }
        done := done + 1;
      }
      assert store == store[..it] && was[..done] == was;
      for n := 0 to |rs|
        invariant store == AddAllTo(Without(was, source), open, source, rs[..n])
      {
        assert rs[..n + 1][..n] == rs[..n];
        var _ := Add(open, source, rs[n]);
      }
      assert rs[..|rs|] == rs;
    }

    method Clear(open: PathOpener, source: u32)
      modifies `store
      ensures store == Without(old(store), source)
    {
      SetAliases(open, source, []);
    }
  }

  // ----- what is in the table after a change -----

  /** The places of a table whose entries have another source, in order. */
  function Others(store: Store, source: u32): (places: seq<nat>)
    ensures forall k :: 0 <= k < |places| ==> places[k] < |store|
  {
    if store == [] then []
    else Others(store[..|store| - 1], source)
         + if store[|store| - 1].source == source then [] else [|store| - 1]
  }

  lemma {:induction false} OthersInOrder(store: Store, source: u32)
    ensures var places := Others(store, source);
            && (forall j, k :: 0 <= j < k < |places| ==> places[j] < places[k])
            && (forall i :: i in places <==> 0 <= i < |store| && store[i].source != source)
  {
    if store == [] {
    } else {
      var front, last := store[..|store| - 1], store[|store| - 1];
      OthersInOrder(front, source);
      var before := Others(front, source);
      assert forall i :: 0 <= i < |front| ==> front[i] == store[i];
      assert forall i :: i in before + [|front|] <==> i in before || i == |front|;
      assert before + [] == before;
    }
  }

  lemma {:induction false} WithoutAt(store: Store, source: u32)
    ensures |Without(store, source)| == |Others(store, source)|
    ensures forall k :: 0 <= k < |Without(store, source)| ==>
              Without(store, source)[k] == store[Others(store, source)[k]]
  {
    if store == [] {
    } else {
      WithoutAt(store[..|store| - 1], source);
    }
  }

  /** Taking out a source's entries leaves exactly the other ones, each once and in
      the order in which they were. */
  lemma WithoutKeepsOrder(store: Store, source: u32)
    ensures var places := Others(store, source);
            var rest := Without(store, source);
            && |rest| == |places|
            && (forall k :: 0 <= k < |rest| ==> rest[k] == store[places[k]])
            && (forall j, k :: 0 <= j < k < |places| ==> places[j] < places[k])
            && (forall i :: i in places <==> 0 <= i < |store| && store[i].source != source)
  {
    WithoutAt(store, source);
    OthersInOrder(store, source);
    hide Without, Others;
  }

  /** An accepted request adds one entry at the end: for the path that the Windows path
      opens to, under the alias asked for, or the derived one if none was. */
  lemma AddMeaning(store: Store, open: PathOpener, source: u32, r: AliasRequest)
    ensures var after := AddTo(store, open, source, r);
            var accepted := open(r.windowsPath).Some? && forall e :: e in store ==> e.aliasPath != r.aliasPath;
            && (!accepted ==> after == store)
            && (accepted ==>
                  && |after| == |store| + 1 && after[..|store|] == store
                  && after[|store|].source == source
                  && Some(after[|store|].windowsPath) == open(r.windowsPath)
                  && (r.aliasPath != [] ==> after[|store|].aliasPath == r.aliasPath)
                  && (r.aliasPath == [] ==>
                        NonEmpty(Components(after[|store|].aliasPath)) == NonEmpty(Components(Plain(r.windowsPath)))))
  {
    AliasHasComponents(r.windowsPath);
    hide AliasOf, Plain, Components, NonEmpty;
    if HasAlias(store, r.aliasPath) {
      var i :| 0 <= i < |store| && store[i].aliasPath == r.aliasPath;
      assert store[i] in store;
    }
  }

  lemma {:induction false} BestOfMore(store: Store, e: AliasEntry, path: OctetString, n: nat)
    requires n <= |store|
    ensures BestUpTo(store + [e], path, n) == BestUpTo(store, path, n)
  {
    if n == 0 {
    } else {
      BestOfMore(store, e, path, n - 1);
      assert (store + [e])[n - 1] == store[n - 1];
    }
  }

  /** Directly after an alias was added, a path below it resolves to the opened path,
      followed by the rest with its slashes turned, as long as no longer alias covers
      that path; the alias itself always resolves to the opened path. */
  lemma AddedResolves(store: Store, e: AliasEntry, rest: OctetString)
    requires rest == [] || rest[0] == SLASH
    requires forall i :: 0 <= i < |store| && |store[i].aliasPath| > |e.aliasPath| ==>
               !Covers(store[i].aliasPath, e.aliasPath + rest)
    ensures Resolve(store + [e], e.aliasPath + rest) == e.windowsPath + SubpathToWindows(rest)
  {
    var path := e.aliasPath + rest;
    var n := |store|;
    assert path[..|e.aliasPath|] == e.aliasPath && path[|e.aliasPath|..] == rest;
    assert Matches(e.aliasPath, path);
    BestOfMore(store, e, path, n);
    BestIsBest(store, path, n);
    hide Covers, Matches, SubpathToWindows;
    assert BestUpTo(store + [e], path, n + 1) == Some(n);
  }

  lemma AddedAliasResolves(store: Store, e: AliasEntry)
    ensures Resolve(store + [e], e.aliasPath) == e.windowsPath
  {
    forall i | 0 <= i < |store| && |store[i].aliasPath| > |e.aliasPath|
      ensures !Covers(store[i].aliasPath, e.aliasPath + [])
    {
      CoveringIsShort(store[i].aliasPath, e.aliasPath);
      assert e.aliasPath + [] == e.aliasPath;
    }
    AddedResolves(store, e, []);
    assert e.aliasPath + [] == e.aliasPath && e.windowsPath + [] == e.windowsPath;
  }

  /** Entry e is what request r asks for. */
  ghost predicate Serves(e: AliasEntry, open: PathOpener, source: u32, r: AliasRequest)
  {
    && e.source == source && open(r.windowsPath) == Some(e.windowsPath)
    && e.aliasPath == if r.aliasPath == [] then AliasOf(r.windowsPath) else r.aliasPath
  }

  /** Adding a list puts entries behind the table, each for one of the requests; and
      afterwards every request for an alias of its own whose path opens has it. */
  lemma {:induction false} AddAllMeaning(store: Store, open: PathOpener, source: u32, rs: seq<AliasRequest>)
    ensures var after := AddAllTo(store, open, source, rs);
            && store <= after
            && (forall k :: |store| <= k < |after| ==>
                  exists i :: 0 <= i < |rs| && Serves(after[k], open, source, rs[i]))
            && (forall i :: 0 <= i < |rs| && open(rs[i].windowsPath).Some? && rs[i].aliasPath != [] ==>
                  HasAlias(after, rs[i].aliasPath))
  {
    hide AliasOf;
    if rs == [] {
    } else {
      var front, last := rs[..|rs| - 1], rs[|rs| - 1];
      AddAllMeaning(store, open, source, front);
      var before, after := AddAllTo(store, open, source, front), AddAllTo(store, open, source, rs);
      forall k | |store| <= k < |after| ensures exists i :: 0 <= i < |rs| && Serves(after[k], open, source, rs[i]) {
        if k < |before| {
          var i :| 0 <= i < |front| && Serves(before[k], open, source, front[i]);
          assert rs[i] == front[i] && after[k] == before[k];
        } else {
          assert Serves(after[k], open, source, rs[|rs| - 1]);
        }
      }
      forall i | 0 <= i < |rs| && open(rs[i].windowsPath).Some? && rs[i].aliasPath != []
        ensures HasAlias(after, rs[i].aliasPath)
      {
        if i < |front| {
          assert rs[i] == front[i];
          var j :| 0 <= j < |before| && before[j].aliasPath == rs[i].aliasPath;
          assert after[j] == before[j];
        } else if !HasAlias(before, last.aliasPath) {
          assert after[|before|].aliasPath == last.aliasPath;
        }
      }
    }
  }

  // ----- laws of replacing -----

  lemma WithoutSnoc(store: Store, e: AliasEntry, source: u32)
    ensures Without(store + [e], source) == Without(store, source) + if e.source == source then [] else [e]
  {
    assert (store + [e])[..|store|] == store;
  }

  lemma {:induction false} WithoutTwice(store: Store, source: u32)
    ensures Without(Without(store, source), source) == Without(store, source)
  {
    if store == [] {
    } else {
      var front, last := store[..|store| - 1], store[|store| - 1];
      WithoutTwice(front, source);
      if last.source != source {
        WithoutSnoc(Without(front, source), last, source);
      } else {
        assert Without(store, source) == Without(front, source);
      }
    }
  }

  lemma {:induction false} AddAllKeepsOthers(store: Store, open: PathOpener, source: u32, rs: seq<AliasRequest>)
    ensures Without(AddAllTo(store, open, source, rs), source) == Without(store, source)
  {
    if rs == [] {
    } else {
      var before := AddAllTo(store, open, source, rs[..|rs| - 1]);
      AddAllKeepsOthers(store, open, source, rs[..|rs| - 1]);
      var after := AddTo(before, open, source, rs[|rs| - 1]);
      if after != before {
        WithoutSnoc(before, after[|before|], source);
        assert after == before + [after[|before|]];
      }
    }
  }

  ghost predicate AliasesDistinct(store: Store)
  {
    forall i, j :: 0 <= i < j < |store| ==> store[i].aliasPath != store[j].aliasPath
  }

  /** Adding keeps the aliases of a table distinct exactly when it adds nothing, or
      an alias was asked for, or the derived one is not there yet: only the alias
      asked for is compared with the table. */
  lemma AddKeepsDistinctIff(store: Store, open: PathOpener, source: u32, r: AliasRequest)
    requires AliasesDistinct(store)
    ensures AliasesDistinct(AddTo(store, open, source, r)) <==>
            || HasAlias(store, r.aliasPath) || open(r.windowsPath).None?
            || r.aliasPath != [] || !HasAlias(store, AliasOf(r.windowsPath))
  {
    hide AliasOf;
    var after := AddTo(store, open, source, r);
    if |after| > |store| {
      var added := after[|store|].aliasPath;
      assert after == store + [after[|store|]];
      assert !HasAlias(store, added) ==> AliasesDistinct(after);
      if HasAlias(store, added) {
        var i :| 0 <= i < |store| && store[i].aliasPath == added;
        assert after[i] == store[i];
      }
    }
  }

  /** The path of a directory under C: is added without an alias, and then once more
      with its long prefix: both are there under one alias, and the later one is used. */
  lemma DerivedAliasTwice(open: PathOpener, source: u32, path: WString)
    requires !HasLongPrefix(path) && open(path).Some?
    requires open(LONG_PREFIX + path).Some? && AliasOf(path) != []
    ensures var once := AddTo([], open, source, AliasRequest(path, []));
            var twice := AddTo(once, open, source, AliasRequest(LONG_PREFIX + path, []));
            |twice| == 2 && twice[0].aliasPath == twice[1].aliasPath
  {
    assert HasLongPrefix(LONG_PREFIX + path) && (LONG_PREFIX + path)[4..] == path;
    hide Turned, Rooted, Trimmed;
  }

  /** Setting a source's aliases leaves the entries of all other sources, in order. */
  lemma ReplaceKeepsOthers(store: Store, open: PathOpener, source: u32, rs: seq<AliasRequest>)
    ensures Without(Replaced(store, open, source, rs), source) == Without(store, source)
  {
    AddAllKeepsOthers(Without(store, source), open, source, rs);
    WithoutTwice(store, source);
  }

  /** Setting the same aliases again, on an unchanged file system, changes nothing. */
  lemma ReplaceIsIdempotent(store: Store, open: PathOpener, source: u32, rs: seq<AliasRequest>)
    ensures var once := Replaced(store, open, source, rs);
            Replaced(once, open, source, rs) == once
  {
    ReplaceKeepsOthers(store, open, source, rs);
  }
}
