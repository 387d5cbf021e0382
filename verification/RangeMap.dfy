/** A map from a run of keys to cells, kept as a vector and the first key. The
    first key is only set when the map is empty. */
module RangeMap {
  import opened Wrappers
  import opened Bytes

  /** The value of a range map; maps are copied as values. `blank` is what a cell
      holds before it is set. */
  datatype Range<T> = Range(offset: u32, store: seq<T>, blank: T) {
    function RangeStart(): u32
    {
      offset
    }

    function RangeEnd(): u32
    {
      (offset + |store|) % TWO_32
    }

    predicate Contains(index: nat)
    {
      RangeStart() <= index < RangeEnd()
    }

    /** index - offset, in the unsigned arithmetic of the vector. */
    function Position(index: nat): u64
    {
      (index - offset) % TWO_64
    }

    function Lookup(index: nat): Option<T>
    {
      if Contains(index) && Position(index) < |store| then Some(store[Position(index)]) else None
    }

    function Based(index: u32): Range<T>
    {
      if store == [] then this.(offset := index) else this
    }

    function ExtendStart(index: u32): Range<T>
    {
      if RangeStart() <= index then this
      else this.(store := Copies(blank, (RangeStart() - index) % TWO_32) + store)
    }

    function ExtendEnd(index: u32): Range<T>
    {
      if RangeEnd() > index then this
      else this.(store := store + Copies(blank, (1 + index - RangeEnd()) % TWO_32))
    }

    function Extended(index: u32): Range<T>
    {
      Based(index).ExtendStart(index).ExtendEnd(index)
    }

    /** The cell that set writes lies inside the vector. */
    predicate SetInBounds(index: u32)
    {
      Extended(index).Position(index) < |Extended(index).store|
    }

    function Set(index: u32, data: T): Range<T>
      requires SetInBounds(index)
    {
      var m := Extended(index);
      m.(store := m.store[m.Position(index) := data])
    }

    /** The end does not wrap around. */
    predicate Proper()
    {
      offset + |store| < TWO_32
    }

    /** Vectors stay far from the end of the address space. */
    predicate Sized()
    {
      |store| < TWO_63
    }

    /** The keys at which the map may be set: any key when it is empty, else none
        below the first. The top key has no end behind it. */
    predicate MaySet(index: u32)
    {
      (store == [] || offset <= index) && index < TWO_32 - 1
    }
  }

  function Copies<T>(x: T, n: nat): (r: seq<T>)
    ensures |r| == n
    ensures forall i :: 0 <= i < n ==> r[i] == x
  {
    if n == 0 then [] else [x] + Copies(x, n - 1)
  }

  function Empty<T>(blank: T): Range<T>
  {
    Range(0, [], blank)
  }

  /** Because extending downwards does not move the first key, set writes inside
      the vector exactly when the map is empty or the key is not below the first. */
  lemma SetInBoundsIff<T>(m: Range<T>, index: u32)
    requires m.Sized()
    ensures m.SetInBounds(index) <==> m.store == [] || m.offset <= index
  {
    PositionIs(m.Extended(index), index);
    ExtendedSize(m, index);
    hide Range.Extended, Range.Position;
  }

  lemma PositionIs<T>(m: Range<T>, index: u32)
    ensures m.Position(index) == if m.offset <= index then index - m.offset else TWO_64 + index - m.offset
  {}

  lemma EndIs<T>(m: Range<T>)
    requires m.Proper()
    ensures m.RangeEnd() == m.offset + |m.store|
  {}

  /** The end wraps around; an empty vector ends where it starts. */
  lemma EndWraps<T>(m: Range<T>)
    ensures exists wraps: nat :: m.offset + |m.store| == m.RangeEnd() + wraps * TWO_32
    ensures m.store == [] ==> m.RangeEnd() == m.offset
  {
    assert m.offset + |m.store| == m.RangeEnd() + ((m.offset + |m.store|) / TWO_32) * TWO_32;
  }

  lemma ExtendedSize<T>(m: Range<T>, index: u32)
    requires m.Sized()
    ensures var e := m.Extended(index);
            && e.offset == (if m.store == [] then index else m.offset)
            && |e.store| < TWO_63 + 2 * TWO_32
            && (e.offset <= index ==> index - e.offset < |e.store|)
            && (e.offset <= index ==> e.RangeEnd() > index || (index == TWO_32 - 1 && e.RangeEnd() == 0))
  {
    var b := m.Based(index);
    var low := b.ExtendStart(index);
    assert |low.store| < TWO_63 + TWO_32;
    if b.offset <= index {
      assert low == b;
      EndWraps(b);
      var e := b.ExtendEnd(index);
      if b.RangeEnd() <= index {
        assert |e.store| == |b.store| + (1 + index - b.RangeEnd()) % TWO_32;
        ExtendedEnd(b.offset + |b.store|, index);
      }
    }
    hide Range.ExtendStart, Copies;
  }

  /** Extending an end behind the key, modulo 2^32. */
  lemma ExtendedEnd(end: nat, index: u32)
    requires end % TWO_32 <= index
    ensures var n := (1 + index - end % TWO_32) % TWO_32;
            && (end + n) % TWO_32 == (1 + index) % TWO_32
            && (0 < end ==> end + n > index)
  {
    var r, q := end % TWO_32, end / TWO_32;
    assert end == q * TWO_32 + r;
    if 1 + index - r == TWO_32 {
      assert r == 0 && index == TWO_32 - 1;
    } else {
      assert (1 + index - r) % TWO_32 == 1 + index - r;
      assert end + (1 + index - r) == q * TWO_32 + (1 + index);
    }
  }

  /** Extending for an admissible key only adds blank cells at the end. */
  lemma ExtendedShape<T>(m: Range<T>, index: u32)
    requires m.Proper() && m.MaySet(index)
    ensures var first := if m.store == [] then index else m.offset;
            var missing := if first + |m.store| > index then 0 else index + 1 - (first + |m.store|);
            m.Extended(index) == Range(first, m.store + Copies(m.blank, missing), m.blank)
  {
    var b := m.Based(index);
    assert b.ExtendStart(index) == b;
    assert m.store + Copies(m.blank, 0) == m.store;
  }

  /** Without wrap-around the lookup is the plain one. */
  lemma LookupPlain<T>(m: Range<T>, k: nat)
    requires m.Proper()
    ensures m.RangeEnd() == m.offset + |m.store|
    ensures m.Contains(k) <==> m.offset <= k < m.offset + |m.store|
    ensures m.Lookup(k) == if m.offset <= k < m.offset + |m.store| then Some(m.store[k - m.offset]) else None
  {}

  /** After set, the key holds the data, other keys of the map keep theirs, and
      keys in a gap hold blank cells; the run of keys is the smallest that has both. */
  lemma SetUpdates<T>(m: Range<T>, index: u32, data: T)
    requires m.Proper() && m.MaySet(index)
    ensures m.SetInBounds(index)
    ensures var r := m.Set(index, data);
            && r.Proper() && r.blank == m.blank && r.store != []
            && r.offset == (if m.store == [] then index else m.offset)
            && r.RangeEnd() == (if m.store == [] || m.RangeEnd() <= index then index + 1 else m.RangeEnd())
            && forall k: nat :: r.Lookup(k) ==
                 (if k == index then Some(data)
                  else if m.Lookup(k).Some? then m.Lookup(k)
                  else if r.Contains(k) then Some(m.blank)
                  else None)
  {
    ExtendedShape(m, index);
    var e := m.Extended(index);
    PositionIs(e, index);
    hide Range.Extended, Range.Position, Range.RangeEnd;
    assert e.Position(index) == index - e.offset < |e.store|;
    var r := m.Set(index, data);
    assert r == e.(store := e.store[index - e.offset := data]);
    LookupPlain(m, 0);
    LookupPlain(r, 0);
    hide Range.Set, Range.SetInBounds, Range.Lookup, Range.Contains, Range.RangeEnd, Range.Position;
    forall k: nat ensures r.Lookup(k) == (if k == index then Some(data)
                                          else if m.Lookup(k).Some? then m.Lookup(k)
                                          else if r.Contains(k) then Some(m.blank)
                                          else None) {
      LookupPlain(m, k);
      LookupPlain(r, k);
    }
  }

  /** Where a key within bounds is set, the end is the end of the extended map. */
  lemma SetEnd<T>(m: Range<T>, index: u32, data: T)
    requires m.Sized() && m.SetInBounds(index)
    ensures var r := m.Set(index, data);
            r.offset <= index && (r.RangeEnd() > index || (index == TWO_32 - 1 && r.RangeEnd() == 0))
  {
    SetInBoundsIff(m, index);
    ExtendedSize(m, index);
    hide Range.Extended, Range.Position;
  }

  /** A key that is set within bounds is contained exactly when it is not the top one. */
  lemma SetIsKeptIff<T>(m: Range<T>, index: u32, data: T)
    requires m.Sized() && m.SetInBounds(index)
    ensures m.Set(index, data).Contains(index) <==> index < TWO_32 - 1
  {
    SetEnd(m, index, data);
    hide Range.Set, Range.SetInBounds;
  }

  /** Setting the top key loses every key: the end behind it wraps around to zero,
      and the map contains nothing from then on. */
  lemma TopKeyLosesAll<T>(m: Range<T>, data: T, k: nat)
    requires m.Sized()
    ensures m.SetInBounds(TWO_32 - 1)
    ensures !m.Set(TWO_32 - 1, data).Contains(k)
  {
    SetInBoundsIff(m, TWO_32 - 1);
    SetEnd(m, TWO_32 - 1, data);
    hide Range.Set, Range.SetInBounds;
  }

  class RangeMap<T> {
    var offset: u32
    var store: seq<T>
    const blank: T

    constructor (value: Range<T>)
      ensures Value() == value
    {
      offset, store, blank := value.offset, value.store, value.blank;
    }

    function Value(): Range<T>
      reads this
    {
      Range(offset, store, blank)
    }

    method Set(index: u32, data: T)
      requires Value().SetInBounds(index)
      modifies this
      ensures Value() == old(Value()).Set(index, data)
    {
      if |store| == 0 {
        offset := index;
      }
      ExtendStart(index);
      ExtendEnd(index);
      store := store[Value().Position(index) := data];
    }

    method ExtendStart(index: u32)
      modifies this
      ensures Value() == old(Value()).ExtendStart(index)
    {
      if Value().RangeStart() <= index {
        return;
      }
      store := Copies(blank, (Value().RangeStart() - index) % TWO_32) + store;
    }

    method ExtendEnd(index: u32)
      modifies this
      ensures Value() == old(Value()).ExtendEnd(index)
    {
      if Value().RangeEnd() > index {
        return;
      }
      store := store + Copies(blank, (1 + index - Value().RangeEnd()) % TWO_32);
    }
  }

  // ----- a history of sets -----

  datatype Setting<T> = Setting(key: u32, data: T)

  /** The first key set is never undercut, and the top key is not used. */
  predicate NeverBelowFirst<T>(sets: seq<Setting<T>>)
  {
    forall i :: 0 <= i < |sets| ==> sets[0].key <= sets[i].key < TWO_32 - 1
  }

  function Latest<T>(sets: seq<Setting<T>>, key: nat): Option<T>
  {
    if sets == [] then None
    else if sets[|sets| - 1].key == key then Some(sets[|sets| - 1].data)
    else Latest(sets[..|sets| - 1], key)
  }

  function Highest<T>(sets: seq<Setting<T>>): u32
    requires sets != []
  {
    var last := sets[|sets| - 1].key;
    if |sets| == 1 then last
    else
      var h := Highest(sets[..|sets| - 1]);
      if h < last then last else h
  }

  /** What the sets, in order, make of an empty map. */
  function Build<T>(sets: seq<Setting<T>>, blank: T): (r: Range<T>)
    requires NeverBelowFirst(sets)
    ensures r.Proper() && r.blank == blank && (r.store == [] <==> sets == [])
    ensures sets != [] ==> r.offset == sets[0].key
  {
    if sets == [] then Empty(blank)
    else
      var front, last := sets[..|sets| - 1], sets[|sets| - 1];
      assert |sets| > 1 ==> front[0] == sets[0];
      assert sets[0].key <= last.key < TWO_32 - 1;
      SetUpdates(Build(front, blank), last.key, last.data);
      Build(front, blank).Set(last.key, last.data)
  }

  /** A map built by sets holds, at every key between its first and its highest,
      what was last set there, or a blank cell; it holds nothing outside. */
  lemma {:induction false} BuildLookup<T>(sets: seq<Setting<T>>, blank: T, key: nat)
    requires NeverBelowFirst(sets)
    ensures var m := Build(sets, blank);
            && (sets != [] ==> m.RangeStart() == sets[0].key && m.RangeEnd() == Highest(sets) + 1)
            && m.Lookup(key) == (if Latest(sets, key).Some? then Latest(sets, key)
                                 else if sets != [] && sets[0].key <= key <= Highest(sets) then Some(blank)
                                 else None)
            && m.Contains(key) == (sets != [] && sets[0].key <= key <= Highest(sets))
            && (Latest(sets, key).Some? ==> m.Contains(key))
  {
    if sets == [] {
    } else {
      var front, last := sets[..|sets| - 1], sets[|sets| - 1];
      assert |sets| > 1 ==> front[0] == sets[0];
      assert sets[0].key <= last.key < TWO_32 - 1;
      BuildLookup(front, blank, key);
      SetUpdates(Build(front, blank), last.key, last.data);
    }
  }
}
