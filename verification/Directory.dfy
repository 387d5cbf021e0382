/** Directory enumeration: the operating system hands out a listing in buffers of
    linked records, and a callback is asked after each record whether to go on.

    The variables the callback captures are the state S; the callback is a
    function from that state and an entry to the new state and its answer. */
module Directory {
  import opened Bytes

  datatype Record<+E> = Record(entry: E, nextOffset: u32)

  /** A filled buffer: the records by their byte offset. */
  type Buffer<E> = map<nat, Record<E>>

  /** From `at` on the records spell `entries`; the last one has next offset 0. */
  ghost predicate Chain<E>(buffer: Buffer<E>, at: nat, entries: seq<E>)
    decreases |entries|
  {
    && entries != []
    && at in buffer
    && buffer[at].entry == entries[0]
    && if |entries| == 1
       then buffer[at].nextOffset == 0
       else buffer[at].nextOffset > 0 && Chain(buffer, at + buffer[at].nextOffset, entries[1..])
  }

  function Flatten<E>(parts: seq<seq<E>>): seq<E>
  {
    if parts == [] then [] else parts[0] + Flatten(parts[1..])
  }

  /** One pass over a plain list, up to and including the first refusal. */
  function Walk<S, E>(step: (S, E) -> (S, bool), s: S, entries: seq<E>): (S, bool)
  {
    if entries == [] then (s, true)
    else
      var (next, more) := step(s, entries[0]);
      if more then Walk(step, next, entries[1..]) else (next, false)
  }

  lemma {:induction false} WalkConcat<S, E>(step: (S, E) -> (S, bool), s: S, a: seq<E>, b: seq<E>)
    ensures var (mid, more) := Walk(step, s, a);
            Walk(step, s, a + b) == if more then Walk(step, mid, b) else (mid, false)
  {
    if a == [] {
      assert a + b == b;
    } else {
      assert (a + b)[1..] == a[1..] + b;
      WalkConcat(step, step(s, a[0]).0, a[1..], b);
    }
  }

  /** How many entries the callback is asked about. */
  function Asked<S, E>(step: (S, E) -> (S, bool), s: S, entries: seq<E>): (n: nat)
    ensures n <= |entries|
  {
    if entries == [] then 0
    else
      var (next, more) := step(s, entries[0]);
      1 + if more then Asked(step, next, entries[1..]) else 0
  }

  /** The callback sees exactly the entries up to and including its first refusal:
      every shorter walk went on, and the rest of the list is never looked at. */
  lemma {:induction false} WalkAsksPrefix<S, E>(step: (S, E) -> (S, bool), s: S, entries: seq<E>, k: nat)
    requires k <= |entries|
    ensures var n := Asked(step, s, entries);
            && (k < n ==> Walk(step, s, entries[..k]).1)
            && (k >= n ==> Walk(step, s, entries[..k]) == Walk(step, s, entries))
            && (Walk(step, s, entries).1 ==> n == |entries|)
  {
    if entries == [] {
    } else if k > 0 {
      assert entries[..k][1..] == entries[1..][..k - 1];
      WalkAsksPrefix(step, step(s, entries[0]).0, entries[1..], k - 1);
    } else {
      WalkAsksPrefix(step, step(s, entries[0]).0, entries[1..], 0);
    }
  }

  /** enumerate over the buffers that successive calls fill. The first call
      failing is an error; a later one failing is the end of the listing. */
  method Enumerate<S, E>(buffers: seq<Buffer<E>>, ghost lists: seq<seq<E>>, step: (S, E) -> (S, bool), start: S)
    returns (success: bool, state: S)
    requires |buffers| == |lists|
    requires forall i :: 0 <= i < |buffers| ==> Chain(buffers[i], 0, lists[i])
    ensures success <==> buffers != []
    ensures state == Walk(step, start, Flatten(lists)).0
  {
    state := start;
    if buffers == [] {
      return false, state;
    }
    var call := 0;
    while call < |buffers|
      invariant 0 <= call <= |buffers|
      invariant Walk(step, start, Flatten(lists)) == Walk(step, state, Flatten(lists[call..]))
    {
      var buffer := buffers[call];
      assert lists[call..][1..] == lists[call + 1..];
      var it: nat := 0;
      ghost var left := lists[call];
      ghost var later := Flatten(lists[call + 1..]);
      while true
        invariant Chain(buffer, it, left)
        invariant Walk(step, start, Flatten(lists)) == Walk(step, state, left + later)
        decreases |left|
      {
        assert (left + later)[0] == left[0] && (left + later)[1..] == left[1..] + later;
        var (next, more) := step(state, buffer[it].entry);
        state := next;
        if !more {
          return true, state;
        }
        var offset := buffer[it].nextOffset;
        left := left[1..];
        if offset == 0 {
          assert left + later == later;
          break;
        }
        it := it + offset;
      }
      call := call + 1;
    }
    return true, state;
  }
}
