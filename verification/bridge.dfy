/** The state a host and its guest share during a call, and the shape of a
    state transition. Both hosts keep the same single-slot design: one field for
    the length of the last response, written by `http_request` and read by
    `http_request_len` and by the host after the guest returns.
 */
module Bridge {
  import opened Outcomes
  import opened GuestHeap
  import opened Http
  import opened LinearMemory
  import opened Utf8

  /** A pointer and a length into guest memory (the `{ ptr, len }` records of the Node host). */
  datatype Buf = Buf(ptr: int, len: int)

  /** The six arguments of the `http_request` import, in pairs. */
  datatype HttpArgs = HttpArgs(url: Buf, verb: Buf, body: Buf)

  /** What a host callback can read or change:
      - `guest`: the guest instance's memory and heap ledger;
      - `latestLen`: the single response-length slot
        (`_latestHttpRequestResponseLength` in .NET, `latestHttpRequestResponseLength` in Node);
      - `hostData`: the Node host's `currentHostData` (the .NET host has none and leaves it alone);
      - `sent`: the requests handed to the transport so far, oldest first. */
  datatype State = State(guest: Guest, latestLen: nat, hostData: Option<Buf>, sent: seq<Request>)

  /** A transition's outcome: the state reached, and either a value or the error
      that stopped it. A failure keeps the state it stopped in, because a thrown
      exception or a trap leaves behind whatever was already allocated. */
  datatype Step<+T> = Done(state: State, value: T) | Fail(state: State, error: Error)

  /** The `http_request_len` import of both hosts: the recorded length, nothing else. */
  function HttpRequestLen(s: State): nat
  {
    s.latestLen
  }

  /** `b` lies in memory, below the allocator's break: allocations only happen
      above it, so its bytes stay as they are while the heap grows. */
  predicate Below(g: Guest, b: Buf)
  {
    InBounds(g.mem, b.ptr, b.len) && b.ptr + b.len <= g.brk
  }

  lemma BelowAcrossGrowth(g: Guest, g': Guest, b: Buf)
    requires Below(g, b) && Grows(g, g')
    ensures Below(g', b)
    ensures g'.mem[b.ptr..b.ptr + b.len] == g.mem[b.ptr..b.ptr + b.len]
  {
  }

  /** `b` is an allocation nobody has released yet: an empty buffer at the
      dangling pointer `alloc_buffer(0)` returns, or a live block of exactly
      `b.len` bytes. Exactly these buffers `dealloc_buffer` accepts. */
  predicate Holds(g: Guest, b: Buf)
  {
    if b.len == 0 then b.ptr == Dangling else b.ptr in g.live && g.live[b.ptr] == b.len
  }

  /** A held buffer lies below the break. */
  lemma HeldIsBelow(g: Guest, b: Buf)
    ensures Wf(g) && Holds(g, b) ==> Below(g, b)
  {
  }

  /** What a held buffer contains survives any growth of the heap. */
  lemma HeldBytesSurvive(g: Guest, g': Guest, b: Buf)
    requires Wf(g) && Holds(g, b) && Grows(g, g')
    ensures Load(g'.mem, b.ptr, b.len) == Load(g.mem, b.ptr, b.len)
  {
    BelowAcrossGrowth(g, g', b);
  }

  /** Some non-empty buffer of `bufs` starts at `p`. */
  predicate Names(bufs: seq<Buf>, p: int)
  {
    exists b :: b in bufs && b.len > 0 && b.ptr == p
  }

  /** Every buffer is held and no non-empty one is listed twice: the condition
      under which releasing them all, in any order, succeeds. (Two held
      non-empty buffers at the same pointer are the same buffer.) */
  predicate HeldApart(g: Guest, bufs: seq<Buf>)
  {
    && (forall b :: b in bufs ==> Holds(g, b))
    && (forall b :: b in multiset(bufs) && b.len > 0 ==> multiset(bufs)[b] == 1)
  }

  /** `g'` keeps every block of `g` and adds exactly the buffers `extra`, which
      it holds, none listed twice, none live in `g`. The order of `extra`
      does not matter. */
  ghost predicate AddsExactly(g: Guest, g': Guest, extra: seq<Buf>)
  {
    && Keeps(g, g')
    && HeldApart(g', extra)
    && (forall p :: Names(extra, p) ==> p !in g.live)
    && (forall p :: p in g'.live ==> p in g.live || Names(extra, p))
  }

  /** Adding nothing leaves the ledger exactly as it was. */
  lemma AddsNothing(g: Guest, g': Guest)
    requires AddsExactly(g, g', [])
    ensures g'.live == g.live
  {
    var none: seq<Buf> := [];
    assert forall p :: !Names(none, p);
    assert forall p :: p in g'.live ==> p in g.live;
    assert forall p :: p in g.live ==> p in g'.live && g'.live[p] == g.live[p];
    assert g'.live.Keys == g.live.Keys;
  }

  /** Two fresh, distinct, non-empty blocks appearing at once add exactly those two. */
  lemma AddsTwoFresh(g: Guest, g': Guest, b1: Buf, b2: Buf)
    requires b1.len > 0 && b2.len > 0 && b1.ptr != b2.ptr
    requires b1.ptr !in g.live && b2.ptr !in g.live
    requires g'.live == g.live[b1.ptr := b1.len][b2.ptr := b2.len]
    ensures AddsExactly(g, g', [b1, b2])
  {
    var two := [b1, b2];
    assert multiset(two)[b1] == 1 && multiset(two)[b2] == 1;
    forall p | Names(two, p)
      ensures p == b1.ptr || p == b2.ptr
    {
      var c :| c in two && c.len > 0 && c.ptr == p;
    }
    forall p | p in g'.live && p !in g.live
      ensures Names(two, p)
    {
      if p == b1.ptr {
        assert b1 in two;
      } else {
        assert b2 in two;
      }
    }
  }

  /** Empty buffers at the dangling pointer add nothing to a ledger that did not change. */
  lemma AddsEmpty(g: Guest, g': Guest, bufs: seq<Buf>)
    requires g'.live == g.live
    requires forall b :: b in bufs ==> b == Buf(Dangling, 0)
    ensures AddsExactly(g, g', bufs)
  {
    forall p
      ensures !Names(bufs, p)
    {
    }
    forall b: Buf | b in multiset(bufs)
      ensures b.len == 0
    {
      assert b in bufs;
    }
  }

  /** The ledger change of a response hand-off followed by the guest's copy:
      either nothing (an empty response at the dangling pointer) or two fresh
      blocks of the response's length, the copy at `out`. */
  lemma AddsResponsePair(g: Guest, g': Guest, out: int, n: nat) returns (resp: Buf)
    requires n == 0 ==> g'.live == g.live && out == Dangling
    requires n > 0 ==> exists p :: p != out && p !in g.live && out !in g.live && g'.live == g.live[p := n][out := n]
    ensures resp.len == n && AddsExactly(g, g', [resp, Buf(out, n)])
  {
    if n > 0 {
      var p :| p != out && p !in g.live && out !in g.live && g'.live == g.live[p := n][out := n];
      resp := Buf(p, n);
      AddsTwoFresh(g, g', resp, Buf(out, n));
    } else {
      resp := Buf(Dangling, 0);
      AddsEmpty(g, g', [resp, Buf(out, n)]);
    }
  }

  /** The same buffers in another order add the same. */
  lemma AddsReordered(g: Guest, g': Guest, extra: seq<Buf>, other: seq<Buf>)
    requires AddsExactly(g, g', extra) && multiset(extra) == multiset(other)
    ensures AddsExactly(g, g', other)
  {
    assert forall b :: b in extra <==> b in other by {
      forall b
        ensures b in extra <==> b in other
      {
        assert b in extra <==> b in multiset(extra);
        assert b in other <==> b in multiset(other);
      }
    }
  }

  lemma NamesAppend(xs: seq<Buf>, ys: seq<Buf>)
    ensures forall p :: Names(xs + ys, p) <==> Names(xs, p) || Names(ys, p)
  {
    forall p
      ensures Names(xs + ys, p) <==> Names(xs, p) || Names(ys, p)
    {
      if Names(xs + ys, p) {
        var b :| b in xs + ys && b.len > 0 && b.ptr == p;
        assert b in xs || b in ys;
      }
      if Names(xs, p) {
        var b :| b in xs && b.len > 0 && b.ptr == p;
        assert b in xs + ys;
      }
      if Names(ys, p) {
        var b :| b in ys && b.len > 0 && b.ptr == p;
        assert b in xs + ys;
      }
    }
  }

  /** What two successive stretches of allocation add, taken together. */
  lemma AddsCompose(g0: Guest, g1: Guest, g2: Guest, xs: seq<Buf>, ys: seq<Buf>)
    requires AddsExactly(g0, g1, xs) && AddsExactly(g1, g2, ys)
    ensures AddsExactly(g0, g2, xs + ys)
  {
    var all := xs + ys;
    NamesAppend(xs, ys);
    assert multiset(all) == multiset(xs) + multiset(ys);
    forall b | b in all
      ensures Holds(g2, b)
    {
      if b in xs {
        assert Holds(g1, b);
      }
    }
    forall b: Buf | b in multiset(all) && b.len > 0
      ensures multiset(all)[b] == 1
    {
      if b in xs {
        assert b.ptr in g1.live;
        assert !Names(ys, b.ptr);
        assert b !in multiset(ys);
      } else {
        assert b !in multiset(xs);
      }
    }
  }

  /** One fresh allocation of `b` adds exactly `b`. */
  lemma AddsOne(g: Guest, g': Guest, b: Buf)
    requires Wf(g) && Holds(g', b) && (b.len > 0 ==> b.ptr !in g.live)
    requires g'.live == if b.len == 0 then g.live else g.live[b.ptr := b.len]
    ensures AddsExactly(g, g', [b])
  {
    assert multiset([b])[b] == 1;
    forall p | Names([b], p)
      ensures p == b.ptr
    {
      var c :| c in [b] && c.len > 0 && c.ptr == p;
    }
    forall p | p in g'.live && p !in g.live
      ensures Names([b], p)
    {
      assert b in [b];
    }
  }

  /** Write each text into a fresh block of exactly its UTF-8 length, in
      order: the host's string writer (`WriteString` in .NET, `stringToWasm`
      in Node) called once per text. */
  function WriteAll(g: Guest, texts: seq<string>): (r: Result<(Guest, seq<Buf>)>)
    ensures Wf(g) ==> r.Ok?
    ensures r.Ok? ==> |r.value.1| == |texts|
    ensures r.Ok? && Wf(g) ==>
      && Wf(r.value.0) && Grows(g, r.value.0)
      && AddsExactly(g, r.value.0, r.value.1)
      && (forall i :: 0 <= i < |texts| ==> r.value.1[i].len == |Encode(texts[i])|)
      && (forall i :: 0 <= i < |texts| ==>
            Load(r.value.0.mem, r.value.1[i].ptr, r.value.1[i].len) == Ok(Encode(texts[i])))
    decreases |texts|
  {
    if |texts| == 0 then Ok((g, []))
    else
      var bytes := Encode(texts[0]);
      match AllocCopy(g, bytes)
      case Err(e) => Err(e)
      case Ok((g1, ptr)) =>
        match WriteAll(g1, texts[1..])
        case Err(e) => Err(e)
        case Ok((g', rest)) =>
          var b := Buf(ptr, |bytes|);
          WriteAllStep(g, g1, g', b, rest, texts, texts[1..]);
          Ok((g', [b] + rest))
  }

  lemma WriteAllStep(g: Guest, g1: Guest, g': Guest, b: Buf, rest: seq<Buf>, texts: seq<string>, more: seq<string>)
    requires |texts| > 0 && more == texts[1..]
    requires AllocCopy(g, Encode(texts[0])) == Ok((g1, b.ptr)) && b.len == |Encode(texts[0])|
    requires |rest| == |more|
    requires Wf(g1) ==>
      && Wf(g') && Grows(g1, g') && AddsExactly(g1, g', rest)
      && (forall i :: 0 <= i < |more| ==> rest[i].len == |Encode(more[i])|)
      && (forall i :: 0 <= i < |more| ==> Load(g'.mem, rest[i].ptr, rest[i].len) == Ok(Encode(more[i])))
    ensures Wf(g) ==>
      && Grows(g, g') && AddsExactly(g, g', [b] + rest)
      && (forall i :: 0 <= i < |texts| ==> ([b] + rest)[i].len == |Encode(texts[i])|)
      && (forall i :: 0 <= i < |texts| ==> Load(g'.mem, ([b] + rest)[i].ptr, ([b] + rest)[i].len) == Ok(Encode(texts[i])))
  {
    if Wf(g) {
      GrowsTransitive(g, g1, g');
      assert AddsExactly(g, g', [b] + rest) by {
        AddsOne(g, g1, b);
        AddsCompose(g, g1, g', [b], rest);
      }
      assert Load(g'.mem, b.ptr, b.len) == Ok(Encode(texts[0])) by {
        HeldBytesSurvive(g1, g', b);
      }
      WrittenInOrder(g'.mem, b, rest, texts, more);
    }
  }

  lemma WrittenInOrder(mem: Memory, b: Buf, rest: seq<Buf>, texts: seq<string>, more: seq<string>)
    requires |texts| > 0 && more == texts[1..] && |rest| == |more|
    requires b.len == |Encode(texts[0])| && Load(mem, b.ptr, b.len) == Ok(Encode(texts[0]))
    requires forall i :: 0 <= i < |more| ==> rest[i].len == |Encode(more[i])|
    requires forall i :: 0 <= i < |more| ==> Load(mem, rest[i].ptr, rest[i].len) == Ok(Encode(more[i]))
    ensures forall i :: 0 <= i < |texts| ==> ([b] + rest)[i].len == |Encode(texts[i])|
    ensures forall i :: 0 <= i < |texts| ==> Load(mem, ([b] + rest)[i].ptr, ([b] + rest)[i].len) == Ok(Encode(texts[i]))
  {
    var all := [b] + rest;
    forall i | 0 <= i < |texts|
      ensures all[i].len == |Encode(texts[i])|
      ensures Load(mem, all[i].ptr, all[i].len) == Ok(Encode(texts[i]))
    {
      if i > 0 {
        assert all[i] == rest[i - 1] && texts[i] == more[i - 1];
      }
    }
  }

  /** `dealloc_buffer` on each buffer in turn, stopping at the first one the
      heap refuses. Only the named blocks go; every other block stays. */
  function ReleaseAll(s: State, bufs: seq<Buf>): (r: Step<()>)
    ensures r.state == s.(guest := r.state.guest)
    ensures Grows(s.guest, r.state.guest)
    ensures r.state.guest.mem == s.guest.mem && r.state.guest.brk == s.guest.brk
    ensures Wf(s.guest) ==> Wf(r.state.guest)
    ensures r.state.guest.live.Keys <= s.guest.live.Keys
    ensures forall p :: p in s.guest.live && !Names(bufs, p) ==>
      p in r.state.guest.live && r.state.guest.live[p] == s.guest.live[p]
    ensures r.Done? ==> forall p :: Names(bufs, p) ==> p !in r.state.guest.live
    ensures r.Fail? ==> r.error.BadRelease?
    ensures HeldApart(s.guest, bufs) ==> r.Done?
    decreases |bufs|
  {
    if |bufs| == 0 then Done(s, ())
    else
      match Release(s.guest, bufs[0].ptr, bufs[0].len)
      case Err(e) =>
        assert bufs[0] in bufs;
        Fail(s, e)
      case Ok(g) =>
        var rest := bufs[1..];
        ReleaseFirst(s.guest, g, bufs);
        ReleaseAll(s.(guest := g), rest)
  }

  lemma ReleaseFirst(g: Guest, g': Guest, bufs: seq<Buf>)
    requires |bufs| > 0 && Release(g, bufs[0].ptr, bufs[0].len) == Ok(g')
    ensures forall p :: Names(bufs, p) <==> (bufs[0].len > 0 && bufs[0].ptr == p) || Names(bufs[1..], p)
    ensures HeldApart(g, bufs) ==> HeldApart(g', bufs[1..])
  {
    var rest := bufs[1..];
    assert bufs == [bufs[0]] + rest;
    NamesAppend([bufs[0]], rest);
    assert forall p :: Names([bufs[0]], p) <==> bufs[0].len > 0 && bufs[0].ptr == p by {
      assert bufs[0] in [bufs[0]];
    }
    assert multiset(bufs) == multiset([bufs[0]]) + multiset(rest);
    if HeldApart(g, bufs) {
      forall b | b in rest
        ensures Holds(g', b)
      {
        assert b in bufs && Holds(g, b);
        if bufs[0].len > 0 {
          assert multiset(rest)[bufs[0]] == 0;
          assert b != bufs[0];
        }
      }
      forall b: Buf | b in multiset(rest) && b.len > 0
        ensures multiset(rest)[b] == 1
      {
        assert multiset(bufs)[b] == 1;
      }
    }
  }

  /** Releasing some of the buffers that were added leaves the rest added. */
  lemma ReleaseAdded(g0: Guest, s: State, all: seq<Buf>, gone: seq<Buf>, kept: seq<Buf>)
    requires AddsExactly(g0, s.guest, all) && multiset(all) == multiset(gone + kept)
    ensures ReleaseAll(s, gone).Done?
    ensures AddsExactly(g0, ReleaseAll(s, gone).state.guest, kept)
  {
    AddsReordered(g0, s.guest, all, gone + kept);
    var both := gone + kept;
    var g := s.guest;
    assert multiset(both) == multiset(gone) + multiset(kept);
    assert HeldApart(g, gone) by {
      forall b: Buf | b in multiset(gone) && b.len > 0
        ensures multiset(gone)[b] == 1
      {
        assert multiset(both)[b] == 1;
      }
    }
    var g' := ReleaseAll(s, gone).state.guest;
    NamesAppend(gone, kept);
    forall b | b in kept
      ensures Holds(g', b)
    {
      assert b in both && Holds(g, b);
      if b.len > 0 {
        assert multiset(both)[b] == 1;
        assert multiset(gone)[b] == 0;
        assert !Names(gone, b.ptr);
      }
    }
    forall b: Buf | b in multiset(kept) && b.len > 0
      ensures multiset(kept)[b] == 1
    {
      assert multiset(both)[b] == 1;
    }
  }

  /** The buffers at the front of a list that is held apart are held apart too. */
  lemma HeldApartPrefix(g: Guest, xs: seq<Buf>, ys: seq<Buf>)
    requires HeldApart(g, xs + ys)
    ensures HeldApart(g, xs)
  {
    assert multiset(xs + ys) == multiset(xs) + multiset(ys);
    forall b | b in xs
      ensures Holds(g, b)
    {
      assert b in xs + ys;
    }
  }

  /** Releasing held buffers and then one that is not live stops at that one
      with `BadRelease`, after the held ones are gone. */
  lemma {:induction false} ReleaseAllStopsAt(s: State, xs: seq<Buf>, bad: Buf)
    requires HeldApart(s.guest, xs) && bad.len != 0 && bad.ptr !in s.guest.live
    ensures ReleaseAll(s, xs + [bad]).Fail?
    ensures ReleaseAll(s, xs + [bad]).error == BadRelease(bad.ptr, bad.len)
    decreases |xs|
  {
    var all := xs + [bad];
    if |xs| == 0 {
      assert all == [bad];
    } else {
      assert xs[0] in xs;
      assert all[0] == xs[0] && all[1..] == xs[1..] + [bad];
      var g := Release(s.guest, xs[0].ptr, xs[0].len).value;
      ReleaseFirst(s.guest, g, xs);
      ReleaseAllStopsAt(s.(guest := g), xs[1..], bad);
    }
  }

  /** A non-empty buffer held apart from `xs` shares its pointer with none of them. */
  lemma HeldApartLast(g: Guest, xs: seq<Buf>, b: Buf)
    requires HeldApart(g, xs + [b]) && b.len > 0
    ensures !Names(xs, b.ptr)
  {
    assert multiset(xs + [b]) == multiset(xs) + multiset{b};
    assert b !in xs;
    assert forall x :: x in xs ==> x in xs + [b];
    assert Holds(g, b) by { assert b in xs + [b]; }
  }

  /** `g` with the held buffer `b` released. */
  function Without(g: Guest, b: Buf): (r: Guest)
    ensures r.mem == g.mem && r.brk == g.brk
    ensures forall p :: p in r.live <==> p in g.live && (b.len == 0 || p != b.ptr)
    ensures Grows(g, r) && (Wf(g) ==> Wf(r))
  {
    if b.len == 0 then g else g.(live := g.live - {b.ptr})
  }

  /** Releasing a buffer that was held before some allocations leaves those
      allocations added to the heap without it. */
  lemma AddsAfterRelease(g: Guest, g1: Guest, g2: Guest, xs: seq<Buf>, b: Buf)
    requires AddsExactly(g, g1, xs) && Holds(g, b)
    requires Release(g1, b.ptr, b.len) == Ok(g2)
    ensures AddsExactly(Without(g, b), g2, xs)
  {
    var g0 := Without(g, b);
    forall c | c in xs
      ensures Holds(g2, c)
    {
      assert Holds(g1, c);
      if c.len > 0 && b.len > 0 {
        assert Names(xs, c.ptr);
      }
    }
  }
}
