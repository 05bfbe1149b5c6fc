/** The guest's heap as seen through `alloc_buffer` / `dealloc_buffer`
    (rust/src/lib.rs), kept as a ledger from pointer to allocated size.

    `alloc_buffer(size)` is `Vec::with_capacity(size)` forgotten: for `size == 0`
    it allocates nothing and returns the dangling pointer 1; otherwise it hands
    out a fresh block. `dealloc_buffer(ptr, size)` rebuilds the `Vec` with `size`
    as length and capacity and drops it: that frees nothing when `size == 0`,
    frees the block when `size` is the size it was allocated with, and is
    undefined behaviour otherwise.

    The allocator itself is modelled as a bump allocator over a memory that
    grows on demand: freed blocks are never handed out again, which is one of
    the behaviours the real allocator may show and the one that makes stale
    pointers easy to talk about.
 */
module GuestHeap {
  import opened Outcomes
  import opened Utf8
  import opened LinearMemory

  /** The pointer `Vec::<u8>::with_capacity(0)` returns without allocating. */
  const Dangling: int := 1

  /** Addresses below this hold the guest's static data; the heap starts here. */
  const HeapBase: int := 16

  /** Linear memory, the live blocks with their sizes, and the allocator's break. */
  datatype Guest = Guest(mem: Memory, live: map<int, nat>, brk: nat)

  /** Every live block is non-empty, lies in the heap below the break, and the break lies in memory. */
  ghost predicate Wf(g: Guest)
  {
    && HeapBase <= g.brk <= |g.mem|
    && forall p :: p in g.live ==> HeapBase <= p && 0 < g.live[p] && p + g.live[p] <= g.brk
  }

  /** How a later guest relates to an earlier one: memory below the old break is
      untouched, the break only rises, and no block below the old break appears
      or changes size (blocks can only be freed there). */
  ghost predicate Grows(g: Guest, g': Guest)
  {
    && g.brk <= g'.brk
    && |g.mem| <= |g'.mem|
    && (forall i :: 0 <= i < g.brk && i < |g.mem| ==> g'.mem[i] == g.mem[i])
    && (forall p :: p in g'.live && p < g.brk ==> p in g.live && g'.live[p] == g.live[p])
  }

  /** Every block live in `g` is still live in `g'`, with the same size. */
  ghost predicate Keeps(g: Guest, g': Guest)
  {
    forall p :: p in g.live ==> p in g'.live && g'.live[p] == g.live[p]
  }

  lemma GrowsTransitive(g0: Guest, g1: Guest, g2: Guest)
    requires Grows(g0, g1) && Grows(g1, g2)
    ensures Grows(g0, g2)
  {
  }

  /** Grow memory (zero-filled) so that it holds at least `size` bytes. */
  function GrowTo(mem: Memory, size: int): (r: Memory)
    ensures |r| >= size && |r| >= |mem|
    ensures r[..|mem|] == mem
  {
    if size <= |mem| then mem else mem + seq(size - |mem|, _ => 0)
  }

  /** `alloc_buffer(size)`: the guest and the pointer it returns. */
  function Alloc(g: Guest, size: nat): (r: (Guest, int))
    ensures size == 0 ==> r == (g, Dangling)
    ensures size > 0 ==> r.1 == g.brk && r.0.live == g.live[r.1 := size]
    ensures size > 0 ==> InBounds(r.0.mem, r.1, size)
    ensures Wf(g) && size > 0 ==> r.1 !in g.live && forall p :: p in g.live ==> p + g.live[p] <= r.1
    ensures Wf(g) ==> Wf(r.0)
    ensures Grows(g, r.0)
  {
    if size == 0 then (g, Dangling)
    else (Guest(GrowTo(g.mem, g.brk + size), g.live[g.brk := size], g.brk + size), g.brk)
  }

  /** `dealloc_buffer(ptr, size)`: frees nothing for size 0, frees the block when
      `size` is its allocated size, and is undefined behaviour (an error here) otherwise. */
  function Release(g: Guest, ptr: int, size: int): (r: Result<Guest>)
    ensures r.Ok? <==> size == 0 || (ptr in g.live && g.live[ptr] == size)
    ensures r.Err? ==> r.error == BadRelease(ptr, size)
    ensures r.Ok? ==> r.value.mem == g.mem && r.value.brk == g.brk
    ensures r.Ok? ==> r.value.live == if size == 0 then g.live else g.live - {ptr}
    ensures r.Ok? ==> Grows(g, r.value)
    ensures r.Ok? && Wf(g) ==> Wf(r.value)
  {
    if size == 0 then Ok(g)
    else if ptr in g.live && g.live[ptr] == size then Ok(g.(live := g.live - {ptr}))
    else Err(BadRelease(ptr, size))
  }

  /** Allocate a block of exactly `|data|` bytes and copy `data` into it: the
      shape shared by .NET `WriteString`, Node `stringToWasm`, both hosts'
      response hand-off and the guest's copy of the response. */
  function AllocCopy(g: Guest, data: seq<uint8>): (r: Result<(Guest, int)>)
    ensures Wf(g) ==> r.Ok? && Wf(r.value.0)
    ensures r.Ok? ==> Load(r.value.0.mem, r.value.1, |data|) == Ok(data)
    ensures r.Ok? ==> r.value.0.live == if |data| == 0 then g.live else g.live[r.value.1 := |data|]
    ensures r.Ok? && |data| == 0 ==> r.value.1 == Dangling
    ensures r.Ok? && Wf(g) && |data| > 0 ==> r.value.1 !in g.live && g.brk <= r.value.1
    ensures r.Ok? ==> Grows(g, r.value.0) && r.value.0.brk == g.brk + |data|
  {
    var (g1, ptr) := Alloc(g, |data|);
    var mem :- Store(g1.mem, ptr, data);
    LoadAfterStore(g1.mem, ptr, data);
    Ok((g1.(mem := mem), ptr))
  }

  /** A block that is live with its allocated size can be released exactly once:
      the first release succeeds and a second one with the same size fails. */
  lemma ReleaseExactlyOnce(g: Guest, ptr: int)
    requires ptr in g.live && g.live[ptr] > 0
    ensures Release(g, ptr, g.live[ptr]).Ok?
    ensures Release(Release(g, ptr, g.live[ptr]).value, ptr, g.live[ptr]).Err?
  {
  }
}
