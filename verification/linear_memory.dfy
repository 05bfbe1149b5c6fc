/** The guest's linear memory and the three ways the bridge touches it.

    - `Store` and `Load` are the bounds-checked copies of the .NET
      `WasmMemoryExtensions` (`WriteBytes`, `ReadBytes`); `Store` is also what
      JavaScript's `Uint8Array.prototype.set` does, and both are what a guest
      load or store does (a trap instead of an exception).
    - `Slice` is JavaScript's `Uint8Array.prototype.slice`, which clamps
      instead of failing.

    The size of memory is `|mem|`, read afresh by every access.
 */
module LinearMemory {
  import opened Outcomes
  import opened Utf8

  type Memory = seq<uint8>

  predicate InBounds(mem: Memory, offset: int, length: int)
  {
    0 <= offset && 0 <= length && offset + length <= |mem|
  }

  /** Copy `data` into memory at `offset`, or fail without touching memory. */
  function Store(mem: Memory, offset: int, data: seq<uint8>): (r: Result<Memory>)
    ensures r.Ok? <==> InBounds(mem, offset, |data|)
    ensures r.Err? ==> r.error == OutOfBounds(offset, |data|, |mem|)
    ensures r.Ok? ==> |r.value| == |mem|
    ensures r.Ok? ==> forall i :: 0 <= i < |data| ==> r.value[offset + i] == data[i]
    ensures r.Ok? ==> forall i :: 0 <= i < |mem| && !(offset <= i < offset + |data|) ==> r.value[i] == mem[i]
  {
    if offset < 0 || offset + |data| > |mem| then Err(OutOfBounds(offset, |data|, |mem|))
    else Ok(mem[..offset] + data + mem[offset + |data|..])
  }

  /** Copy `count` bytes out of memory at `offset`; never truncates. */
  function Load(mem: Memory, offset: int, count: int): (r: Result<seq<uint8>>)
    ensures r.Ok? <==> InBounds(mem, offset, count)
    ensures r.Err? ==> r.error == OutOfBounds(offset, count, |mem|)
    ensures r.Ok? ==> |r.value| == count
    ensures r.Ok? ==> forall i :: 0 <= i < count ==> r.value[i] == mem[offset + i]
  {
    if offset < 0 || count < 0 || offset + count > |mem| then Err(OutOfBounds(offset, count, |mem|))
    else Ok(mem[offset..offset + count])
  }

  /** ECMAScript's relative-index rule: a negative index counts from the end,
      and the result is clamped to `0..len`. */
  function RelativeIndex(i: int, len: nat): (r: nat)
    ensures r <= len
    ensures 0 <= i <= len ==> r == i
  {
    if i < 0 then (if len + i < 0 then 0 else len + i)
    else if i > len then len
    else i
  }

  /** `new Uint8Array(memory.buffer).slice(start, end)`: never fails. */
  function Slice(mem: Memory, start: int, end: int): (r: seq<uint8>)
    ensures |r| <= |mem|
    ensures InBounds(mem, start, end - start) ==> r == mem[start..end]
    ensures 0 <= start <= end ==> |r| <= end - start
    ensures 0 <= start <= |mem| && start <= end ==> r == mem[start..if end <= |mem| then end else |mem|]
  {
    var from, to := RelativeIndex(start, |mem|), RelativeIndex(end, |mem|);
    if from < to then mem[from..to] else []
  }

  // ---------------------------------------------------------------------------
  // Laws relating the accesses

  /** Reading back the bytes just written at the same place returns them. */
  lemma LoadAfterStore(mem: Memory, offset: int, data: seq<uint8>)
    requires Store(mem, offset, data).Ok?
    ensures Load(Store(mem, offset, data).value, offset, |data|) == Ok(data)
  {
    var m' := Store(mem, offset, data).value;
    assert m'[offset..offset + |data|] == data;
  }

  /** A store leaves every region it does not overlap readable as before. */
  lemma LoadAcrossStore(mem: Memory, offset: int, data: seq<uint8>, at: int, count: int)
    requires Store(mem, offset, data).Ok?
    requires at + count <= offset || offset + |data| <= at
    ensures Load(Store(mem, offset, data).value, at, count) == Load(mem, at, count)
  {
    var m' := Store(mem, offset, data).value;
    if InBounds(mem, at, count) {
      assert m'[at..at + count] == mem[at..at + count];
    }
  }

  /** Where `Load` succeeds, the clamping `Slice` of the same range agrees with it. */
  lemma SliceAgreesWithLoad(mem: Memory, offset: int, count: int)
    requires Load(mem, offset, count).Ok?
    ensures Slice(mem, offset, offset + count) == Load(mem, offset, count).value
  {
  }
}
