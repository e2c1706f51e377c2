/** The memory and the call cache of the MIR interpreter
    (`Interpreter::Memory`, `Interpreter::Cache` and `Interpreter::Key` in
    include/Mir/Interpreter.h), which constant-folds whole calls at compile
    time. Memory is a byte vector grown by a bump allocator; reads and
    writes copy raw bytes and throw on an out-of-range access. */
module InterpMemory {
  import opened Wrappers
  import opened Int32
  import Bits
  import Arith

  type Byte = x: int | 0 <= x < 256

  /** `storage` and `next_alloc_ptr`. */
  datatype Memory = Memory(storage: seq<Byte>, next: nat)

  /** `std::out_of_range`. */
  datatype MemError = OutOfRange

  function NewMemory(): Memory
  {
    Memory([], 0)
  }

  /** The bump pointer never runs past the storage. */
  predicate Valid(m: Memory)
  {
    m.next <= |m.storage|
  }

  function Zeros(n: nat): seq<Byte>
  {
    seq(n, _ => 0)
  }

  /** The bump pointer moved up to the next multiple of the alignment:
      the least multiple at or above it. */
  function AlignUp(p: nat, alignment: nat): (a: nat)
    requires alignment > 0
    ensures a % alignment == 0 && p <= a < p + alignment
  {
    var remainder := p % alignment;
    if remainder != 0 then
      var q := p / alignment;
      var a := p + (alignment - remainder);
      assert a == (q + 1) * alignment;
      Arith.DivBetween(a, alignment, q + 1);
      a
    else p
  }

  datatype Allocation = Allocation(memory: Memory, addr: nat)

  /** `allocate(size, alignment)`: align the bump pointer, hand out the
      address, bump the pointer by `size` and grow the storage with zero
      bytes when it is too short. The source divides by the alignment, so it
      must not be zero.
      The address is aligned and at most `alignment - 1` bytes above the
      old bump pointer, the new bump pointer is its end, the storage covers
      it, and the bytes that were there stay while the added ones are
      zero. */
  function Allocate(m: Memory, size: nat, alignment: nat): (a: Allocation)
    requires alignment > 0
    ensures a.addr % alignment == 0 && m.next <= a.addr < m.next + alignment
    ensures a.memory.next == a.addr + size && Valid(a.memory)
    ensures |a.memory.storage| == (if |m.storage| < a.addr + size then a.addr + size else |m.storage|)
    ensures a.memory.storage[..|m.storage|] == m.storage
    ensures forall i :: |m.storage| <= i < |a.memory.storage| ==> a.memory.storage[i] == 0
  {
    var addr := AlignUp(m.next, alignment);
    var next := addr + size;
    var storage := if |m.storage| < next then m.storage + Zeros(next - |m.storage|) else m.storage;
    Allocation(Memory(storage, next), addr)
  }

  /** The bounds check every access performs, on unbounded integers. */
  predicate InBounds(m: Memory, addr: nat, n: nat)
  {
    addr + n <= |m.storage|
  }

  /** `write<T>(addr, value)` for the `sizeof(T)` bytes of the value. It
      succeeds exactly when the bytes lie inside the storage; it then keeps
      the size and the bump pointer, puts the bytes at `addr` and leaves
      every other byte alone. */
  function Write(m: Memory, addr: nat, bytes: seq<Byte>): (r: Result<Memory, MemError>)
    ensures r.Ok? <==> addr + |bytes| <= |m.storage|
    ensures r.Ok? ==> |r.value.storage| == |m.storage| && r.value.next == m.next
    ensures r.Ok? ==> forall i :: 0 <= i < |bytes| ==> r.value.storage[addr + i] == bytes[i]
    ensures r.Ok? ==> forall k :: 0 <= k < |m.storage| && !(addr <= k < addr + |bytes|) ==>
      r.value.storage[k] == m.storage[k]
  {
    if !InBounds(m, addr, |bytes|) then Err(OutOfRange)
    else Ok(m.(storage := m.storage[..addr] + bytes + m.storage[addr + |bytes|..]))
  }

  /** `read<T>(addr)`: the `n == sizeof(T)` bytes at `addr`. It succeeds
      exactly when they lie inside the storage, and returns them. */
  function Read(m: Memory, addr: nat, n: nat): (r: Result<seq<Byte>, MemError>)
    ensures r.Ok? <==> addr + n <= |m.storage|
    ensures r.Ok? ==> |r.value| == n && forall i :: 0 <= i < n ==> r.value[i] == m.storage[addr + i]
  {
    if !InBounds(m, addr, n) then Err(OutOfRange)
    else Ok(m.storage[addr..addr + n])
  }

  /** `zero_fill(addr, size)`: a write of `size` zero bytes, which fails
      out of range and otherwise zeroes exactly the range. */
  function ZeroFill(m: Memory, addr: nat, size: nat): (r: Result<Memory, MemError>)
    ensures r == Write(m, addr, Zeros(size))
    ensures r.Ok? <==> addr + size <= |m.storage|
    ensures r.Ok? ==> Read(r.value, addr, size) == Ok(Zeros(size))
  {
    if !InBounds(m, addr, size) then Err(OutOfRange)
    else
      ReadAfterWrite(m, addr, Zeros(size));
      Ok(m.(storage := m.storage[..addr] + Zeros(size) + m.storage[addr + size..]))
  }

  // ---------------------------------------------------------------------
  // Allocation

  /** Two allocations in a row do not overlap: the second starts at or
      after the end of the first. */
  lemma AllocationsDisjoint(m: Memory, size1: nat, align1: nat, size2: nat, align2: nat)
    requires align1 > 0 && align2 > 0
    ensures var a1 := Allocate(m, size1, align1);
      var a2 := Allocate(a1.memory, size2, align2);
      a1.addr + size1 <= a2.addr
  {
  }

  /** The `alloc` instruction's pattern: a fresh allocation can always be
      zero-filled, and it then reads back as zeros. */
  lemma AllocateThenFill(m: Memory, size: nat, alignment: nat)
    requires alignment > 0
    ensures var a := Allocate(m, size, alignment);
      ZeroFill(a.memory, a.addr, size).Ok? &&
      Read(ZeroFill(a.memory, a.addr, size).value, a.addr, size) == Ok(Zeros(size))
  {
  }

  // ---------------------------------------------------------------------
  // Access

  /** Reading back what was written returns it. */
  lemma ReadAfterWrite(m: Memory, addr: nat, bytes: seq<Byte>)
    requires Write(m, addr, bytes).Ok?
    ensures Read(Write(m, addr, bytes).value, addr, |bytes|) == Ok(bytes)
  {
    var m' := Write(m, addr, bytes).value;
    assert m'.storage[addr..addr + |bytes|] == bytes;
  }

  /** A write does not disturb a read of bytes it does not cover. */
  lemma ReadOtherAfterWrite(m: Memory, addr: nat, bytes: seq<Byte>, other: nat, n: nat)
    requires Write(m, addr, bytes).Ok?
    requires other + n <= addr || addr + |bytes| <= other
    ensures Read(Write(m, addr, bytes).value, other, n) == Read(m, other, n)
  {
    var m' := Write(m, addr, bytes).value;
    if other + n <= |m.storage| {
      assert m'.storage[other..other + n] == m.storage[other..other + n];
    }
  }

  /** The second of two writes of the same width to one address wins. */
  lemma WriteTwice(m: Memory, addr: nat, x: seq<Byte>, y: seq<Byte>)
    requires Write(m, addr, x).Ok? && |x| == |y|
    ensures Write(Write(m, addr, x).value, addr, y) == Write(m, addr, y)
  {
    var m1 := Write(m, addr, x).value;
    assert Write(m1, addr, y).value.storage == Write(m, addr, y).value.storage;
  }

  // ---------------------------------------------------------------------
  // 32-bit integers

  /** The `n` little-endian bytes of `x`. */
  function EncodeLE(x: nat, n: nat): seq<Byte>
  {
    if n == 0 then [] else [x % 256] + EncodeLE(x / 256, n - 1)
  }

  function DecodeLE(bs: seq<Byte>): nat
  {
    if |bs| == 0 then 0 else bs[0] + 256 * DecodeLE(bs[1..])
  }

  function Pow256(n: nat): nat
  {
    if n == 0 then 1 else 256 * Pow256(n - 1)
  }

  lemma {:induction false} DecodeEncode(x: nat, n: nat)
    requires x < Pow256(n)
    ensures |EncodeLE(x, n)| == n
    ensures DecodeLE(EncodeLE(x, n)) == x
    decreases n
  {
    if n > 0 {
      var q := x / 256;
      Arith.DivBetween(x, 256, q);
      assert q < Pow256(n - 1);
      DecodeEncode(q, n - 1);
      assert EncodeLE(x, n)[1..] == EncodeLE(q, n - 1);
    }
  }

  /** The `int` as `memcpy` stores it on the little-endian target: the two's
      complement bit pattern. */
  function Unsigned(v: I32): nat
  {
    if v < 0 then v + MODULUS else v
  }

  function WriteInt(m: Memory, addr: nat, v: I32): Result<Memory, MemError>
  {
    Write(m, addr, EncodeLE(Unsigned(v), 4))
  }

  function ReadInt(m: Memory, addr: nat): Result<I32, MemError>
  {
    var bs :- Read(m, addr, 4);
    Ok(Wrap(DecodeLE(bs)))
  }

  /** `read<int>` after `write<int>` at the same address returns the value;
      both fail together when the four bytes are out of range. */
  lemma IntRoundTrip(m: Memory, addr: nat, v: I32)
    ensures WriteInt(m, addr, v).Ok? <==> addr + 4 <= |m.storage|
    ensures WriteInt(m, addr, v).Ok? ==> ReadInt(WriteInt(m, addr, v).value, addr) == Ok(v)
  {
    assert Pow256(4) == MODULUS;
    DecodeEncode(Unsigned(v), 4);
    if WriteInt(m, addr, v).Ok? {
      ReadAfterWrite(m, addr, EncodeLE(Unsigned(v), 4));
      if v < 0 {
        WrapUnique(Unsigned(v), -1);
      } else {
        WrapInRange(v);
      }
    }
  }

  // ---------------------------------------------------------------------
  // The bounds check as written

  /** `static_cast<size_t>` of an `int` address. */
  function SizeT(a: int): nat
  {
    a % TWO_TO_64
  }

  /** The source's test `addr + sizeof(T) > storage.size()` evaluated in
      64-bit `size_t`, where the sum wraps: the access is let through when
      this holds. */
  predicate PassesCheckAsWritten(addr: nat, n: nat, size: nat)
  {
    (addr + n) % TWO_TO_64 <= size
  }

  /** A `load` from address -4 (one element before an array allocated at
      address 0) is let through by the wrapping check even on an empty
      storage, though its bytes lie far outside it. */
  lemma NegativeAddressPassesAsWritten()
    ensures var addr := SizeT(-4);
      PassesCheckAsWritten(addr, 4, 0) && addr + 4 > 0 && addr == TWO_TO_64 - 4
  {
  }

  /** With the sum taken exactly, an `int` address that is negative is
      rejected by every read and write, whatever the storage holds. */
  lemma NegativeAddressRejected(m: Memory, a: I32, bytes: seq<Byte>, n: nat)
    requires a < 0 && |m.storage| < TWO_TO_64 - MODULUS
    ensures Read(m, SizeT(a), n) == Err(OutOfRange)
    ensures Write(m, SizeT(a), bytes) == Err(OutOfRange)
  {
    assert SizeT(a) == a + TWO_TO_64;
  }

  // ---------------------------------------------------------------------
  // The call cache

  /** `Key`: a function name and the argument values of one call;
      `operator==` is equality of both. */
  datatype Key<V> = Key(funcName: string, funcArgs: seq<V>)

  /** `Cache`: the results of calls already folded. */
  type Cache<V(==)> = map<Key<V>, V>

  function Put<V(==)>(c: Cache<V>, k: Key<V>, v: V): Cache<V>
  {
    c[k := v]
  }

  predicate Contains<V(==)>(c: Cache<V>, k: Key<V>)
  {
    k in c
  }

  /** `get`: a missing key is reported (`log_error("Cache miss")`). The
      source then falls off the end of a non-void function, which is
      undefined behaviour; `Err` stands in for it. Its only caller tests
      `contains` first. */
  function Get<V(==)>(c: Cache<V>, k: Key<V>): Result<V, string>
  {
    if k in c then Ok(c[k]) else Err("Cache miss")
  }

  function Clear<V(==)>(c: Cache<V>): Cache<V>
  {
    map[]
  }

  /** After `put(k, v)` the key is present and maps to `v`, other keys are
      unchanged, and the size grows by one exactly when `k` was new. */
  lemma PutThenGet<V>(c: Cache<V>, k: Key<V>, v: V, other: Key<V>)
    ensures Contains(Put(c, k, v), k) && Get(Put(c, k, v), k) == Ok(v)
    ensures other != k ==> Get(Put(c, k, v), other) == Get(c, other)
    ensures |Put(c, k, v)| == if Contains(c, k) then |c| else |c| + 1
  {
  }

  /** `get` fails exactly on a key `contains` rejects, and nothing is found
      after `clear`. */
  lemma GetMisses<V>(c: Cache<V>, k: Key<V>)
    ensures Get(c, k).Err? <==> !Contains(c, k)
    ensures !Contains(Clear(c), k) && |Clear(c)| == 0
  {
  }

  /** `Key::Hash`: the name's hash combined, argument by argument, with
      `hash ^= arg_hash + 0x9e3779b9 + (hash << 6) + (hash >> 2)` in
      64-bit arithmetic. The hashes of the name and of the argument values
      are those of the C++ standard library and are taken as inputs. */
  function HashCombine(hash: nat, argHash: nat): nat
  {
    var mixed := (argHash + 0x9e3779b9 + (hash * 64) % TWO_TO_64 + hash / 4) % TWO_TO_64;
    Bits.Xor(hash, mixed)
  }

  function KeyHash(nameHash: nat, argHashes: seq<nat>): nat
  {
    if |argHashes| == 0 then nameHash
    else HashCombine(KeyHash(nameHash, argHashes[..|argHashes| - 1]), argHashes[|argHashes| - 1])
  }

  /** The hash stays a 64-bit value. */
  lemma {:induction false} KeyHashWidth(nameHash: nat, argHashes: seq<nat>)
    requires nameHash < TWO_TO_64
    ensures KeyHash(nameHash, argHashes) < TWO_TO_64
    decreases |argHashes|
  {
    if |argHashes| > 0 {
      var h := KeyHash(nameHash, argHashes[..|argHashes| - 1]);
      KeyHashWidth(nameHash, argHashes[..|argHashes| - 1]);
      var mixed := (argHashes[|argHashes| - 1] + 0x9e3779b9 + (h * 64) % TWO_TO_64 + h / 4) % TWO_TO_64;
      SixtyFourBits();
      Bits.WidthBound(h, mixed, 64);
    }
  }
}
