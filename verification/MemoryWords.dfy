/**
 The word-wise copy and fill: bytes up to an aligned destination, then eight bytes at a time as
 little-endian words, then the remaining bytes. They equal the bytewise copy and fill.
 */
module MemoryWords {
  import opened Bits
  import opened Common

  const ONES: nat := 0x0101_0101_0101_0101

  // ---- words and their bytes ----

  function Word(bytes: seq<Byte>): nat {
    if bytes == [] then 0 else bytes[0] + 256 * Word(bytes[1..])
  }

  function BytesOf(word: nat, n: nat): (bytes: seq<Byte>)
    ensures |bytes| == n
  {
    if n == 0 then [] else [word % 256] + BytesOf(word / 256, n - 1)
  }

  lemma BytesStep(low: Byte, rest: nat, n: nat)
    requires 0 < n
    ensures BytesOf(low + 256 * rest, n) == [low] + BytesOf(rest, n - 1)
  {
    ModOf(low + 256 * rest, 256, rest, low);
  }

  lemma WordStep(bytes: seq<Byte>)
    requires bytes != []
    ensures Word(bytes) == bytes[0] + 256 * Word(bytes[1..])
  {
  }

  /** Loading a word and storing it again moves the bytes unchanged. */
  lemma {:induction false} LoadStore(bytes: seq<Byte>)
    ensures BytesOf(Word(bytes), |bytes|) == bytes
  {
    hide BytesOf, Word;
    if bytes == [] {
      assert BytesOf(Word(bytes), 0) == [];
    } else {
      WordStep(bytes);
      BytesStep(bytes[0], Word(bytes[1..]), |bytes|);
      LoadStore(bytes[1..]);
    }
  }

  function Copies(value: Byte, n: nat): (bytes: seq<Byte>)
    ensures |bytes| == n && forall i | 0 <= i < n :: bytes[i] == value
  {
    if n == 0 then [] else [value] + Copies(value, n - 1)
  }

  function Ones(n: nat): nat {
    if n == 0 then 0 else 1 + 256 * Ones(n - 1)
  }

  lemma {:induction false} OnesTimes(value: Byte, n: nat)
    ensures BytesOf(Ones(n) * value, n) == Copies(value, n)
  {
    hide BytesOf;
    if n == 0 {
      assert BytesOf(Ones(n) * value, 0) == [];
    } else {
      ShiftTimes(Ones(n - 1), value);
      BytesStep(value, Ones(n - 1) * value, n);
      OnesTimes(value, n - 1);
    }
  }

  lemma ShiftTimes(ones: nat, value: nat)
    ensures (1 + 256 * ones) * value == value + 256 * (ones * value)
  {
  }

  /** The fill word is eight copies of the value and fits a word. */
  lemma EightCopies(value: Byte)
    ensures BytesOf(ONES * value, 8) == Copies(value, 8) && ONES * value < 0x1_0000_0000_0000_0000
  {
    hide BytesOf, Copies;
    assert Ones(2) == 0x0101;
    assert Ones(4) == 0x0101_0101;
    assert Ones(6) == 0x0101_0101_0101;
    assert Ones(8) == ONES;
    OnesTimes(value, 8);
  }

  // ---- memory ----

  /** The memory with n bytes from `src` written at `dst`. */
  function Copied(memory: seq<Byte>, dst: nat, src: nat, n: nat): seq<Byte>
    requires dst + n <= |memory| && src + n <= |memory|
  {
    memory[..dst] + memory[src..src + n] + memory[dst + n..]
  }

  function Filled(memory: seq<Byte>, dst: nat, value: Byte, n: nat): seq<Byte>
    requires dst + n <= |memory|
  {
    memory[..dst] + Copies(value, n) + memory[dst + n..]
  }

  method LoadWord(memory: array<Byte>, at: nat) returns (word: nat)
    requires at + 8 <= memory.Length
    ensures word == Word(memory[at..at + 8])
  {
    word := Word(memory[at..at + 8]);
  }

  /** A word is only ever stored at an aligned address; `base` is the address of the first byte. */
  method StoreWord(memory: array<Byte>, base: nat, at: nat, word: nat)
    requires at + 8 <= memory.Length && Aligned(base + at)
    modifies memory
    ensures memory[..] == old(memory[..at]) + BytesOf(word, 8) + old(memory[at + 8..])
  {
    var bytes := BytesOf(word, 8);
    forall i | 0 <= i < 8 {
      memory[at + i] := bytes[i];
    }
    assert memory[..] == old(memory[..at]) + bytes + old(memory[at + 8..]);
  }

  lemma MaskSeven(x: nat)
    ensures And(x, 7) == x % 8
  {
    hide And;
    Pow2Small();
    AndLowMask(x, 3);
  }

  /** On a word boundary. */
  predicate Aligned(address: nat) {
    address % 8 == 0
  }

  lemma AlignedOn(address: nat)
    requires Aligned(address)
    ensures Aligned(address + 8)
  {
  }

  /** What the loop over the bytes in front tests. */
  lemma AlignedTest(address: nat)
    ensures And(address, 7) == 0 <==> Aligned(address)
  {
    MaskSeven(address);
  }

  /** All but `left` bytes have been copied, and everything else is as it was. */
  ghost predicate Copying(was: seq<Byte>, now: seq<Byte>, dst: nat, src: nat, size: nat, d: nat, s: nat, left: nat) {
    && dst + size <= |was| && src + size <= |was| && Separate(dst, src, size)
    && left <= size && d + left == dst + size && s + left == src + size
    && now == Copied(was, dst, src, size - left)
  }

  lemma CopyOn(was: seq<Byte>, now: seq<Byte>, dst: nat, src: nat, size: nat, d: nat, s: nat, left: nat,
               n: nat, next: seq<Byte>)
    requires Copying(was, now, dst, src, size, d, s, left) && n <= left
    requires d + n <= |now| && s + n <= |now| && next == Copied(now, d, s, n)
    ensures Copying(was, next, dst, src, size, d + n, s + n, left - n)
  {
    hide Copied;
    CopiedAt(was, dst, src, size - left);
    CopiedAt(now, d, s, n);
    CopiedAt(was, dst, src, size - left + n);
  }

  lemma CopyStart(was: seq<Byte>, dst: nat, src: nat, size: nat)
    requires dst + size <= |was| && src + size <= |was| && Separate(dst, src, size)
    ensures Copying(was, was, dst, src, size, dst, src, size)
  {
  }

  lemma CopyEnd(was: seq<Byte>, now: seq<Byte>, dst: nat, src: nat, size: nat, d: nat, s: nat)
    requires Copying(was, now, dst, src, size, d, s, 0)
    ensures dst + size <= |was| && src + size <= |was| && now == Copied(was, dst, src, size)
  {
  }

  lemma CopiedAt(memory: seq<Byte>, dst: nat, src: nat, n: nat)
    requires dst + n <= |memory| && src + n <= |memory|
    ensures var r := Copied(memory, dst, src, n);
      && |r| == |memory|
      && forall i {:trigger r[i]} | 0 <= i < |memory| ::
           r[i] == if dst <= i < dst + n then memory[src + (i - dst)] else memory[i]
  {
  }

  /** The fill changes exactly the bytes of the range. */
  lemma FilledAt(memory: seq<Byte>, dst: nat, value: Byte, n: nat)
    requires dst + n <= |memory|
    ensures var r := Filled(memory, dst, value, n);
      |r| == |memory| && forall i | 0 <= i < |memory| :: r[i] == if dst <= i < dst + n then value else memory[i]
  {
  }

  method CopyByte(memory: array<Byte>, d: nat, s: nat)
    requires d < memory.Length && s < memory.Length
    modifies memory
    ensures memory[..] == Copied(old(memory[..]), d, s, 1)
  {
    memory[d] := memory[s];
  }

  method CopyWord(memory: array<Byte>, base: nat, d: nat, s: nat)
    requires d + 8 <= memory.Length && s + 8 <= memory.Length && Aligned(base + d)
    modifies memory
    ensures memory[..] == Copied(old(memory[..]), d, s, 8)
  {
    hide BytesOf, Word;
    var word := LoadWord(memory, s);
    LoadStore(memory[s..s + 8]);
    StoreWord(memory, base, d, word);
  }

  method Memcpy(memory: array<Byte>, base: nat, dst: nat, src: nat, size: nat)
    requires dst + size <= memory.Length && src + size <= memory.Length && Separate(dst, src, size)
    modifies memory
    ensures memory[..] == Copied(old(memory[..]), dst, src, size)
  {
    hide And, Copied, Separate, Copying, Aligned;
    ghost var was := memory[..];
    var d: nat, s: nat, left: nat := dst, src, size;
    CopyStart(was, dst, src, size);
    AlignedTest(base + d);
    while And(base + d, 7) != 0 && left != 0
      invariant d + left == dst + size && s + left == src + size
      invariant Copying(was, memory[..], dst, src, size, d, s, left)
      invariant And(base + d, 7) == 0 <==> Aligned(base + d)
      decreases left
    {
      ghost var now := memory[..];
      CopyByte(memory, d, s);
      CopyOn(was, now, dst, src, size, d, s, left, 1, memory[..]);
      d, s, left := d + 1, s + 1, left - 1;
      AlignedTest(base + d);
    }
    while left >= 8
      invariant d + left == dst + size && s + left == src + size
      invariant left != 0 ==> Aligned(base + d)
      invariant Copying(was, memory[..], dst, src, size, d, s, left)
    {
      ghost var now := memory[..];
      CopyWord(memory, base, d, s);
      AlignedOn(base + d);
      CopyOn(was, now, dst, src, size, d, s, left, 8, memory[..]);
      d, s, left := d + 8, s + 8, left - 8;
    }
    while left != 0
      invariant d + left == dst + size && s + left == src + size
      invariant Copying(was, memory[..], dst, src, size, d, s, left)
    {
      ghost var now := memory[..];
      CopyByte(memory, d, s);
      CopyOn(was, now, dst, src, size, d, s, left, 1, memory[..]);
      d, s, left := d + 1, s + 1, left - 1;
    }
    CopyEnd(was, memory[..], dst, src, size, d, s);
  }

  lemma FillNone(was: seq<Byte>, dst: nat, value: Byte)
    requires dst <= |was|
    ensures Filled(was, dst, value, 0) == was
  {
  }

  lemma FillOn(was: seq<Byte>, now: seq<Byte>, dst: nat, value: Byte, k: nat, n: nat, next: seq<Byte>)
    requires dst + k + n <= |was| && now == Filled(was, dst, value, k)
    requires next == Filled(now, dst + k, value, n)
    ensures next == Filled(was, dst, value, k + n)
  {
  }

  method FillByte(memory: array<Byte>, d: nat, value: Byte)
    requires d < memory.Length
    modifies memory
    ensures memory[..] == Filled(old(memory[..]), d, value, 1)
  {
    memory[d] := value;
  }

  method FillWord(memory: array<Byte>, base: nat, d: nat, value: Byte, valueWord: nat)
    requires d + 8 <= memory.Length && Aligned(base + d) && BytesOf(valueWord, 8) == Copies(value, 8)
    modifies memory
    ensures memory[..] == Filled(old(memory[..]), d, value, 8)
  {
    hide BytesOf, Copies;
    StoreWord(memory, base, d, valueWord);
  }

  method Memset(memory: array<Byte>, base: nat, dst: nat, value: Byte, size: nat)
    requires dst + size <= memory.Length
    modifies memory
    ensures memory[..] == Filled(old(memory[..]), dst, value, size)
  {
    hide And, Filled, BytesOf, Copies, Aligned;
    ghost var was := memory[..];
    var d: nat, left: nat := dst, size;
    FillNone(was, dst, value);
    AlignedTest(base + d);
    while And(base + d, 7) != 0 && left != 0
      invariant d + left == dst + size && left <= size
      invariant memory[..] == Filled(was, dst, value, size - left)
      invariant And(base + d, 7) == 0 <==> Aligned(base + d)
      decreases left
    {
      ghost var now := memory[..];
      FillByte(memory, d, value);
      FillOn(was, now, dst, value, size - left, 1, memory[..]);
      d, left := d + 1, left - 1;
      AlignedTest(base + d);
    }
    var valueWord := ONES * value;
    EightCopies(value);
    while left >= 8
      invariant d + left == dst + size && left <= size
      invariant left != 0 ==> Aligned(base + d)
      invariant memory[..] == Filled(was, dst, value, size - left)
    {
      ghost var now := memory[..];
      FillWord(memory, base, d, value, valueWord);
      AlignedOn(base + d);
      FillOn(was, now, dst, value, size - left, 8, memory[..]);
      d, left := d + 8, left - 8;
    }
    while left != 0
      invariant d + left == dst + size && left <= size
      invariant memory[..] == Filled(was, dst, value, size - left)
    {
      ghost var now := memory[..];
      FillByte(memory, d, value);
      FillOn(was, now, dst, value, size - left, 1, memory[..]);
      d, left := d + 1, left - 1;
    }
  }
}
