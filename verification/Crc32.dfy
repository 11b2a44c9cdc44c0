/** xcrc32 as a fold over bytes; the table step itself is a parameter of the model. */
module Crc32 {
  import opened NorFlash

  type Table = (nat, byte) -> nat

  const INIT := 0xffff_ffff

  function Crc(step: Table, init: nat, data: seq<byte>): nat {
    if data == [] then init else step(Crc(step, init, data[..|data| - 1]), data[|data| - 1])
  }

  /** Chunk by chunk is the same as all at once. */
  lemma {:induction false} CrcAppend(step: Table, init: nat, a: seq<byte>, b: seq<byte>)
    ensures Crc(step, Crc(step, init, a), b) == Crc(step, init, a + b)
  {
    if b == [] {
      assert a + b == a;
    } else {
      var c := a + b;
      assert c[..|c| - 1] == a + b[..|b| - 1];
      CrcAppend(step, init, a, b[..|b| - 1]);
    }
  }

  /** The loop as it runs: one table step for each byte, the first byte first. */
  function Folded(step: Table, crc: nat, data: seq<byte>): nat
    decreases |data|
  {
    if data == [] then crc else Folded(step, step(crc, data[0]), data[1..])
  }

  lemma {:induction false} CrcIsFolded(step: Table, init: nat, data: seq<byte>)
    ensures Crc(step, init, data) == Folded(step, init, data)
    decreases |data|
  {
    if data != [] {
      var first := [data[0]];
      assert data == first + data[1..] && first[..0] == [];
      CrcAppend(step, init, first, data[1..]);
      assert Crc(step, init, first) == step(init, data[0]);
      CrcIsFolded(step, step(init, data[0]), data[1..]);
    }
  }

  method Xcrc32(step: Table, buf: seq<byte>, init: nat) returns (crc: nat)
    ensures crc == Crc(step, init, buf)
  {
    crc := init;
    for i := 0 to |buf|
      invariant crc == Crc(step, init, buf[..i])
    {
      assert buf[..i + 1][..i] == buf[..i];
      crc := step(crc, buf[i]);
    }
    assert buf[..|buf|] == buf;
  }

  /** The number some bytes stand for, least significant first. */
  function Little(b: seq<byte>): (w: nat) {
    if b == [] then 0 else b[0] as nat + 0x100 * Little(b[1..])
  }

  lemma {:induction false} LittleFits(b: seq<byte>)
    requires |b| == 4
    ensures Little(b) < 0x1_0000_0000
  {
    assert Little(b[1..][1..][1..][1..]) == 0;
    assert Little(b[1..][1..][1..]) <= 0xFF;
    assert Little(b[1..][1..]) <= 0xFFFF;
    assert Little(b[1..]) <= 0xFF_FFFF;
  }

  /** A 32-bit word as the processor reads it from flash. */
  function Word(b: seq<byte>): (w: nat)
    requires |b| == 4
    ensures w < 0x1_0000_0000
  {
    LittleFits(b);
    Little(b)
  }

  /** The number four bytes of the flash stand for, by the weight of each. */
  function NumberAt(mem: Mem, a: nat): (n: nat)
    requires a + 4 <= |mem|
  {
    mem[a] as nat + 0x100 * mem[a + 1] as nat + 0x1_0000 * mem[a + 2] as nat + 0x100_0000 * mem[a + 3] as nat
  }

  lemma WordIsNumber(mem: Mem, a: nat)
    requires a + 4 <= |mem|
    ensures Word(mem[a..a + 4]) == NumberAt(mem, a)
  {
    var b := mem[a..a + 4];
    assert b[1..][1..][1..][1..] == [];
    assert Little(b[1..][1..][1..]) == mem[a + 3] as nat;
    assert Little(b[1..][1..]) == mem[a + 2] as nat + 0x100 * mem[a + 3] as nat;
    assert Little(b[1..]) == mem[a + 1] as nat + 0x100 * Little(b[1..][1..]);
  }
}
