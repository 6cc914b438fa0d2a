/** Numbers stored in the bytes of a memory array, least significant byte first. */
module Words {
  import opened Basics

  /** Bytes in a word. */
  const SIZE := 8

  function Encode(v: nat, n: nat): (b: seq<Byte>)
    ensures |b| == n
  {
    if n == 0 then [] else [v % 256] + Encode(v / 256, n - 1)
  }

  function Decode(b: seq<Byte>): nat {
    if b == [] then 0 else b[0] + 256 * Decode(b[1..])
  }

  /** How many values fit into `n` bytes. */
  function Values(n: nat): nat { if n == 0 then 1 else 256 * Values(n - 1) }

  lemma {:induction false} DecodeEncode(v: nat, n: nat)
    requires v < Values(n)
    ensures Decode(Encode(v, n)) == v
  {
    if n > 0 {
      DecodeEncode(v / 256, n - 1);
      assert Encode(v, n)[1..] == Encode(v / 256, n - 1);
    }
  }

  function Word(mem: seq<Byte>, x: int): nat {
    if 0 <= x && x + SIZE <= |mem| then Decode(mem[x..x + SIZE]) else 0
  }

  /** The word at `x` is `v`, and no byte elsewhere has changed. */
  ghost predicate Rewritten(m: seq<Byte>, m': seq<Byte>, x: int, v: nat) {
    && |m'| == |m| && Word(m', x) == v
    && forall k :: 0 <= k < |m| && !(x <= k < x + SIZE) ==> m'[k] == m[k]
  }

  /** A word is as it was if its bytes are. */
  lemma SameWord(m: seq<Byte>, m': seq<Byte>, x: int)
    requires |m'| == |m| && forall k :: 0 <= k < |m| && x <= k < x + SIZE ==> m'[k] == m[k]
    ensures Word(m', x) == Word(m, x)
  {
    if 0 <= x && x + SIZE <= |m| {
      assert m'[x..x + SIZE] == m[x..x + SIZE];
    }
  }

  lemma OtherWord(m: seq<Byte>, m': seq<Byte>, x: int, v: nat, y: int)
    requires Rewritten(m, m', x, v) && (y + SIZE <= x || x + SIZE <= y)
    ensures Word(m', y) == Word(m, y)
  {
    SameWord(m, m', y);
  }

  method WriteBytes(mem: array<Byte>, x: nat, b: seq<Byte>)
    requires x + |b| <= mem.Length
    modifies mem
    ensures mem[x..x + |b|] == b
    ensures forall k :: 0 <= k < mem.Length && !(x <= k < x + |b|) ==> mem[k] == old(mem[k])
  {
    for i := 0 to |b|
      invariant forall k :: 0 <= k < i ==> mem[x + k] == b[k]
      invariant forall k :: 0 <= k < mem.Length && !(x <= k < x + i) ==> mem[k] == old(mem[k])
    {
      mem[x + i] := b[i];
    }
  }

  method WriteWord(mem: array<Byte>, x: nat, v: nat)
    requires x + SIZE <= mem.Length && v < Values(SIZE)
    modifies mem
    ensures Rewritten(old(mem[..]), mem[..], x, v)
  {
    DecodeEncode(v, SIZE);
    WriteBytes(mem, x, Encode(v, SIZE));
    assert mem[..][x..x + SIZE] == mem[x..x + SIZE];
  }

  method ReadWord(mem: array<Byte>, x: nat) returns (v: nat)
    requires x + SIZE <= mem.Length
    ensures v == Word(mem[..], x)
  {
    v := 0;
    for i := SIZE downto 0
      invariant v == Decode(mem[x + i..x + SIZE])
    {
      assert mem[x + i..x + SIZE][1..] == mem[x + i + 1..x + SIZE];
      v := mem[x + i] + 256 * v;
    }
    assert mem[..][x..x + SIZE] == mem[x..x + SIZE];
  }
}
