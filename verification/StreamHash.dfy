/**
  Streaming a message through a block hash: padding as in section 5.1.1 of FIPS 180-4, the one-shot
  computation of section 6.2, and a buffered hasher with a 64-byte block buffer that is fed chunks.
 */
module StreamHash {
  import opened Wrappers

  type Block = b: seq<byte> | |b| == 64 witness seq(64, _ => 0)

  /** The block function folded over the whole blocks of the message. */
  function Absorb<S>(f: (S, Block) -> S, st: S, msg: seq<byte>): S
    decreases |msg|
  {
    if |msg| < 64 then st else Absorb(f, f(st, msg[..64]), msg[64..])
  }

  predicate WholeBlocks(n: nat) {
    n % 64 == 0
  }

  // ---- padding ----------------------------------------------------------------------------

  /** The number of zero bytes between the marker byte and the length field. */
  function ZeroCount(length: nat): nat {
    var r := length % 64;
    if r < 56 then 55 - r else 119 - r
  }

  /** The zero count is the least one that brings the padded length to 56 modulo 64. */
  lemma ZeroCountIsLeast(length: nat, k: nat)
    ensures (length + 1 + ZeroCount(length)) % 64 == 56
    ensures (length + 1 + k) % 64 == 56 ==> ZeroCount(length) <= k
  {
  }

  function Pow256(e: nat): (p: nat)
    ensures p > 0
  {
    if e == 0 then 1 else 256 * Pow256(e - 1)
  }

  /** `count` bytes, most significant first, of `v` modulo 256^count. */
  function BigEndian(v: nat, count: nat): (r: seq<byte>)
    ensures |r| == count
  {
    if count == 0 then [] else BigEndian(v / 256, count - 1) + [(v % 256) as byte]
  }

  function FromBigEndian(s: seq<byte>): nat {
    if s == [] then 0 else 256 * FromBigEndian(s[..|s| - 1]) + s[|s| - 1] as nat
  }

  /** The length field holds the message length in bits whenever that fits into it. */
  lemma {:induction false} BigEndianDecodes(v: nat, count: nat)
    requires v < Pow256(count)
    ensures FromBigEndian(BigEndian(v, count)) == v
  {
    if count > 0 {
      var high, low := BigEndian(v / 256, count - 1), v % 256;
      BigEndianDecodes(v / 256, count - 1);
      FromBigEndianSplits(high, low as byte);
    }
  }

  lemma FourBytes(b: seq<byte>)
    requires |b| == 4
    ensures FromBigEndian(b) == 0x100_0000 * b[0] as nat + 0x1_0000 * b[1] as nat + 0x100 * b[2] as nat + b[3] as nat
  {
    assert FromBigEndian(b[..3]) == 256 * FromBigEndian(b[..3][..2]) + b[2] as nat;
    assert b[..3][..2] == b[..2] && b[..2][..1] == b[..1] && b[..1][..0] == [];
    assert FromBigEndian(b[..2]) == 256 * FromBigEndian(b[..1]) + b[1] as nat;
    assert FromBigEndian(b[..1]) == b[0] as nat;
  }

  lemma FromBigEndianSplits(high: seq<byte>, low: byte)
    ensures FromBigEndian(high + [low]) == 256 * FromBigEndian(high) + low as nat
  {
    assert (high + [low])[..|high|] == high;
  }

  function Padding(length: nat): seq<byte> {
    [0x80] + seq(ZeroCount(length), _ => 0) + BigEndian(8 * length, 8)
  }

  lemma PaddedLength(length: nat)
    ensures WholeBlocks(length + |Padding(length)|)
  {
    assert length == 64 * (length / 64) + length % 64;
  }

  /** The padding is a one bit, zero bits, and the length in bits in the last eight bytes. */
  lemma PaddingIs(length: nat)
    requires 8 * length < Pow256(8)
    ensures var p, n := Padding(length), |Padding(length)| - 8;
      && n > 0 && p[0] == 0x80 && (forall i | 0 < i < n :: p[i] == 0) && FromBigEndian(p[n..]) == 8 * length
  {
    BigEndianDecodes(8 * length, 8);
    assert Padding(length)[|Padding(length)| - 8..] == BigEndian(8 * length, 8);
  }

  /** The one-shot digest state: pad the whole message, then absorb it block by block. */
  function OneShot<S>(f: (S, Block) -> S, iv: S, msg: seq<byte>): S {
    Absorb(f, iv, msg + Padding(|msg|))
  }

  lemma {:induction false} AbsorbAppend<S>(f: (S, Block) -> S, st: S, a: seq<byte>, b: seq<byte>)
    requires WholeBlocks(|a|)
    ensures Absorb(f, st, a + b) == Absorb(f, Absorb(f, st, a), b)
    decreases |a|
  {
    if a == [] {
      assert a + b == b;
    } else {
      assert (a + b)[..64] == a[..64] && (a + b)[64..] == a[64..] + b;
      AbsorbAppend(f, f(st, a[..64]), a[64..], b);
    }
  }

  // ---- the buffered hasher ----------------------------------------------------------------

  class Hasher<S> {
    const f: (S, Block) -> S
    const iv: S
    const buffer: array<byte>
    var state: S
    var fill: nat
    var length: nat
    ghost var absorbed: seq<byte>
    ghost var blocks: seq<byte>

    /** `absorbed` is everything taken so far, `blocks` the part of it compressed into the state. */
    ghost predicate Valid()
      reads this, buffer
    {
      && buffer.Length == 64 && fill < 64
      && length == |absorbed|
      && absorbed == blocks + buffer[..fill]
      && WholeBlocks(|blocks|)
      && state == Absorb(f, iv, blocks)
    }

    constructor (f: (S, Block) -> S, iv: S)
      ensures Valid() && fresh(buffer) && absorbed == [] && this.f == f && this.iv == iv
    {
      this.f, this.iv := f, iv;
      buffer := new byte[64](_ => 0);
      state, fill, length, absorbed, blocks := iv, 0, 0, [], [];
    }

    /** One byte goes into the block buffer; a full buffer is compressed into the state. */
    method Push(b: byte)
      requires Valid()
      modifies this, buffer
      ensures Valid() && absorbed == old(absorbed) + [b]
    {
      buffer[fill] := b;
      fill, length, absorbed := fill + 1, length + 1, absorbed + [b];
      assert absorbed == blocks + buffer[..fill];
      if fill == 64 {
        assert buffer[..] == buffer[..fill];
        AbsorbAppend(f, iv, blocks, buffer[..]);
        AbsorbOne(f, state, buffer[..]);
        blocks := blocks + buffer[..];
        state, fill := f(state, buffer[..]), 0;
      }
    }

    /** `digest.update(chunk)`. */
    method Update(chunk: seq<byte>)
      requires Valid()
      modifies this, buffer
      ensures Valid() && absorbed == old(absorbed) + chunk
    {
      for i := 0 to |chunk|
        invariant Valid() && absorbed == old(absorbed) + chunk[..i]
      {
        Push(chunk[i]);
        assert chunk[..i + 1] == chunk[..i] + [chunk[i]];
      }
      assert chunk[..|chunk|] == chunk;
    }

    /** The final state, computed on the side: the hasher itself can still be updated. */
    method Digest() returns (final: S)
      requires Valid()
      ensures final == OneShot(f, iv, absorbed)
    {
      var tail := buffer[..fill] + Padding(length);
      assert absorbed + Padding(length) == blocks + tail;
      AbsorbAppend(f, iv, blocks, tail);
      final := state;
      while |tail| >= 64
        invariant Absorb(f, final, tail) == OneShot(f, iv, absorbed)
        decreases |tail|
      {
        final, tail := f(final, tail[..64]), tail[64..];
      }
    }
  }

  lemma AbsorbOne<S>(f: (S, Block) -> S, st: S, b: Block)
    ensures Absorb(f, st, b) == f(st, b)
  {
    assert b[..64] == b && b[64..] == [];
  }

  // ---- reading in chunks ------------------------------------------------------------------

  /** `handle.read(n)`: the next `n` unread bytes, or all of them when there are fewer. */
  function Read(unread: seq<byte>, n: nat): seq<byte> {
    if |unread| < n then unread else unread[..n]
  }

  /**
    The chunked reading loop. Whatever the file and whatever positive chunk size is used, the final
    state is the one-shot digest state of the whole file.
   */
  method HashFile<S>(f: (S, Block) -> S, iv: S, data: seq<byte>, chunkSize: nat) returns (final: S)
    requires chunkSize > 0
    ensures final == OneShot(f, iv, data)
  {
    var digest := new Hasher(f, iv);
    var unread := data;
    var chunk := Read(unread, chunkSize);
    while chunk != []
      invariant digest.Valid() && fresh(digest) && fresh(digest.buffer)
      invariant digest.f == f && digest.iv == iv
      invariant |digest.absorbed| <= |data|
      invariant digest.absorbed == data[..|digest.absorbed|] && unread == data[|digest.absorbed|..]
      invariant chunk == Read(unread, chunkSize)
      decreases |unread|
    {
      digest.Update(chunk);
      unread := unread[|chunk|..];
      chunk := Read(unread, chunkSize);
    }
    assert digest.absorbed == data;
    final := digest.Digest();
  }
}
