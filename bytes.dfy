/**
 * File contents and socket payloads as byte sequences: the 64 KiB blocks
 * both programs read and write, and the 4-byte frame length the server
 * writes as a native (little-endian, x86) `uint32_t`.
 */
module Bytes {
  import opened Wrappers

  type byte = b: int | 0 <= b < 256

  /** `CHUNK_SIZE` of server.cpp:31 and client.cpp:27. */
  const CHUNK_SIZE: nat := 65536

  const UINT32_LIMIT: nat := 0x1_0000_0000

  /** One more whole block keeps a length a whole number of blocks. */
  lemma AddChunk(m: nat)
    ensures (CHUNK_SIZE + m) % CHUNK_SIZE == m % CHUNK_SIZE
  {
  }

  /** Two adjacent slices make up the slice that spans both. */
  lemma AdjacentSlices(s: seq<byte>, a: nat, b: nat, c: nat)
    requires a <= b <= c <= |s|
    ensures s[a..b] + s[b..c] == s[a..c]
  {
  }

  /** Concatenation of a sequence of blocks. */
  function Flatten(bs: seq<seq<byte>>): seq<byte>
  {
    if bs == [] then [] else bs[0] + Flatten(bs[1..])
  }

  lemma {:induction false} FlattenAppend(bs: seq<seq<byte>>, b: seq<byte>)
    ensures Flatten(bs + [b]) == Flatten(bs) + b
  {
    if bs != [] {
      assert (bs + [b])[1..] == bs[1..] + [b];
      FlattenAppend(bs[1..], b);
    }
  }

  /**
   * The blocks `while (file.read(buffer, CHUNK_SIZE) || file.gcount() > 0)`
   * hands out: full 64 KiB blocks, then one shorter, non-empty block if the
   * length is not a multiple of 64 KiB.
   */
  function Chunks(data: seq<byte>): seq<seq<byte>>
    decreases |data|
  {
    if |data| == 0 then []
    else if |data| <= CHUNK_SIZE then [data]
    else [data[..CHUNK_SIZE]] + Chunks(data[CHUNK_SIZE..])
  }

  /**
   * The blocks put back together are the data; each holds 1 to 64 KiB and
   * all but the last are full, so there are `ceil(|data| / 64 KiB)` of them.
   */
  lemma {:induction false} ChunksSpec(data: seq<byte>)
    decreases |data|
    ensures var r := Chunks(data);
      && Flatten(r) == data
      && (forall k :: 0 <= k < |r| ==> 0 < |r[k]| <= CHUNK_SIZE)
      && (forall k :: 0 <= k < |r| - 1 ==> |r[k]| == CHUNK_SIZE)
      && (|r| - 1) * CHUNK_SIZE < |data| <= |r| * CHUNK_SIZE
  {
    if |data| > CHUNK_SIZE {
      ChunksSpec(data[CHUNK_SIZE..]);
      assert data == data[..CHUNK_SIZE] + data[CHUNK_SIZE..];
    }
  }

  /** Splitting into blocks loses and adds nothing. */
  lemma FlattenChunks(data: seq<byte>)
    ensures Flatten(Chunks(data)) == data
  {
    ChunksSpec(data);
  }

  /** `n` zero bytes: what a value-initialised `std::vector<char>` holds. */
  function Zeros(n: nat): (r: seq<byte>)
    ensures |r| == n && forall i :: 0 <= i < n ==> r[i] == 0
  {
    seq(n, i => 0)
  }

  /** A block as a 64 KiB buffer holds it: the block, then zeros up to 64 KiB. */
  function Padded(b: seq<byte>): (r: seq<byte>)
    requires |b| <= CHUNK_SIZE
    ensures |r| == CHUNK_SIZE && r[..|b|] == b
  {
    b + Zeros(CHUNK_SIZE - |b|)
  }

  /** How many bytes take a length `n` up to the next multiple of 64 KiB. */
  function Slack(n: nat): (r: nat)
    ensures r < CHUNK_SIZE && (n + r) % CHUNK_SIZE == 0
    ensures r == 0 <==> n % CHUNK_SIZE == 0
  {
    if n % CHUNK_SIZE == 0 then 0 else CHUNK_SIZE - n % CHUNK_SIZE
  }

  /** Every block fits a 64 KiB buffer. */
  predicate Fit(bs: seq<seq<byte>>) {
    forall k :: 0 <= k < |bs| ==> |bs[k]| <= CHUNK_SIZE
  }

  /** The blocks, each padded to 64 KiB, one after the other. */
  function FlattenPadded(bs: seq<seq<byte>>): seq<byte>
    requires Fit(bs)
  {
    if bs == [] then [] else Padded(bs[0]) + FlattenPadded(bs[1..])
  }

  /**
   * The blocks of `data`, each padded to 64 KiB: the data itself, then
   * zeros up to the next multiple of 64 KiB.
   */
  lemma {:induction false} PaddedChunks(data: seq<byte>)
    decreases |data|
    ensures Fit(Chunks(data))
    ensures FlattenPadded(Chunks(data)) == data + Zeros(Slack(|data|))
  {
    ChunksSpec(data);
    if |data| == 0 {
      assert data + Zeros(0) == data;
    } else if |data| <= CHUNK_SIZE {
      assert Chunks(data) == [data];
      assert FlattenPadded([data]) == Padded(data) + [];
    } else {
      var rest := data[CHUNK_SIZE..];
      PaddedChunks(rest);
      AddChunk(|rest|);
      assert Padded(data[..CHUNK_SIZE]) == data[..CHUNK_SIZE];
      assert Chunks(data)[1..] == Chunks(rest);
      assert data == data[..CHUNK_SIZE] + rest;
    }
  }

  /** The four bytes of `uint32_t n` in memory on a little-endian machine: byte `i` is `(n >> 8i) & 0xFF`. */
  function EncodeLE32(n: nat): (r: seq<byte>)
    requires n < UINT32_LIMIT
    ensures |r| == 4
  {
    var q1 := n / 256;
    var q2 := q1 / 256;
    var q3 := q2 / 256;
    [n % 256, q1 % 256, q2 % 256, q3 % 256]
  }

  /** The `uint32_t` whose memory image is `b`. */
  function DecodeLE32(b: seq<byte>): (n: nat)
    requires |b| == 4
    ensures n < UINT32_LIMIT
  {
    b[0] as int + 256 * (b[1] as int + 256 * (b[2] as int + 256 * (b[3] as int)))
  }

  /** Reading back the four bytes gives the value written. */
  lemma LE32RoundTrip(n: nat)
    requires n < UINT32_LIMIT
    ensures DecodeLE32(EncodeLE32(n)) == n
  {
    var q1 := n / 256;
    var q2 := q1 / 256;
    var q3 := q2 / 256;
    assert n == n % 256 + 256 * q1;
    assert q1 == q1 % 256 + 256 * q2;
    assert q2 == q2 % 256 + 256 * q3;
    assert q3 < 256;
  }
}
