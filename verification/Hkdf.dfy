/** HKDF with a 32-byte hash (`libp2p/crypto/hkdf.nim`, RFC 5869). The keyed hash itself is a parameter. */
module Hkdf {
  import opened Basics

  const HASH_LEN := 32

  type Hmac = (seq<byte>, seq<byte>) -> seq<byte>

  ghost predicate IsHmac(hmac: Hmac) {
    forall key, message :: |hmac(key, message)| == HASH_LEN
  }

  /** T(i) of section 2.3 of RFC 5869. */
  function Block(hmac: Hmac, prk: seq<byte>, info: seq<byte>, i: nat): seq<byte> {
    if i == 0 then [] else hmac(prk, Block(hmac, prk, info, i - 1) + info + [i % 256])
  }

  /** T(1) | T(2) | ... | T(n). */
  function Blocks(hmac: Hmac, prk: seq<byte>, info: seq<byte>, n: nat): seq<byte> {
    if n == 0 then [] else Blocks(hmac, prk, info, n - 1) + Block(hmac, prk, info, n)
  }

  /** The i-th byte of the endless stream of blocks. */
  ghost function ByteAt(hmac: Hmac, prk: seq<byte>, info: seq<byte>, i: nat): byte
    requires IsHmac(hmac)
  {
    BlockSize(hmac, prk, info, i / HASH_LEN + 1);
    Block(hmac, prk, info, i / HASH_LEN + 1)[i % HASH_LEN]
  }

  lemma {:induction false} BlockSize(hmac: Hmac, prk: seq<byte>, info: seq<byte>, i: nat)
    requires IsHmac(hmac)
    ensures i > 0 ==> |Block(hmac, prk, info, i)| == HASH_LEN
  {
  }

  /** Every prefix of the concatenated blocks is read off the stream. */
  lemma {:induction false} BlocksAt(hmac: Hmac, prk: seq<byte>, info: seq<byte>, n: nat, i: nat)
    requires IsHmac(hmac)
    requires i < n * HASH_LEN
    ensures |Blocks(hmac, prk, info, n)| == n * HASH_LEN
    ensures Blocks(hmac, prk, info, n)[i] == ByteAt(hmac, prk, info, i)
  {
    hide Block;
    BlockSize(hmac, prk, info, n);
    if n > 1 {
      BlocksAt(hmac, prk, info, n - 1, if i < (n - 1) * HASH_LEN then i else 0);
    }
    if i >= (n - 1) * HASH_LEN {
      assert i / HASH_LEN + 1 == n && i % HASH_LEN == i - (n - 1) * HASH_LEN;
    }
  }

  /** The number of blocks that hold `len` bytes. */
  function BlocksFor(len: nat): nat {
    (len + HASH_LEN - 1) / HASH_LEN
  }

  function CountUp(n: nat): seq<int> {
    seq(n, i => i + 1)
  }

  lemma {:induction false} NextRow(r: nat, rows: nat, len: nat)
    requires r < rows
    ensures (r + 1) * len == r * len + len
    ensures r * len + len <= rows * len
  {
    assert (r + 1) * len <= rows * len;
  }

  /** The rows before `r`, and the cells before `filled` of row `r`, are the stream from its first byte on. */
  ghost predicate Written(hmac: Hmac, prk: seq<byte>, info: seq<byte>, outputs: array2<byte>, r: nat, filled: nat)
    requires IsHmac(hmac)
    reads outputs
  {
    forall i, c :: 0 <= i < outputs.Length0 && 0 <= c < outputs.Length1 && (i < r || (i == r && c < filled)) ==>
      outputs[i, c] == ByteAt(hmac, prk, info, i * outputs.Length1 + c)
  }

  /** Copies a part of a block, which lies at `pos` in the stream, into a row. */
  method CopyChunk(
    outputs: array2<byte>, r: nat, filled: nat, t: seq<byte>, used: nat, chunk: nat,
    ghost hmac: Hmac, ghost prk: seq<byte>, ghost info: seq<byte>)
    requires IsHmac(hmac)
    requires r < outputs.Length0 && filled + chunk <= outputs.Length1 && used + chunk <= |t|
    requires Written(hmac, prk, info, outputs, r, filled)
    requires forall j :: used <= j < used + chunk ==>
               t[j] == ByteAt(hmac, prk, info, r * outputs.Length1 + filled + (j - used))
    modifies outputs
    ensures Written(hmac, prk, info, outputs, r, filled + chunk)
  {
    hide ByteAt;
    for k := 0 to chunk
      invariant Written(hmac, prk, info, outputs, r, filled + k)
    {
      outputs[r, filled + k] := t[used + k];
    }
  }

  /** The blocks as RFC 5869 chains them: each the keyed hash of the one before, the info and its number. */
  ghost predicate Chained(hmac: Hmac, prk: seq<byte>, info: seq<byte>, ts: seq<seq<byte>>) {
    |ts| <= 255 && forall i :: 0 <= i < |ts| ==> ts[i] == hmac(prk, Before(ts, i) + info + [i + 1])
  }

  function Before(ts: seq<seq<byte>>, i: nat): seq<byte>
    requires i < |ts|
  {
    if i == 0 then [] else ts[i - 1]
  }

  /** The byte at `p` of the blocks one after the other. */
  predicate IsByteAt(ts: seq<seq<byte>>, p: int, b: byte) {
    0 <= p < |ts| * 32 && p % 32 < |ts[p / 32]| && b == ts[p / 32][p % 32]
  }

  /** The outputs, row after row, are the bytes of the blocks, one after the other. */
  ghost predicate Filled(outputs: array2<byte>, ts: seq<seq<byte>>)
    reads outputs
  {
    forall r, c :: 0 <= r < outputs.Length0 && 0 <= c < outputs.Length1 ==>
      IsByteAt(ts, r * outputs.Length1 + c, outputs[r, c])
  }

  /** `hkdf`: the blocks `ts` are chained from the extracted key, no more of them than the outputs need, and
      fill the outputs. */
  method Expand(hmac: Hmac, salt: seq<byte>, ikm: seq<byte>, info: seq<byte>, outputs: array2<byte>)
    returns (ghost counters: seq<int>, ghost ts: seq<seq<byte>>)
    requires IsHmac(hmac)
    requires outputs.Length0 * outputs.Length1 <= 255 * HASH_LEN
    modifies outputs
    ensures Chained(hmac, hmac(salt, ikm), info, ts) && Filled(outputs, ts)
    ensures |ts| == (outputs.Length0 * outputs.Length1 + 31) / 32
    ensures Written(hmac, hmac(salt, ikm), info, outputs, outputs.Length0, 0)
    ensures counters == CountUp(|ts|)
  {
    hide Written, CountUp, Chained, Filled, Block, IsHmac;
    counters := ExpandLoop(hmac, salt, ikm, info, outputs);
    ts := Chain(hmac, hmac(salt, ikm), info, BlocksFor(outputs.Length0 * outputs.Length1));
    ChainIs(hmac, hmac(salt, ikm), info, BlocksFor(outputs.Length0 * outputs.Length1));
    ChainFills(hmac, hmac(salt, ikm), info, outputs);
  }

  ghost function Chain(hmac: Hmac, prk: seq<byte>, info: seq<byte>, n: nat): (ts: seq<seq<byte>>)
    ensures |ts| == n && forall i :: 0 <= i < n ==> ts[i] == Block(hmac, prk, info, i + 1)
  {
    seq(n, i requires 0 <= i < n => Block(hmac, prk, info, i + 1))
  }

  lemma {:induction false} ChainIs(hmac: Hmac, prk: seq<byte>, info: seq<byte>, n: nat)
    requires n <= 255
    ensures Chained(hmac, prk, info, Chain(hmac, prk, info, n))
  {
    var ts := Chain(hmac, prk, info, n);
    forall i | 0 <= i < n
      ensures ts[i] == hmac(prk, Before(ts, i) + info + [i + 1])
    {
      assert Before(ts, i) == Block(hmac, prk, info, i);
      assert (i + 1) % 256 == i + 1;
    }
  }

  lemma {:induction false} ChainFills(hmac: Hmac, prk: seq<byte>, info: seq<byte>, outputs: array2<byte>)
    requires IsHmac(hmac)
    requires Written(hmac, prk, info, outputs, outputs.Length0, 0)
    ensures Filled(outputs, Chain(hmac, prk, info, BlocksFor(outputs.Length0 * outputs.Length1)))
  {
    hide Chain, ByteAt, BlocksFor, IsHmac, IsByteAt;
    var rows, len := outputs.Length0, outputs.Length1;
    var ts := Chain(hmac, prk, info, BlocksFor(rows * len));
    forall r, c | 0 <= r < rows && 0 <= c < len
      ensures IsByteAt(ts, r * len + c, outputs[r, c])
    {
      NextRow(r, rows, len);
      assert 0 <= r * len;
      ChainAt(hmac, prk, info, rows * len, r * len + c);
    }
  }

  lemma {:induction false} ChainAt(hmac: Hmac, prk: seq<byte>, info: seq<byte>, len: nat, p: nat)
    requires IsHmac(hmac) && p < len
    ensures IsByteAt(Chain(hmac, prk, info, BlocksFor(len)), p, ByteAt(hmac, prk, info, p))
  {
    hide Block, IsHmac;
    BlockSize(hmac, prk, info, p / 32 + 1);
  }

  /** The expand loop: row after row, the outputs are the stream from its first byte on. `counters` are the
      block counters used. */
  method ExpandLoop(hmac: Hmac, salt: seq<byte>, ikm: seq<byte>, info: seq<byte>, outputs: array2<byte>)
    returns (ghost counters: seq<int>)
    requires IsHmac(hmac)
    requires outputs.Length0 * outputs.Length1 <= 255 * HASH_LEN
    modifies outputs
    ensures Written(hmac, hmac(salt, ikm), info, outputs, outputs.Length0, 0)
    ensures counters == CountUp(BlocksFor(outputs.Length0 * outputs.Length1)) && |counters| <= 255
  {
    hide ByteAt, Block, CountUp, BlocksFor, Written, Running, IsHmac;
    var prk := hmac(salt, ikm);
    var t: seq<byte>, tLen, used, counter: int := [], 0, 0, 1;
    var rows, len := outputs.Length0, outputs.Length1;
    ghost var blocks, pos := 0, 0;
    counters := [];
    Starts(hmac, prk, info, outputs);
    var r := 0;
    while r < rows
      invariant 0 <= r <= rows
      invariant pos == r * len
      invariant Running(hmac, prk, info, t, tLen, used, counter, blocks, pos, counters) && (blocks > 0 ==> used > 0)
      invariant Written(hmac, prk, info, outputs, r, 0)
    {
      NextRow(r, rows, len);
      var filled := 0;
      while filled < len
        invariant 0 <= filled <= len
        invariant pos == r * len + filled
        invariant Running(hmac, prk, info, t, tLen, used, counter, blocks, pos, counters) && (blocks > 0 ==> used > 0)
        invariant Written(hmac, prk, info, outputs, r, filled)
      {
        if used == tLen {
          NextBlock(hmac, prk, info, t, tLen, used, counter, blocks, pos, counters);
          t := hmac(prk, (if tLen > 0 then t else []) + info + [counter]);
          counters := counters + [counter];
          blocks := blocks + 1;
          tLen := HASH_LEN;
          used := 0;
          counter := (counter + 1) % 256;
        }
        LenAtMost(hmac, prk, info, t, tLen, used, counter, blocks, pos, counters);
        var chunk := if tLen - used < len - filled then tLen - used else len - filled;
        InBlock(hmac, prk, info, t, tLen, used, counter, blocks, pos, counters, chunk);
        CopyChunk(outputs, r, filled, t, used, chunk, hmac, prk, info);
        filled := filled + chunk;
        used := used + chunk;
        pos := pos + chunk;
      }
      RowWritten(hmac, prk, info, outputs, r);
      r := r + 1;
    }
    Ends(hmac, prk, info, t, tLen, used, counter, blocks, pos, counters);
  }

  /** `t` is the last block computed, and the bytes before `pos` are used up. */
  ghost predicate Running(
    hmac: Hmac, prk: seq<byte>, info: seq<byte>, t: seq<byte>, tLen: int, used: int, counter: int,
    blocks: nat, pos: nat, counters: seq<int>)
  {
    && t == Block(hmac, prk, info, blocks) && tLen == |t| == (if blocks == 0 then 0 else HASH_LEN)
    && 0 <= used <= tLen && pos == blocks * HASH_LEN - (tLen - used)
    && blocks <= 255 && counter == (blocks + 1) % 256 && counters == CountUp(blocks)
  }

  lemma {:induction false} Starts(hmac: Hmac, prk: seq<byte>, info: seq<byte>, outputs: array2<byte>)
    requires IsHmac(hmac)
    ensures Running(hmac, prk, info, [], 0, 0, 1, 0, 0, [])
    ensures Written(hmac, prk, info, outputs, 0, 0)
  {
  }

  /** The next block: its counter is its number, and does not wrap. */
  lemma {:induction false} NextBlock(
    hmac: Hmac, prk: seq<byte>, info: seq<byte>, t: seq<byte>, tLen: int, used: int, counter: int,
    blocks: nat, pos: nat, counters: seq<int>)
    requires IsHmac(hmac)
    requires Running(hmac, prk, info, t, tLen, used, counter, blocks, pos, counters)
    requires used == tLen && pos < 255 * HASH_LEN
    ensures 0 <= counter < 256 && counter == blocks + 1
    ensures var next := hmac(prk, (if tLen > 0 then t else []) + info + [counter]);
            Running(hmac, prk, info, next, HASH_LEN, 0, (counter + 1) % 256, blocks + 1, pos, counters + [counter])
  {
    assert (if tLen > 0 then t else []) == t;
  }

  /** Where a chunk of the last block lies in the stream. */
  lemma {:induction false} InBlock(
    hmac: Hmac, prk: seq<byte>, info: seq<byte>, t: seq<byte>, tLen: int, used: int, counter: int,
    blocks: nat, pos: nat, counters: seq<int>, chunk: nat)
    requires IsHmac(hmac)
    requires Running(hmac, prk, info, t, tLen, used, counter, blocks, pos, counters)
    requires used < tLen && used + chunk <= tLen
    ensures used + chunk <= |t|
    ensures forall j :: used <= j < used + chunk ==> t[j] == ByteAt(hmac, prk, info, pos + (j - used))
    ensures Running(hmac, prk, info, t, tLen, used + chunk, counter, blocks, pos + chunk, counters)
  {
    hide Block, CountUp;
    BlockSize(hmac, prk, info, blocks);
    forall j | used <= j < used + chunk
      ensures t[j] == ByteAt(hmac, prk, info, pos + (j - used))
    {
      var i := pos + (j - used);
      assert i / HASH_LEN + 1 == blocks && i % HASH_LEN == j;
    }
  }

  lemma {:induction false} LenAtMost(
    hmac: Hmac, prk: seq<byte>, info: seq<byte>, t: seq<byte>, tLen: int, used: int, counter: int,
    blocks: nat, pos: nat, counters: seq<int>)
    requires Running(hmac, prk, info, t, tLen, used, counter, blocks, pos, counters)
    ensures 0 <= used <= tLen <= HASH_LEN
  {
  }

  lemma {:induction false} RowWritten(hmac: Hmac, prk: seq<byte>, info: seq<byte>, outputs: array2<byte>, r: nat)
    requires IsHmac(hmac)
    requires Written(hmac, prk, info, outputs, r, outputs.Length1)
    ensures Written(hmac, prk, info, outputs, r + 1, 0)
  {
    hide ByteAt;
  }

  /** As many counters as blocks that hold the bytes. */
  lemma {:induction false} Ends(
    hmac: Hmac, prk: seq<byte>, info: seq<byte>, t: seq<byte>, tLen: int, used: int, counter: int,
    blocks: nat, pos: nat, counters: seq<int>)
    requires Running(hmac, prk, info, t, tLen, used, counter, blocks, pos, counters)
    requires blocks > 0 ==> used > 0
    ensures counters == CountUp(BlocksFor(pos)) && |counters| <= 255
  {
    hide Block;
  }
}
