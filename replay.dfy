/**
 * The replay container (parser/src/korabli_replay.rs):
 *
 *   [4-byte magic][u32 block count c][u32 n][n bytes of JSON metadata]
 *   [c - 1 blocks, each a u32 length and that many bytes][8 skipped bytes][ciphertext]
 *
 * all integers little-endian. The ciphertext is decrypted eight bytes at a time
 * and every decrypted block is XORed with the previous plaintext block (the
 * first with eight zero bytes); the result is zlib-inflated into the packet
 * stream. Blowfish, zlib and serde_json are foreign code: they are the
 * parameters collected in `Codecs`.
 */
module KorabliReplay {
  import opened Wrappers
  import opened Ints
  import Utf8

  const REPLAY_HEADER: seq<byte> := [0x12, 0x32, 0x34, 0x11]

  /** The key the block cipher in `Codecs.decryptBlock` is keyed with. */
  const BLOWFISH_KEY: seq<byte> := [
    0x29, 0xB7, 0xC9, 0x09, 0x38, 0x3F, 0x84, 0x88,
    0xFA, 0x98, 0xEC, 0x4E, 0x13, 0x19, 0x79, 0xFB
  ]

  type Block = s: seq<byte> | |s| == 8 witness [0, 0, 0, 0, 0, 0, 0, 0]

  const ZERO_BLOCK: Block := [0, 0, 0, 0, 0, 0, 0, 0]

  /** The fields of `ReplayMeta` this model keeps; serde_json fills them. */
  datatype ReplayMeta = ReplayMeta(
    clientVersionFromExe: string,
    clientVersionFromXml: string,
    playerName: string,
    playerId: u32,
    mapName: string,
    gameMode: u32,
    duration: u32,
    dateTime: string)

  /** The foreign code the container depends on. */
  datatype Codecs = Codecs(
    /** serde_json::from_str::<ReplayMeta> */
    parseJson: string -> Option<ReplayMeta>,
    /** Blowfish decryption of one block under BLOWFISH_KEY */
    decryptBlock: Block -> Block,
    /** flate2's ZlibDecoder read to the end */
    inflate: seq<byte> -> Option<seq<byte>>)

  datatype Error =
    | Eof                          // nom: not enough input for le_u32 or take
    | InvalidReplayHeader(header: seq<byte>)
    | MetaNotUtf8
    | MetaNotJson
    | BlockCountUnderflow          // `blocks_count - 1` with a count of zero
    | NoSkippedChunk               // `remaining[8..]` on fewer than 8 bytes
    | PartialBlock                 // a last ciphertext chunk shorter than 8 bytes
    | InflateFailed

  /** A nom-style parse: the value read and the input after it. */
  datatype Parsed<+T> = Parsed(rest: seq<byte>, value: T)

  datatype ReplayFile = ReplayFile(meta: ReplayMeta, unknown: seq<byte>, packetData: seq<byte>)

  // ---------------------------------------------------------------- framing

  function LeValue(b: seq<byte>): nat
    requires |b| == 4
  {
    b[0] as int + 0x100 * (b[1] as int) + 0x1_0000 * (b[2] as int) + 0x100_0000 * (b[3] as int)
  }

  /** nom's `le_u32`. */
  function LeU32(i: seq<byte>): Result<Parsed<u32>, Error>
  {
    if |i| < 4 then Err(Eof) else Ok(Parsed(i[4..], LeValue(i[..4])))
  }

  /** nom's `take(n)`. */
  function Take(n: nat, i: seq<byte>): (r: Result<Parsed<seq<byte>>, Error>)
    ensures r.Ok? <==> n <= |i|
    ensures r.Ok? ==> r.value.value + r.value.rest == i && |r.value.value| == n
  {
    if |i| < n then Err(Eof) else Ok(Parsed(i[n..], i[..n]))
  }

  /** The four little-endian bytes of `n`. */
  function U32Le(n: u32): (b: seq<byte>)
    ensures |b| == 4
  {
    [n % 0x100, n / 0x100 % 0x100, n / 0x1_0000 % 0x100, n / 0x100_0000]
  }

  lemma LeU32OfU32Le(n: u32, rest: seq<byte>)
    ensures LeU32(U32Le(n) + rest) == Ok(Parsed(rest, n))
  {
    var b := U32Le(n) + rest;
    assert b[..4] == U32Le(n) && b[4..] == rest;
    assert n == n % 0x100 + 0x100 * (n / 0x100);
    assert n / 0x100 == n / 0x100 % 0x100 + 0x100 * (n / 0x1_0000);
    assert n / 0x1_0000 == n / 0x1_0000 % 0x100 + 0x100 * (n / 0x100_0000);
  }

  /** One length-prefixed chunk: a u32 length, then that many bytes. */
  function LengthPrefixed(i: seq<byte>): Result<Parsed<seq<byte>>, Error>
  {
    var len :- LeU32(i);
    Take(len.value, len.rest)
  }

  /** A chunk that reads is its length field, its contents and what follows, in that order. */
  lemma LengthPrefixedSplits(i: seq<byte>)
    requires LengthPrefixed(i).Ok?
    ensures 4 <= |i| && |LengthPrefixed(i).value.value| == LeValue(i[..4])
    ensures i == i[..4] + LengthPrefixed(i).value.value + LengthPrefixed(i).value.rest
  {
    var chunk := LengthPrefixed(i).value;
    assert i[4..] == chunk.value + chunk.rest;
  }

  /** The frame `LengthPrefixed` reads. */
  function Frame(b: seq<byte>): seq<byte>
    requires |b| < TWO_TO_THE_32
  {
    U32Le(|b|) + b
  }

  lemma LengthPrefixedOfFrame(b: seq<byte>, rest: seq<byte>)
    requires |b| < TWO_TO_THE_32
    ensures LengthPrefixed(Frame(b) + rest) == Ok(Parsed(rest, b))
  {
    LeU32OfU32Le(|b|, b + rest);
    assert Frame(b) + rest == U32Le(|b|) + (b + rest);
    assert (b + rest)[..|b|] == b && (b + rest)[|b|..] == rest;
  }

  // --------------------------------------------------------------- metadata

  /** `decode_meta`: UTF-8, then JSON. */
  function DecodeMeta(meta: seq<byte>, codecs: Codecs): (r: Result<ReplayMeta, Error>)
    ensures Utf8.Decode(meta).None? ==> r == Err(MetaNotUtf8)
    ensures r.Ok? <==> Utf8.Decode(meta).Some? && codecs.parseJson(Utf8.Decode(meta).value).Some?
  {
    match Utf8.Decode(meta)
    case None => Err(MetaNotUtf8)
    case Some(text) =>
      match codecs.parseJson(text)
      case None => Err(MetaNotJson)
      case Some(m) => Ok(m)
  }

  /** `parse_meta`: a u32 length `n`, then `n` bytes of metadata; consumes exactly 4 + n bytes. */
  function ParseMeta(i: seq<byte>, codecs: Codecs): Result<Parsed<ReplayMeta>, Error>
  {
    var frame :- LengthPrefixed(i);
    var m :- DecodeMeta(frame.value, codecs);
    Ok(Parsed(frame.rest, m))
  }

  /** `parse_meta` fails on a short input and otherwise consumes exactly 4 + n bytes. */
  lemma ParseMetaReads(i: seq<byte>, codecs: Codecs)
    ensures |i| < 4 ==> ParseMeta(i, codecs) == Err(Eof)
    ensures 4 <= |i| && |i| - 4 < LeValue(i[..4]) ==> ParseMeta(i, codecs) == Err(Eof)
    ensures ParseMeta(i, codecs).Ok? ==>
      4 + LeValue(i[..4]) <= |i| && ParseMeta(i, codecs).value.rest == i[4 + LeValue(i[..4])..]
         && DecodeMeta(i[4..4 + LeValue(i[..4])], codecs) == Ok(ParseMeta(i, codecs).value.value)
  {
    if ParseMeta(i, codecs).Ok? {
      var n := LeValue(i[..4]);
      assert i[4..][..n] == i[4..4 + n] && i[4..][n..] == i[4 + n..];
    }
  }

  // ----------------------------------------------------------- extra blocks

  /**
   * The first `k` length-prefixed blocks of `i`, concatenated, and the input
   * after them. A failure to read block j ends the whole read.
   */
  function ExtraBlocks(i: seq<byte>, k: nat): Result<Parsed<seq<byte>>, Error>
  {
    if k == 0 then Ok(Parsed(i, []))
    else
      match ExtraBlocks(i, k - 1)
      case Err(e) => Err(e)
      case Ok(before) =>
        match LengthPrefixed(before.rest)
        case Err(e) => Err(e)
        case Ok(block) => Ok(Parsed(block.rest, before.value + block.value))
  }

  /** `process_unknown_meta(i, c)`: the c - 1 blocks following the metadata. */
  function UnknownMeta(i: seq<byte>, blocksCount: u32): Result<Parsed<seq<byte>>, Error>
  {
    if blocksCount == 0 then Err(BlockCountUnderflow) else ExtraBlocks(i, blocksCount - 1)
  }

  /** Reading k blocks consumes their k length fields and their contents, nothing more. */
  lemma {:induction false} ExtraBlocksConsumes(i: seq<byte>, k: nat)
    requires ExtraBlocks(i, k).Ok?
    ensures |i| == 4 * k + |ExtraBlocks(i, k).value.value| + |ExtraBlocks(i, k).value.rest|
    ensures ExtraBlocks(i, k).value.rest == i[4 * k + |ExtraBlocks(i, k).value.value|..]
  {
    if k > 0 {
      ExtraBlocksConsumes(i, k - 1);
      LengthPrefixedSplits(ExtraBlocks(i, k - 1).value.rest);
    }
  }

  /** Once a block fails to read, reading more blocks fails the same way. */
  lemma {:induction false} ExtraBlocksFailureSticks(i: seq<byte>, j: nat, k: nat)
    requires j <= k && ExtraBlocks(i, j).Err?
    ensures ExtraBlocks(i, k) == ExtraBlocks(i, j)
    decreases k
  {
    if j < k {
      ExtraBlocksFailureSticks(i, j, k - 1);
    }
  }

  /** Reading one block more after a successful read of j blocks. */
  lemma ExtraBlocksNext(i: seq<byte>, j: nat, rest: seq<byte>, acc: seq<byte>, block: Result<Parsed<seq<byte>>, Error>)
    requires ExtraBlocks(i, j) == Ok(Parsed(rest, acc)) && block == LengthPrefixed(rest)
    ensures block.Err? ==> ExtraBlocks(i, j + 1) == Err(block.error)
    ensures block.Ok? ==> ExtraBlocks(i, j + 1) == Ok(Parsed(block.value.rest, acc + block.value.value))
  {
  }

  /** `process_unknown_meta` as the source writes it: a loop that extends the output buffer. */
  method ProcessUnknownMeta(i: seq<byte>, blocksCount: u32) returns (r: Result<Parsed<seq<byte>>, Error>)
    ensures r == UnknownMeta(i, blocksCount)
  {
    if blocksCount == 0 {
      return Err(BlockCountUnderflow);
    }
    var k: nat := blocksCount - 1;
    var jsonList: seq<byte> := [];
    var input := i;
    var j: nat := 0;
    while j < k
      invariant j <= k
      invariant ExtraBlocks(i, j) == Ok(Parsed(input, jsonList))
    {
      var block := LengthPrefixed(input);
      ExtraBlocksNext(i, j, input, jsonList, block);
      if block.Err? {
        ExtraBlocksFailureSticks(i, j + 1, k);
        return Err(block.error);
      }
      input := block.value.rest;
      jsonList := jsonList + block.value.value;
      j := j + 1;
    }
    return Ok(Parsed(input, jsonList));
  }

  /** The blocks written one after the other, each with its length in front. */
  function EncodeBlocks(blocks: seq<seq<byte>>): seq<byte>
    requires forall j :: 0 <= j < |blocks| ==> |blocks[j]| < TWO_TO_THE_32
  {
    if blocks == [] then [] else EncodeBlocks(blocks[..|blocks| - 1]) + Frame(blocks[|blocks| - 1])
  }

  function Concat(blocks: seq<seq<byte>>): seq<byte>
  {
    if blocks == [] then [] else Concat(blocks[..|blocks| - 1]) + blocks[|blocks| - 1]
  }

  /** Reading back encoded blocks yields their concatenation, in order, and exactly what follows. */
  lemma {:induction false} ExtraBlocksOfEncoded(blocks: seq<seq<byte>>, rest: seq<byte>)
    requires forall j :: 0 <= j < |blocks| ==> |blocks[j]| < TWO_TO_THE_32
    ensures ExtraBlocks(EncodeBlocks(blocks) + rest, |blocks|) == Ok(Parsed(rest, Concat(blocks)))
  {
    if blocks != [] {
      var front, last := blocks[..|blocks| - 1], blocks[|blocks| - 1];
      var after := Frame(last) + rest;
      ExtraBlocksOfEncoded(front, after);
      var i := EncodeBlocks(blocks) + rest;
      assert i == EncodeBlocks(front) + after;
      assert ExtraBlocks(i, |front|) == Ok(Parsed(after, Concat(front)));
      LengthPrefixedOfFrame(last, rest);
      assert LengthPrefixed(after) == Ok(Parsed(rest, last));
      assert ExtraBlocks(i, |blocks|) == Ok(Parsed(rest, Concat(front) + last));
      assert Concat(blocks) == Concat(front) + last;
    } else {
      assert EncodeBlocks(blocks) + rest == rest;
    }
  }

  // --------------------------------------------------------------- container

  /** `replay_format`: magic, block count, metadata, extra blocks; returns what follows. */
  function ReplayFormat(i: seq<byte>, codecs: Codecs): (r: Result<Parsed<(ReplayMeta, seq<byte>)>, Error>)
    ensures |i| < 4 ==> r == Err(Eof)
    ensures 4 <= |i| && i[..4] != REPLAY_HEADER ==> r == Err(InvalidReplayHeader(i[..4]))
    ensures r.Ok? ==> 4 <= |i| && i[..4] == REPLAY_HEADER
  {
    var header :- Take(4, i);
    if header.value != REPLAY_HEADER then Err(InvalidReplayHeader(header.value))
    else
      var count :- LeU32(header.rest);
      var meta :- ParseMeta(count.rest, codecs);
      var unknown :- UnknownMeta(meta.rest, count.value);
      Ok(Parsed(unknown.rest, (meta.value, unknown.value)))
  }

  /** `r` is what is left of `i` after some bytes were read from its front. */
  predicate IsSuffix(r: seq<byte>, i: seq<byte>)
  {
    |r| <= |i| && r == i[|i| - |r|..]
  }

  lemma SuffixOfSuffix(r: seq<byte>, m: seq<byte>, i: seq<byte>)
    requires IsSuffix(r, m) && IsSuffix(m, i)
    ensures IsSuffix(r, i)
  {
    assert i[|i| - |m|..][|m| - |r|..] == i[|i| - |r|..];
  }

  /** What the metadata parse leaves is a suffix of its input. */
  lemma ParseMetaLeavesSuffix(i: seq<byte>, codecs: Codecs)
    requires ParseMeta(i, codecs).Ok?
    ensures IsSuffix(ParseMeta(i, codecs).value.rest, i)
  {
    ParseMetaReads(i, codecs);
  }

  /** What reading the extra blocks leaves is a suffix of its input. */
  lemma ExtraBlocksLeaveSuffix(i: seq<byte>, k: nat)
    requires ExtraBlocks(i, k).Ok?
    ensures IsSuffix(ExtraBlocks(i, k).value.rest, i)
  {
    ExtraBlocksConsumes(i, k);
  }

  /** A successful `replay_format` read a block count, then the metadata, then the extra blocks. */
  lemma ReplayFormatReads(i: seq<byte>, codecs: Codecs)
    requires ReplayFormat(i, codecs).Ok?
    ensures LeU32(i[4..]).Ok? && ParseMeta(LeU32(i[4..]).value.rest, codecs).Ok?
    ensures UnknownMeta(ParseMeta(LeU32(i[4..]).value.rest, codecs).value.rest, LeU32(i[4..]).value.value).Ok?
    ensures ReplayFormat(i, codecs).value.rest
         == UnknownMeta(ParseMeta(LeU32(i[4..]).value.rest, codecs).value.rest, LeU32(i[4..]).value.value).value.rest
  {
  }

  /** What `replay_format` returns as the remaining input is a suffix of its input. */
  lemma ReplayFormatLeavesSuffix(i: seq<byte>, codecs: Codecs)
    requires ReplayFormat(i, codecs).Ok?
    ensures |ReplayFormat(i, codecs).value.rest| <= |i|
    ensures ReplayFormat(i, codecs).value.rest == i[|i| - |ReplayFormat(i, codecs).value.rest|..]
  {
    ReplayFormatReads(i, codecs);
    var count := LeU32(i[4..]).value;
    assert IsSuffix(count.rest, i);
    var meta := ParseMeta(count.rest, codecs).value;
    ParseMetaLeavesSuffix(count.rest, codecs);
    SuffixOfSuffix(meta.rest, count.rest, i);
    var unknown := UnknownMeta(meta.rest, count.value).value;
    ExtraBlocksLeaveSuffix(meta.rest, count.value - 1);
    SuffixOfSuffix(unknown.rest, meta.rest, i);
  }

  /** The bytes `replay_format` expects for the given metadata text and extra blocks. */
  function EncodeContainer(metaText: string, blocks: seq<seq<byte>>, tail: seq<byte>): seq<byte>
    requires |Utf8.Encode(metaText)| < TWO_TO_THE_32 && |blocks| + 1 < TWO_TO_THE_32
    requires forall j :: 0 <= j < |blocks| ==> |blocks[j]| < TWO_TO_THE_32
  {
    REPLAY_HEADER + (U32Le(|blocks| + 1) + (Frame(Utf8.Encode(metaText)) + (EncodeBlocks(blocks) + tail)))
  }

  /** The metadata frame is read back as the metadata it encodes, leaving what follows. */
  lemma ParseMetaOfFrame(metaText: string, after: seq<byte>, codecs: Codecs, m: ReplayMeta)
    requires |Utf8.Encode(metaText)| < TWO_TO_THE_32
    requires codecs.parseJson(metaText) == Some(m)
    ensures ParseMeta(Frame(Utf8.Encode(metaText)) + after, codecs) == Ok(Parsed(after, m))
  {
    var metaBytes := Utf8.Encode(metaText);
    LengthPrefixedOfFrame(metaBytes, after);
    Utf8.DecodeEncode(metaText);
  }

  /** `replay_format` reads its four parts in order: header, block count, metadata, extra blocks. */
  lemma ReplayFormatOfParts(
    i: seq<byte>, codecs: Codecs, count: u32, afterCount: seq<byte>,
    meta: ReplayMeta, afterMeta: seq<byte>, unknown: seq<byte>, rest: seq<byte>)
    requires 4 <= |i| && i[..4] == REPLAY_HEADER
    requires LeU32(i[4..]) == Ok(Parsed(afterCount, count))
    requires ParseMeta(afterCount, codecs) == Ok(Parsed(afterMeta, meta))
    requires UnknownMeta(afterMeta, count) == Ok(Parsed(rest, unknown))
    ensures ReplayFormat(i, codecs) == Ok(Parsed(rest, (meta, unknown)))
  {
  }

  /** The framing round trip: each part is read back in order and exactly the tail remains. */
  lemma ReplayFormatOfEncoded(metaText: string, blocks: seq<seq<byte>>, tail: seq<byte>, codecs: Codecs, m: ReplayMeta)
    requires |Utf8.Encode(metaText)| < TWO_TO_THE_32 && |blocks| + 1 < TWO_TO_THE_32
    requires forall j :: 0 <= j < |blocks| ==> |blocks[j]| < TWO_TO_THE_32
    requires codecs.parseJson(metaText) == Some(m)
    ensures ReplayFormat(EncodeContainer(metaText, blocks, tail), codecs) == Ok(Parsed(tail, (m, Concat(blocks))))
  {
    var afterMeta := EncodeBlocks(blocks) + tail;
    var afterCount := Frame(Utf8.Encode(metaText)) + afterMeta;
    var afterHeader := U32Le(|blocks| + 1) + afterCount;
    var i := EncodeContainer(metaText, blocks, tail);
    assert i[..4] == REPLAY_HEADER && i[4..] == afterHeader;
    LeU32OfU32Le(|blocks| + 1, afterCount);
    ParseMetaOfFrame(metaText, afterMeta, codecs, m);
    ExtraBlocksOfEncoded(blocks, tail);
    ReplayFormatOfParts(i, codecs, |blocks| + 1, afterCount, m, afterMeta, Concat(blocks), tail);
  }

  // ------------------------------------------------------------- decryption

  /** Byte-wise XOR of two blocks. */
  function XorBlock(a: Block, b: Block): Block
  {
    seq(8, j requires 0 <= j < 8 => XorByte(a[j], b[j]))
  }

  /** The last eight bytes of a decrypted prefix: the feedback for the next block. */
  function LastBlock(p: seq<byte>): Block
    requires |p| % 8 == 0
  {
    if |p| == 0 then ZERO_BLOCK else p[|p| - 8..]
  }

  /** The decrypt-and-XOR chain over whole blocks: block k is D(C_k) XOR P_(k-1), P_(-1) = 0. */
  function DecryptChain(decrypt: Block -> Block, c: seq<byte>): (p: seq<byte>)
    requires |c| % 8 == 0
    ensures |p| == |c|
  {
    if |c| == 0 then []
    else
      var before := DecryptChain(decrypt, c[..|c| - 8]);
      before + XorBlock(decrypt(c[|c| - 8..]), LastBlock(before))
  }

  /** The matching encryption: C_k = E(P_k XOR P_(k-1)). */
  function EncryptChain(encrypt: Block -> Block, p: seq<byte>): (c: seq<byte>)
    requires |p| % 8 == 0
    ensures |c| == |p|
  {
    if |p| == 0 then []
    else
      var before := p[..|p| - 8];
      EncryptChain(encrypt, before) + encrypt(XorBlock(p[|p| - 8..], LastBlock(before)))
  }

  lemma XorBlockCancels(a: Block, b: Block)
    ensures XorBlock(XorBlock(a, b), b) == a
  {
    forall j | 0 <= j < 8 ensures XorBlock(XorBlock(a, b), b)[j] == a[j] {
      XorCancels(a[j], b[j]);
    }
  }

  /** Decrypting one more ciphertext block appends one plaintext block. */
  lemma DecryptChainAppend(decrypt: Block -> Block, c: seq<byte>, b: Block)
    requires |c| % 8 == 0
    ensures DecryptChain(decrypt, c + b)
         == DecryptChain(decrypt, c) + XorBlock(decrypt(b), LastBlock(DecryptChain(decrypt, c)))
  {
    var cb := c + b;
    assert cb[..|cb| - 8] == c && cb[|cb| - 8..] == b;
  }

  /** With an encryption D inverts, decryption gives back every plaintext that is whole blocks. */
  lemma {:induction false} ChainRoundTrip(decrypt: Block -> Block, encrypt: Block -> Block, p: seq<byte>)
    requires forall b: Block :: decrypt(encrypt(b)) == b
    requires |p| % 8 == 0
    ensures DecryptChain(decrypt, EncryptChain(encrypt, p)) == p
    decreases |p|
  {
    if |p| > 0 {
      var before: seq<byte>, last: Block := p[..|p| - 8], p[|p| - 8..];
      var x := XorBlock(last, LastBlock(before));
      var cBefore := EncryptChain(encrypt, before);
      assert EncryptChain(encrypt, p) == cBefore + encrypt(x);
      ChainRoundTrip(decrypt, encrypt, before);
      DecryptChainAppend(decrypt, cBefore, encrypt(x));
      assert decrypt(encrypt(x)) == x;
      XorBlockCancels(last, LastBlock(before));
      assert p == before + last;
    }
  }

  /** Decrypting a prefix of whole blocks gives the same prefix of the plaintext. */
  lemma {:induction false} DecryptChainPrefix(decrypt: Block -> Block, c: seq<byte>, n: nat)
    requires |c| % 8 == 0 && n % 8 == 0 && n <= |c|
    ensures DecryptChain(decrypt, c)[..n] == DecryptChain(decrypt, c[..n])
    decreases |c|
  {
    if n < |c| {
      var front := c[..|c| - 8];
      DecryptChainPrefix(decrypt, front, n);
      assert front[..n] == c[..n];
      assert DecryptChain(decrypt, c)[..|c| - 8] == DecryptChain(decrypt, front);
    } else {
      assert c[..n] == c;
    }
  }

  /**
   * Decrypting up to the block at `off` appends, after the output so far, the
   * decrypted ciphertext block there XORed with the last output block, which
   * is zero at the start.
   */
  lemma DecryptChainBlock(decrypt: Block -> Block, c: seq<byte>, off: nat)
    requires |c| % 8 == 0 && off % 8 == 0 && off + 8 <= |c|
    ensures DecryptChain(decrypt, c[..off + 8])
         == DecryptChain(decrypt, c[..off]) + XorBlock(decrypt(c[off..off + 8]), LastBlock(DecryptChain(decrypt, c[..off])))
  {
    var block: Block := c[off..off + 8];
    assert c[..off] + block == c[..off + 8];
    DecryptChainAppend(decrypt, c[..off], block);
  }

  /** Decrypting one more whole block appends that block, which is the feedback for the next one. */
  lemma DecryptChainStep(
    decrypt: Block -> Block, c: seq<byte>, off: nat,
    done: seq<byte>, previous: Block, plain: Block, after: seq<byte>)
    requires off % 8 == 0 && off + 8 <= |c|
    requires done == DecryptChain(decrypt, c[..off]) && previous == LastBlock(done)
    requires plain == decrypt(c[off..off + 8])
    requires after == done + XorBlock(plain, previous)
    ensures after == DecryptChain(decrypt, c[..off + 8])
    ensures LastBlock(after) == XorBlock(plain, previous)
  {
    var upTo := c[..off + 8];
    assert upTo[..off] == c[..off] && upTo[off..] == c[off..off + 8];
  }

  lemma NextBlockAligned(off: nat)
    requires off % 8 == 0
    ensures (off + 8) % 8 == 0
  {
  }

  /** Once no whole block is left, the input was whole blocks exactly when nothing is left. */
  lemma WholeBlocksEnd(off: nat, n: nat)
    requires off % 8 == 0 && off <= n < off + 8
    ensures n % 8 == 0 <==> off == n
  {
  }

  /**
   * One step of the loop in `ReplayFile::from_file`: the decrypted block is
   * written into `out` at `off`, then XORed byte by byte with `previous`.
   */
  method DecryptBlockInto(out: array<byte>, off: nat, plain: Block, previous: Block)
    requires off + 8 <= out.Length
    modifies out
    ensures out[off..off + 8] == XorBlock(plain, previous)
    ensures out[..off + 8] == old(out[..off]) + XorBlock(plain, previous)
    ensures out[off + 8..] == old(out[off + 8..])
  {
    forall j | 0 <= j < 8 {
      out[off + j] := plain[j];
    }
    for j := 0 to 8
      invariant out[..off] == old(out[..off]) && out[off + 8..] == old(out[off + 8..])
      invariant forall t :: 0 <= t < j ==> out[off + t] == XorByte(plain[t], previous[t])
      invariant forall t :: j <= t < 8 ==> out[off + t] == plain[t]
    {
      out[off + j] := XorByte(out[off + j], previous[j]);
    }
    assert out[..off + 8] == out[..off] + out[off..off + 8];
  }

  /**
   * The loop of `ReplayFile::from_file`: a buffer of the ciphertext's length,
   * filled block by block in place, each block XORed with `previous`, which
   * then takes its value. A last chunk shorter than eight bytes aborts.
   */
  method DecryptInPlace(encrypted: seq<byte>, decrypt: Block -> Block) returns (r: Result<seq<byte>, Error>)
    ensures |encrypted| % 8 == 0 ==> r == Ok(DecryptChain(decrypt, encrypted))
    ensures |encrypted| % 8 != 0 ==> r == Err(PartialBlock)
  {
    var n := |encrypted|;
    var decrypted := new byte[n](_ => 0);
    var previous: Block := ZERO_BLOCK;
    var off := 0;
    while off + 8 <= n
      invariant off % 8 == 0 && off <= n
      invariant decrypted[..off] == DecryptChain(decrypt, encrypted[..off])
      invariant previous == LastBlock(decrypted[..off])
    {
      ghost var done := decrypted[..off];
      var plain := decrypt(encrypted[off..off + 8]);
      DecryptBlockInto(decrypted, off, plain, previous);
      DecryptChainStep(decrypt, encrypted, off, done, previous, plain, decrypted[..off + 8]);
      NextBlockAligned(off);
      previous := decrypted[off..off + 8];
      off := off + 8;
    }
    WholeBlocksEnd(off, n);
    if off < n {
      return Err(PartialBlock);
    }
    assert encrypted[..off] == encrypted && decrypted[..] == decrypted[..off];
    return Ok(decrypted[..]);
  }

  /** What `ReplayFile::from_file` makes of the file's bytes. */
  function Unwrap(contents: seq<byte>, codecs: Codecs): Result<ReplayFile, Error>
  {
    match ReplayFormat(contents, codecs)
    case Err(e) => Err(e)
    case Ok(Parsed(remaining, (meta, unknown))) =>
      if |remaining| < 8 then Err(NoSkippedChunk)
      else
        var encrypted := remaining[8..];
        if |encrypted| % 8 != 0 then Err(PartialBlock)
        else
          match codecs.inflate(DecryptChain(codecs.decryptBlock, encrypted))
          case None => Err(InflateFailed)
          case Some(packets) => Ok(ReplayFile(meta, unknown, packets))
  }

  /** `ReplayFile::from_file` after the file has been read into `contents`. */
  method FromFile(contents: seq<byte>, codecs: Codecs) returns (r: Result<ReplayFile, Error>)
    ensures r == Unwrap(contents, codecs)
  {
    var format := ReplayFormat(contents, codecs);
    if format.Err? {
      return Err(format.error);
    }
    var remaining := format.value.rest;
    if |remaining| < 8 {
      return Err(NoSkippedChunk);
    }
    var encrypted := remaining[8..];
    var decrypted := DecryptInPlace(encrypted, codecs.decryptBlock);
    if decrypted.Err? {
      return Err(decrypted.error);
    }
    var packets := codecs.inflate(decrypted.value);
    if packets.None? {
      return Err(InflateFailed);
    }
    return Ok(ReplayFile(format.value.value.0, format.value.value.1, packets.value));
  }

  /** A file with any other first four bytes is rejected as an invalid header, whatever follows. */
  lemma BadHeaderRejected(contents: seq<byte>, codecs: Codecs)
    requires 4 <= |contents| && contents[..4] != REPLAY_HEADER
    ensures Unwrap(contents, codecs) == Err(InvalidReplayHeader(contents[..4]))
  {
  }

  /**
   * The whole container round trip: metadata, extra blocks and the packet
   * stream come back from a file built with the inverse cipher and a stream
   * that inflates to the packets.
   */
  lemma UnwrapOfEncoded(
    metaText: string, m: ReplayMeta, blocks: seq<seq<byte>>, skipped: seq<byte>,
    deflated: seq<byte>, packets: seq<byte>, encrypt: Block -> Block, codecs: Codecs)
    requires |Utf8.Encode(metaText)| < TWO_TO_THE_32 && |blocks| + 1 < TWO_TO_THE_32
    requires forall j :: 0 <= j < |blocks| ==> |blocks[j]| < TWO_TO_THE_32
    requires codecs.parseJson(metaText) == Some(m)
    requires |skipped| == 8 && |deflated| % 8 == 0
    requires forall b: Block :: codecs.decryptBlock(encrypt(b)) == b
    requires codecs.inflate(deflated) == Some(packets)
    ensures Unwrap(EncodeContainer(metaText, blocks, skipped + EncryptChain(encrypt, deflated)), codecs)
         == Ok(ReplayFile(m, Concat(blocks), packets))
  {
    var tail := skipped + EncryptChain(encrypt, deflated);
    ReplayFormatOfEncoded(metaText, blocks, tail, codecs, m);
    assert tail[8..] == EncryptChain(encrypt, deflated);
    ChainRoundTrip(codecs.decryptBlock, encrypt, deflated);
  }
}
