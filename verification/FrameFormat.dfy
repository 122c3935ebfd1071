/**
  The LZ4 frame format: a header, data blocks each with its size, an end mark, and optional checksums; or a
  skippable frame. `EmitFrame` writes a frame and `ValidFrame` says when it is well-formed for the dictionary
  it was made with.

  The checksum is an arbitrary function of the bytes it covers.
*/
module FrameFormat {
  import opened Wrappers
  import opened Lz4Format

  const MAGIC := 0x184D2204
  const MAGIC_SKIPPABLE := 0x184D2A50
  const UNCOMPRESSED_FLAG := 0x8000_0000
  const MIN_FH_SIZE := 7
  const MAX_FH_SIZE := 19
  const BH_SIZE := 4
  const BF_SIZE := 4
  const KB128 := 0x2_0000
  const GB := 0x4000_0000

  type U32 = x: int | 0 <= x < 0x1_0000_0000
  type U64 = x: int | 0 <= x < 0x1_0000_0000_0000_0000

  // ---------------------------------------------------------------- numbers

  function LE32(n: U32): (r: Bytes)
    ensures |r| == 4
  {
    var n1 := n / 256;
    var n2 := n1 / 256;
    [n % 256, n1 % 256, n2 % 256, n2 / 256]
  }

  function ReadLE32(b: Bytes, p: nat): U32
    requires p + 4 <= |b|
  {
    b[p] as int + 0x100 * b[p + 1] as int + 0x1_0000 * b[p + 2] as int + 0x100_0000 * b[p + 3] as int
  }

  function LE64(n: U64): (r: Bytes)
    ensures |r| == 8
  {
    LE32(n % 0x1_0000_0000) + LE32(n / 0x1_0000_0000)
  }

  function ReadLE64(b: Bytes, p: nat): U64
    requires p + 8 <= |b|
  {
    ReadLE32(b, p) + 0x1_0000_0000 * ReadLE32(b, p + 4)
  }

  lemma ReadBack32(b: Bytes, p: nat, n: U32)
    requires At(b, p, LE32(n))
    ensures ReadLE32(b, p) == n
  {
    hide LE32;
    var s := b[p..p + 4];
    assert s[0] == b[p] && s[1] == b[p + 1] && s[2] == b[p + 2] && s[3] == b[p + 3];
    Digits(n);
  }

  lemma Digits(n: U32)
    ensures var r := LE32(n); n == r[0] as int + 0x100 * r[1] as int + 0x1_0000 * r[2] as int + 0x100_0000 * r[3] as int
  {
    var n1 := n / 256;
    var n2 := n1 / 256;
  }

  lemma ReadBack64(b: Bytes, p: nat, n: U64)
    requires At(b, p, LE64(n))
    ensures ReadLE64(b, p) == n
  {
    AtConcat(b, p, LE32(n % 0x1_0000_0000), LE32(n / 0x1_0000_0000));
    ReadBack32(b, p, n % 0x1_0000_0000);
    ReadBack32(b, p + 4, n / 0x1_0000_0000);
  }

  // ---------------------------------------------------------------- frames

  predicate IsBlockSizeId(id: nat) {
    4 <= id <= 7
  }

  /** `LZ4F_getBlockSize` on the four supported values. */
  function BlockSize(id: nat): nat
    requires IsBlockSizeId(id)
  {
    if id == 4 then 0x1_0000 else if id == 5 then 0x4_0000 else if id == 6 then 0x10_0000 else 0x40_0000
  }

  datatype Header = Header(linked: bool, blockChecksum: bool, contentChecksum: bool, contentSize: Option<U64>,
                           dictID: Option<U32>, blockSizeId: nat)

  /** One data block: `data` is what stands in the frame, `content` what it stands for. */
  datatype FrameBlock = FrameBlock(raw: bool, data: Bytes, content: Bytes)

  datatype Frame = Lz4Frame(header: Header, blocks: seq<FrameBlock>) | SkippableFrame(nibble: nat, payload: Bytes)

  function Flg(h: Header): byte {
    64 + (if h.linked then 0 else 32) + (if h.blockChecksum then 16 else 0) + (if h.contentSize.Some? then 8 else 0)
    + (if h.contentChecksum then 4 else 0) + (if h.dictID.Some? then 1 else 0)
  }

  function HeaderSize(h: Header): nat {
    MIN_FH_SIZE + (if h.contentSize.Some? then 8 else 0) + (if h.dictID.Some? then 4 else 0)
  }

  /** The part of the header that the header checksum covers. */
  function Descriptor(h: Header): (r: Bytes)
    requires IsBlockSizeId(h.blockSizeId)
    ensures |r| == HeaderSize(h) - 5
  {
    [Flg(h), 16 * h.blockSizeId]
    + (if h.contentSize.Some? then LE64(h.contentSize.value) else [])
    + (if h.dictID.Some? then LE32(h.dictID.value) else [])
  }

  function HeaderChecksum(descriptor: Bytes, hash: Bytes -> U32): byte {
    hash(descriptor) / 256 % 256
  }

  function EmitHeader(h: Header, hash: Bytes -> U32): (r: Bytes)
    requires IsBlockSizeId(h.blockSizeId)
    ensures |r| == HeaderSize(h)
  {
    LE32(MAGIC) + Descriptor(h) + [HeaderChecksum(Descriptor(h), hash)]
  }

  /** A checksum, when there is one. */
  function Crc(present: bool, b: Bytes, hash: Bytes -> U32): (r: Bytes)
    ensures |r| == if present then BF_SIZE else 0
  {
    if present then LE32(hash(b)) else []
  }

  function BlockWord(b: FrameBlock): U32
    requires |b.data| < UNCOMPRESSED_FLAG
  {
    |b.data| + if b.raw then UNCOMPRESSED_FLAG else 0
  }

  function EmitFrameBlock(b: FrameBlock, checksum: bool, hash: Bytes -> U32): (r: Bytes)
    requires |b.data| < UNCOMPRESSED_FLAG
    ensures |r| == BH_SIZE + |b.data| + if checksum then BF_SIZE else 0
  {
    LE32(BlockWord(b)) + (b.data + Crc(checksum, b.data, hash))
  }

  predicate Sized(blocks: seq<FrameBlock>) {
    forall i :: 0 <= i < |blocks| ==> |blocks[i].data| < UNCOMPRESSED_FLAG
  }

  function EmitBlocks(blocks: seq<FrameBlock>, checksum: bool, hash: Bytes -> U32): Bytes
    requires Sized(blocks)
  {
    if |blocks| == 0 then []
    else EmitBlocks(blocks[..|blocks| - 1], checksum, hash) + EmitFrameBlock(blocks[|blocks| - 1], checksum, hash)
  }

  /** What a list of blocks stands for. */
  function Content(blocks: seq<FrameBlock>): Bytes {
    if |blocks| == 0 then [] else Content(blocks[..|blocks| - 1]) + blocks[|blocks| - 1].content
  }

  function FrameContent(fr: Frame): Bytes {
    if fr.Lz4Frame? then Content(fr.blocks) else []
  }

  predicate Emittable(fr: Frame) {
    match fr
    case Lz4Frame(h, blocks) => IsBlockSizeId(h.blockSizeId) && Sized(blocks)
    case SkippableFrame(nibble, payload) => nibble < 16 && |payload| < 0x1_0000_0000
  }

  function EmitFrame(fr: Frame, hash: Bytes -> U32): Bytes
    requires Emittable(fr)
  {
    match fr
    case Lz4Frame(h, blocks) =>
      EmitHeader(h, hash) + EmitBlocks(blocks, h.blockChecksum,
                                       hash) + (LE32(0) + Crc(h.contentChecksum, Content(blocks), hash))
    case SkippableFrame(nibble, payload) => LE32(MAGIC_SKIPPABLE + nibble) + (LE32(|payload|) + payload)
  }

  /** What block `k` may refer to. */
  function BlockHistory(h: Header, dictionary: Bytes, blocks: seq<FrameBlock>): Bytes {
    if h.linked then dictionary + Content(blocks) else dictionary
  }

  predicate ValidBlock(b: FrameBlock, maxBlockSize: nat, history: Bytes) {
    && |b.data| <= maxBlockSize && |b.content| <= maxBlockSize
    && if b.raw then b.data == b.content else Encodes(b.data, history, b.content)
  }

  /** A well-formed frame. A content size of zero in the header counts as not known. */
  predicate ValidFrame(fr: Frame, dictionary: Bytes) {
    && Emittable(fr)
    && (fr.Lz4Frame? ==>
        && (forall k :: 0 <= k < |fr.blocks| ==>
              ValidBlock(fr.blocks[k], BlockSize(fr.header.blockSizeId),
                         BlockHistory(fr.header, dictionary, fr.blocks[..k])))
        && (fr.header.contentSize.Some? && fr.header.contentSize.value != 0 ==>
              fr.header.contentSize.value == |Content(fr.blocks)|))
  }

  // ---------------------------------------------------------------- where things stand

  /** Where block `k` starts in the frame; after the last one, where the end mark stands. */
  function Start(fr: Frame, k: nat, hash: Bytes -> U32): nat
    requires fr.Lz4Frame? && Emittable(fr) && k <= |fr.blocks|
  {
    HeaderSize(fr.header) + |EmitBlocks(fr.blocks[..k], fr.header.blockChecksum, hash)|
  }

  /** How much content precedes block `k`. */
  function Before(fr: Frame, k: nat): nat
    requires fr.Lz4Frame? && k <= |fr.blocks|
  {
    |Content(fr.blocks[..k])|
  }

  lemma {:induction false} EmitBlocksPrefix(blocks: seq<FrameBlock>, k: nat, checksum: bool, hash: Bytes -> U32)
    requires Sized(blocks) && k <= |blocks|
    ensures At(EmitBlocks(blocks, checksum, hash), 0, EmitBlocks(blocks[..k], checksum, hash))
    decreases |blocks|
  {
    var e := EmitBlocks(blocks, checksum, hash);
    if k == |blocks| {
      assert blocks[..k] == blocks && e[0..|e|] == e;
    } else {
      var front := blocks[..|blocks| - 1];
      EmitBlocksPrefix(front, k, checksum, hash);
      assert front[..k] == blocks[..k];
      var p := EmitBlocks(blocks[..k], checksum, hash);
      assert e[0..|p|] == EmitBlocks(front, checksum, hash)[0..|p|];
    }
  }

  lemma {:induction false} ContentPrefix(blocks: seq<FrameBlock>, k: nat)
    requires k <= |blocks|
    ensures At(Content(blocks), 0, Content(blocks[..k]))
    decreases |blocks|
  {
    var c := Content(blocks);
    if k == |blocks| {
      assert blocks[..k] == blocks && c[0..|c|] == c;
    } else {
      var front := blocks[..|blocks| - 1];
      ContentPrefix(front, k);
      assert front[..k] == blocks[..k];
      var p := Content(blocks[..k]);
      assert c[0..|p|] == Content(front)[0..|p|];
    }
  }

  /** The content of block `k` within the content of the frame. */
  lemma ContentAt(fr: Frame, k: nat)
    requires fr.Lz4Frame? && k < |fr.blocks|
    ensures At(Content(fr.blocks), Before(fr, k), fr.blocks[k].content)
    ensures Before(fr, k + 1) == Before(fr, k) + |fr.blocks[k].content| <= |Content(fr.blocks)|
    ensures Content(fr.blocks)[..Before(fr, k)] == Content(fr.blocks[..k])
  {
    hide Content;
    var c, a, b := Content(fr.blocks), Content(fr.blocks[..k]), Content(fr.blocks[..k + 1]);
    ContentPrefix(fr.blocks, k);
    ContentPrefix(fr.blocks, k + 1);
    ContentStep(fr.blocks, k);
    AtConcat(c, 0, a, fr.blocks[k].content);
    assert c[0..|a|] == c[..|a|];
  }

  lemma ContentStep(blocks: seq<FrameBlock>, k: nat)
    requires k < |blocks|
    ensures Content(blocks[..k + 1]) == Content(blocks[..k]) + blocks[k].content
  {
    assert blocks[..k + 1][..k] == blocks[..k];
  }

  lemma EmitBlocksStep(blocks: seq<FrameBlock>, k: nat, checksum: bool, hash: Bytes -> U32)
    requires Sized(blocks) && k < |blocks|
    ensures EmitBlocks(blocks[..k + 1], checksum, hash)
      == EmitBlocks(blocks[..k], checksum, hash) + EmitFrameBlock(blocks[k], checksum, hash)
  {
    assert blocks[..k + 1][..k] == blocks[..k];
  }

  /** The parts of block `k` within the frame. */
  lemma BlockAt(fr: Frame, k: nat, hash: Bytes -> U32)
    requires Emittable(fr) && fr.Lz4Frame? && k < |fr.blocks|
    ensures var F, s, b := EmitFrame(fr, hash), Start(fr, k, hash), fr.blocks[k];
      && At(F, s, LE32(BlockWord(b)))
      && At(F, s + BH_SIZE, b.data)
      && At(F, s + BH_SIZE, b.data + Crc(fr.header.blockChecksum, b.data, hash))
      && At(F, s + BH_SIZE + |b.data|, Crc(fr.header.blockChecksum, b.data, hash))
      && Start(fr, k + 1, hash) == s + BH_SIZE + |b.data| + (if fr.header.blockChecksum then BF_SIZE else 0) <= |F|
  {
    hide EmitBlocks, EmitHeader, EmitFrame, LE32, Crc, At;
    var F, s, b := EmitFrame(fr, hash), Start(fr, k, hash), fr.blocks[k];
    var e := EmitFrameBlock(b, fr.header.blockChecksum, hash);
    EmittedBlockAt(fr, k, hash);
    AtConcat(F, s, LE32(BlockWord(b)), b.data + Crc(fr.header.blockChecksum, b.data, hash));
    AtConcat(F, s + BH_SIZE, b.data, Crc(fr.header.blockChecksum, b.data, hash));
    EmitBlocksStep(fr.blocks, k, fr.header.blockChecksum, hash);
    AtBounds(F, s, e);
  }

  lemma AtBounds(b: Bytes, p: nat, x: Bytes)
    requires At(b, p, x)
    ensures p + |x| <= |b|
  {
  }

  lemma EmittedBlockAt(fr: Frame, k: nat, hash: Bytes -> U32)
    requires Emittable(fr) && fr.Lz4Frame? && k < |fr.blocks|
    ensures At(EmitFrame(fr, hash), Start(fr, k, hash), EmitFrameBlock(fr.blocks[k], fr.header.blockChecksum, hash))
  {
    hide EmitBlocks, EmitHeader, EmitFrameBlock, At;
    var h := fr.header;
    var all, upTo, e := EmitBlocks(fr.blocks, h.blockChecksum, hash), EmitBlocks(fr.blocks[..k], h.blockChecksum, hash),
                        EmitFrameBlock(fr.blocks[k], h.blockChecksum, hash);
    EmitBlocksPrefix(fr.blocks, k + 1, h.blockChecksum, hash);
    EmitBlocksStep(fr.blocks, k, h.blockChecksum, hash);
    AtConcat(all, 0, upTo, e);
    AtInner(EmitHeader(h, hash), all, LE32(0) + Crc(h.contentChecksum, Content(fr.blocks), hash), |upTo|, e);
  }

  lemma AtInner(before: Bytes, b: Bytes, after: Bytes, p: nat, x: Bytes)
    requires At(b, p, x)
    ensures At(before + b + after, |before| + p, x)
  {
    assert (before + b + after)[|before| + p..|before| + p + |x|] == b[p..p + |x|];
  }

  /** The end mark and the content checksum close the frame. */
  lemma EndAt(fr: Frame, hash: Bytes -> U32)
    requires Emittable(fr) && fr.Lz4Frame?
    ensures var F, s, h := EmitFrame(fr, hash), Start(fr, |fr.blocks|, hash), fr.header;
      && At(F, s, LE32(0))
      && At(F, s + BH_SIZE, Crc(h.contentChecksum, Content(fr.blocks), hash))
      && |F| == s + BH_SIZE + (if h.contentChecksum then BF_SIZE else 0)
  {
    hide EmitBlocks, EmitHeader, LE32, Crc, At, Content;
    var F, s, h := EmitFrame(fr, hash), Start(fr, |fr.blocks|, hash), fr.header;
    assert fr.blocks[..|fr.blocks|] == fr.blocks;
    var crc := Crc(h.contentChecksum, Content(fr.blocks), hash);
    var before := EmitHeader(h, hash) + EmitBlocks(fr.blocks, h.blockChecksum, hash);
    AtEnd(before, LE32(0) + crc);
    AtConcat(F, s, LE32(0), crc);
  }

  lemma AtEnd(before: Bytes, x: Bytes)
    ensures At(before + x, |before|, x)
  {
  }

  lemma SkippableAt(fr: Frame, hash: Bytes -> U32)
    requires Emittable(fr) && fr.SkippableFrame?
    ensures var F := EmitFrame(fr, hash);
      && At(F, 0, LE32(MAGIC_SKIPPABLE + fr.nibble)) && At(F, 4, LE32(|fr.payload|)) && |F| == 8 + |fr.payload|
  {
    hide LE32;
    var F := EmitFrame(fr, hash);
    assert F[0..|F|] == F;
    AtConcat(F, 0, LE32(MAGIC_SKIPPABLE + fr.nibble), LE32(|fr.payload|) + fr.payload);
    AtConcat(F, 4, LE32(|fr.payload|), fr.payload);
  }
}
