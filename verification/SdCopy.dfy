/** sd_copy of the boot ROM (corev_apu/fpga/src/bootrom/src/sd.c) over a card that shifts out a stream
    of bytes: what lands in memory, when the copy stops, and what the CRC check makes of damaged blocks. */
module SdCopies {

  import opened Polynomials
  import opened Sequences
  import opened Crc16s
  import opened CrcErrors

  const BLOCK := 512
  const TRANSFER := 64

  /** Bytes in n blocks. */
  function Length(n: nat): nat {
    512 * n
  }

  const ERROR_CMD18 := -1
  const ERROR_CMD18_CRC := -2

  /** SD_DATA_TOKEN, 0xfe. */
  function DataToken(): Byte {
    [true, true, true, true, true, true, true, false]
  }

  // ---------------------------------------------------------------- what the stream holds

  /** The position behind the first data token at or after pos, or past the end when there is none. */
  function AfterToken(s: seq<Byte>, pos: nat): (t: nat)
    ensures t > pos
    ensures t <= |s| ==> s[t - 1] == DataToken()
    ensures forall k | pos <= k < t - 1 && k < |s| :: s[k] != DataToken()
    decreases |s| - pos
  {
    if pos >= |s| then pos + 1 else if s[pos] == DataToken() then pos + 1 else AfterToken(s, pos + 1)
  }

  /** Where the data of block k starts: behind the token that follows block k - 1 and its CRC. */
  function Start(s: seq<Byte>, pos: nat, k: nat): (t: nat)
    ensures t > pos
  {
    AfterToken(s, if k == 0 then pos else Start(s, pos, k - 1) + BLOCK + 2)
  }

  /** Where n blocks end: behind the CRC of the last. */
  function EndOf(s: seq<Byte>, pos: nat, n: nat): nat {
    if n == 0 then pos else Start(s, pos, n - 1) + BLOCK + 2
  }

  predicate HasBlock(s: seq<Byte>, pos: nat, k: nat) {
    Start(s, pos, k) + BLOCK + 2 <= |s|
  }

  function BlockData(s: seq<Byte>, pos: nat, k: nat): (b: seq<Byte>)
    requires HasBlock(s, pos, k)
    ensures |b| == BLOCK
  {
    s[Start(s, pos, k)..Start(s, pos, k) + BLOCK]
  }

  predicate BlockChecks(s: seq<Byte>, pos: nat, k: nat)
    requires HasBlock(s, pos, k)
  {
    Checks(BlockData(s, pos, k), s[Start(s, pos, k) + BLOCK], s[Start(s, pos, k) + BLOCK + 1])
  }

  /** All of the first n blocks are there and pass. */
  predicate AllCheck(s: seq<Byte>, pos: nat, n: nat) {
    n == 0 || (AllCheck(s, pos, n - 1) && HasBlock(s, pos, n - 1) && BlockChecks(s, pos, n - 1))
  }

  /** The card sends block after block until n are through or one fails its check. */
  predicate Supplies(s: seq<Byte>, pos: nat, n: nat) {
    n == 0 || (Supplies(s, pos, n - 1) && (AllCheck(s, pos, n - 1) ==> HasBlock(s, pos, n - 1)))
  }

  /** Block b is there, and it is the first that fails. */
  predicate FirstBad(s: seq<Byte>, pos: nat, b: nat) {
    AllCheck(s, pos, b) && HasBlock(s, pos, b) && !BlockChecks(s, pos, b)
  }

  /** The data of the first n blocks, in order. */
  function Data(s: seq<Byte>, pos: nat, n: nat): (d: seq<Byte>)
    requires n == 0 || HasBlock(s, pos, n - 1)
    ensures |d| == Length(n)
  {
    if n == 0 then [] else Data(s, pos, n - 1) + BlockData(s, pos, n - 1)
  }

  /** The loop body runs before its test: size 0 still copies a block. */
  function Blocks(size: nat): nat {
    if size == 0 then 1 else size
  }

  /** The first n blocks of the card lie at the start of the buffer, and the rest of it is as it was. */
  predicate Holds(s: seq<Byte>, pos: nat, n: nat, before: seq<Byte>, after: seq<Byte>) {
    && (n == 0 || HasBlock(s, pos, n - 1))
    && Length(n) <= |before| == |after|
    && after[..Length(n)] == Data(s, pos, n)
    && after[Length(n)..] == before[Length(n)..]
  }

  /** The copy ended with block b, the first that fails; block b itself is already in the buffer. */
  predicate StoppedAt(s: seq<Byte>, pos: nat, b: nat, before: seq<Byte>, after: seq<Byte>) {
    FirstBad(s, pos, b) && Holds(s, pos, b + 1, before, after)
  }

  // ---------------------------------------------------------------- the driver

  class Card {

    const stream: seq<Byte>
    var pos: nat

    constructor (stream: seq<Byte>)
      ensures this.stream == stream && pos == 0
    {
      this.stream := stream;
      pos := 0;
    }

    /** One byte shifted in from the card. */
    method Dummy() returns (b: Byte)
      requires pos < |stream|
      modifies this
      ensures pos == old(pos) + 1 && b == stream[old(pos)]
    {
      b := stream[pos];
      pos := pos + 1;
    }

    /** spi_write_bytes: n bytes shifted in to dst from index p on. */
    method Transfer(dst: array<Byte>, p: nat, n: nat)
      requires pos + n <= |stream| && p + n <= dst.Length
      modifies this, dst
      ensures pos == old(pos) + n
      ensures forall k | 0 <= k < dst.Length :: dst[k] == if p <= k < p + n then stream[old(pos) + (k - p)] else old(dst[k])
    {
      var i := 0;
      while i < n
        invariant i <= n && pos == old(pos) + i
        invariant forall k | 0 <= k < dst.Length :: dst[k] == if p <= k < p + i then stream[old(pos) + (k - p)] else old(dst[k])
      {
        dst[p + i] := stream[pos];
        pos := pos + 1;
        i := i + 1;
      }
    }

    /** One pass of the outer loop: wait for the token, move the block with the CRC alongside, read the
        CRC of the card and compare. */
    method ReadBlock(dst: array<Byte>, p: nat) returns (ok: bool)
      requires AfterToken(stream, pos) + BLOCK + 2 <= |stream| && p + BLOCK <= dst.Length
      modifies this, dst
      ensures var t := AfterToken(stream, old(pos));
              && pos == t + BLOCK + 2
              && (forall k | 0 <= k < dst.Length :: dst[k] == if p <= k < p + BLOCK then stream[t + (k - p)] else old(dst[k]))
              && ok == Checks(stream[t..t + BLOCK], stream[t + BLOCK], stream[t + BLOCK + 1])
    {
      WaitForToken();
      var crc := MoveBlock(dst, p);
      var hi := Dummy();
      var lo := Dummy();
      ok := crc == CrcWord(hi, lo);
    }

    /** One transfer of 64 bytes, folded into the CRC of the bytes before it. */
    method MoveTransfer(dst: array<Byte>, q: nat, crc: Word, ghost before: seq<Byte>) returns (r: Word)
      requires pos + TRANSFER <= |stream| && q + TRANSFER <= dst.Length && crc == CrcOf(before)
      modifies this, dst
      ensures pos == old(pos) + TRANSFER
      ensures forall k | 0 <= k < dst.Length :: dst[k] == if q <= k < q + TRANSFER then stream[old(pos) + (k - q)] else old(dst[k])
      ensures r == CrcOf(before + stream[old(pos)..pos])
    {
      ghost var was := pos;
      Transfer(dst, q, TRANSFER);
      r := CrcOver(crc, dst, q, TRANSFER, stream[was..pos]);
      CrcFoldConcat(Zeros(16), before, stream[was..pos]);
    }

    /** 512 bytes in transfers of 64, each folded into the CRC from the buffer it was written to. */
    method MoveBlock(dst: array<Byte>, p: nat) returns (crc: Word)
      requires pos + BLOCK <= |stream| && p + BLOCK <= dst.Length
      modifies this, dst
      ensures pos == old(pos) + BLOCK
      ensures forall k | 0 <= k < dst.Length :: dst[k] == if p <= k < p + BLOCK then stream[old(pos) + (k - p)] else old(dst[k])
      ensures crc == CrcOf(stream[old(pos)..pos])
    {
      crc := Zeros(16);
      ghost var start := pos;
      var q, n := p, BLOCK;
      while n > 0
        invariant 0 <= n <= BLOCK && n % 64 == 0 && q + n == p + BLOCK && pos + n == start + BLOCK
        invariant forall k | 0 <= k < dst.Length :: dst[k] == if p <= k < q then stream[start + (k - p)] else old(dst[k])
        invariant crc == CrcOf(stream[start..pos])
      {
        ghost var was := pos;
        crc := MoveTransfer(dst, q, crc, stream[start..pos]);
        SplitSlice(stream, start, was, pos);
        q := q + TRANSFER;
        n := n - TRANSFER;
      }
    }

    method WaitForToken()
      requires AfterToken(stream, pos) <= |stream|
      modifies this
      ensures pos == AfterToken(stream, old(pos))
    {
      var b := Dummy();
      while b != DataToken()
        invariant old(pos) < pos <= |stream| && b == stream[pos - 1]
        invariant AfterToken(stream, pos - 1) == AfterToken(stream, old(pos))
        decreases |stream| - pos
      {
        b := Dummy();
      }
    }

    /** sd_copy after the command's response: size blocks to dst, stopping at the first that fails. */
    method SdCopy(dst: array<Byte>, size: nat, response: Byte) returns (rc: int)
      requires response != Zeros(8) ==> pos + 8 <= |stream|
      requires response == Zeros(8) ==> Supplies(stream, pos, Blocks(size)) && Length(Blocks(size)) <= dst.Length
      modifies this, dst
      ensures rc == ERROR_CMD18 <==> response != Zeros(8)
      ensures rc == ERROR_CMD18 ==> dst[..] == old(dst[..])
      ensures rc == 0 ==> AllCheck(stream, old(pos), Blocks(size)) && Holds(stream, old(pos), Blocks(size), old(dst[..]), dst[..])
      ensures rc == 0 && size == 0 ==> dst[..BLOCK] == BlockData(stream, old(pos), 0)
      ensures rc == 0 && size > 0 ==> AllCheck(stream, old(pos), size) && dst[..Length(size)] == Data(stream, old(pos), size)
      ensures rc == ERROR_CMD18_CRC ==>
                exists b: nat | b < size || b == 0 :: StoppedAt(stream, old(pos), b, old(dst[..]), dst[..])
      ensures rc in {0, ERROR_CMD18, ERROR_CMD18_CRC}
    {
      if response != Zeros(8) {
        var j := 0;
        while j < 8
          invariant j <= 8 && pos == old(pos) + j && dst[..] == old(dst[..])
        {
          var _ := Dummy();
          j := j + 1;
        }
        return ERROR_CMD18;
      }
      rc := CopyBlocks(dst, size);
    }

    /** One pass of the block loop, the done-th since the copy started at position from. */
    method CopyOne(dst: array<Byte>, p: nat, ghost from: nat, ghost done: nat, ghost before: seq<Byte>) returns (ok: bool)
      requires p == Length(done) && p + BLOCK <= dst.Length
      requires pos == EndOf(stream, from, done) && HasBlock(stream, from, done)
      requires AllCheck(stream, from, done) && Holds(stream, from, done, before, dst[..])
      modifies this, dst
      ensures pos == EndOf(stream, from, done + 1)
      ensures ok ==> AllCheck(stream, from, done + 1) && Holds(stream, from, done + 1, before, dst[..])
      ensures !ok ==> StoppedAt(stream, from, done, before, dst[..])
    {
      ghost var was, t := dst[..], AfterToken(stream, pos);
      assert t == Start(stream, from, done);
      ok := ReadBlock(dst, p);
      BlockDecides(stream, from, done, t, ok);
      ghost var after := dst[..];
      assert forall k | 0 <= k < |after| :: after[k] == if p <= k < p + BLOCK then stream[t + (k - p)] else was[k];
      BlockTaken(stream, from, done, before, was, after, p, t);
    }

    /** The block loop of sd_copy. */
    method CopyBlocks(dst: array<Byte>, size: nat) returns (rc: int)
      requires Supplies(stream, pos, Blocks(size)) && Length(Blocks(size)) <= dst.Length
      modifies this, dst
      ensures rc in {0, ERROR_CMD18_CRC}
      ensures rc == 0 ==> AllCheck(stream, old(pos), Blocks(size)) && Holds(stream, old(pos), Blocks(size), old(dst[..]), dst[..])
      ensures rc == ERROR_CMD18_CRC ==>
                exists b: nat | b < Blocks(size) :: StoppedAt(stream, old(pos), b, old(dst[..]), dst[..])
    {
      rc := 0;
      var p: nat, i: int := 0, size;
      ghost var done: nat, from, before := 0, pos, dst[..];
      while true
        invariant done < Blocks(size) && p == Length(done) && i == size - done && rc == 0
        invariant AllCheck(stream, from, done) && Holds(stream, from, done, before, dst[..])
        invariant pos == EndOf(stream, from, done)
        decreases Blocks(size) - done
      {
        NextIsThere(stream, from, Blocks(size), done);
        var ok := CopyOne(dst, p, from, done, before);
        p := p + BLOCK;
        if !ok {
          rc := ERROR_CMD18_CRC;
          break;
        }
        done := done + 1;
        i := i - 1;
        if i <= 0 {
          assert done == Blocks(size);
          break;
        }
      }
    }
  }

  lemma {:induction false} NextIsThere(s: seq<Byte>, pos: nat, n: nat, k: nat)
    requires Supplies(s, pos, n) && k < n && AllCheck(s, pos, k)
    ensures HasBlock(s, pos, k)
    decreases n
  {
    if k < n - 1 {
      NextIsThere(s, pos, n - 1, k);
    }
  }

  lemma {:induction false} AllCheckAt(s: seq<Byte>, pos: nat, n: nat, k: nat)
    requires AllCheck(s, pos, n) && k < n
    ensures AllCheck(s, pos, k) && HasBlock(s, pos, k) && BlockChecks(s, pos, k)
    decreases n
  {
    if k < n - 1 {
      AllCheckAt(s, pos, n - 1, k);
    }
  }

  lemma OneMore(s: seq<Byte>, pos: nat, k: nat)
    requires AllCheck(s, pos, k) && HasBlock(s, pos, k)
    ensures if BlockChecks(s, pos, k) then AllCheck(s, pos, k + 1) else FirstBad(s, pos, k)
  {
  }

  /** Writing a block behind p leaves what was before it and what is behind it. */
  lemma BlockAppended(before: seq<Byte>, was: seq<Byte>, after: seq<Byte>, p: nat, s: seq<Byte>, t: nat)
    requires p + BLOCK <= |was| == |after| == |before| && t + BLOCK <= |s| && was[p..] == before[p..]
    requires forall k | 0 <= k < |after| :: after[k] == if p <= k < p + BLOCK then s[t + (k - p)] else was[k]
    ensures after[..p + BLOCK] == was[..p] + s[t..t + BLOCK]
    ensures after[p + BLOCK..] == before[p + BLOCK..]
  {
    BlockLands(after, p, s, t);
    ChangeWithin(was, after, p, p + BLOCK);
    SplitPrefix(after, p, p + BLOCK);
    DropMore(was, before, p, p + BLOCK);
  }

  lemma HoldsOneMore(s: seq<Byte>, pos: nat, n: nat, before: seq<Byte>, was: seq<Byte>, after: seq<Byte>)
    requires Holds(s, pos, n, before, was) && HasBlock(s, pos, n)
    requires Length(n + 1) <= |after| == |was|
    requires after[..Length(n + 1)] == was[..Length(n)] + BlockData(s, pos, n)
    requires after[Length(n + 1)..] == before[Length(n + 1)..]
    ensures Holds(s, pos, n + 1, before, after)
  {
  }

  /** Both together. */
  lemma BlockTaken(s: seq<Byte>, pos: nat, n: nat, before: seq<Byte>, was: seq<Byte>, after: seq<Byte>, p: nat, t: nat)
    requires Holds(s, pos, n, before, was) && HasBlock(s, pos, n)
    requires p == Length(n) && t == Start(s, pos, n) && p + BLOCK <= |was| == |after|
    requires forall k | 0 <= k < |after| :: after[k] == if p <= k < p + BLOCK then s[t + (k - p)] else was[k]
    ensures Holds(s, pos, n + 1, before, after)
  {
    BlockAppended(before, was, after, p, s, t);
    HoldsOneMore(s, pos, n, before, was, after);
  }

  /** What the check of the next block decides. */
  lemma BlockDecides(s: seq<Byte>, pos: nat, n: nat, t: nat, ok: bool)
    requires AllCheck(s, pos, n) && HasBlock(s, pos, n) && t == Start(s, pos, n)
    requires ok == Checks(s[t..t + BLOCK], s[t + BLOCK], s[t + BLOCK + 1])
    ensures if ok then AllCheck(s, pos, n + 1) else FirstBad(s, pos, n)
  {
    assert BlockChecks(s, pos, n) == ok;
    OneMore(s, pos, n);
  }

  lemma BlockLands(after: seq<Byte>, p: nat, s: seq<Byte>, t: nat)
    requires p + BLOCK <= |after| && t + BLOCK <= |s|
    requires forall k | p <= k < p + BLOCK :: after[k] == s[t + (k - p)]
    ensures after[p..p + BLOCK] == s[t..t + BLOCK]
  {
  }

  /** The CRC of n bytes of a buffer, on top of what came before. */
  method CrcOver(crc: Word, a: array<Byte>, p: nat, n: nat, ghost data: seq<Byte>) returns (r: Word)
    requires p + n <= a.Length && |data| == n && forall k | 0 <= k < n :: a[p + k] == data[k]
    ensures r == CrcFold(crc, data)
  {
    r := crc;
    var i := 0;
    while i < n
      invariant i <= n && r == CrcFold(crc, data[..i])
    {
      CrcFoldSnoc(crc, data, i);
      r := UpdateCrc(r, a[p + i]);
      i := i + 1;
    }
    assert data[..n] == data;
  }

  lemma CrcFoldSnoc(crc: Word, data: seq<Byte>, i: nat)
    requires i < |data|
    ensures CrcFold(crc, data[..i + 1]) == Crc16(CrcFold(crc, data[..i]), data[i])
  {
    assert data[..i + 1] == data[..i] + [data[i]];
    CrcFoldConcat(crc, data[..i], [data[i]]);
  }

  // ---------------------------------------------------------------- what the card sends, and what comes of it

  /** The copy of n blocks succeeds exactly when none of them fails: the results 0 and -2 exclude each other. */
  lemma {:induction false} SucceedsIffNoneFails(s: seq<Byte>, pos: nat, n: nat)
    requires Supplies(s, pos, n)
    ensures AllCheck(s, pos, n) <==> forall b: nat | b < n :: !FirstBad(s, pos, b)
  {
    if AllCheck(s, pos, n) {
      forall b: nat | b < n ensures !FirstBad(s, pos, b) {
        AllCheckAt(s, pos, n, b);
      }
    } else {
      var b := FirstFailure(s, pos, n);
    }
  }

  lemma {:induction false} FirstFailure(s: seq<Byte>, pos: nat, n: nat) returns (b: nat)
    requires Supplies(s, pos, n) && !AllCheck(s, pos, n)
    ensures b < n && FirstBad(s, pos, b)
  {
    if AllCheck(s, pos, n - 1) {
      b := n - 1;
    } else {
      b := FirstFailure(s, pos, n - 1);
    }
  }

  /** A block on the wire: idle bytes, the token, the data and its CRC. */
  datatype Frame = Frame(idle: seq<Byte>, data: seq<Byte>, hi: Byte, lo: Byte) {
    predicate WellFormed() {
      |data| == BLOCK && forall k | 0 <= k < |idle| :: idle[k] != DataToken()
    }

    function Bytes(): (b: seq<Byte>)
      ensures |b| == |idle| + |data| + 3
    {
      idle + [DataToken()] + data + [hi, lo]
    }

    predicate Sound() {
      Checks(data, hi, lo)
    }
  }

  function Wire(frames: seq<Frame>): seq<Byte> {
    if frames == [] then [] else Wire(frames[..|frames| - 1]) + frames[|frames| - 1].Bytes()
  }

  /** The data the frames carry. */
  function Payload(frames: seq<Frame>): seq<Byte> {
    if frames == [] then [] else Payload(frames[..|frames| - 1]) + frames[|frames| - 1].data
  }

  lemma {:induction false} WirePrefix(frames: seq<Frame>, k: nat)
    requires k <= |frames|
    ensures Wire(frames[..k]) <= Wire(frames)
    decreases |frames|
  {
    if k == |frames| {
      assert frames[..k] == frames;
    } else {
      WirePrefix(frames[..|frames| - 1], k);
      TakeTake(frames, k, |frames| - 1);
    }
  }

  lemma {:induction false} SkipIdle(s: seq<Byte>, pos: nat, t: nat)
    requires pos <= t < |s| && s[t] == DataToken()
    requires forall k | pos <= k < t :: s[k] != DataToken()
    ensures AfterToken(s, pos) == t + 1
    decreases t - pos
  {
    if pos < t {
      SkipIdle(s, pos + 1, t);
    }
  }

  /** One frame at position e of the stream is read as that frame. */
  lemma FrameIsRead(s: seq<Byte>, e: nat, f: Frame)
    requires f.WellFormed() && e + |f.Bytes()| <= |s| && s[e..e + |f.Bytes()|] == f.Bytes()
    ensures var t := AfterToken(s, e);
            && t + BLOCK + 2 == e + |f.Bytes()|
            && s[t..t + BLOCK] == f.data && s[t + BLOCK] == f.hi && s[t + BLOCK + 1] == f.lo
  {
    var i, b, m := |f.idle|, f.Bytes(), s[e..e + |f.Bytes()|];
    assert forall k | 0 <= k < |b| :: s[e + k] == b[k];
    assert b[..i] == f.idle && b[i] == DataToken() && b[i + 1..i + 1 + BLOCK] == f.data;
    forall k | e <= k < e + i ensures s[k] != DataToken() {
      assert s[k] == b[k - e] == f.idle[k - e];
    }
    assert s[e + i] == b[i];
    SkipIdle(s, e, e + i);
    assert m[i + 1..i + 1 + BLOCK] == s[e + i + 1..e + i + 1 + BLOCK];
  }

  lemma WireSnoc(frames: seq<Frame>, k: nat)
    requires k < |frames|
    ensures Wire(frames[..k + 1]) == Wire(frames[..k]) + frames[k].Bytes()
  {
    TakeTake(frames, k, k + 1);
  }

  /** Frame k stands on the wire behind the frames before it. */
  lemma FrameLies(frames: seq<Frame>, rest: seq<Byte>, k: nat, e: nat, n: nat)
    requires k < |frames| && e == |Wire(frames[..k])| && n == |frames[k].Bytes()|
    ensures |Wire(frames[..k + 1])| == e + n <= |Wire(frames) + rest|
    ensures (Wire(frames) + rest)[e..e + n] == frames[k].Bytes()
  {
    var p := Wire(frames[..k + 1]);
    WireSnoc(frames, k);
    WirePrefix(frames, k + 1);
    assert p[e..e + n] == frames[k].Bytes();
    assert p <= Wire(frames) + rest;
    SliceOfPrefix(p, Wire(frames) + rest, e, e + n);
  }

  /** The frames on the wire, whatever follows them, are read one after another as they were sent. */
  lemma {:induction false} FramesAreRead(frames: seq<Frame>, rest: seq<Byte>, k: nat)
    requires k < |frames| && forall j | 0 <= j < |frames| :: frames[j].WellFormed()
    ensures var s := Wire(frames) + rest;
            && HasBlock(s, 0, k) && EndOf(s, 0, k + 1) == |Wire(frames[..k + 1])|
            && BlockData(s, 0, k) == frames[k].data
            && BlockChecks(s, 0, k) == frames[k].Sound()
  {
    var s, e, n := Wire(frames) + rest, |Wire(frames[..k])|, |frames[k].Bytes()|;
    if k > 0 {
      FramesAreRead(frames, rest, k - 1);
    }
    FrameLies(frames, rest, k, e, n);
    BlockOfFrame(s, e, frames[k], k);
  }

  /** A frame where the k-th block is looked for is the k-th block. */
  lemma BlockOfFrame(s: seq<Byte>, e: nat, f: Frame, k: nat)
    requires f.WellFormed() && e == EndOf(s, 0, k)
    requires e + |f.Bytes()| <= |s| && s[e..e + |f.Bytes()|] == f.Bytes()
    ensures HasBlock(s, 0, k) && EndOf(s, 0, k + 1) == e + |f.Bytes()|
    ensures BlockData(s, 0, k) == f.data && BlockChecks(s, 0, k) == f.Sound()
  {
    FrameIsRead(s, e, f);
    assert Start(s, 0, k) == AfterToken(s, e);
  }

  lemma PayloadSnoc(frames: seq<Frame>, k: nat)
    requires k < |frames|
    ensures Payload(frames[..k + 1]) == Payload(frames[..k]) + frames[k].data
  {
    TakeTake(frames, k, k + 1);
  }

  lemma {:induction false} PayloadIsData(frames: seq<Frame>, rest: seq<Byte>, n: nat)
    requires n <= |frames| && forall j | 0 <= j < |frames| :: frames[j].WellFormed()
    ensures n == 0 || HasBlock(Wire(frames) + rest, 0, n - 1)
    ensures Data(Wire(frames) + rest, 0, n) == Payload(frames[..n])
  {
    if n > 0 {
      PayloadIsData(frames, rest, n - 1);
      FramesAreRead(frames, rest, n - 1);
      PayloadSnoc(frames, n - 1);
    }
  }

  lemma {:induction false} SoundFramesCheck(frames: seq<Frame>, rest: seq<Byte>, n: nat)
    requires n <= |frames| && forall j | 0 <= j < |frames| :: frames[j].WellFormed()
    requires forall j | 0 <= j < n :: frames[j].Sound()
    ensures AllCheck(Wire(frames) + rest, 0, n) && Supplies(Wire(frames) + rest, 0, n)
  {
    if n > 0 {
      SoundFramesCheck(frames, rest, n - 1);
      FramesAreRead(frames, rest, n - 1);
    }
  }

  /** Round trip: when every frame carries the remainder of its data as CRC, the copy of all of them
      cannot stop early, and what it puts in memory is the data that was sent. */
  lemma SoundFramesArrive(frames: seq<Frame>, rest: seq<Byte>)
    requires forall j | 0 <= j < |frames| :: frames[j].WellFormed()
    requires forall j | 0 <= j < |frames| :: CrcWord(frames[j].hi, frames[j].lo) == Remainder(Shifted(Message(frames[j].data)))
    ensures var s := Wire(frames) + rest;
            && Supplies(s, 0, |frames|) && AllCheck(s, 0, |frames|)
            && (forall b: nat | b < |frames| :: !FirstBad(s, 0, b))
            && (|frames| == 0 || HasBlock(s, 0, |frames| - 1))
            && Data(s, 0, |frames|) == Payload(frames)
  {
    forall k | 0 <= k < |frames| ensures frames[k].Sound() {
      CrcIsRemainder(frames[k].data);
    }
    SoundFramesCheck(frames, rest, |frames|);
    SucceedsIffNoneFails(Wire(frames) + rest, 0, |frames|);
    PayloadIsData(frames, rest, |frames|);
    assert frames[..|frames|] == frames;
  }

  /** A sound frame damaged on the way, in data and CRC, by a short burst, by an odd number of wrong bits,
      or by two. */
  ghost predicate Damaged(sent: Frame, got: Frame) {
    && sent.Sound() && |sent.data| == |got.data|
    && Noticeable(Xor(BlockBits(sent.data, sent.hi, sent.lo), BlockBits(got.data, got.hi, got.lo)))
  }

  /** After sound frames the first damaged one is the block at which the copy stops. */
  lemma DamageStopsTheCopy(sent: Frame, frames: seq<Frame>, rest: seq<Byte>, b: nat)
    requires forall j | 0 <= j < |frames| :: frames[j].WellFormed()
    requires b < |frames| && forall j | 0 <= j < b :: frames[j].Sound()
    requires Damaged(sent, frames[b])
    ensures forall k: nat :: FirstBad(Wire(frames) + rest, 0, k) <==> k == b
  {
    var s, got := Wire(frames) + rest, frames[b];
    NoticeableIsDetected(sent.data, sent.hi, sent.lo, got.data, got.hi, got.lo,
                         Xor(BlockBits(sent.data, sent.hi, sent.lo), BlockBits(got.data, got.hi, got.lo)));
    SoundFramesCheck(frames, rest, b);
    FramesAreRead(frames, rest, b);
    forall k: nat ensures FirstBad(s, 0, k) <==> k == b {
      OneFirstBad(s, 0, b, k);
    }
  }

  lemma OneFirstBad(s: seq<Byte>, pos: nat, b: nat, k: nat)
    requires FirstBad(s, pos, b)
    ensures FirstBad(s, pos, k) <==> k == b
  {
    if k < b {
      AllCheckAt(s, pos, b, k);
    } else if k > b && AllCheck(s, pos, k) {
      AllCheckAt(s, pos, k, b);
    }
  }
}
