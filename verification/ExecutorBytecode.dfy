/** The bytecode of Executor02: a tree of calls, vertical branches and metadata chunks printed as
    nested length-prefixed frames, and the decoder that inverts the printing. */
module ExecutorBytecode {
  import opened Wrappers
  import opened Bytes

  const BYTES_28_LENGTH := 28
  const BYTES_64_LENGTH := 64
  const EXECUTE_VERTICAL_BRANCHING: byte := 10

  /** A call of a contract, or a branch that runs several chunks. */
  datatype Frame =
    | Call(target: seq<byte>, fromAmountPos: nat, destTokenPos: nat, returnAmountPos: nat, special: nat, flag: nat,
           calldata: seq<byte>)
    | Branch(branchDestTokenPos: nat, branchFlag: nat, chunks: seq<Chunk>)

  /** A share of the input amount and the code it runs through. */
  datatype Chunk = Chunk(srcTokenPos: nat, percentage: nat, frames: seq<Frame>)

  type Packed = Result<seq<byte>, PackError>

  // ----- the packers -----

  /** The 32 bytes in front of every frame. */
  function PackHeader(target: seq<byte>, length: nat, fromAmountPos: nat, destTokenPos: nat, returnAmountPos: nat,
                      special: nat, flag: nat): Packed
  {
    if |target| != 20 then Failure(ValueOutOfRange)
    else
      var l :- HexZeroPad(length, 4);
      var f :- HexZeroPad(fromAmountPos, 2);
      var d :- HexZeroPad(destTokenPos, 2);
      var r :- HexZeroPad(returnAmountPos, 1);
      var s :- HexZeroPad(special, 1);
      var g :- HexZeroPad(flag, 2);
      Success(target + l + f + d + r + s + g)
  }

  /** `buildExecutor0102CallData` */
  function PackCall(call: Frame): Packed
    requires call.Call?
  {
    var header :- PackHeader(call.target, |call.calldata| + BYTES_28_LENGTH, call.fromAmountPos, call.destTokenPos,
                             call.returnAmountPos, call.special, call.flag);
    Success(header + Zeros(28) + call.calldata)
  }

  /** `packVerticalBranchingData` */
  function PackVerticalBranchingData(swapCallData: seq<byte>): Packed {
    var offset :- HexZeroPad(32, 32);
    var length :- HexZeroPad(|swapCallData|, 32);
    Success(Zeros(28) + Zeros(4) + offset + length + swapCallData)
  }

  /** `packVerticalBranchingCallData`, with the amount position of `buildVerticalBranchingCallData` */
  function PackVerticalBranchingCallData(data: seq<byte>, destTokenPos: nat, flag: nat): Packed
    requires |data| >= 96
  {
    var fromAmountPos := |data| - 64 - 28;
    var header :- PackHeader(Zeros(20), |data|, fromAmountPos, destTokenPos, 0, EXECUTE_VERTICAL_BRANCHING, flag);
    Success(header + data)
  }

  /** The last expression of `addMultiSwapMetadata` */
  function AddMultiSwapMetadata(callData: seq<byte>, srcTokenPos: nat, percentage: nat): Packed {
    var size :- HexZeroPad(|callData|, 16);
    var pos :- HexZeroPad(srcTokenPos, 8);
    var share :- HexZeroPad(percentage, 8);
    Success(size + pos + share + callData)
  }

  function PackFrame(frame: Frame): Packed
    decreases frame, 1
  {
    match frame
    case Call(_, _, _, _, _, _, _) => PackCall(frame)
    case Branch(destTokenPos, flag, chunks) =>
      var swapCallData :- PackChunks(chunks);
      var data :- PackVerticalBranchingData(swapCallData);
      PackVerticalBranchingCallData(data, destTokenPos, flag)
  }

  function PackFrames(frames: seq<Frame>): Packed
    decreases frames, 0
  {
    if frames == [] then Success([])
    else
      var first :- PackFrame(frames[0]);
      var rest :- PackFrames(frames[1..]);
      Success(first + rest)
  }

  function PackChunk(chunk: Chunk): Packed
    decreases chunk, 1
  {
    var callData :- PackFrames(chunk.frames);
    AddMultiSwapMetadata(callData, chunk.srcTokenPos, chunk.percentage)
  }

  function PackChunks(chunks: seq<Chunk>): Packed
    decreases chunks, 0
  {
    if chunks == [] then Success([])
    else
      var first :- PackChunk(chunks[0]);
      var rest :- PackChunks(chunks[1..]);
      Success(first + rest)
  }

  // ----- the decoder -----

  function Field(bs: seq<byte>, from: nat, width: nat): nat
    requires from + width <= |bs|
  {
    Value(bs[from..from + width])
  }

  function Prepend<T>(xs: seq<T>, rest: Option<seq<T>>): Option<seq<T>> {
    match rest
    case Some(ys) => Some(xs + ys)
    case None => None
  }

  /** Reads the frames of a stretch of code from the written lengths and the special flag alone. */
  function DecodeFrames(bs: seq<byte>): Option<seq<Frame>>
    decreases |bs|, 1
  {
    if |bs| == 0 then Some([])
    else if |bs| < 32 then None
    else
      var length := Field(bs, 20, 4);
      if |bs| < 32 + length then None
      else
        match DecodeFrame(bs[..32], bs[32..32 + length])
        case None => None
        case Some(frame) => Prepend([frame], DecodeFrames(bs[32 + length..]))
  }

  function DecodeFrame(header: seq<byte>, body: seq<byte>): Option<Frame>
    requires |header| == 32
    decreases |header| + |body|, 0
  {
    if header[29] == EXECUTE_VERTICAL_BRANCHING then
      if |body| < 96 || header[..20] != Zeros(20) || header[28] != 0 || Field(header, 24, 2) != |body| - 64 - 28
         || body[..32] != Zeros(32) || Field(body, 32, 32) != 32 || Field(body, 64, 32) != |body| - 96 then None
      else
        match DecodeChunks(body[96..])
        case None => None
        case Some(chunks) => Some(Branch(Field(header, 26, 2), Field(header, 30, 2), chunks))
    else if |body| < 28 || body[..28] != Zeros(28) then None
    else
      Some(Call(header[..20], Field(header, 24, 2), Field(header, 26, 2), header[28], header[29],
                Field(header, 30, 2), body[28..]))
  }

  function DecodeChunks(bs: seq<byte>): Option<seq<Chunk>>
    decreases |bs|, 1
  {
    if |bs| == 0 then Some([])
    else if |bs| < 32 then None
    else
      var size := Field(bs, 0, 16);
      if |bs| < 32 + size then None
      else
        match DecodeFrames(bs[32..32 + size])
        case None => None
        case Some(frames) =>
          Prepend([Chunk(Field(bs, 16, 8), Field(bs, 24, 8), frames)], DecodeChunks(bs[32 + size..]))
  }

  // ----- headers -----

  lemma OneByte(n: nat, bs: seq<byte>)
    ensures HexZeroPad(n, 1) == Success(bs) <==> n < 256 && bs == [n]
  {
    assert Pow256(1) == 256 by {
      assert Pow256(0) == 1;
    }
    if n < 256 {
      assert BigEndian(n, 1) == BigEndian(n / 256, 0) + [n % 256] == [n];
    }
  }

  /** A header is packed exactly from the values its fields hold. */
  lemma HeaderFields(target: seq<byte>, length: nat, from: nat, dest: nat, ret: nat, special: nat, flag: nat,
                     h: seq<byte>)
    ensures PackHeader(target, length, from, dest, ret, special, flag) == Success(h) <==>
            && |h| == 32 && h[..20] == target && Field(h, 20, 4) == length && Field(h, 24, 2) == from
            && Field(h, 26, 2) == dest && h[28] == ret && h[29] == special && Field(h, 30, 2) == flag
  {
    if |h| == 32 {
      var l, f, d, g := h[20..24], h[24..26], h[26..28], h[30..32];
      FieldValue(length, 4, l);
      FieldValue(from, 2, f);
      FieldValue(dest, 2, d);
      FieldValue(flag, 2, g);
      OneByte(ret, [h[28]]);
      OneByte(special, [h[29]]);
      assert h == h[..20] + l + f + d + [h[28]] + [h[29]] + g;
    }
    var p := PackHeader(target, length, from, dest, ret, special, flag);
    if p.Success? {
      PackedHeader(target, length, from, dest, ret, special, flag);
    }
  }

  lemma PackedHeader(target: seq<byte>, length: nat, from: nat, dest: nat, ret: nat, special: nat, flag: nat)
    requires PackHeader(target, length, from, dest, ret, special, flag).Success?
    ensures var h := PackHeader(target, length, from, dest, ret, special, flag).value;
            && |h| == 32 && h[..20] == target && Field(h, 20, 4) == length && Field(h, 24, 2) == from
            && Field(h, 26, 2) == dest && h[28] == ret && h[29] == special && Field(h, 30, 2) == flag
  {
    var l, f, d := HexZeroPad(length, 4).value, HexZeroPad(from, 2).value, HexZeroPad(dest, 2).value;
    var r, s, g := HexZeroPad(ret, 1).value, HexZeroPad(special, 1).value, HexZeroPad(flag, 2).value;
    FieldValue(length, 4, l);
    FieldValue(from, 2, f);
    FieldValue(dest, 2, d);
    FieldValue(flag, 2, g);
    OneByte(ret, r);
    OneByte(special, s);
    var h := target + l + f + d + r + s + g;
    assert h[20..24] == l && h[24..26] == f && h[26..28] == d && h[30..32] == g;
  }

  lemma MetadataFields(code: seq<byte>, pos: nat, share: nat, bs: seq<byte>)
    ensures AddMultiSwapMetadata(code, pos, share) == Success(bs) <==>
            && |bs| == 32 + |code| && bs[32..] == code && Field(bs, 0, 16) == |code|
            && Field(bs, 16, 8) == pos && Field(bs, 24, 8) == share
  {
    if |bs| == 32 + |code| {
      var n, p, s := bs[0..16], bs[16..24], bs[24..32];
      FieldValue(|code|, 16, n);
      FieldValue(pos, 8, p);
      FieldValue(share, 8, s);
      assert bs == n + p + s + bs[32..];
    }
    if AddMultiSwapMetadata(code, pos, share).Success? {
      var n, p, s := HexZeroPad(|code|, 16).value, HexZeroPad(pos, 8).value, HexZeroPad(share, 8).value;
      FieldValue(|code|, 16, n);
      FieldValue(pos, 8, p);
      FieldValue(share, 8, s);
      var h := n + p + s + code;
      assert h[0..16] == n && h[16..24] == p && h[24..32] == s && h[32..] == code;
    }
  }

  lemma BranchDataFields(code: seq<byte>, bs: seq<byte>)
    ensures PackVerticalBranchingData(code) == Success(bs) <==>
            && |bs| == 96 + |code| && bs[..32] == Zeros(32) && Field(bs, 32, 32) == 32
            && Field(bs, 64, 32) == |code| && bs[96..] == code
  {
    assert Zeros(28) + Zeros(4) == Zeros(32);
    if |bs| == 96 + |code| {
      var o, n := bs[32..64], bs[64..96];
      FieldValue(32, 32, o);
      FieldValue(|code|, 32, n);
      assert bs == bs[..32] + o + n + bs[96..];
    }
    if PackVerticalBranchingData(code).Success? {
      var o, n := HexZeroPad(32, 32).value, HexZeroPad(|code|, 32).value;
      FieldValue(32, 32, o);
      FieldValue(|code|, 32, n);
      BranchDataParts(Zeros(32), o, n, code);
    }
  }

  lemma BranchDataParts(z: seq<byte>, o: seq<byte>, n: seq<byte>, code: seq<byte>)
    requires |z| == |o| == |n| == 32
    ensures var h := z + o + n + code;
            h[..32] == z && h[32..64] == o && h[64..96] == n && h[96..] == code
  {
  }

  // ----- decoding what was packed -----

  /** No call carries the flag that announces a vertical branch. */
  predicate Plain(frame: Frame)
    decreases frame, 1
  {
    match frame
    case Call(_, _, _, _, special, _, _) => special != EXECUTE_VERTICAL_BRANCHING
    case Branch(_, _, chunks) => PlainChunks(chunks)
  }

  predicate PlainFrames(frames: seq<Frame>)
    decreases frames, 0
  {
    frames != [] ==> Plain(frames[0]) && PlainFrames(frames[1..])
  }

  predicate PlainChunks(chunks: seq<Chunk>)
    decreases chunks, 0
  {
    chunks != [] ==> PlainFrames(chunks[0].frames) && PlainChunks(chunks[1..])
  }

  /** A frame is its header and its body, and the header says how long the body is. */
  lemma {:induction false} DecodePackedFrame(frame: Frame, bs: seq<byte>)
    requires PackFrame(frame) == Success(bs) && Plain(frame)
    ensures |bs| >= 32 && Field(bs, 20, 4) == |bs| - 32
    ensures DecodeFrame(bs[..32], bs[32..]) == Some(frame)
    decreases frame, 1
  {
    if frame.Branch? {
      var code := PackChunks(frame.chunks).value;
      DecodePackedChunks(frame.chunks, code);
      var h, data := BranchParts(frame, code, bs);
      DecodePackedBranch(frame, h, data);
    } else {
      DecodePackedCall(frame, bs);
    }
  }

  lemma DecodePackedCall(call: Frame, bs: seq<byte>)
    requires call.Call? && PackCall(call) == Success(bs) && call.special != EXECUTE_VERTICAL_BRANCHING
    ensures |bs| >= 32 && Field(bs, 20, 4) == |bs| - 32 && DecodeFrame(bs[..32], bs[32..]) == Some(call)
  {
    var h := PackHeader(call.target, |call.calldata| + 28, call.fromAmountPos, call.destTokenPos,
                        call.returnAmountPos, call.special, call.flag).value;
    HeaderFields(call.target, |call.calldata| + 28, call.fromAmountPos, call.destTokenPos,
                 call.returnAmountPos, call.special, call.flag, h);
    assert bs[..32] == h && bs[20..24] == h[20..24];
    assert bs[32..] == Zeros(28) + call.calldata;
    assert bs[32..][28..] == call.calldata;
  }

  lemma DecodePackedBranch(branch: Frame, h: seq<byte>, data: seq<byte>)
    requires branch.Branch? && |data| >= 96 && DecodeChunks(data[96..]) == Some(branch.chunks)
    requires data[..32] == Zeros(32) && Field(data, 32, 32) == 32 && Field(data, 64, 32) == |data| - 96
    requires PackHeader(Zeros(20), |data|, |data| - 64 - 28, branch.branchDestTokenPos, 0,
                        EXECUTE_VERTICAL_BRANCHING, branch.branchFlag) == Success(h)
    ensures var bs := h + data;
            |bs| >= 32 && Field(bs, 20, 4) == |bs| - 32 && DecodeFrame(bs[..32], bs[32..]) == Some(branch)
  {
    var bs := h + data;
    var dest, flag := branch.branchDestTokenPos, branch.branchFlag;
    HeaderFields(Zeros(20), |data|, |data| - 64 - 28, dest, 0, EXECUTE_VERTICAL_BRANCHING, flag, h);
    assert bs[..32] == h && bs[20..24] == h[20..24] && bs[32..] == data;
    DecodeBranch(h, data, branch);
  }

  lemma BranchParts(branch: Frame, code: seq<byte>, bs: seq<byte>) returns (h: seq<byte>, data: seq<byte>)
    requires branch.Branch? && PackChunks(branch.chunks) == Success(code) && PackFrame(branch) == Success(bs)
    ensures |data| == 96 + |code| && data[..32] == Zeros(32) && Field(data, 32, 32) == 32
            && Field(data, 64, 32) == |code| && data[96..] == code
    ensures PackHeader(Zeros(20), |data|, |data| - 64 - 28, branch.branchDestTokenPos, 0,
                       EXECUTE_VERTICAL_BRANCHING, branch.branchFlag) == Success(h)
    ensures bs == h + data
  {
    data := PackVerticalBranchingData(code).value;
    BranchDataFields(code, data);
    h := PackHeader(Zeros(20), |data|, |data| - 64 - 28, branch.branchDestTokenPos, 0,
                    EXECUTE_VERTICAL_BRANCHING, branch.branchFlag).value;
  }

  lemma DecodeBranch(h: seq<byte>, data: seq<byte>, branch: Frame)
    requires branch.Branch? && |h| == 32 && |data| >= 96
    requires h[..20] == Zeros(20) && h[28] == 0 && h[29] == EXECUTE_VERTICAL_BRANCHING
    requires Field(h, 24, 2) == |data| - 64 - 28
    requires Field(h, 26, 2) == branch.branchDestTokenPos && Field(h, 30, 2) == branch.branchFlag
    requires data[..32] == Zeros(32) && Field(data, 32, 32) == 32 && Field(data, 64, 32) == |data| - 96
    requires DecodeChunks(data[96..]) == Some(branch.chunks)
    ensures DecodeFrame(h, data) == Some(branch)
  {
  }

  /** Whatever follows a frame does not change how it is read. */
  lemma DecodeThenRest(frame: Frame, bs: seq<byte>, rest: seq<byte>)
    requires |bs| >= 32 && Field(bs, 20, 4) == |bs| - 32 && DecodeFrame(bs[..32], bs[32..]) == Some(frame)
    ensures DecodeFrames(bs + rest) == Prepend([frame], DecodeFrames(rest))
  {
    var all := bs + rest;
    assert all[20..24] == bs[20..24];
    assert all[..32] == bs[..32] && all[32..|bs|] == bs[32..] && all[|bs|..] == rest;
  }

  lemma {:induction false} DecodePackedFrames(frames: seq<Frame>, bs: seq<byte>)
    requires PackFrames(frames) == Success(bs) && PlainFrames(frames)
    ensures DecodeFrames(bs) == Some(frames)
    decreases frames, 0
  {
    if frames != [] {
      var first, rest := PackFrame(frames[0]).value, PackFrames(frames[1..]).value;
      DecodePackedFrame(frames[0], first);
      DecodePackedFrames(frames[1..], rest);
      DecodeThenRest(frames[0], first, rest);
      assert frames == [frames[0]] + frames[1..];
    }
  }

  lemma {:induction false} DecodePackedChunks(chunks: seq<Chunk>, bs: seq<byte>)
    requires PackChunks(chunks) == Success(bs) && PlainChunks(chunks)
    ensures DecodeChunks(bs) == Some(chunks)
    decreases chunks, 0
  {
    if chunks != [] {
      var c, tail := chunks[0], chunks[1..];
      var first, rest := PackChunk(c).value, PackChunks(tail).value;
      assert chunks == [c] + tail && bs == first + rest;
      var code := PackedChunk(c, first);
      DecodePackedFrames(c.frames, code);
      DecodePackedChunks(tail, rest);
      ChunkThenRest(c, first, rest);
    }
  }

  lemma PackedChunk(chunk: Chunk, bs: seq<byte>) returns (code: seq<byte>)
    requires PackChunk(chunk) == Success(bs)
    ensures PackFrames(chunk.frames) == Success(code) && |bs| == 32 + |code| && bs[32..] == code
    ensures Field(bs, 0, 16) == |code| && Field(bs, 16, 8) == chunk.srcTokenPos && Field(bs, 24, 8) == chunk.percentage
  {
    code := PackFrames(chunk.frames).value;
    MetadataFields(code, chunk.srcTokenPos, chunk.percentage, bs);
  }

  lemma ChunkThenRest(chunk: Chunk, bs: seq<byte>, rest: seq<byte>)
    requires |bs| >= 32 && Field(bs, 0, 16) == |bs| - 32 && DecodeFrames(bs[32..]) == Some(chunk.frames)
    requires Field(bs, 16, 8) == chunk.srcTokenPos && Field(bs, 24, 8) == chunk.percentage
    ensures DecodeChunks(bs + rest) == Prepend([chunk], DecodeChunks(rest))
  {
    var all := bs + rest;
    assert all[0..16] == bs[0..16] && all[16..24] == bs[16..24] && all[24..32] == bs[24..32];
    assert all[32..|bs|] == bs[32..] && all[|bs|..] == rest;
  }

  // ----- packing what was decoded -----

  lemma {:induction false} PackDecodedFrame(h: seq<byte>, body: seq<byte>)
    requires |h| == 32 && Field(h, 20, 4) == |body| && DecodeFrame(h, body).Some?
    ensures PackFrame(DecodeFrame(h, body).value) == Success(h + body) && Plain(DecodeFrame(h, body).value)
    decreases |h| + |body|, 0
  {
    if h[29] == EXECUTE_VERTICAL_BRANCHING {
      PackDecodedChunks(body[96..]);
      PackDecodedBranch(h, body, body[96..], Branch(Field(h, 26, 2), Field(h, 30, 2), DecodeChunks(body[96..]).value));
    } else {
      PackDecodedCall(h, body, DecodeFrame(h, body).value);
    }
  }

  lemma PackDecodedBranch(h: seq<byte>, body: seq<byte>, code: seq<byte>, branch: Frame)
    requires |h| == 32 && Field(h, 20, 4) == |body| && DecodeFrame(h, body) == Some(branch) && branch.Branch?
    requires h[29] == EXECUTE_VERTICAL_BRANCHING && |body| == 96 + |code| && body[96..] == code
    requires PackChunks(branch.chunks) == Success(code) && PlainChunks(branch.chunks)
    ensures PackFrame(branch) == Success(h + body) && Plain(branch)
  {
    BranchDataFields(code, body);
    HeaderFields(Zeros(20), |body|, |body| - 64 - 28, branch.branchDestTokenPos, 0, EXECUTE_VERTICAL_BRANCHING,
                 branch.branchFlag, h);
  }

  lemma PackDecodedCall(h: seq<byte>, body: seq<byte>, call: Frame)
    requires |h| == 32 && Field(h, 20, 4) == |body| && DecodeFrame(h, body) == Some(call) && call.Call?
    requires h[29] != EXECUTE_VERTICAL_BRANCHING
    ensures PackFrame(call) == Success(h + body) && Plain(call)
  {
    HeaderFields(call.target, |body|, call.fromAmountPos, call.destTokenPos, call.returnAmountPos, call.special,
                 call.flag, h);
    assert body == Zeros(28) + call.calldata;
    assert h + body == h + Zeros(28) + call.calldata;
  }

  lemma FirstFrame(bs: seq<byte>) returns (h: seq<byte>, body: seq<byte>, rest: seq<byte>)
    requires |bs| > 0 && DecodeFrames(bs).Some?
    ensures bs == h + body + rest && |h| == 32 && Field(h, 20, 4) == |body|
    ensures DecodeFrame(h, body).Some? && DecodeFrames(rest).Some?
    ensures DecodeFrames(bs).value == [DecodeFrame(h, body).value] + DecodeFrames(rest).value
  {
    var length := Field(bs, 20, 4);
    h, body, rest := bs[..32], bs[32..32 + length], bs[32 + length..];
    assert h[20..24] == bs[20..24];
  }

  lemma {:induction false} PackDecodedFrames(bs: seq<byte>)
    requires DecodeFrames(bs).Some?
    ensures PackFrames(DecodeFrames(bs).value) == Success(bs) && PlainFrames(DecodeFrames(bs).value)
    decreases |bs|, 1
  {
    if |bs| > 0 {
      var h, body, rest := FirstFrame(bs);
      PackDecodedFrame(h, body);
      PackDecodedFrames(rest);
      PackCons(DecodeFrame(h, body).value, DecodeFrames(rest).value, h + body, rest);
    }
  }

  lemma PackCons(frame: Frame, frames: seq<Frame>, first: seq<byte>, rest: seq<byte>)
    requires PackFrame(frame) == Success(first) && Plain(frame)
    requires PackFrames(frames) == Success(rest) && PlainFrames(frames)
    ensures PackFrames([frame] + frames) == Success(first + rest) && PlainFrames([frame] + frames)
  {
    assert ([frame] + frames)[1..] == frames;
  }

  lemma FirstChunk(bs: seq<byte>) returns (code: seq<byte>, chunk: Chunk, rest: seq<byte>)
    requires |bs| > 0 && DecodeChunks(bs).Some?
    ensures |bs| == 32 + |code| + |rest| && DecodeFrames(code) == Some(chunk.frames) && DecodeChunks(rest).Some?
    ensures bs[32..32 + |code|] == code && bs[32 + |code|..] == rest
    ensures Field(bs, 0, 16) == |code| && Field(bs, 16, 8) == chunk.srcTokenPos && Field(bs, 24, 8) == chunk.percentage
    ensures DecodeChunks(bs).value == [chunk] + DecodeChunks(rest).value
  {
    var size := Field(bs, 0, 16);
    code, rest := bs[32..32 + size], bs[32 + size..];
    chunk := Chunk(Field(bs, 16, 8), Field(bs, 24, 8), DecodeFrames(code).value);
  }

  lemma {:induction false} PackDecodedChunks(bs: seq<byte>)
    requires DecodeChunks(bs).Some?
    ensures PackChunks(DecodeChunks(bs).value) == Success(bs) && PlainChunks(DecodeChunks(bs).value)
    decreases |bs|, 1
  {
    if |bs| > 0 {
      var code, chunk, rest := FirstChunk(bs);
      PackDecodedFrames(code);
      PackDecodedChunks(rest);
      var first := ChunkBytes(bs, code, chunk, rest);
      ChunkCons(chunk, DecodeChunks(rest).value, first, rest);
    }
  }

  lemma ChunkBytes(bs: seq<byte>, code: seq<byte>, chunk: Chunk, rest: seq<byte>) returns (first: seq<byte>)
    requires |bs| == 32 + |code| + |rest| && bs[32..32 + |code|] == code && bs[32 + |code|..] == rest
    requires Field(bs, 0, 16) == |code| && Field(bs, 16, 8) == chunk.srcTokenPos && Field(bs, 24, 8) == chunk.percentage
    requires PackFrames(chunk.frames) == Success(code)
    ensures PackChunk(chunk) == Success(first) && bs == first + rest
  {
    first := bs[..32 + |code|];
    assert first[0..16] == bs[0..16] && first[16..24] == bs[16..24] && first[24..32] == bs[24..32];
    MetadataFields(code, chunk.srcTokenPos, chunk.percentage, first);
    PackOneChunk(chunk, code, first);
  }

  lemma PackOneChunk(chunk: Chunk, code: seq<byte>, first: seq<byte>)
    requires PackFrames(chunk.frames) == Success(code)
    requires AddMultiSwapMetadata(code, chunk.srcTokenPos, chunk.percentage) == Success(first)
    ensures PackChunk(chunk) == Success(first)
  {
  }

  lemma ChunkCons(chunk: Chunk, chunks: seq<Chunk>, first: seq<byte>, rest: seq<byte>)
    requires PackChunk(chunk) == Success(first) && PlainFrames(chunk.frames)
    requires PackChunks(chunks) == Success(rest) && PlainChunks(chunks)
    ensures PackChunks([chunk] + chunks) == Success(first + rest) && PlainChunks([chunk] + chunks)
  {
    assert ([chunk] + chunks)[1..] == chunks;
  }

  /** Unique decodability: of the bytes some tree packs to, the decoder recovers that tree exactly
      when no call in it poses as a branch. */
  lemma FramesDecodeUniquely(frames: seq<Frame>, bs: seq<byte>)
    requires PackFrames(frames) == Success(bs)
    ensures DecodeFrames(bs) == Some(frames) <==> PlainFrames(frames)
  {
    if PlainFrames(frames) {
      DecodePackedFrames(frames, bs);
    }
    if DecodeFrames(bs) == Some(frames) {
      PackDecodedFrames(bs);
    }
  }

  lemma ChunksDecodeUniquely(chunks: seq<Chunk>, bs: seq<byte>)
    requires PackChunks(chunks) == Success(bs)
    ensures DecodeChunks(bs) == Some(chunks) <==> PlainChunks(chunks)
  {
    if PlainChunks(chunks) {
      DecodePackedChunks(chunks, bs);
    }
    if DecodeChunks(bs) == Some(chunks) {
      PackDecodedChunks(bs);
    }
  }

  /** The bytes the decoder accepts are the bytes the packers emit for some plain tree. */
  lemma DecodableIsPacked(bs: seq<byte>)
    ensures DecodeFrames(bs).Some? <==> exists frames :: PlainFrames(frames) && PackFrames(frames) == Success(bs)
    ensures DecodeChunks(bs).Some? <==> exists chunks :: PlainChunks(chunks) && PackChunks(chunks) == Success(bs)
  {
    if DecodeFrames(bs).Some? {
      PackDecodedFrames(bs);
    }
    if frames :| PlainFrames(frames) && PackFrames(frames) == Success(bs) {
      DecodePackedFrames(frames, bs);
    }
    if DecodeChunks(bs).Some? {
      PackDecodedChunks(bs);
    }
    if chunks :| PlainChunks(chunks) && PackChunks(chunks) == Success(bs) {
      DecodePackedChunks(chunks, bs);
    }
  }

  /** Code is read back piece by piece from any concatenation of what the packers emit. */
  lemma {:induction false} DecodeConcatenation(frames: seq<Frame>, bs: seq<byte>, rest: seq<byte>)
    requires PackFrames(frames) == Success(bs) && PlainFrames(frames)
    ensures DecodeFrames(bs + rest) == Prepend(frames, DecodeFrames(rest))
  {
    if frames == [] {
      assert bs + rest == rest;
      PrependNothing(DecodeFrames(rest));
    } else {
      var first, tail := PackFrame(frames[0]).value, PackFrames(frames[1..]).value;
      assert [frames[0]] + frames[1..] == frames;
      assert bs == first + tail;
      assert bs + rest == first + (tail + rest);
      DecodePackedFrame(frames[0], first);
      DecodeConcatenation(frames[1..], tail, rest);
      FrameThenMore(frames[0], first, tail + rest, frames[1..], DecodeFrames(rest));
    }
  }

  lemma FrameThenMore(frame: Frame, first: seq<byte>, rest: seq<byte>, frames: seq<Frame>, more: Option<seq<Frame>>)
    requires |first| >= 32 && Field(first, 20, 4) == |first| - 32
    requires DecodeFrame(first[..32], first[32..]) == Some(frame)
    requires DecodeFrames(rest) == Prepend(frames, more)
    ensures DecodeFrames(first + rest) == Prepend([frame] + frames, more)
  {
    DecodeThenRest(frame, first, rest);
    PrependTwice([frame], frames, more);
  }

  lemma PrependNothing<T>(o: Option<seq<T>>)
    ensures Prepend([], o) == o
  {
    if o.Some? {
      assert [] + o.value == o.value;
    }
  }

  lemma PrependTwice<T>(xs: seq<T>, ys: seq<T>, o: Option<seq<T>>)
    ensures Prepend(xs, Prepend(ys, o)) == Prepend(xs + ys, o)
  {
    if o.Some? {
      assert xs + (ys + o.value) == xs + ys + o.value;
    }
  }

  // ----- the outer pack -----

  /** The end of `buildByteCode`; 64 bytes are still to come on chain. */
  function PackByteCode(swapsCalldata: seq<byte>): Packed {
    var offset :- HexZeroPad(32, 32);
    var length :- HexZeroPad(|swapsCalldata| + BYTES_64_LENGTH, 32);
    Success(offset + length + swapsCalldata)
  }

  function UnpackByteCode(bs: seq<byte>): Option<seq<byte>> {
    if |bs| < 64 || Field(bs, 0, 32) != 32 || Field(bs, 32, 32) != |bs| - 64 + BYTES_64_LENGTH then None
    else Some(bs[64..])
  }

  lemma UnpackInvertsPack(code: seq<byte>, bs: seq<byte>)
    ensures PackByteCode(code) == Success(bs) <==> UnpackByteCode(bs) == Some(code)
  {
    if UnpackByteCode(bs) == Some(code) {
      PackUnpacked(bs);
    }
    if PackByteCode(code).Success? {
      UnpackPacked(code);
    }
  }

  lemma PackUnpacked(bs: seq<byte>)
    requires UnpackByteCode(bs).Some?
    ensures PackByteCode(UnpackByteCode(bs).value) == Success(bs)
  {
    var o, n, code := bs[0..32], bs[32..64], bs[64..];
    FieldValue(32, 32, o);
    FieldValue(|code| + 64, 32, n);
    assert bs == o + n + code;
  }

  lemma UnpackPacked(code: seq<byte>)
    requires PackByteCode(code).Success?
    ensures UnpackByteCode(PackByteCode(code).value) == Some(code)
  {
    var o, n := HexZeroPad(32, 32).value, HexZeroPad(|code| + 64, 32).value;
    FieldValue(32, 32, o);
    FieldValue(|code| + 64, 32, n);
    var h := o + n + code;
    assert h[0..32] == o && h[32..64] == n && h[64..] == code;
  }

  /** All of it, from the outer pack to the tree of chunks. */
  function DecodeByteCode(bs: seq<byte>): Option<seq<Chunk>> {
    match UnpackByteCode(bs)
    case Some(code) => DecodeChunks(code)
    case None => None
  }

  /** What `buildByteCode` returns for a run of chunks is read back as that run, exactly when no call
      in it poses as a branch. */
  lemma ByteCodeDecodesUniquely(chunks: seq<Chunk>, code: seq<byte>, bs: seq<byte>)
    requires PackChunks(chunks) == Success(code) && PackByteCode(code) == Success(bs)
    ensures DecodeByteCode(bs) == Some(chunks) <==> PlainChunks(chunks)
  {
    UnpackInvertsPack(code, bs);
    ChunksDecodeUniquely(chunks, code);
  }

  /** The wrapping of a simple swap is put in front with a size and a share of sixteen bytes each. */
  function PackWrap(depositCallData: seq<byte>, share: nat): Packed {
    var size :- HexZeroPad(|depositCallData|, 16);
    var s :- HexZeroPad(share, 16);
    Success(size + s + depositCallData)
  }

  /** It is a chunk without a token position like any other, as its share fits eight bytes. */
  lemma WrapIsChunk(deposit: Frame, code: seq<byte>, share: nat)
    requires PackFrames([deposit]) == Success(code) && share < Pow256(8)
    ensures PackWrap(code, share) == PackChunk(Chunk(0, share, [deposit]))
  {
    WiderField(share, 8, 8);
    if HexZeroPad(|code|, 16).Success? {
      var n, s := HexZeroPad(|code|, 16).value, HexZeroPad(share, 8).value;
      assert n + Zeros(8) + s + code == n + (Zeros(8) + s) + code;
    }
  }

  // ----- the layout in numbers -----

  /** Where each value of a call stands. */
  lemma CallBytes(call: Frame, bs: seq<byte>)
    requires call.Call? && PackFrame(call) == Success(bs)
    ensures |bs| == 60 + |call.calldata|
    ensures bs[..20] == call.target
    ensures FourBytes(bs[20], bs[21], bs[22], bs[23]) == |call.calldata| + 28
    ensures TwoBytes(bs[24], bs[25]) == call.fromAmountPos
    ensures TwoBytes(bs[26], bs[27]) == call.destTokenPos
    ensures bs[28] == call.returnAmountPos && bs[29] == call.special
    ensures TwoBytes(bs[30], bs[31]) == call.flag
    ensures (forall i | 32 <= i < 60 :: bs[i] == 0) && bs[60..] == call.calldata
  {
    var h := bs[..32];
    HeaderFields(call.target, |call.calldata| + 28, call.fromAmountPos, call.destTokenPos, call.returnAmountPos,
                 call.special, call.flag, h);
    assert PackCall(call) == Success(bs);
    CallSplits(call, bs);
    HeaderNumbers(h);
    assert forall i | 32 <= i < 60 :: bs[i] == bs[32..60][i - 32];
  }

  lemma CallSplits(call: Frame, bs: seq<byte>)
    requires call.Call? && PackCall(call) == Success(bs)
    ensures |bs| == 60 + |call.calldata| && bs[32..60] == Zeros(28) && bs[60..] == call.calldata
    ensures PackHeader(call.target, |call.calldata| + 28, call.fromAmountPos, call.destTokenPos, call.returnAmountPos,
                       call.special, call.flag) == Success(bs[..32])
  {
    PackedHeader(call.target, |call.calldata| + 28, call.fromAmountPos, call.destTokenPos, call.returnAmountPos,
                 call.special, call.flag);
    var h := PackHeader(call.target, |call.calldata| + 28, call.fromAmountPos, call.destTokenPos, call.returnAmountPos,
                        call.special, call.flag).value;
    assert bs == h + Zeros(28) + call.calldata;
    assert bs[..32] == h && bs[32..60] == Zeros(28) && bs[60..] == call.calldata;
  }

  lemma HeaderNumbers(h: seq<byte>)
    requires |h| == 32
    ensures Field(h, 20, 4) == FourBytes(h[20], h[21], h[22], h[23])
    ensures Field(h, 24, 2) == TwoBytes(h[24], h[25]) && Field(h, 26, 2) == TwoBytes(h[26], h[27])
    ensures Field(h, 30, 2) == TwoBytes(h[30], h[31])
  {
    ValueInNumbers(h[20..24]);
    ValueInNumbers(h[24..26]);
    ValueInNumbers(h[26..28]);
    ValueInNumbers(h[30..32]);
  }

  /** Where each value of a vertical branch stands; its amount position is four bytes past the length
      of its code. */
  lemma BranchBytes(branch: Frame, code: seq<byte>, bs: seq<byte>)
    requires branch.Branch? && PackChunks(branch.chunks) == Success(code) && PackFrame(branch) == Success(bs)
    ensures |bs| == 128 + |code|
    ensures bs[..20] == Zeros(20)
    ensures FourBytes(bs[20], bs[21], bs[22], bs[23]) == |code| + 96
    ensures TwoBytes(bs[24], bs[25]) == |code| + 4
    ensures TwoBytes(bs[26], bs[27]) == branch.branchDestTokenPos
    ensures bs[28] == 0 && bs[29] == 10
    ensures TwoBytes(bs[30], bs[31]) == branch.branchFlag
    ensures bs[32..64] == Zeros(32)
    ensures Field(bs, 64, 32) == 32 && Field(bs, 96, 32) == |code| && bs[128..] == code
  {
    var h, data := BranchParts(branch, code, bs);
    HeaderFields(Zeros(20), |code| + 96, |code| + 4, branch.branchDestTokenPos, 0, 10, branch.branchFlag, h);
    HeaderNumbers(h);
    BodyBytes(h, data, bs);
  }

  lemma BodyBytes(h: seq<byte>, data: seq<byte>, bs: seq<byte>)
    requires |h| == 32 && |data| >= 96 && bs == h + data
    ensures bs[..20] == h[..20] && forall i | 0 <= i < 32 :: bs[i] == h[i]
    ensures bs[32..64] == data[..32] && bs[64..96] == data[32..64] && bs[96..128] == data[64..96]
    ensures bs[128..] == data[96..]
  {
  }

  /** The outer pack announces an offset of 32 and 64 bytes more than it holds. */
  lemma ByteCodeBytes(code: seq<byte>, bs: seq<byte>)
    requires PackByteCode(code) == Success(bs)
    ensures |bs| == 64 + |code| && bs[64..] == code
    ensures Field(bs, 0, 32) == 32 && Field(bs, 32, 32) == |code| + 64
  {
    UnpackInvertsPack(code, bs);
  }

  // ----- the permit2 approval -----

  /** The concatenation of `buildPermit2CallData`: with a balance check the token is appended after
      the last frame, outside the length its header announces. */
  function Permit2CallData(approvals: seq<byte>, permit: seq<byte>, token: seq<byte>, flag: nat): seq<byte> {
    var checkSrcTokenBalance := flag % 3 == 2;
    approvals + if checkSrcTokenBalance then permit + Zeros(12) + token else permit
  }

  /** It is a sequence of frames exactly when no balance check is asked for. */
  lemma Permit2Decodes(approvals: seq<Frame>, permit: Frame, token: seq<byte>, a: seq<byte>, p: seq<byte>)
    requires permit.Call? && |token| == 20
    requires PackFrames(approvals) == Success(a) && PlainFrames(approvals)
    requires PackFrame(permit) == Success(p) && Plain(permit)
    ensures DecodeFrames(Permit2CallData(a, p, token, permit.flag)) ==
            if permit.flag % 3 == 2 then None else Some(approvals + [permit])
  {
    DecodePackedFrame(permit, p);
    if permit.flag % 3 == 2 {
      var tail := Zeros(12) + token;
      NoRoomForFrame(tail);
      FramesThenFrame(approvals, a, permit, p, tail);
      assert p + Zeros(12) + token == p + tail;
    } else {
      FramesThenFrame(approvals, a, permit, p, []);
      assert p + [] == p && [permit] + [] == [permit];
    }
  }

  /** A header alone is not a frame. */
  lemma NoRoomForFrame(bs: seq<byte>)
    requires |bs| == 32
    ensures DecodeFrames(bs) == None
  {
  }

  lemma FramesThenFrame(frames: seq<Frame>, bs: seq<byte>, last: Frame, p: seq<byte>, tail: seq<byte>)
    requires PackFrames(frames) == Success(bs) && PlainFrames(frames)
    requires |p| >= 32 && Field(p, 20, 4) == |p| - 32 && DecodeFrame(p[..32], p[32..]) == Some(last)
    ensures DecodeFrames(bs + (p + tail)) == Prepend(frames, Prepend([last], DecodeFrames(tail)))
  {
    DecodeConcatenation(frames, bs, p + tail);
    DecodeThenRest(last, p, tail);
  }
}
