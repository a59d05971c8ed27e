/** The calls of Executor03: a flat run of frames, each with two-byte fields. */
module Executor03Bytecode {
  import opened Wrappers
  import opened Bytes

  const BYTES_28_LENGTH := 28

  datatype Call = Call(target: seq<byte>, toAmountPos: nat, fromAmountPos: nat, destTokenPos: nat, special: nat,
                       flag: nat, calldata: seq<byte>)

  type Packed = Result<seq<byte>, PackError>

  /** `buildExecutor03CallData` */
  function PackCall(call: Call): Packed {
    if |call.target| != 20 then Failure(ValueOutOfRange)
    else
      var length :- HexZeroPad(|call.calldata| + BYTES_28_LENGTH, 2);
      var toAmount :- HexZeroPad(call.toAmountPos, 2);
      var fromAmount :- HexZeroPad(call.fromAmountPos, 2);
      var dest :- HexZeroPad(call.destTokenPos, 2);
      var special :- HexZeroPad(call.special, 2);
      var flag :- HexZeroPad(call.flag, 2);
      Success(call.target + length + toAmount + fromAmount + dest + special + flag + Zeros(28) + call.calldata)
  }

  function PackCalls(calls: seq<Call>): Packed {
    if calls == [] then Success([])
    else
      var first :- PackCall(calls[0]);
      var rest :- PackCalls(calls[1..]);
      Success(first + rest)
  }

  function Field(bs: seq<byte>, from: nat): nat
    requires from + 2 <= |bs|
  {
    Value(bs[from..from + 2])
  }

  /** Reads a run of calls from the lengths written in their headers. */
  function DecodeCalls(bs: seq<byte>): Option<seq<Call>>
    decreases |bs|
  {
    if |bs| == 0 then Some([])
    else if |bs| < 60 || Field(bs, 20) < 28 || |bs| < 32 + Field(bs, 20) || bs[32..60] != Zeros(28) then None
    else
      var end := 32 + Field(bs, 20);
      match DecodeCalls(bs[end..])
      case None => None
      case Some(calls) => Some([CallIn(bs[..end])] + calls)
  }

  function CallIn(bs: seq<byte>): Call
    requires |bs| >= 60
  {
    Call(bs[..20], Field(bs, 22), Field(bs, 24), Field(bs, 26), Field(bs, 28), Field(bs, 30), bs[60..])
  }

  /** Bytes are what a call packs to exactly when every field holds its value. */
  lemma CallFields(call: Call, bs: seq<byte>)
    ensures PackCall(call) == Success(bs) <==>
            |bs| >= 60 && Field(bs, 20) == |bs| - 32 && bs[32..60] == Zeros(28) && CallIn(bs) == call
  {
    if |bs| >= 60 && Field(bs, 20) == |bs| - 32 && bs[32..60] == Zeros(28) && CallIn(bs) == call {
      PackFields(bs);
    }
    if PackCall(call) == Success(bs) {
      PackedFields(call);
    }
  }

  /** Where each value of a call stands. */
  lemma CallBytes(call: Call, bs: seq<byte>)
    requires PackCall(call) == Success(bs)
    ensures |bs| == 60 + |call.calldata|
    ensures bs[..20] == call.target
    ensures TwoBytes(bs[20], bs[21]) == |call.calldata| + 28
    ensures TwoBytes(bs[22], bs[23]) == call.toAmountPos
    ensures TwoBytes(bs[24], bs[25]) == call.fromAmountPos
    ensures TwoBytes(bs[26], bs[27]) == call.destTokenPos
    ensures TwoBytes(bs[28], bs[29]) == call.special
    ensures TwoBytes(bs[30], bs[31]) == call.flag
    ensures (forall i | 32 <= i < 60 :: bs[i] == 0) && bs[60..] == call.calldata
  {
    CallFields(call, bs);
    FieldInNumbers(bs, 20);
    FieldInNumbers(bs, 22);
    FieldInNumbers(bs, 24);
    FieldInNumbers(bs, 26);
    FieldInNumbers(bs, 28);
    FieldInNumbers(bs, 30);
    assert forall i | 32 <= i < 60 :: bs[i] == bs[32..60][i - 32];
  }

  lemma FieldInNumbers(bs: seq<byte>, from: nat)
    requires from + 2 <= |bs|
    ensures Field(bs, from) == TwoBytes(bs[from], bs[from + 1])
  {
    ValueInNumbers(bs[from..from + 2]);
  }

  lemma PackFields(bs: seq<byte>)
    requires |bs| >= 60 && Field(bs, 20) == |bs| - 32 && bs[32..60] == Zeros(28)
    ensures PackCall(CallIn(bs)) == Success(bs)
  {
    var c := CallIn(bs);
    var l, t, f, d, s, g := bs[20..22], bs[22..24], bs[24..26], bs[26..28], bs[28..30], bs[30..32];
    FieldValue(|bs| - 32, 2, l);
    FieldValue(c.toAmountPos, 2, t);
    FieldValue(c.fromAmountPos, 2, f);
    FieldValue(c.destTokenPos, 2, d);
    FieldValue(c.special, 2, s);
    FieldValue(c.flag, 2, g);
    assert bs == bs[..20] + l + t + f + d + s + g + Zeros(28) + bs[60..];
  }

  lemma PackedFields(call: Call)
    requires PackCall(call).Success?
    ensures var bs := PackCall(call).value;
            |bs| >= 60 && Field(bs, 20) == |bs| - 32 && bs[32..60] == Zeros(28) && CallIn(bs) == call
  {
    var l, t := HexZeroPad(|call.calldata| + 28, 2).value, HexZeroPad(call.toAmountPos, 2).value;
    var f, d := HexZeroPad(call.fromAmountPos, 2).value, HexZeroPad(call.destTokenPos, 2).value;
    var s, g := HexZeroPad(call.special, 2).value, HexZeroPad(call.flag, 2).value;
    FieldValue(|call.calldata| + 28, 2, l);
    FieldValue(call.toAmountPos, 2, t);
    FieldValue(call.fromAmountPos, 2, f);
    FieldValue(call.destTokenPos, 2, d);
    FieldValue(call.special, 2, s);
    FieldValue(call.flag, 2, g);
    var h := call.target + l + t + f + d + s + g;
    HeaderSlices(call.target, l, t, f, d, s, g);
    var bs := h + Zeros(28) + call.calldata;
    assert bs[..20] == h[..20] && bs[20..22] == h[20..22] && bs[22..24] == h[22..24];
    assert bs[24..26] == h[24..26] && bs[26..28] == h[26..28] && bs[28..30] == h[28..30] && bs[30..32] == h[30..32];
    assert bs[32..60] == Zeros(28) && bs[60..] == call.calldata;
  }

  lemma HeaderSlices(a: seq<byte>, l: seq<byte>, t: seq<byte>, f: seq<byte>, d: seq<byte>, s: seq<byte>, g: seq<byte>)
    requires |a| == 20 && |l| == |t| == |f| == |d| == |s| == |g| == 2
    ensures var h := a + l + t + f + d + s + g;
            && h[..20] == a && h[20..22] == l && h[22..24] == t && h[24..26] == f && h[26..28] == d && h[28..30] == s
            && h[30..32] == g
  {
    var half := a + l + t;
    assert half[..20] == a && half[20..22] == l && half[22..24] == t;
    var more := half + f + d;
    assert more[..24] == half && more[24..26] == f && more[26..28] == d;
    assert more[..20] == half[..20] && more[20..22] == half[20..22] && more[22..24] == half[22..24];
    var h := more + s + g;
    assert h[..28] == more && h[28..30] == s && h[30..32] == g;
    assert h[..20] == more[..20] && h[20..22] == more[20..22] && h[22..24] == more[22..24];
    assert h[24..26] == more[24..26] && h[26..28] == more[26..28];
  }

  lemma {:induction false} DecodePacked(calls: seq<Call>, bs: seq<byte>)
    requires PackCalls(calls) == Success(bs)
    ensures DecodeCalls(bs) == Some(calls)
  {
    if calls != [] {
      var first, rest := PackCall(calls[0]).value, PackCalls(calls[1..]).value;
      CallFields(calls[0], first);
      DecodePacked(calls[1..], rest);
      FirstThenRest(first, rest);
      assert calls == [calls[0]] + calls[1..];
    }
  }

  lemma {:induction false} PackDecoded(bs: seq<byte>)
    requires DecodeCalls(bs).Some?
    ensures PackCalls(DecodeCalls(bs).value) == Success(bs)
    decreases |bs|
  {
    if |bs| > 0 {
      var first, rest := FirstCall(bs);
      PackDecoded(rest);
      PackCons(CallIn(first), DecodeCalls(rest).value, first, rest);
    }
  }

  lemma FirstCall(bs: seq<byte>) returns (first: seq<byte>, rest: seq<byte>)
    requires |bs| > 0 && DecodeCalls(bs).Some?
    ensures bs == first + rest && |first| >= 60 && PackCall(CallIn(first)) == Success(first)
    ensures DecodeCalls(rest).Some? && DecodeCalls(bs).value == [CallIn(first)] + DecodeCalls(rest).value
  {
    var end := 32 + Field(bs, 20);
    first, rest := bs[..end], bs[end..];
    SamePrefix(bs, end);
    PackFields(first);
  }

  lemma PackCons(call: Call, calls: seq<Call>, first: seq<byte>, rest: seq<byte>)
    requires PackCall(call) == Success(first) && PackCalls(calls) == Success(rest)
    ensures PackCalls([call] + calls) == Success(first + rest)
  {
    assert ([call] + calls)[1..] == calls;
  }

  /** Unique decodability, both ways: bytes decode to a run of calls exactly when that run packs to
      them. */
  lemma CallsDecodeUniquely(calls: seq<Call>, bs: seq<byte>)
    ensures DecodeCalls(bs) == Some(calls) <==> PackCalls(calls) == Success(bs)
  {
    if PackCalls(calls) == Success(bs) {
      DecodePacked(calls, bs);
    }
    if DecodeCalls(bs) == Some(calls) {
      PackDecoded(bs);
    }
  }

  lemma FirstThenRest(first: seq<byte>, rest: seq<byte>)
    requires |first| >= 60 && Field(first, 20) == |first| - 32 && first[32..60] == Zeros(28)
    ensures DecodeCalls(first + rest) == match DecodeCalls(rest)
                                         case None => None
                                         case Some(calls) => Some([CallIn(first)] + calls)
  {
    var bs := first + rest;
    assert bs[20..22] == first[20..22] && bs[32..60] == first[32..60];
    assert bs[..|first|] == first && bs[|first|..] == rest;
  }

  lemma SamePrefix(bs: seq<byte>, end: nat)
    requires 60 <= end <= |bs|
    ensures Field(bs[..end], 20) == Field(bs, 20) && bs[..end][32..60] == bs[32..60]
  {
    assert bs[..end][20..22] == bs[20..22];
  }
}
