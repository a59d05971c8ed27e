/** Big-endian fields of fixed width. */
module Bytes {
  import opened Wrappers

  type byte = n: nat | n < 256

  datatype PackError = ValueOutOfRange

  function Pow256(w: nat): (p: nat)
    ensures p > 0
  {
    if w == 0 then 1 else 256 * Pow256(w - 1)
  }

  function BigEndian(n: nat, w: nat): (bs: seq<byte>)
    ensures |bs| == w
  {
    if w == 0 then [] else BigEndian(n / 256, w - 1) + [n % 256]
  }

  function Value(bs: seq<byte>): nat {
    if bs == [] then 0 else 256 * Value(bs[..|bs| - 1]) + bs[|bs| - 1]
  }

  function Zeros(w: nat): (bs: seq<byte>)
    ensures |bs| == w
  {
    seq(w, i => 0)
  }

  /** `hexZeroPad(hexlify(n), w)`: throws when `n` needs more than `w` bytes. */
  function HexZeroPad(n: nat, w: nat): (r: Result<seq<byte>, PackError>)
    ensures r.Success? <==> n < Pow256(w)
    ensures r.Success? ==> |r.value| == w
  {
    if n < Pow256(w) then Success(BigEndian(n, w)) else Failure(ValueOutOfRange)
  }

  lemma {:induction false} ValueOfBigEndian(n: nat, w: nat)
    requires n < Pow256(w)
    ensures Value(BigEndian(n, w)) == n
  {
    if w > 0 {
      ValueOfBigEndian(n / 256, w - 1);
      var bs := BigEndian(n, w);
      assert bs[..|bs| - 1] == BigEndian(n / 256, w - 1);
    }
  }

  lemma {:induction false} BigEndianOfValue(bs: seq<byte>)
    ensures Value(bs) < Pow256(|bs|) && BigEndian(Value(bs), |bs|) == bs
  {
    if bs != [] {
      BigEndianOfValue(bs[..|bs| - 1]);
      assert bs == bs[..|bs| - 1] + [bs[|bs| - 1]];
    }
  }

  /** A padded field and its value determine each other. */
  lemma FieldValue(n: nat, w: nat, bs: seq<byte>)
    ensures HexZeroPad(n, w) == Success(bs) <==> |bs| == w && Value(bs) == n
  {
    if HexZeroPad(n, w) == Success(bs) {
      ValueOfBigEndian(n, w);
    }
    if |bs| == w && Value(bs) == n {
      BigEndianOfValue(bs);
    }
  }

  function TwoBytes(a: nat, b: nat): nat {
    256 * a + b
  }

  function FourBytes(a: nat, b: nat, c: nat, d: nat): nat {
    16777216 * a + 65536 * b + 256 * c + d
  }

  /** The most significant byte comes first. */
  lemma ValueInNumbers(bs: seq<byte>)
    ensures |bs| == 1 ==> Value(bs) == bs[0]
    ensures |bs| == 2 ==> Value(bs) == TwoBytes(bs[0], bs[1])
    ensures |bs| == 4 ==> Value(bs) == FourBytes(bs[0], bs[1], bs[2], bs[3])
  {
    if |bs| > 0 {
      var a := bs[..|bs| - 1];
      assert Value(bs) == 256 * Value(a) + bs[|bs| - 1];
      if |a| > 0 {
        var b := a[..|a| - 1];
        assert Value(a) == 256 * Value(b) + a[|a| - 1];
        if |b| > 0 {
          var c := b[..|b| - 1];
          assert Value(b) == 256 * Value(c) + b[|b| - 1];
        }
      }
    }
    assert |bs| == 4 ==> bs[..3][..2][..1][..0] == [];
  }

  /** A wider field holds its upper byte times a power of 256. */
  lemma {:induction false} UpperByte(b: byte, bs: seq<byte>)
    ensures Value([b] + bs) == b * Pow256(|bs|) + Value(bs)
  {
    if bs == [] {
      assert ([b] + bs)[..0] == [];
    } else {
      var last := |bs| - 1;
      UpperByte(b, bs[..last]);
      assert ([b] + bs)[..|bs|] == [b] + bs[..last];
      Shifted(b, Pow256(last), Value(bs[..last]), bs[last]);
    }
  }

  lemma Shifted(b: nat, p: nat, v: nat, d: nat)
    ensures 256 * (b * p + v) + d == b * (256 * p) + (256 * v + d)
  {
  }

  lemma {:induction false} ValueOfZeros(k: nat, bs: seq<byte>)
    ensures Value(Zeros(k) + bs) == Value(bs)
    decreases |bs|, k
  {
    var all := Zeros(k) + bs;
    if bs != [] {
      assert all[..|all| - 1] == Zeros(k) + bs[..|bs| - 1];
      ValueOfZeros(k, bs[..|bs| - 1]);
    } else if k > 0 {
      assert all[..|all| - 1] == Zeros(k - 1) + [];
      ValueOfZeros(k - 1, []);
    }
  }

  /** A number that fits a narrower field is padded with zero bytes. */
  lemma WiderField(n: nat, k: nat, w: nat)
    requires n < Pow256(w)
    ensures HexZeroPad(n, k + w) == Success(Zeros(k) + HexZeroPad(n, w).value)
    ensures HexZeroPad(0, k) == Success(Zeros(k))
  {
    var bs := HexZeroPad(n, w).value;
    FieldValue(n, w, bs);
    ValueOfZeros(k, bs);
    FieldValue(n, k + w, Zeros(k) + bs);
    ValueOfZeros(k, []);
    assert Zeros(k) + [] == Zeros(k);
    FieldValue(0, k, Zeros(k));
  }
}
