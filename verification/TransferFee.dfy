/** `applyTransferFee`: amounts before and after a token's own transfer fee. */
module TransferFee {
  import opened Wrappers

  const BPS_MAX_VALUE := 10000

  datatype SwapSide = SELL | BUY

  datatype FeeError = DivisionByZero

  /** Integer division that rounds towards zero. */
  function Quotient(a: int, b: int): (q: int)
    requires b != 0
    ensures a >= 0 && b > 0 ==> q * b <= a < q * b + b
    ensures a <= 0 && b > 0 ==> q * b - b < a <= q * b
  {
    if a >= 0 then a / b else -((-a) / b)
  }

  /** One transfer: what arrives, or what has to be sent for an amount to arrive. */
  function Transfer(side: SwapSide, amount: int, fee: int): int
    requires side == BUY ==> fee != BPS_MAX_VALUE
  {
    match side
    case SELL => amount - Quotient(amount * fee, BPS_MAX_VALUE)
    case BUY => Quotient(amount * BPS_MAX_VALUE, BPS_MAX_VALUE - fee)
  }

  function Transfers(side: SwapSide, amount: int, fee: int, count: nat): int
    requires side == BUY ==> fee != BPS_MAX_VALUE
  {
    if count == 0 then amount else Transfer(side, Transfers(side, amount, fee, count - 1), fee)
  }

  method ApplyTransferFee(amounts: seq<int>, side: SwapSide, tokenTransferFee: int, tokenTransfersCount: int)
    returns (r: Result<seq<int>, FeeError>)
    ensures r.Failure? <==> side == BUY && tokenTransferFee == BPS_MAX_VALUE && tokenTransfersCount > 0 && amounts != []
    ensures r.Success? ==> |r.value| == |amounts|
    ensures r.Success? && (side == BUY ==> tokenTransferFee != BPS_MAX_VALUE) ==>
              forall i | 0 <= i < |amounts| ::
                r.value[i] == Transfers(side, amounts[i], tokenTransferFee,
                                        if tokenTransfersCount < 0 then 0 else tokenTransfersCount)
    ensures r.Success? && tokenTransfersCount <= 0 ==> r.value == amounts
  {
    if tokenTransferFee == 0 || tokenTransfersCount == 0 {
      forall i | 0 <= i < |amounts|
        ensures tokenTransferFee == 0 && tokenTransfersCount >= 0 ==>
                  Transfers(side, amounts[i], tokenTransferFee, tokenTransfersCount) == amounts[i]
      {
        if tokenTransferFee == 0 && tokenTransfersCount >= 0 {
          NoFee(side, amounts[i], tokenTransfersCount);
        }
      }
      return Success(amounts);
    }
    var result := [];
    for j := 0 to |amounts|
      invariant |result| == j
      invariant j > 0 && side == BUY && tokenTransferFee == BPS_MAX_VALUE ==> tokenTransfersCount <= 0
      invariant (side == BUY ==> tokenTransferFee != BPS_MAX_VALUE) ==>
                  forall i | 0 <= i < j ::
                    result[i] == Transfers(side, amounts[i], tokenTransferFee,
                                           if tokenTransfersCount < 0 then 0 else tokenTransfersCount)
      invariant tokenTransfersCount <= 0 ==> result == amounts[..j]
    {
      var resultAmount := amounts[j];
      var i := 0;
      while i < tokenTransfersCount
        invariant 0 <= i && (tokenTransfersCount > 0 ==> i <= tokenTransfersCount)
        invariant tokenTransfersCount <= 0 ==> i == 0
        invariant i > 0 ==> !(side == BUY && tokenTransferFee == BPS_MAX_VALUE)
        invariant i == 0 ==> resultAmount == amounts[j]
        invariant (side == BUY ==> tokenTransferFee != BPS_MAX_VALUE) ==>
                    resultAmount == Transfers(side, amounts[j], tokenTransferFee, i)
      {
        if side == SELL {
          resultAmount := resultAmount - Quotient(resultAmount * tokenTransferFee, BPS_MAX_VALUE);
        } else {
          if BPS_MAX_VALUE - tokenTransferFee == 0 {
            return Failure(DivisionByZero);
          }
          resultAmount := Quotient(resultAmount * BPS_MAX_VALUE, BPS_MAX_VALUE - tokenTransferFee);
        }
        i := i + 1;
      }
      result := result + [resultAmount];
    }
    return Success(result);
  }

  lemma {:induction false} NoFee(side: SwapSide, amount: int, count: nat)
    ensures Transfers(side, amount, 0, count) == amount
  {
    if count > 0 {
      NoFee(side, amount, count - 1);
      Exact(amount);
    }
  }

  lemma Exact(amount: int)
    ensures Quotient(amount * BPS_MAX_VALUE, BPS_MAX_VALUE) == amount && Quotient(amount * 0, BPS_MAX_VALUE) == 0
  {
  }

  /** A fee of 100 is one per cent: of 10000 sent 9900 arrive, for 9900 to arrive 10000 are sent, and a
      second transfer takes its share of what the first has left. */
  lemma OnePerCent()
    ensures Transfers(SELL, 10000, 100, 1) == 9900 && Transfers(BUY, 9900, 100, 1) == 10000
    ensures Transfers(SELL, 10000, 100, 2) == 9801 && Transfers(BUY, 9801, 100, 2) == 10000
    ensures Transfers(SELL, 99, 100, 1) == 99 && Transfers(SELL, 100, 100, 1) == 99
  {
    assert Transfers(SELL, 10000, 100, 0) == 10000 && Transfers(BUY, 9900, 100, 0) == 9900;
    assert Transfers(BUY, 9801, 100, 1) == 9900;
    assert Transfers(SELL, 99, 100, 0) == 99 && Transfers(SELL, 100, 100, 0) == 100;
  }

  // ----- the two sides are inverse -----

  predicate ProperFee(fee: int) {
    0 <= fee < BPS_MAX_VALUE
  }

  /** What arrives is at most `r` exactly when no more was sent than is needed for `r`. */
  lemma SentIsGreatest(a: int, r: int, fee: int)
    requires ProperFee(fee) && a >= 0 && r >= 0
    ensures Transfer(SELL, a, fee) <= r <==> a <= Transfer(BUY, r, fee)
  {
    var taken, sent := Quotient(a * fee, BPS_MAX_VALUE), Quotient(r * BPS_MAX_VALUE, BPS_MAX_VALUE - fee);
    Adjoint(a, r, fee, taken, sent);
  }

  lemma Adjoint(a: int, r: int, fee: int, taken: int, sent: int)
    requires ProperFee(fee)
    requires taken * BPS_MAX_VALUE <= a * fee < taken * BPS_MAX_VALUE + BPS_MAX_VALUE
    requires sent * (BPS_MAX_VALUE - fee) <= r * BPS_MAX_VALUE < sent * (BPS_MAX_VALUE - fee) + (BPS_MAX_VALUE - fee)
    ensures a - taken <= r <==> a <= sent
  {
    var k := BPS_MAX_VALUE - fee;
    Split(a, fee, k, a * k, a * fee);
    if a <= sent {
      Scale(a, sent, k);
      Below(a, r, taken, a * k, a * fee);
    } else {
      Scale(sent + 1, a, k);
      assert (sent + 1) * k == sent * k + k;
    }
  }

  lemma Split(a: int, fee: int, k: int, ak: int, af: int)
    requires k == BPS_MAX_VALUE - fee && ak == a * k && af == a * fee
    ensures ak == a * BPS_MAX_VALUE - af
  {
  }

  lemma Below(a: int, r: int, taken: int, ak: int, af: int)
    requires ak <= r * BPS_MAX_VALUE && ak == a * BPS_MAX_VALUE - af && af < taken * BPS_MAX_VALUE + BPS_MAX_VALUE
    ensures a - taken <= r
  {
  }

  lemma Scale(x: int, y: int, k: int)
    requires x <= y && k > 0
    ensures x * k <= y * k
  {
  }

  /** One transfer, there and back. */
  lemma TransferThereAndBack(r: int, fee: int)
    requires ProperFee(fee)
    ensures Transfer(SELL, Transfer(BUY, r, fee), fee) == r
  {
    if r >= 0 {
      ThereAndBack(r, fee);
    } else {
      ThereAndBack(-r, fee);
      Odd(r, fee);
    }
  }

  lemma ThereAndBack(r: int, fee: int)
    requires ProperFee(fee) && r >= 0
    ensures Transfer(SELL, Transfer(BUY, r, fee), fee) == r
  {
    var a := Transfer(BUY, r, fee);
    SentNonNegative(r, fee);
    NonNegativeProduct(a, fee);
    ArrivesExactly(a, r, fee, Quotient(a * fee, BPS_MAX_VALUE));
  }

  lemma NonNegativeProduct(a: int, b: int)
    requires a >= 0 && b >= 0
    ensures a * b >= 0
  {
  }

  lemma SentNonNegative(r: int, fee: int)
    requires ProperFee(fee) && r >= 0
    ensures Transfer(BUY, r, fee) >= 0
  {
  }

  lemma ArrivesExactly(a: int, r: int, fee: int, taken: int)
    requires ProperFee(fee) && a >= 0
    requires a * (BPS_MAX_VALUE - fee) <= r * BPS_MAX_VALUE < a * (BPS_MAX_VALUE - fee) + (BPS_MAX_VALUE - fee)
    requires taken * BPS_MAX_VALUE <= a * fee < taken * BPS_MAX_VALUE + BPS_MAX_VALUE
    ensures a - taken == r
  {
  }

  lemma Odd(r: int, fee: int)
    requires ProperFee(fee)
    ensures Transfer(BUY, -r, fee) == -Transfer(BUY, r, fee)
    ensures Transfer(SELL, -Transfer(BUY, r, fee), fee) == -Transfer(SELL, Transfer(BUY, r, fee), fee)
  {
  }

  /** Any number of transfers of any amount: what was grossed up arrives exactly. */
  lemma {:induction false} FeesInvert(r: int, fee: int, count: nat)
    requires ProperFee(fee)
    ensures Transfers(SELL, Transfers(BUY, r, fee, count), fee, count) == r
  {
    if count > 0 {
      var sent := Transfers(BUY, r, fee, count - 1);
      Peel(SELL, Transfer(BUY, sent, fee), fee, count);
      TransferThereAndBack(sent, fee);
      FeesInvert(r, fee, count - 1);
    }
  }

  /** The first transfer of several can be taken on its own. */
  lemma {:induction false} Peel(side: SwapSide, amount: int, fee: int, count: nat)
    requires count > 0 && (side == BUY ==> fee != BPS_MAX_VALUE)
    ensures Transfers(side, amount, fee, count) == Transfers(side, Transfer(side, amount, fee), fee, count - 1)
  {
    if count > 1 {
      Peel(side, amount, fee, count - 1);
    }
  }

  /** The round trip on the function itself, element by element. */
  method GrossUpThenCharge(amounts: seq<int>, fee: int, count: int) returns (back: Result<seq<int>, FeeError>)
    requires ProperFee(fee)
    ensures back == Success(amounts)
  {
    var sent := ApplyTransferFee(amounts, BUY, fee, count);
    back := ApplyTransferFee(sent.value, SELL, fee, count);
    var n: nat := if count < 0 then 0 else count;
    forall i | 0 <= i < |amounts|
      ensures back.value[i] == amounts[i]
    {
      FeesInvert(amounts[i], fee, n);
    }
    assert back.value == amounts;
  }
}
