/** How the transmuter's events move the stablecoins issued: in total, and against each collateral. */
module SupplyConservation {
  import opened Wrappers
  import opened Text

  /** A number, or what is left when one was divided by zero: infinite, or not a number. */
  datatype Num = Finite(r: real) | NotFinite

  function Plus(a: Num, b: real): Num {
    if a.Finite? then Finite(a.r + b) else NotFinite
  }

  /** `q`, an amount divided by the total. */
  function Quotient(amount: real, total: real): Num {
    if total == 0.0 then NotFinite else Finite(amount / total)
  }

  /** `x - q * x` */
  function Shrunk(x: Num, q: Num): Num {
    if x.Finite? && q.Finite? then Finite(x.r - q.r * x.r) else NotFinite
  }

  datatype Supply = Supply(issued: map<string, Num>, total: real)

  datatype Event =
    | Swap(tokenIn: string, tokenOut: string, amountIn: real, amountOut: real)
    | Redeemed(amount: real)
    | ReservesAdjusted(collateral: string, amount: real, increase: bool)

  // ----- sums -----

  ghost function Sum(m: map<string, real>): real {
    if m == map[] then 0.0
    else
      var k :| k in m;
      m[k] + Sum(m - {k})
  }

  lemma {:induction false} SumPick(m: map<string, real>, k: string)
    requires k in m
    ensures Sum(m) == m[k] + Sum(m - {k})
  {
    var j :| j in m && Sum(m) == m[j] + Sum(m - {j});
    if j != k {
      SumPick(m - {j}, k);
      SumPick(m - {k}, j);
      assert m - {j} - {k} == m - {k} - {j};
    }
  }

  lemma SumUpdate(m: map<string, real>, k: string, x: real)
    requires k in m
    ensures Sum(m[k := x]) == Sum(m) - m[k] + x
  {
    SumPick(m, k);
    SumPick(m[k := x], k);
    assert m[k := x] - {k} == m - {k};
  }

  function Scaled(m: map<string, real>, c: real): map<string, real> {
    map k | k in m :: m[k] * c
  }

  lemma ScaledWithout(m: map<string, real>, c: real, k: string, x: real)
    requires k in m && m[k] == x
    ensures Scaled(m, c)[k] == x * c && Scaled(m, c) - {k} == Scaled(m - {k}, c)
  {
    var a, b := Scaled(m, c) - {k}, Scaled(m - {k}, c);
    assert a.Keys == b.Keys && forall j | j in a :: a[j] == b[j];
  }

  lemma {:induction false} SumScaled(m: map<string, real>, c: real, total: real)
    requires Sum(m) == total
    ensures Sum(Scaled(m, c)) == total * c
  {
    if m == map[] {
      assert Scaled(m, c) == map[];
    } else {
      var k :| k in m;
      SumPick(m, k);
      SumPick(Scaled(m, c), k);
      var x, rest := m[k], total - m[k];
      ScaledWithout(m, c, k, x);
      SumScaled(m - {k}, c, rest);
      ScaledSum(total, x, rest, c, Sum(Scaled(m, c)), Scaled(m, c)[k], Sum(Scaled(m - {k}, c)));
    }
  }

  lemma ScaledSum(m: real, a: real, b: real, c: real, n: real, x: real, y: real)
    requires m == a + b && n == x + y && x == a * c && y == b * c
    ensures n == m * c
  {
  }

  // ----- the events -----

  /** Which collateral an event moves, and by how much; a redemption moves all of them. */
  function Shift(eura: string, e: Event): (string, real)
    requires !e.Redeemed?
  {
    match e
    case Swap(tokenIn, tokenOut, amountIn, amountOut) =>
      if Lower(tokenIn) == Lower(eura) then (Lower(tokenOut), -amountIn) else (Lower(tokenIn), amountOut)
    case ReservesAdjusted(collateral, amount, increase) =>
      (Lower(collateral), amount * if increase then 1.0 else 0.0)
  }

  /** An amount moved on one collateral; an unknown one throws. */
  function Moved(s: Supply, key: string, amount: real): Option<Supply> {
    if key in s.issued then Some(Supply(s.issued[key := Plus(s.issued[key], amount)], s.total + amount)) else None
  }

  function Redeem(s: Supply, amount: real): Supply {
    Supply(AllShrunk(s.issued, Quotient(amount, s.total)), s.total - amount)
  }

  function AllShrunk(m: map<string, Num>, q: Num): map<string, Num> {
    map k | k in m :: Shrunk(m[k], q)
  }

  /** An event that throws leaves the state as it was. */
  function Next(eura: string, s: Supply, e: Event): Option<Supply> {
    if e.Redeemed? then Some(Redeem(s, e.amount))
    else
      var (key, amount) := Shift(eura, e);
      Moved(s, key, amount)
  }

  function Run(eura: string, s: Supply, events: seq<Event>): Supply
    decreases |events|
  {
    if events == [] then s else Run(eura, Next(eura, s, events[0]).GetOr(s), events[1..])
  }

  // ----- conservation -----

  predicate AllFinite(m: map<string, Num>) {
    forall k | k in m :: m[k].Finite?
  }

  function Reals(m: map<string, Num>): map<string, real>
    requires AllFinite(m)
  {
    map k | k in m :: m[k].r
  }

  /** Every issued amount is a number, and they sum to the total. */
  ghost predicate Balanced(s: Supply) {
    AllFinite(s.issued) && s.total == Sum(Reals(s.issued))
  }

  lemma MovedBalanced(s: Supply, key: string, amount: real)
    requires Balanced(s)
    ensures Balanced(Moved(s, key, amount).GetOr(s))
  {
    if key in s.issued {
      var x := s.issued[key].r + amount;
      SumUpdate(Reals(s.issued), key, x);
      assert Reals(s.issued[key := Finite(x)]) == Reals(s.issued)[key := x];
    }
  }

  lemma RedeemBalanced(s: Supply, amount: real, total: real, q: real, kept: real)
    requires Balanced(s) && s.total == total != 0.0 && Quotient(amount, total) == Finite(q)
    requires q * total == amount && kept == 1.0 - q
    ensures Balanced(Redeem(s, amount))
  {
    var m := Reals(s.issued);
    ShrunkScales(s.issued, q, kept);
    SumScaled(m, kept, total);
    ShrunkTotal(total, q, kept, amount, Sum(Scaled(m, kept)));
  }

  lemma ShrunkTotal(total: real, q: real, kept: real, amount: real, sum: real)
    requires q * total == amount && kept == 1.0 - q && sum == total * kept
    ensures sum == total - amount
  {
  }

  lemma ShrunkScales(m: map<string, Num>, q: real, kept: real)
    requires AllFinite(m) && kept == 1.0 - q
    ensures AllFinite(AllShrunk(m, Finite(q)))
    ensures Reals(AllShrunk(m, Finite(q))) == Scaled(Reals(m), kept)
  {
    var after, want := Reals(AllShrunk(m, Finite(q))), Scaled(Reals(m), kept);
    assert after.Keys == want.Keys;
    forall k | k in after
      ensures after[k] == want[k]
    {
      ShrunkBy(m[k].r, q, kept);
    }
  }

  lemma ShrunkBy(x: real, q: real, kept: real)
    requires kept == 1.0 - q
    ensures Shrunk(Finite(x), Finite(q)) == Finite(x * kept)
  {
    assert x - q * x == x * (1.0 - q);
  }

  lemma Share(total: real, amount: real, q: real)
    requires total != 0.0 && q == amount / total
    ensures q * total == amount && total * (1.0 - q) == total - amount
  {
  }

  /** A redemption while nothing is issued divides by zero. */
  predicate DividesByZero(s: Supply, e: Event) {
    e.Redeemed? && s.total == 0.0
  }

  /** An event keeps the total equal to the sum over the collaterals exactly when it does not divide
      by zero, or divides nothing. */
  lemma NextBalanced(eura: string, s: Supply, e: Event)
    requires Balanced(s)
    ensures Balanced(Next(eura, s, e).GetOr(s)) <==>
            !DividesByZero(s, e) || (s.issued == map[] && e.amount == 0.0)
    ensures Next(eura, s, e).GetOr(s).issued.Keys == s.issued.Keys
  {
    if !e.Redeemed? {
      var (key, amount) := Shift(eura, e);
      MovedBalanced(s, key, amount);
    } else if s.total != 0.0 {
      var q := e.amount / s.total;
      Share(s.total, e.amount, q);
      RedeemBalanced(s, e.amount, s.total, q, 1.0 - q);
    } else {
      RedeemAtZero(s, e.amount);
    }
  }

  lemma RedeemAtZero(s: Supply, amount: real)
    requires Balanced(s) && s.total == 0.0
    ensures Balanced(Redeem(s, amount)) <==> s.issued == map[] && amount == 0.0
  {
    var next := Redeem(s, amount);
    if s.issued == map[] {
      assert next.issued == map[] && Reals(next.issued) == map[];
    } else {
      var k :| k in s.issued;
      assert next.issued[k] == NotFinite;
    }
  }

  /** What is not finite stays so. */
  lemma {:induction false} NeverRepaired(eura: string, s: Supply, events: seq<Event>)
    requires !AllFinite(s.issued)
    ensures !AllFinite(Run(eura, s, events).issued)
    decreases |events|
  {
    if events != [] {
      var k :| k in s.issued && s.issued[k].NotFinite?;
      var next := Next(eura, s, events[0]).GetOr(s);
      assert k in next.issued && next.issued[k].NotFinite?;
      NeverRepaired(eura, next, events[1..]);
    }
  }

  /** No event of the run divides by zero. */
  predicate NeverAtZero(eura: string, s: Supply, events: seq<Event>)
    decreases |events|
  {
    events != [] ==>
      !DividesByZero(s, events[0]) && NeverAtZero(eura, Next(eura, s, events[0]).GetOr(s), events[1..])
  }

  /** Over any run the total is the sum over the collaterals, exactly when nothing is ever redeemed
      while nothing is issued. */
  lemma {:induction false} SupplyConserved(eura: string, s: Supply, events: seq<Event>)
    requires Balanced(s) && s.issued != map[]
    ensures Balanced(Run(eura, s, events)) <==> NeverAtZero(eura, s, events)
    decreases |events|
  {
    if events != [] {
      var next := Next(eura, s, events[0]).GetOr(s);
      NextBalanced(eura, s, events[0]);
      if DividesByZero(s, events[0]) {
        var k :| k in s.issued;
        assert k in next.issued && next.issued[k].NotFinite?;
        NeverRepaired(eura, next, events[1..]);
      } else {
        assert next.issued != map[];
        SupplyConserved(eura, next, events[1..]);
      }
    }
  }

  /** A redemption keeps every exposure; none becomes negative exactly when no more is redeemed than
      was issued. */
  lemma RedeemKeepsExposure(s: Supply, amount: real, k: string, x: real)
    requires s.total > 0.0 && k in s.issued && s.issued[k] == Finite(x) && x >= 0.0
    ensures var next := Redeem(s, amount);
            && next.total == s.total - amount
            && k in next.issued && next.issued[k].Finite?
            && next.issued[k].r * s.total == x * next.total
            && (x > 0.0 ==> (next.issued[k].r >= 0.0 <==> amount <= s.total))
  {
    var q := amount / s.total;
    Share(s.total, amount, q);
    ShrunkBy(x, q, 1.0 - q);
    Exposure(x, s.total, q, amount, x * (1.0 - q));
    if x > 0.0 {
      SignOfProduct(x, 1.0 - q);
      SignOfProduct(s.total, 1.0 - q);
    }
  }

  lemma Exposure(x: real, total: real, q: real, amount: real, y: real)
    requires total * (1.0 - q) == total - amount && y == x * (1.0 - q)
    ensures y * total == x * (total - amount)
  {
    assert y * total == x * (total * (1.0 - q));
  }

  lemma SignOfProduct(x: real, z: real)
    requires x > 0.0
    ensures x * z >= 0.0 <==> z >= 0.0
  {
    if z < 0.0 {
      assert x * -z > 0.0;
    }
  }

  /** A swap and its reverse cancel. */
  lemma SwapsCancel(eura: string, s: Supply, token: string, amount: real, x: real)
    requires Lower(token) != Lower(eura) && Lower(token) in s.issued
    ensures var minted := Next(eura, s, Swap(token, eura, x, amount)).value;
            Next(eura, minted, Swap(eura, token, amount, x)) == Some(s)
  {
    var minted := Next(eura, s, Swap(token, eura, x, amount)).value;
    var back := Next(eura, minted, Swap(eura, token, amount, x)).value;
    assert back.issued == s.issued;
  }

  /** `amount` is added to one collateral and to the total, and nothing else changes. */
  ghost predicate AddedTo(s: Supply, next: Supply, key: string, amount: real) {
    && next.total == s.total + amount
    && next.issued.Keys == s.issued.Keys && key in s.issued
    && (s.issued[key].Finite? ==> next.issued[key] == Finite(s.issued[key].r + amount))
    && (s.issued[key].NotFinite? ==> next.issued[key] == NotFinite)
    && forall k | k in s.issued && k != key :: next.issued[k] == s.issued[k]
  }

  /** A swap that brings EURA in burns what comes in against the token that goes out; any other swap
      mints what goes out against the token that comes in. Unknown tokens throw. */
  lemma SwapMoves(eura: string, s: Supply, tokenIn: string, tokenOut: string, amountIn: real, amountOut: real)
    ensures var next := Next(eura, s, Swap(tokenIn, tokenOut, amountIn, amountOut));
            if Lower(tokenIn) == Lower(eura)
            then (next.Some? <==> Lower(tokenOut) in s.issued)
                 && (next.Some? ==> AddedTo(s, next.value, Lower(tokenOut), -amountIn))
            else (next.Some? <==> Lower(tokenIn) in s.issued)
                 && (next.Some? ==> AddedTo(s, next.value, Lower(tokenIn), amountOut))
  {
  }

  /** An increase of the reserves mints its amount against its collateral. */
  lemma IncreaseMoves(eura: string, s: Supply, collateral: string, amount: real)
    ensures var next := Next(eura, s, ReservesAdjusted(collateral, amount, true));
            && (next.Some? <==> Lower(collateral) in s.issued)
            && (next.Some? ==> AddedTo(s, next.value, Lower(collateral), amount))
  {
  }

  /** The adjustment an event announces: up, or down. */
  function SignedAdjustment(s: Supply, collateral: string, amount: real, increase: bool): Option<Supply> {
    Moved(s, Lower(collateral), if increase then amount else -amount)
  }

  /** It is what happens exactly when it goes up, moves nothing, or concerns an unknown collateral:
      the amount of a decrease is multiplied by `Number(false)`. */
  lemma AdjustmentIsSigned(eura: string, s: Supply, collateral: string, amount: real, increase: bool)
    ensures Next(eura, s, ReservesAdjusted(collateral, amount, increase)) ==
            SignedAdjustment(s, collateral, amount, increase) <==>
            increase || amount == 0.0 || Lower(collateral) !in s.issued
  {
    if !increase && amount != 0.0 && Lower(collateral) in s.issued {
      assert Next(eura, s, ReservesAdjusted(collateral, amount, increase)).value.total == s.total;
      assert SignedAdjustment(s, collateral, amount, increase).value.total == s.total - amount;
    }
  }

  // ----- the state the handlers write to -----

  class TransmuterState {
    var issued: map<string, Num>
    var totalStablecoinIssued: real

    function View(): Supply
      reads this
    {
      Supply(issued, totalStablecoinIssued)
    }

    constructor (s: Supply)
      ensures View() == s
    {
      issued, totalStablecoinIssued := s.issued, s.total;
    }

    /** `false` is an exception; the state may then be half written. */
    method HandleSwap(eura: string, e: Event) returns (ok: bool)
      requires e.Swap?
      modifies this
      ensures ok <==> Next(eura, old(View()), e).Some?
      ensures ok ==> View() == Next(eura, old(View()), e).value
    {
      var tokenIn, tokenOut := Lower(e.tokenIn), Lower(e.tokenOut);
      if tokenIn == Lower(eura) {
        if tokenOut !in issued {
          return false;
        }
        issued := issued[tokenOut := Plus(issued[tokenOut], -e.amountIn)];
        totalStablecoinIssued := totalStablecoinIssued - e.amountIn;
      } else {
        if tokenIn !in issued {
          return false;
        }
        issued := issued[tokenIn := Plus(issued[tokenIn], e.amountOut)];
        totalStablecoinIssued := totalStablecoinIssued + e.amountOut;
      }
      return true;
    }

    method HandleRedeem(amount: real)
      modifies this
      ensures View() == Redeem(old(View()), amount)
    {
      var currentStablecoinEmission := totalStablecoinIssued;
      var keys := issued.Keys;
      ghost var done: set<string> := {};
      while keys != {}
        invariant done + keys == old(issued).Keys && done !! keys
        invariant totalStablecoinIssued == currentStablecoinEmission == old(totalStablecoinIssued)
        invariant issued.Keys == old(issued).Keys
        invariant forall k | k in done ::
                    issued[k] == Shrunk(old(issued)[k], Quotient(amount, currentStablecoinEmission))
        invariant forall k | k in keys :: issued[k] == old(issued)[k]
      {
        var collat :| collat in keys;
        issued := issued[collat := Shrunk(issued[collat], Quotient(amount, currentStablecoinEmission))];
        done, keys := done + {collat}, keys - {collat};
      }
      totalStablecoinIssued := totalStablecoinIssued - amount;
      assert done == old(issued).Keys;
      assert issued == Redeem(old(View()), amount).issued;
    }

    /** The total is written before the collateral is looked up. */
    method HandleAdjustStablecoins(eura: string, e: Event) returns (ok: bool)
      requires e.ReservesAdjusted?
      modifies this
      ensures ok <==> Next(eura, old(View()), e).Some?
      ensures ok ==> View() == Next(eura, old(View()), e).value
    {
      var collateral := Lower(e.collateral);
      var amount := e.amount * if e.increase then 1.0 else 0.0;
      totalStablecoinIssued := totalStablecoinIssued + amount;
      if collateral !in issued {
        return false;
      }
      issued := issued[collateral := Plus(issued[collateral], amount)];
      return true;
    }
  }

  /** The handlers work on a clone, so an exception leaves no trace: the log changes nothing. */
  method ProcessLog(eura: string, state: TransmuterState, e: Event) returns (r: TransmuterState?)
    ensures state.View() == old(state.View())
    ensures r == null <==> Next(eura, state.View(), e).None?
    ensures r != null ==> fresh(r) && r.View() == Next(eura, state.View(), e).value
  {
    var clone := new TransmuterState(Supply(state.issued, state.totalStablecoinIssued));
    var ok := true;
    match e {
      case Swap(_, _, _, _) =>
        ok := clone.HandleSwap(eura, e);
      case Redeemed(amount) =>
        clone.HandleRedeem(amount);
      case ReservesAdjusted(_, _, _) =>
        ok := clone.HandleAdjustStablecoins(eura, e);
    }
    r := if ok then clone else null;
  }
}
