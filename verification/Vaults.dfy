/** Shares and assets of two ERC-4626 vaults: every conversion rounds against whoever makes it. */
module Vaults {
  import opened Wrappers

  predicate IsFloor(q: int, n: int, d: int) {
    d > 0 && q * d <= n < q * d + d
  }

  predicate IsCeiling(q: int, n: int, d: int) {
    d > 0 && n <= q * d < n + d
  }

  // ----- AaveV3StataV2: `rate` assets per RAY shares -----

  const RAY: nat := 1_000_000_000_000_000_000_000_000_000

  datatype Rounding = UP | DOWN

  datatype MathError = DivisionByZero

  function RayMulRoundDown(a: nat, b: nat): (r: nat)
    ensures IsFloor(r, a * b, RAY)
  {
    if a == 0 || b == 0 then 0 else a * b / RAY
  }

  function RayMulRoundUp(a: nat, b: nat): (r: nat)
    ensures IsCeiling(r, a * b, RAY)
  {
    if a == 0 || b == 0 then 0 else (a * b + RAY - 1) / RAY
  }

  function RayDivRoundDown(a: nat, b: nat): (r: Result<nat, MathError>)
    ensures r.Success? <==> b != 0
    ensures r.Success? ==> IsFloor(r.value, a * RAY, b)
  {
    if b == 0 then Failure(DivisionByZero) else Success(Floor(a * RAY, b))
  }

  function RayDivRoundUp(a: nat, b: nat): (r: Result<nat, MathError>)
    ensures r.Success? <==> b != 0
    ensures r.Success? ==> IsCeiling(r.value, a * RAY, b)
  {
    if b == 0 then Failure(DivisionByZero) else Success(Ceiling(a * RAY, b))
  }

  function Floor(n: nat, d: nat): (q: nat)
    requires d > 0
    ensures IsFloor(q, n, d)
  {
    n / d
  }

  function Ceiling(n: nat, d: nat): (q: nat)
    requires d > 0
    ensures IsCeiling(q, n, d)
  {
    assert (n + d - 1) / d >= 0;
    (n + d - 1) / d
  }

  function ConvertToAssets(shares: nat, rate: nat, rounding: Rounding): nat {
    if rounding == UP then RayMulRoundUp(shares, rate) else RayMulRoundDown(shares, rate)
  }

  function ConvertToShares(assets: nat, rate: nat, rounding: Rounding): Result<nat, MathError> {
    if rounding == UP then RayDivRoundUp(assets, rate) else RayDivRoundDown(assets, rate)
  }

  function PreviewRedeem(shares: nat, rate: nat): nat {
    ConvertToAssets(shares, rate, DOWN)
  }

  function PreviewMint(shares: nat, rate: nat): nat {
    ConvertToAssets(shares, rate, UP)
  }

  function PreviewWithdraw(assets: nat, rate: nat): Result<nat, MathError> {
    ConvertToShares(assets, rate, UP)
  }

  function PreviewDeposit(assets: nat, rate: nat): Result<nat, MathError> {
    ConvertToShares(assets, rate, DOWN)
  }

  // ----- AngleStakedStable -----

  /** `BigInt(1e27)`: the double nearest to ten to the 27th, and half of it. */
  const BASE_27: nat := 1_000_000_000_000_000_013_287_555_072
  const HALF_BASE_27: nat := 500_000_000_000_000_006_643_777_536

  datatype PoolState = PoolState(totalAssets: nat, totalSupply: nat, rate: nat, lastUpdate: nat)

  function RateSquared(rate: nat): nat {
    (Times(rate, rate) + HALF_BASE_27) / BASE_27
  }

  function RateCubed(rate: nat): nat {
    (Times(RateSquared(rate), rate) + HALF_BASE_27) / BASE_27
  }

  function Times(a: int, b: int): (r: int)
    ensures r == a * b
    ensures (a >= 0 && b >= 0) || (a <= 0 && b <= 0) ==> r >= 0
  {
    a * b
  }

  /** The quotient of two `bigint`s drops what is behind the point. */
  predicate IsTruncated(q: int, n: int, d: int) {
    if (n < 0) == (d < 0) then IsFloor(q, Abs(n), Abs(d)) else IsFloor(-q, Abs(n), Abs(d))
  }

  function Abs(n: int): nat {
    if n < 0 then -n else n
  }

  function Truncated(n: int, d: int): (q: int)
    requires d != 0
    ensures IsTruncated(q, n, d)
    ensures n >= 0 && d > 0 ==> q >= 0 && IsFloor(q, n, d)
  {
    var q: int := Floor(Abs(n), Abs(d));
    if (n < 0) == (d < 0) then q else -q
  }

  function Pairs(exp: int): nat {
    Times(exp, exp - 1)
  }

  function Triples(exp: int): nat {
    var expMinusTwo := if exp > 2 then exp - 2 else 0;
    Times(Pairs(exp), expMinusTwo)
  }

  /** The growth factor after `exp` seconds, in BASE_27 units: three terms of a binomial. A clock
      behind the last update makes `exp` negative. */
  function Growth(rate: nat, exp: int): int {
    var secondTerm := Times(Pairs(exp), RateSquared(rate)) / 2;
    var thirdTerm := Times(Triples(exp), RateCubed(rate)) / 6;
    BASE_27 + Times(rate, exp) + secondTerm + thirdTerm
  }

  function ComputeUpdatedAssets(amount: nat, rate: nat, exp: int): int {
    if exp == 0 || rate == 0 then amount else Truncated(Times(amount, Growth(rate, exp)), BASE_27)
  }

  function Accrue(state: PoolState, now: nat): int {
    ComputeUpdatedAssets(state.totalAssets, state.rate, now - state.lastUpdate)
  }

  /** The quotient, plus one when the remainder, which has the sign of `n`, is positive. */
  function RoundedUp(n: int, d: int): (q: int)
    requires d != 0
    ensures d > 0 ==> IsCeiling(q, n, d) && (n >= 0 ==> q >= 0)
    ensures d < 0 && n >= 0 ==> q == Truncated(n, d) + if Times(Truncated(n, d), d) == n then 0 else 1
  {
    var q := Truncated(n, d);
    q + if n - Times(q, d) > 0 then 1 else 0
  }

  function GetRateDeposit(amount: nat, state: PoolState, now: nat): (r: Result<int, MathError>)
    ensures r.Failure? <==> amount != 0 && state.totalSupply != 0 && Accrue(state, now) == 0
    ensures state.totalSupply == 0 ==> r == Success(amount)
    ensures state.totalSupply != 0 && Accrue(state, now) != 0 ==>
              IsTruncated(r.value, Times(amount, state.totalSupply), Accrue(state, now))
    ensures r.Success? && Accrue(state, now) > 0 ==> r.value >= 0
  {
    var newTotalAssets := Accrue(state, now);
    if amount == 0 || state.totalSupply == 0 then Success(amount)
    else if newTotalAssets == 0 then Failure(DivisionByZero)
    else Success(Truncated(Times(amount, state.totalSupply), newTotalAssets))
  }

  /** The remainder is taken before the supply is checked: without any supply it throws. */
  function GetRateMint(shares: nat, state: PoolState, now: nat): (r: Result<int, MathError>)
    ensures r.Failure? <==> state.totalSupply == 0
    ensures r.Success? ==> IsCeiling(r.value, Times(shares, Accrue(state, now)), state.totalSupply)
    ensures r.Success? && Accrue(state, now) >= 0 ==> r.value >= 0
  {
    var newTotalAssets := Accrue(state, now);
    if state.totalSupply == 0 then Failure(DivisionByZero)
    else Success(RoundedUp(Times(shares, newTotalAssets), state.totalSupply))
  }

  function GetRateRedeem(shares: nat, state: PoolState, now: nat): (r: int)
    ensures state.totalSupply == 0 ==> r == shares
    ensures state.totalSupply != 0 ==> IsTruncated(r, Times(shares, Accrue(state, now)), state.totalSupply)
    ensures Accrue(state, now) >= 0 ==> r >= 0
  {
    var newTotalAssets := Accrue(state, now);
    if state.totalSupply == 0 then shares else Truncated(Times(shares, newTotalAssets), state.totalSupply)
  }

  /** Here too the remainder comes first: without any assets it throws. */
  function GetRateWithdraw(amount: nat, state: PoolState, now: nat): (r: Result<int, MathError>)
    ensures r.Failure? <==> Accrue(state, now) == 0
    ensures r.Success? && state.totalSupply == 0 ==> r.value == amount
    ensures r.Success? && state.totalSupply != 0 && Accrue(state, now) > 0 ==>
              r.value >= 0 && IsCeiling(r.value, Times(amount, state.totalSupply), Accrue(state, now))
    ensures r.Success? && state.totalSupply != 0 && Accrue(state, now) < 0 ==>
              OneMoreIfInexact(r.value, Times(amount, state.totalSupply), Accrue(state, now))
  {
    var newTotalAssets := Accrue(state, now);
    if newTotalAssets == 0 then Failure(DivisionByZero)
    else if amount == 0 || state.totalSupply == 0 then Success(amount)
    else Success(RoundedUp(Times(amount, state.totalSupply), newTotalAssets))
  }

  /** Against negative assets the quotient is negative, and the one added brings it nearer to zero. */
  predicate OneMoreIfInexact(r: int, n: int, d: int) {
    (IsTruncated(r, n, d) && r * d == n) || (IsTruncated(r - 1, n, d) && (r - 1) * d != n)
  }

  // ----- the four conversions of a vault -----

  /** `assets` of the vault against `supply` of its shares, both positive. */
  datatype Vault = Vault(assets: nat, supply: nat, deposit: nat -> nat, mint: nat -> nat, redeem: nat -> nat,
                         withdraw: nat -> nat)
  {
    /** What goes in is rounded up, what comes out is rounded down. */
    ghost predicate Rounds() {
      && assets > 0 && supply > 0
      && (forall a: nat :: IsFloor(deposit(a), Times(a, supply), assets))
      && (forall s: nat :: IsCeiling(mint(s), Times(s, assets), supply))
      && (forall s: nat :: IsFloor(redeem(s), Times(s, assets), supply))
      && (forall a: nat :: IsCeiling(withdraw(a), Times(a, supply), assets))
    }
  }

  function StataVault(rate: nat): Vault
    requires rate > 0
  {
    Vault(rate, RAY, a => PreviewDeposit(a, rate).value, s => PreviewMint(s, rate), s => PreviewRedeem(s, rate),
          a => PreviewWithdraw(a, rate).value)
  }

  function StakedVault(state: PoolState, now: nat): Vault
    requires state.totalSupply > 0 && Accrue(state, now) > 0
  {
    Vault(Accrue(state, now), state.totalSupply, a => GetRateDeposit(a, state, now).value,
          s => GetRateMint(s, state, now).value, s => GetRateRedeem(s, state, now),
          a => GetRateWithdraw(a, state, now).value)
  }

  lemma StataRounds(rate: nat)
    requires rate > 0
    ensures StataVault(rate).Rounds()
  {
  }

  /** At a rate of 10^27 a share is one asset. */
  lemma OneToOne(n: nat)
    ensures PreviewRedeem(n, 1000000000000000000000000000) == n
    ensures PreviewMint(n, 1000000000000000000000000000) == n
    ensures PreviewDeposit(n, 1000000000000000000000000000) == Success(n)
    ensures PreviewWithdraw(n, 1000000000000000000000000000) == Success(n)
  {
  }

  lemma StakedRounds(state: PoolState, now: nat)
    requires state.totalSupply > 0 && Accrue(state, now) > 0
    ensures StakedVault(state, now).Rounds()
  {
  }

  /** Paying for shares and depositing answer each other, and so do withdrawing and redeeming. */
  lemma Adjoint(v: Vault, a: nat, s: nat)
    requires v.Rounds()
    ensures v.mint(s) <= a <==> s <= v.deposit(a)
    ensures v.withdraw(a) <= s <==> a <= v.redeem(s)
  {
    FloorCeiling(v.deposit(a), v.mint(s), a, s, v.supply, v.assets);
    FloorCeiling(v.redeem(s), v.withdraw(a), s, a, v.assets, v.supply);
  }

  /** `f` is the floor of `a * k / d` and `c` the ceiling of `s * d / k`. */
  lemma FloorCeiling(f: nat, c: nat, a: nat, s: nat, k: nat, d: nat)
    requires IsFloor(f, Times(a, k), d) && IsCeiling(c, Times(s, d), k)
    ensures c <= a <==> s <= f
  {
    if c <= a {
      Scale(c, a, k);
      Cancel(s, f + 1, d);
    }
    if s <= f {
      Scale(s, f, d);
      Cancel(c, a + 1, k);
    }
  }

  lemma Scale(x: nat, y: nat, k: nat)
    requires x <= y
    ensures x * k <= y * k
  {
  }

  lemma Cancel(x: nat, y: nat, k: nat)
    requires x * k < y * k
    ensures x < y
  {
    if y <= x {
      Scale(y, x, k);
    }
  }

  // ----- no sequence of conversions gains anything -----

  datatype Wallet = Wallet(assets: nat, shares: nat)

  datatype Move = Deposit(a: nat) | Mint(s: nat) | Redeem(s: nat) | Withdraw(a: nat)

  ghost predicate Affords(v: Vault, w: Wallet, m: Move) {
    match m
    case Deposit(a) => a <= w.assets
    case Mint(s) => v.mint(s) <= w.assets
    case Redeem(s) => s <= w.shares
    case Withdraw(a) => v.withdraw(a) <= w.shares
  }

  ghost function After(v: Vault, w: Wallet, m: Move): Wallet
    requires Affords(v, w, m)
  {
    match m
    case Deposit(a) => Wallet(w.assets - a, w.shares + v.deposit(a))
    case Mint(s) => Wallet(w.assets - v.mint(s), w.shares + s)
    case Redeem(s) => Wallet(w.assets + v.redeem(s), w.shares - s)
    case Withdraw(a) => Wallet(w.assets + a, w.shares - v.withdraw(a))
  }

  /** What a wallet is worth, in units of one asset times one share of the whole supply. */
  ghost function Worth(v: Vault, w: Wallet): nat {
    Times(w.assets, v.supply) + Times(w.shares, v.assets)
  }

  lemma MoveNeverGains(v: Vault, w: Wallet, m: Move)
    requires v.Rounds() && Affords(v, w, m)
    ensures Worth(v, After(v, w, m)) <= Worth(v, w)
  {
    match m
    case Deposit(a) => Exchange(w.assets, w.shares, a, v.deposit(a), v.supply, v.assets);
    case Mint(s) => Exchange(w.assets, w.shares, v.mint(s), s, v.supply, v.assets);
    case Redeem(s) => Exchange(w.shares, w.assets, s, v.redeem(s), v.assets, v.supply);
    case Withdraw(a) => Exchange(w.shares, w.assets, v.withdraw(a), a, v.assets, v.supply);
  }

  /** Giving `x` worth `k` each for `y` worth `l` each. */
  lemma Exchange(gives: nat, gets: nat, x: nat, y: nat, k: nat, l: nat)
    requires x <= gives && y * l <= x * k
    ensures Times(gives - x, k) + Times(gets + y, l) <= Times(gives, k) + Times(gets, l)
  {
    assert (gives - x) * k == gives * k - x * k;
    assert (gets + y) * l == gets * l + y * l;
  }

  ghost predicate Affordable(v: Vault, w: Wallet, moves: seq<Move>)
    decreases |moves|
  {
    moves != [] ==> Affords(v, w, moves[0]) && Affordable(v, After(v, w, moves[0]), moves[1..])
  }

  ghost function AfterAll(v: Vault, w: Wallet, moves: seq<Move>): Wallet
    requires Affordable(v, w, moves)
    decreases |moves|
  {
    if moves == [] then w else AfterAll(v, After(v, w, moves[0]), moves[1..])
  }

  /** At one moment's prices, no chain of conversions makes a wallet worth more; one that ends with
      as many shares as it began has no more assets, and the other way round. */
  lemma {:induction false} NothingGained(v: Vault, w: Wallet, moves: seq<Move>)
    requires v.Rounds() && Affordable(v, w, moves)
    ensures var end := AfterAll(v, w, moves);
            && Worth(v, end) <= Worth(v, w)
            && (end.shares == w.shares ==> end.assets <= w.assets)
            && (end.assets == w.assets ==> end.shares <= w.shares)
    decreases |moves|
  {
    WorthNeverGrows(v, w, moves);
    var end := AfterAll(v, w, moves);
    if end.shares == w.shares && end.assets > w.assets {
      StrictScale(w.assets, end.assets, v.supply);
    }
    if end.assets == w.assets && end.shares > w.shares {
      StrictScale(w.shares, end.shares, v.assets);
    }
  }

  lemma {:induction false} WorthNeverGrows(v: Vault, w: Wallet, moves: seq<Move>)
    requires v.Rounds() && Affordable(v, w, moves)
    ensures Worth(v, AfterAll(v, w, moves)) <= Worth(v, w)
    decreases |moves|
  {
    if moves != [] {
      MoveNeverGains(v, w, moves[0]);
      WorthNeverGrows(v, After(v, w, moves[0]), moves[1..]);
    }
  }

  lemma StrictScale(x: nat, y: nat, k: nat)
    requires x < y && k > 0
    ensures Times(x, k) < Times(y, k)
  {
  }

  // ----- accrual -----

  lemma {:induction false} PairsEven(exp: int)
    ensures Pairs(exp) % 2 == 0
    decreases if exp < 0 then 2 - exp else exp
  {
    if exp < 0 {
      PairsEven(1 - exp);
      assert Pairs(exp) == Pairs(1 - exp);
    } else if exp >= 2 {
      PairsEven(exp - 1);
      assert Pairs(exp) == Pairs(exp - 1) + 2 * (exp - 1);
    }
  }

  lemma {:induction false} TriplesDivisible(exp: int)
    ensures Triples(exp) % 6 == 0
  {
    if exp >= 3 {
      TriplesDivisible(exp - 1);
      PairsEven(exp - 1);
      NextTriple(exp, Pairs(exp), Pairs(exp - 1));
      AddMultiple(Triples(exp - 1), Pairs(exp - 1), Triples(exp));
    }
  }

  lemma AddMultiple(t: nat, p: nat, next: nat)
    requires t % 6 == 0 && p % 2 == 0 && next == t + 3 * p
    ensures next % 6 == 0
  {
  }

  lemma NextTriple(exp: nat, p: nat, before: nat)
    requires exp >= 3 && p == exp * (exp - 1) && before == (exp - 1) * (exp - 2)
    ensures p * (exp - 2) == before * (exp - 3) + 3 * before
  {
    assert p * (exp - 2) == exp * before;
    assert before * (exp - 3) + 3 * before == before * exp;
  }

  /** Neither division of the growth factor drops anything. */
  lemma DivisionsExact(rate: nat, exp: int)
    ensures Times(Pairs(exp), RateSquared(rate)) % 2 == 0
    ensures Times(Triples(exp), RateCubed(rate)) % 6 == 0
  {
    PairsEven(exp);
    MultipleTimes(2, Pairs(exp), RateSquared(rate));
    TriplesDivisible(exp);
    MultipleTimes(6, Triples(exp), RateCubed(rate));
  }

  /** A multiple of `d` stays one when multiplied. */
  lemma MultipleTimes(d: nat, x: nat, y: nat)
    requires (d == 2 || d == 6) && x % d == 0
    ensures Times(x, y) % d == 0
  {
    Regroup(d, x / d, y, x);
    IsMultiple(d, Times(x / d, y), Times(x, y));
  }

  lemma IsMultiple(d: nat, t: nat, n: nat)
    requires (d == 2 || d == 6) && n == d * t
    ensures n % d == 0
  {
    if d == 2 {
      assert n == 2 * t;
    } else {
      assert n == 6 * t;
    }
  }

  lemma Regroup(d: nat, q: nat, y: nat, x: nat)
    requires x == d * q
    ensures Times(x, y) == d * Times(q, y)
  {
  }

  lemma GrowthGrows(rate: nat, e1: nat, e2: nat)
    requires e1 <= e2
    ensures BASE_27 <= Growth(rate, e1) <= Growth(rate, e2)
  {
    Scale(e1, e2, rate);
    if e1 > 0 {
      Product(e1, e2, e1 - 1, e2 - 1);
    }
    Product(Pairs(e1), Pairs(e2), if e1 > 2 then e1 - 2 else 0, if e2 > 2 then e2 - 2 else 0);
    Scale(Pairs(e1), Pairs(e2), RateSquared(rate));
    Scale(Triples(e1), Triples(e2), RateCubed(rate));
  }

  lemma Product(a: nat, b: nat, c: nat, d: nat)
    requires a <= b && c <= d
    ensures a * c <= b * d
  {
    Scale(a, b, c);
    Scale(c, d, b);
  }

  /** The rate compounds: each second adds the rate, the rate squared once for every second before it,
      and the rate cubed once for every pair of them, in units of 10^27 as a double holds it. */
  lemma GrowthCompounds(rate: nat, n: nat) returns (p2: nat, p3: nat)
    ensures Growth(rate, 0) == BASE_27 == 1000000000000000013287555072
    ensures 2 * (Growth(rate, n + 1) - Growth(rate, n)) == 2 * rate + 2 * n * p2 + n * (n - 1) * p3
    ensures Nearest(p2, rate * rate) && Nearest(p3, p2 * rate)
    ensures p2 == RateSquared(rate) && p3 == RateCubed(rate)
  {
    p2, p3 := RateSquared(rate), RateCubed(rate);
    RoundedToNearest(Times(rate, rate), p2);
    RoundedToNearest(Times(p2, rate), p3);
    TermsExact(rate, n);
    TermsExact(rate, n + 1);
    TermsExact(rate, 0);
    TermsMove(n, p2, p3, Pairs(n) * p2, Pairs(n + 1) * p2, Triples(n) * p3, Triples(n + 1) * p3);
    GrowthStep(rate, n, p2, p3, Growth(rate, n), Growth(rate, n + 1), Pairs(n) * p2, Pairs(n + 1) * p2,
               Triples(n) * p3, Triples(n + 1) * p3, rate * n, rate * (n + 1));
  }

  /** `p` units are `x`, to half a unit. */
  predicate Nearest(p: int, x: int) {
    p * BASE_27 - x <= HALF_BASE_27 && x - p * BASE_27 <= HALF_BASE_27
  }

  lemma RoundedToNearest(x: nat, p: nat)
    requires p == (x + HALF_BASE_27) / BASE_27
    ensures Nearest(p, x) && 2 * HALF_BASE_27 == BASE_27
  {
    assert x + HALF_BASE_27 == p * BASE_27 + (x + HALF_BASE_27) % BASE_27;
  }

  /** Six times the growth factor, without a division. */
  lemma TermsExact(rate: nat, exp: int)
    ensures 6 * Growth(rate, exp) ==
            6 * BASE_27 + 6 * (rate * exp) + 3 * (Pairs(exp) * RateSquared(rate)) + Triples(exp) * RateCubed(rate)
  {
    DivisionsExact(rate, exp);
  }

  lemma TermsMove(n: nat, p2: nat, p3: nat, a: int, a': int, t: int, t': int)
    requires a == Pairs(n) * p2 && a' == Pairs(n + 1) * p2 && t == Triples(n) * p3 && t' == Triples(n + 1) * p3
    ensures a' == a + 2 * n * p2 && t' == t + 3 * (n * (n - 1) * p3)
  {
    if n >= 2 {
      NextTriple(n + 1, Pairs(n + 1), Pairs(n));
    }
    assert Triples(n + 1) == Triples(n) + 3 * Pairs(n);
    Distribute(2 * n, Pairs(n), p2, Pairs(n + 1));
    Distribute(3 * Pairs(n), Triples(n), p3, Triples(n + 1));
  }

  lemma Distribute(more: int, x: int, p: int, y: int)
    requires y == x + more
    ensures y * p == x * p + more * p
  {
  }

  lemma GrowthStep(rate: nat, n: nat, p2: nat, p3: nat, g: int, g': int, a: int, a': int, t: int, t': int, r: int,
                   r': int)
    requires 6 * g == 6 * BASE_27 + 6 * r + 3 * a + t && 6 * g' == 6 * BASE_27 + 6 * r' + 3 * a' + t'
    requires a' == a + 2 * n * p2 && t' == t + 3 * (n * (n - 1) * p3) && r == rate * n && r' == rate * (n + 1)
    ensures 2 * (g' - g) == 2 * rate + 2 * n * p2 + n * (n - 1) * p3
  {
    assert r' == r + rate;
  }

  /** The assets are the amount grown by that factor, rounded down; before the last update only the
      first two terms are left, and the division rounds toward zero. */
  lemma AssetsGrown(amount: nat, rate: nat, exp: int)
    ensures exp >= 0 ==> IsFloor(ComputeUpdatedAssets(amount, rate, exp), amount * Growth(rate, exp), BASE_27)
    ensures IsTruncated(ComputeUpdatedAssets(amount, rate, exp), amount * Growth(rate, exp), BASE_27)
    ensures exp <= 2 ==>
              2 * Growth(rate, exp) == 2 * BASE_27 + 2 * (rate * exp) + exp * (exp - 1) * RateSquared(rate)
  {
    TermsExact(rate, exp);
    if exp == 0 || rate == 0 {
      assert Growth(rate, exp) == BASE_27 by {
        if rate == 0 {
          assert RateSquared(0) == 0 && RateCubed(0) == 0;
        }
      }
    }
    if exp >= 0 {
      GrowthGrows(rate, 0, exp);
      NonNegativeProduct(amount, Growth(rate, exp));
    }
  }

  lemma NonNegativeProduct(a: nat, b: nat)
    ensures a * b >= 0
  {
  }

  /** What the vault holds now: the assets it held at the last update, grown at its rate since then. */
  lemma AccruedSince(state: PoolState, now: nat)
    ensures Accrue(state, state.lastUpdate) == state.totalAssets
    ensures IsTruncated(Accrue(state, now), state.totalAssets * Growth(state.rate, now - state.lastUpdate), BASE_27)
  {
    AssetsGrown(state.totalAssets, state.rate, now - state.lastUpdate);
  }

  /** Five per cent a year, to the unit. */
  lemma OneYear()
    ensures ComputeUpdatedAssets(1000000000000000000000000, 1547125957666413085, 31536000) ==
            1050001312996351590467340
  {
    assert RateSquared(1547125957666413085) == 2393598729 && RateCubed(1547125957666413085) == 4;
    assert Pairs(31536000) == 994519264464000 && Triples(31536000) == 31363157535098175072000;
    assert Growth(1547125957666413085, 31536000) == 1050001312996351604419291072;
  }

  /** Assets only grow with the time elapsed. */
  lemma AccrualGrows(amount: nat, rate: nat, e1: nat, e2: nat)
    requires e1 <= e2
    ensures amount <= ComputeUpdatedAssets(amount, rate, e1) <= ComputeUpdatedAssets(amount, rate, e2)
  {
    GrowthGrows(rate, e1, e2);
    Scale(BASE_27, Growth(rate, e1), amount);
    FloorGrows(amount, Times(amount, BASE_27), Accrued(amount, rate, e1), Times(amount, Growth(rate, e1)), BASE_27);
    Scale(Growth(rate, e1), Growth(rate, e2), amount);
    FloorGrows(Accrued(amount, rate, e1), Times(amount, Growth(rate, e1)),
               Accrued(amount, rate, e2), Times(amount, Growth(rate, e2)), BASE_27);
  }

  function Accrued(amount: nat, rate: nat, exp: nat): (r: nat)
    ensures IsFloor(r, Times(amount, Growth(rate, exp)), BASE_27)
  {
    Floor(Times(amount, Growth(rate, exp)), BASE_27)
  }

  lemma FloorGrows(p: nat, m: nat, q: nat, n: nat, d: nat)
    requires m <= n && IsFloor(p, m, d) && IsFloor(q, n, d)
    ensures p <= q
  {
    Cancel(p, q + 1, d);
  }

  lemma FloorShrinks(p: nat, m: nat, q: nat, n: nat, d: nat, e: nat)
    requires m == n && d <= e && IsFloor(p, m, d) && IsFloor(q, n, e)
    ensures p >= q
  {
    Scale(d, e, q);
    Cancel(q, p + 1, d);
  }

  /** So a share is redeemed for no less, and a deposit buys no more shares, later on. */
  lemma LaterSharesAreWorthMore(state: PoolState, t1: nat, t2: nat, n: nat)
    requires state.lastUpdate <= t1 <= t2
    ensures GetRateRedeem(n, state, t1) <= GetRateRedeem(n, state, t2)
    ensures state.totalSupply > 0 && Accrue(state, t1) > 0 ==>
              && GetRateDeposit(n, state, t2).Success?
              && GetRateDeposit(n, state, t1).value >= GetRateDeposit(n, state, t2).value
  {
    AccrualGrows(state.totalAssets, state.rate, t1 - state.lastUpdate, t2 - state.lastUpdate);
    var a1, a2, supply := Accrue(state, t1), Accrue(state, t2), state.totalSupply;
    if supply > 0 {
      Scale(a1, a2, n);
      FloorGrows(GetRateRedeem(n, state, t1), Times(n, a1), GetRateRedeem(n, state, t2), Times(n, a2), supply);
      if a1 > 0 {
        FloorShrinks(GetRateDeposit(n, state, t1).value, Times(n, supply),
                     GetRateDeposit(n, state, t2).value, Times(n, supply), a1, a2);
      }
    }
  }
}
