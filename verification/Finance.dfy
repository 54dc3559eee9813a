/** Level-payment loans over exact reals: time-value formulas, discounting, amortization. */
module Finance {
  import opened Arithmetic
  import opened Wrappers
  import opened Syntax

  /** NonFinite stands for a division by zero, which the source lets run into infinity. */
  datatype FinanceError = PeriodsNotPositive | NoCashFlows | RateTooLow | NonFinite

  // ----- Formulas -----

  function FutureValue(rate: real, n: nat, payment: real, present: real): real {
    if rate == 0.0 then -present - payment * n as real
    else
      var factor := PowerOf(1.0 + rate, n);
      -present * factor - (payment * (factor - 1.0)) / rate
  }

  /** A rate of -100% has no present value. */
  function PresentValue(rate: real, n: nat, payment: real, future: real): real
    requires rate != -1.0
  {
    if rate == 0.0 then -future - payment * n as real
    else
      PowerNonzero(1.0 + rate, n);
      var factor := 1.0 / PowerOf(1.0 + rate, n);
      -future * factor - (payment * (1.0 - factor)) / rate
  }

  function Payment(rate: real, n: nat, present: real, future: real): Result<real, FinanceError> {
    if n == 0 then Failure(PeriodsNotPositive)
    else if rate == 0.0 then Success(-(present + future) / n as real)
    else
      var factor := PowerOf(1.0 + rate, n);
      if factor == 1.0 then Failure(NonFinite)
      else Success(PaymentAt(factor, rate, present, future))
  }

  /** The payment for a known growth factor. */
  function PaymentAt(factor: real, rate: real, present: real, future: real): real
    requires factor != 1.0
  {
    (-(present * factor + future) * rate) / (factor - 1.0)
  }

  lemma {:induction false} PowerNonzero(q: real, n: nat)
    requires q != 0.0
    ensures PowerOf(q, n) != 0.0
  {
    if n > 0 {
      PowerNonzero(q, n - 1);
    }
  }

  // ----- When the payment exists -----

  lemma {:induction false} PowerAboveOne(q: real, n: nat)
    requires q > 1.0 && n > 0
    ensures PowerOf(q, n) > 1.0
  {
    if n > 1 {
      PowerAboveOne(q, n - 1);
      GrowsBy(q, PowerOf(q, n - 1), PowerOf(q, n));
    } else {
      assert PowerOf(q, 1) == q * PowerOf(q, 0);
    }
  }

  lemma GrowsBy(q: real, p: real, r: real)
    requires q > 1.0 && p > 1.0 && r == q * p
    ensures r > 1.0
  {
    assert q * p > 1.0 * p;
  }

  lemma {:induction false} PowerBelowOne(q: real, n: nat)
    requires 0.0 <= q < 1.0 && n > 0
    ensures 0.0 <= PowerOf(q, n) < 1.0
  {
    if n > 1 {
      PowerBelowOne(q, n - 1);
      ShrinksBy(q, PowerOf(q, n - 1), PowerOf(q, n));
    } else {
      assert PowerOf(q, 1) == q * PowerOf(q, 0);
    }
  }

  lemma ShrinksBy(q: real, p: real, r: real)
    requires 0.0 <= q < 1.0 && 0.0 <= p < 1.0 && r == q * p
    ensures 0.0 <= r < 1.0
  {
    assert q * p <= 1.0 * p;
  }

  lemma {:induction false} PowerOfOne(n: nat)
    ensures PowerOf(1.0, n) == 1.0
  {
    if n > 0 {
      PowerOfOne(n - 1);
    }
  }

  lemma {:induction false} PowerOfNegative(q: real, n: nat)
    ensures PowerOf(-q, n) == if n % 2 == 0 then PowerOf(q, n) else -PowerOf(q, n)
  {
    if n > 0 {
      PowerOfNegative(q, n - 1);
      var p := PowerOf(q, n - 1);
      assert (-q) * p == -(q * p) && (-q) * (-p) == q * p;
    }
  }

  lemma {:induction false} PowerNonnegative(q: real, n: nat)
    requires q >= 0.0
    ensures PowerOf(q, n) >= 0.0
  {
    if n > 0 {
      PowerNonnegative(q, n - 1);
    }
  }

  lemma UnitPowerNonnegative(q: real, n: nat)
    requires q >= 0.0 && n > 0
    ensures PowerOf(q, n) == 1.0 <==> q == 1.0
  {
    if q > 1.0 {
      PowerAboveOne(q, n);
    } else if q < 1.0 {
      PowerBelowOne(q, n);
    } else {
      PowerOfOne(n);
    }
  }

  /** A payment exists for every rate but -200% over an even number of periods. */
  lemma PaymentExistsIff(rate: real, n: nat, present: real, future: real)
    ensures Payment(rate, n, present, future).Success? <==> n > 0 && !(rate == -2.0 && n % 2 == 0)
  {
    var q := 1.0 + rate;
    if n > 0 && rate != 0.0 {
      if q >= 0.0 {
        UnitPowerNonnegative(q, n);
      } else {
        PowerOfNegative(-q, n);
        PowerNonnegative(-q, n);
        UnitPowerNonnegative(-q, n);
      }
    }
  }

  // ----- The formulas invert one another -----

  lemma MulDiv(x: real, r: real, d: real)
    requires r != 0.0 && d != 0.0
    ensures (((x * r) / d) * d) / r == x
  {
    assert ((x * r) / d) * d == x * r;
  }

  lemma PaymentCovers(f: real, rate: real, present: real, future: real)
    requires rate != 0.0 && f != 1.0
    ensures (PaymentAt(f, rate, present, future) * (f - 1.0)) / rate == -(present * f + future)
  {
    MulDiv(-(present * f + future), rate, f - 1.0);
  }

  /** Paying PMT turns present into future. */
  lemma PaymentReachesFuture(rate: real, n: nat, present: real, future: real)
    requires Payment(rate, n, present, future).Success?
    ensures FutureValue(rate, n, Payment(rate, n, present, future).value, present) == future
  {
    var p := Payment(rate, n, present, future).value;
    if rate == 0.0 {
      assert p * n as real == -(present + future);
    } else {
      var f := PowerOf(1.0 + rate, n);
      PaymentCovers(f, rate, present, future);
    }
  }

  /** FutureValue and PresentValue are inverse to each other. */
  lemma FutureOfPresent(rate: real, n: nat, payment: real, future: real)
    requires rate != -1.0
    ensures FutureValue(rate, n, payment, PresentValue(rate, n, payment, future)) == future
  {
    if rate != 0.0 {
      hide FutureValue, PresentValue, PowerOf;
      PowerNonzero(1.0 + rate, n);
      var f := PowerOf(1.0 + rate, n);
      var g := 1.0 / f;
      var v := PresentValue(rate, n, payment, future);
      var a, b := (payment * (1.0 - g)) / rate, (payment * (f - 1.0)) / rate;
      PresentFormula(rate, n, payment, future, g, a);
      FutureFormula(rate, n, payment, v, f, b);
      ScaledAnnuity(payment, rate, f, g);
      RoundTrip(future, f, g, a, b, v);
    }
  }

  lemma RoundTrip(x: real, f: real, g: real, a: real, b: real, v: real)
    requires v == -x * g - a && g * f == 1.0 && a * f == b
    ensures -v * f - b == x
  {
    assert -v * f == x * (g * f) + a * f;
  }

  lemma PresentFormula(rate: real, n: nat, payment: real, future: real, g: real, a: real)
    requires rate != 0.0 && rate != -1.0 && PowerOf(1.0 + rate, n) != 0.0
    requires g == 1.0 / PowerOf(1.0 + rate, n) && a == (payment * (1.0 - g)) / rate
    ensures PresentValue(rate, n, payment, future) == -future * g - a
  {
  }

  lemma ScaledAnnuity(payment: real, rate: real, f: real, g: real)
    requires rate != 0.0 && g * f == 1.0
    ensures ((payment * (1.0 - g)) / rate) * f == (payment * (f - 1.0)) / rate
  {
    assert (payment * (1.0 - g)) * f == payment * (f - 1.0);
    var x := payment * (1.0 - g);
    assert (x / rate) * f == (x * f) / rate;
  }

  lemma PresentOfFuture(rate: real, n: nat, payment: real, present: real)
    requires rate != -1.0
    ensures PresentValue(rate, n, payment, FutureValue(rate, n, payment, present)) == present
  {
    if rate != 0.0 {
      hide FutureValue, PresentValue, PowerOf;
      PowerNonzero(1.0 + rate, n);
      var f := PowerOf(1.0 + rate, n);
      var g := 1.0 / f;
      var v := FutureValue(rate, n, payment, present);
      var a, b := (payment * (1.0 - g)) / rate, (payment * (f - 1.0)) / rate;
      FutureFormula(rate, n, payment, present, f, b);
      PresentFormula(rate, n, payment, v, g, a);
      ScaledAnnuity(payment, rate, f, g);
      UndoScale(a, b, f, g);
      RoundTrip(present, g, f, b, a, v);
    }
  }

  lemma UndoScale(a: real, b: real, f: real, g: real)
    requires g * f == 1.0 && a * f == b
    ensures b * g == a
  {
    assert b * g == a * (g * f);
  }

  lemma FutureFormula(rate: real, n: nat, payment: real, present: real, f: real, x: real)
    requires rate != 0.0 && f == PowerOf(1.0 + rate, n) && x == (payment * (f - 1.0)) / rate
    ensures FutureValue(rate, n, payment, present) == -present * f - x
  {
  }

  lemma PaymentFormula(rate: real, n: nat, present: real, future: real)
    requires rate != 0.0 && n > 0 && PowerOf(1.0 + rate, n) != 1.0
    ensures var f := PowerOf(1.0 + rate, n);
            Payment(rate, n, present, future) == Success(PaymentAt(f, rate, present, future))
  {
    hide PaymentAt;
  }

  /** The payment is recovered from the future value it leads to. */
  lemma PaymentOfFuture(rate: real, n: nat, payment: real, present: real)
    requires Payment(rate, n, present, FutureValue(rate, n, payment, present)).Success?
    ensures Payment(rate, n, present, FutureValue(rate, n, payment, present)) == Success(payment)
  {
    if rate == 0.0 {
      LevelFormula(n, payment, present);
      Quotient(-(present + (-present - payment * n as real)), payment, n as real);
    } else {
      PaymentOfFutureNonzero(rate, n, payment, present, PowerOf(1.0 + rate, n));
    }
  }

  lemma PaymentOfFutureNonzero(rate: real, n: nat, payment: real, present: real, f: real)
    requires rate != 0.0 && n > 0 && f == PowerOf(1.0 + rate, n) && f != 1.0
    ensures Payment(rate, n, present, FutureValue(rate, n, payment, present)) == Success(payment)
  {
    hide FutureValue, Payment, PowerOf;
    var x := (payment * (f - 1.0)) / rate;
    var v := FutureValue(rate, n, payment, present);
    FutureFormula(rate, n, payment, present, f, x);
    PaymentFormula(rate, n, present, v);
    NegateFuture(present, f, x, v);
    PaymentBack(payment, rate, present, f, v, x);
  }

  lemma NegateFuture(present: real, f: real, x: real, v: real)
    requires v == -present * f - x
    ensures -(present * f + v) == x
  {
  }

  lemma Quotient(s: real, p: real, m: real)
    requires m != 0.0 && s == p * m
    ensures s / m == p
  {
  }

  lemma LevelFormula(n: nat, payment: real, present: real)
    requires n > 0
    ensures FutureValue(0.0, n, payment, present) == -present - payment * n as real
    ensures Payment(0.0, n, present, FutureValue(0.0, n, payment, present))
         == Success(-(present + (-present - payment * n as real)) / n as real)
  {
  }

  lemma PaymentBack(p: real, r: real, present: real, f: real, v: real, x: real)
    requires r != 0.0 && f != 1.0 && x == (p * (f - 1.0)) / r && -(present * f + v) == x
    ensures PaymentAt(f, r, present, v) == p
  {
    assert x * r == p * (f - 1.0);
    SameProduct(-(present * f + v), x, r, r);
    Quotient(-(present * f + v) * r, p, f - 1.0);
  }

  /** The present value of the payments that reach future is the amount they were computed for. */
  lemma PresentOfPayment(rate: real, n: nat, present: real, future: real)
    requires rate != -1.0 && Payment(rate, n, present, future).Success?
    ensures PresentValue(rate, n, Payment(rate, n, present, future).value, future) == present
  {
    hide PresentValue, FutureValue, Payment;
    PaymentReachesFuture(rate, n, present, future);
    PresentOfFuture(rate, n, Payment(rate, n, present, future).value, present);
  }

  /** The payment is recovered from the present value it has. */
  lemma PaymentOfPresent(rate: real, n: nat, payment: real, future: real)
    requires rate != -1.0 && Payment(rate, n, PresentValue(rate, n, payment, future), future).Success?
    ensures Payment(rate, n, PresentValue(rate, n, payment, future), future) == Success(payment)
  {
    hide PresentValue, FutureValue, Payment;
    FutureOfPresent(rate, n, payment, future);
    PaymentOfFuture(rate, n, payment, PresentValue(rate, n, payment, future));
  }

  // ----- Net present value -----

  /** cf[0] + cf[1]/q + ... , the first k terms. */
  function Discounted(q: real, cf: seq<real>, k: nat): real
    requires q != 0.0 && k <= |cf|
  {
    if k == 0 then 0.0
    else
      PowerNonzero(q, k - 1);
      Discounted(q, cf, k - 1) + cf[k - 1] / PowerOf(q, k - 1)
  }

  method Npv(rate: real, cashFlows: seq<real>) returns (r: Result<real, FinanceError>)
    ensures r.Failure? <==> |cashFlows| == 0 || rate <= -1.0
    ensures r.Failure? ==> r.error == if |cashFlows| == 0 then NoCashFlows else RateTooLow
    ensures r.Success? ==> r.value == Discounted(1.0 + rate, cashFlows, |cashFlows|)
  {
    if |cashFlows| == 0 { return Failure(NoCashFlows); }
    if rate <= -1.0 { return Failure(RateTooLow); }
    var acc := 0.0;
    for i := 0 to |cashFlows|
      invariant acc == Discounted(1.0 + rate, cashFlows, i)
    {
      PowerNonzero(1.0 + rate, i);
      acc := acc + cashFlows[i] / PowerOf(1.0 + rate, i);
    }
    return Success(acc);
  }

  // ----- Amortization -----

  /** What is still owed after k payments, before any final correction. */
  function Balance(loan: real, rate: real, payment: real, k: nat): real {
    if k == 0 then loan
    else
      var b := Balance(loan, rate, payment, k - 1);
      b - (payment - b * rate)
  }

  datatype Row = Row(period: nat, payment: real, interest: real, principal: real, balance: real)

  function InterestAt(loan: real, rate: real, payment: real, k: nat): real {
    Balance(loan, rate, payment, k) * rate
  }

  method Amortize(loan: real, rate: real, n: nat) returns (r: Result<seq<Row>, FinanceError>)
    ensures n == 0 ==> r == Success([])
    ensures n > 0 ==> (r.Success? <==> Payment(rate, n, loan, 0.0).Success?)
    ensures r.Failure? ==> r.error == NonFinite
    ensures n > 0 && r.Success? ==> Schedule(r.value, loan, rate, n, -Payment(rate, n, loan, 0.0).value)
  {
    hide Balance, PowerOf, RowAt;
    if n == 0 { return Success([]); }
    var p := Payment(rate, n, loan, 0.0);
    if p.Failure? { return Failure(NonFinite); }
    hide Payment;
    var pmt := -p.value;
    var out: seq<Row> := [];
    var balance := loan;
    BalanceStart(loan, rate, pmt);
    LastBalanceZero(loan, rate, n);
    for i := 1 to n + 1
      invariant |out| == i - 1 && balance == Balance(loan, rate, pmt, i - 1)
      invariant i == n + 1 ==> balance == 0.0 && out[n - 1].balance == 0.0
      invariant forall k | 0 <= k < i - 1 :: RowAt(out[k], loan, rate, pmt, k)
    {
      var interest := balance * rate;
      var principalPaid := pmt - interest;
      RowFollows(loan, rate, pmt, i - 1, Row(i, pmt, interest, principalPaid, balance - principalPaid));
      balance := balance - principalPaid;
      if i == n { balance := 0.0; }
      out := out + [Row(i, pmt, interest, principalPaid, balance)];
    }
    return Success(out);
  }

  lemma RowFollows(loan: real, rate: real, payment: real, k: nat, row: Row)
    requires var b := Balance(loan, rate, payment, k);
             row == Row(k + 1, payment, b * rate, payment - b * rate, b - (payment - b * rate))
    ensures RowAt(row, loan, rate, payment, k) && row.balance == Balance(loan, rate, payment, k + 1)
  {
  }

  /** Row k carries the unrounded, uncorrected recurrence. */
  ghost predicate RowAt(row: Row, loan: real, rate: real, payment: real, k: nat) {
    && row.period == k + 1 && row.payment == payment
    && row.interest == InterestAt(loan, rate, payment, k)
    && row.principal == payment - InterestAt(loan, rate, payment, k)
    && row.balance == Balance(loan, rate, payment, k + 1)
  }

  /** The rows follow the recurrence to the end: the final correction changes nothing. */
  ghost predicate Schedule(rows: seq<Row>, loan: real, rate: real, n: nat, payment: real) {
    && |rows| == n > 0
    && (forall k | 0 <= k < n :: RowAt(rows[k], loan, rate, payment, k))
    && rows[n - 1].balance == 0.0
  }

  /** The recurrence the loop runs is the closed form: what is owed is minus the future value. */
  lemma {:induction false} BalanceIsFutureValue(loan: real, rate: real, payment: real, k: nat)
    ensures Balance(loan, rate, payment, k) == -FutureValue(rate, k, -payment, loan)
  {
    if k == 0 {
      FutureStart(rate, -payment, loan);
    } else {
      BalanceIsFutureValue(loan, rate, payment, k - 1);
      BalanceStep(loan, rate, payment, k);
      FutureStep(rate, k, -payment, loan);
      NegatedStep(Balance(loan, rate, payment, k - 1), FutureValue(rate, k - 1, -payment, loan), rate);
    }
  }

  lemma NegatedStep(b: real, v: real, rate: real)
    requires b == -v
    ensures b * (1.0 + rate) == -(v * (1.0 + rate))
  {
  }

  lemma BalanceStep(loan: real, rate: real, payment: real, k: nat)
    requires k > 0
    ensures Balance(loan, rate, payment, k) == Balance(loan, rate, payment, k - 1) * (1.0 + rate) - payment
  {
    var b := Balance(loan, rate, payment, k - 1);
    assert b * (1.0 + rate) == b + b * rate;
  }

  lemma PowerStep(q: real, k: nat)
    requires k > 0
    ensures PowerOf(q, k) == q * PowerOf(q, k - 1)
  {
  }

  lemma FutureStart(rate: real, payment: real, present: real)
    ensures FutureValue(rate, 0, payment, present) == -present
  {
    assert PowerOf(1.0 + rate, 0) == 1.0;
    if rate != 0.0 {
      assert payment * 0.0 / rate == 0.0;
    }
  }

  lemma FutureAtZero(n: nat, payment: real, present: real)
    ensures FutureValue(0.0, n, payment, present) == -present - payment * n as real
  {
  }

  /** One more period compounds the value and adds a payment. */
  lemma FutureStep(rate: real, k: nat, payment: real, present: real)
    requires k > 0
    ensures FutureValue(rate, k, payment, present)
         == FutureValue(rate, k - 1, payment, present) * (1.0 + rate) - payment
  {
    hide FutureValue, PowerOf;
    if rate == 0.0 {
      FutureAtZero(k, payment, present);
      FutureAtZero(k - 1, payment, present);
      assert payment * k as real == payment * (k - 1) as real + payment;
    } else {
      var f, f' := PowerOf(1.0 + rate, k - 1), PowerOf(1.0 + rate, k);
      var x, x' := (payment * (f - 1.0)) / rate, (payment * (f' - 1.0)) / rate;
      PowerStep(1.0 + rate, k);
      FutureFormula(rate, k - 1, payment, present, f, x);
      FutureFormula(rate, k, payment, present, f', x');
      NextFuture(present, rate, payment, f, f', x, x');
    }
  }

  lemma NextFuture(v: real, rate: real, payment: real, f: real, f': real, x: real, x': real)
    requires rate != 0.0 && f' == (1.0 + rate) * f
    requires x == (payment * (f - 1.0)) / rate && x' == (payment * (f' - 1.0)) / rate
    ensures -v * f' - x' == (-v * f - x) * (1.0 + rate) - payment
  {
    var y := payment * (f - 1.0);
    assert payment * (f' - 1.0) == y * (1.0 + rate) + payment * rate;
    assert (y * (1.0 + rate) + payment * rate) / rate == (y / rate) * (1.0 + rate) + payment;
    assert -v * f' == (-v * f) * (1.0 + rate);
  }

  /** The loan is paid off exactly: the balance before the correction is already zero. */
  lemma LastBalanceZero(loan: real, rate: real, n: nat)
    requires Payment(rate, n, loan, 0.0).Success?
    ensures Balance(loan, rate, -Payment(rate, n, loan, 0.0).value, n) == 0.0
  {
    hide Balance, FutureValue, Payment;
    var p := Payment(rate, n, loan, 0.0).value;
    BalanceIsFutureValue(loan, rate, -p, n);
    PaymentReachesFuture(rate, n, loan, 0.0);
    assert -(-p) == p;
  }

  // ----- Totals -----

  function Total(rows: seq<Row>, part: Row -> real, k: nat): real
    requires k <= |rows|
  {
    if k == 0 then 0.0 else Total(rows, part, k - 1) + part(rows[k - 1])
  }

  const PrincipalOf: Row -> real := (r: Row) => r.principal
  const InterestOf: Row -> real := (r: Row) => r.interest

  lemma {:induction false} PartialTotals(rows: seq<Row>, loan: real, rate: real, n: nat, payment: real, k: nat)
    requires Schedule(rows, loan, rate, n, payment) && k <= n
    ensures Total(rows, PrincipalOf, k) == loan - Balance(loan, rate, payment, k)
    ensures Total(rows, InterestOf, k) == payment * k as real - Total(rows, PrincipalOf, k)
  {
    if k > 0 {
      PartialTotals(rows, loan, rate, n, payment, k - 1);
      assert RowAt(rows[k - 1], loan, rate, payment, k - 1);
      assert payment * k as real == payment * (k - 1) as real + payment;
    }
  }

  /** Principal portions add up to the loan, interest to the payments minus the loan. */
  lemma AmortizationCloses(rows: seq<Row>, loan: real, rate: real, n: nat, payment: real)
    requires Schedule(rows, loan, rate, n, payment)
    ensures Total(rows, PrincipalOf, n) == loan
    ensures Total(rows, InterestOf, n) == payment * n as real - loan
  {
    PartialTotals(rows, loan, rate, n, payment, n);
    assert RowAt(rows[n - 1], loan, rate, payment, n - 1);
  }

  /** Lending the loan and receiving the payments is worth nothing at the loan's own rate. */
  lemma LoanIsFair(loan: real, rate: real, n: nat)
    requires Payment(rate, n, loan, 0.0).Success? && rate != -1.0
    ensures var flows := LoanFlows(loan, -Payment(rate, n, loan, 0.0).value, n);
            Discounted(1.0 + rate, flows, n + 1) == 0.0
  {
    hide Balance, Payment, PowerOf, Discounted;
    var pmt := -Payment(rate, n, loan, 0.0).value;
    LastBalanceZero(loan, rate, n);
    DiscountedIsBalance(loan, rate, pmt, n, n);
    PowerNonzero(1.0 + rate, n);
    ZeroProduct(Discounted(1.0 + rate, LoanFlows(loan, pmt, n), n + 1), PowerOf(1.0 + rate, n));
  }

  lemma ZeroProduct(d: real, f: real)
    requires f != 0.0 && d * f == 0.0
    ensures d == 0.0
  {
  }

  function LoanFlows(loan: real, payment: real, n: nat): (cf: seq<real>)
    ensures |cf| == n + 1 && cf[0] == -loan && forall i | 0 < i <= n :: cf[i] == payment
  {
    [-loan] + seq(n, _ => payment)
  }

  /** Compounded forward, what has been discounted so far is minus the balance. */
  lemma {:induction false} DiscountedIsBalance(loan: real, rate: real, payment: real, n: nat, k: nat)
    requires rate != -1.0 && k <= n
    ensures Discounted(1.0 + rate, LoanFlows(loan, payment, n), k + 1) * PowerOf(1.0 + rate, k)
         == -Balance(loan, rate, payment, k)
  {
    hide Balance, PowerOf, Discounted, LoanFlows;
    var q, cf := 1.0 + rate, LoanFlows(loan, payment, n);
    if k == 0 {
      DiscountStart(q, cf);
      BalanceStart(loan, rate, payment);
    } else {
      DiscountedIsBalance(loan, rate, payment, n, k - 1);
      BalanceStep(loan, rate, payment, k);
      PowerStep(q, k);
      PowerNonzero(q, k);
      DiscountStep(q, cf, k);
      NextDiscount(q, payment, PowerOf(q, k - 1), PowerOf(q, k), Discounted(q, cf, k), Discounted(q, cf, k + 1),
                   Balance(loan, rate, payment, k - 1), Balance(loan, rate, payment, k));
    }
  }

  lemma BalanceStart(loan: real, rate: real, payment: real)
    ensures Balance(loan, rate, payment, 0) == loan
  {
  }

  lemma DiscountStart(q: real, cf: seq<real>)
    requires q != 0.0 && |cf| > 0
    ensures PowerOf(q, 0) == 1.0 && Discounted(q, cf, 1) == cf[0]
  {
    assert Discounted(q, cf, 1) == Discounted(q, cf, 0) + cf[0] / PowerOf(q, 0);
  }

  lemma DiscountStep(q: real, cf: seq<real>, k: nat)
    requires q != 0.0 && k < |cf| && PowerOf(q, k) != 0.0
    ensures Discounted(q, cf, k + 1) == Discounted(q, cf, k) + cf[k] / PowerOf(q, k)
  {
  }

  lemma NextDiscount(q: real, p: real, f: real, f': real, d: real, d': real, b: real, b': real)
    requires f' != 0.0 && f' == q * f && d' == d + p / f' && d * f == -b && b' == b * q - p
    ensures d' * f' == -b'
  {
    assert (p / f') * f' == p;
    assert d * f' == (d * f) * q;
  }
}
