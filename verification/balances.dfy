/** The leave balance ledger: one four-counter record per (employee, year),
    created lazily, debited on approval and credited back, capped, on delete. */
module Balances {
  import opened Common
  import opened LeaveModel

  /** The initial value of every counter of a new record. */
  const DefaultAllotment: int := 12

  /** The cap applied when days are given back. */
  const RestoreCeiling: int := 12

  /** Four plain integer counters; nothing forbids negative values. */
  datatype Balance = Balance(casual: int, sick: int, withPay: int, withoutPay: int)

  datatype BalanceKey = BalanceKey(employee: string, year: int)

  /** The balance table, keyed by (employee, year): a lookup yields at most one record. */
  type Ledger = map<BalanceKey, Balance>

  /** A balance lookup: the record found or created (None for null) and the
      ledger after any write the lookup made. */
  datatype Lookup = Lookup(balance: Option<Balance>, ledger: Ledger)

  /** A sufficiency check: its verdict and the ledger after the lazy creation
      it may have triggered. */
  datatype Check = Check(sufficient: bool, ledger: Ledger)

  function Min(a: int, b: int): int
  {
    if a <= b then a else b
  }

  /** The counter `t` dispatches to (`getCurrentBalance`). */
  function Counter(b: Balance, t: LeaveType): int
  {
    match t
    case Casual => b.casual
    case Sick => b.sick
    case LeaveWithPay => b.withPay
    case LeaveWithoutPay => b.withoutPay
  }

  /** `b` with the counter of `t` set to `v`. */
  function WithCounter(b: Balance, t: LeaveType, v: int): (r: Balance)
    ensures Counter(r, t) == v
    ensures forall u :: u != t ==> Counter(r, u) == Counter(b, u)
  {
    match t
    case Casual => b.(casual := v)
    case Sick => b.(sick := v)
    case LeaveWithPay => b.(withPay := v)
    case LeaveWithoutPay => b.(withoutPay := v)
  }

  /** A freshly created record. */
  function NewBalance(): (b: Balance)
    ensures forall t :: Counter(b, t) == DefaultAllotment
  {
    Balance(DefaultAllotment, DefaultAllotment, DefaultAllotment, DefaultAllotment)
  }

  /** `getLeaveBalance`: the existing record for (employee, year); if there is
      none and the employee exists, a new all-default record that is saved;
      otherwise null. */
  function GetLeaveBalance(ledger: Ledger, employees: set<string>, employee: string, year: int): (r: Lookup)
    ensures var key := BalanceKey(employee, year);
      && (key in ledger ==> r.balance == Some(ledger[key]) && r.ledger == ledger)
      && (key !in ledger && employee in employees ==>
            r.balance == Some(NewBalance()) && r.ledger == ledger[key := NewBalance()])
      && (key !in ledger && employee !in employees ==> r.balance == None && r.ledger == ledger)
  {
    var key := BalanceKey(employee, year);
    if key in ledger then Lookup(Some(ledger[key]), ledger)
    else if employee in employees then Lookup(Some(NewBalance()), ledger[key := NewBalance()])
    else Lookup(None, ledger)
  }

  /** `hasSufficientBalance`: looks the current-year record up (creating it
      if need be) and compares the counter of `t` with the requested days. */
  function HasSufficientBalance(ledger: Ledger, employees: set<string>, employee: string,
                                t: LeaveType, requestedDays: int, currentYear: int): (r: Check)
    ensures var key := BalanceKey(employee, currentYear);
      r.sufficient <==>
        (key in ledger && Counter(ledger[key], t) >= requestedDays)
        || (key !in ledger && employee in employees && DefaultAllotment >= requestedDays)
    ensures r.ledger == GetLeaveBalance(ledger, employees, employee, currentYear).ledger
  {
    var found := GetLeaveBalance(ledger, employees, employee, currentYear);
    match found.balance
    case None => Check(false, found.ledger)
    case Some(b) => Check(Counter(b, t) >= requestedDays, found.ledger)
  }

  /** `deductLeaveBalance`: reads the current-year record directly (no lazy
      creation) and subtracts `days` from the counter of `t`, with no floor.
      Null, and no write, when there is no record. */
  function DeductLeaveBalance(ledger: Ledger, employee: string, t: LeaveType, days: int, currentYear: int): (r: Lookup)
    ensures var key := BalanceKey(employee, currentYear);
      && (key !in ledger <==> r.balance == None)
      && (key !in ledger ==> r.ledger == ledger)
      && (key in ledger ==>
            && Counter(r.balance.value, t) == Counter(ledger[key], t) - days
            && (forall u :: u != t ==> Counter(r.balance.value, u) == Counter(ledger[key], u))
            && r.ledger == ledger[key := r.balance.value])
  {
    var key := BalanceKey(employee, currentYear);
    if key in ledger then
      var b := WithCounter(ledger[key], t, Counter(ledger[key], t) - days);
      Lookup(Some(b), ledger[key := b])
    else Lookup(None, ledger)
  }

  /** `restoreLeaveBalance`: looks the current-year record up (creating it if
      need be) and gives `days` back to the counter of `t`, capped at the
      ceiling. No write when there is no record and no such employee. */
  function RestoreLeaveBalance(ledger: Ledger, employees: set<string>, employee: string,
                               t: LeaveType, days: int, currentYear: int): (r: Ledger)
    ensures var key := BalanceKey(employee, currentYear);
      && (key !in ledger && employee !in employees ==> r == ledger)
      && (key in ledger || employee in employees ==>
            var before := if key in ledger then ledger[key] else NewBalance();
            && key in r
            && Counter(r[key], t) == Min(RestoreCeiling, Counter(before, t) + days)
            && (forall u :: u != t ==> Counter(r[key], u) == Counter(before, u))
            && (forall k :: k != key ==> (k in r <==> k in ledger)))
    ensures forall k :: k in ledger && k != BalanceKey(employee, currentYear) ==> r[k] == ledger[k]
  {
    var found := GetLeaveBalance(ledger, employees, employee, currentYear);
    match found.balance
    case None => found.ledger
    case Some(b) =>
      found.ledger[BalanceKey(employee, currentYear) := WithCounter(b, t, Min(RestoreCeiling, Counter(b, t) + days))]
  }

  /** Every counter of every record is at most the restore ceiling. */
  predicate WithinCeiling(ledger: Ledger)
  {
    forall k, t :: k in ledger ==> Counter(ledger[k], t) <= RestoreCeiling
  }

  /** A second lookup of the same (employee, year) returns the same record and
      writes nothing. */
  lemma GetLeaveBalanceIsIdempotent(ledger: Ledger, employees: set<string>, employee: string, year: int)
    ensures var first := GetLeaveBalance(ledger, employees, employee, year);
      var second := GetLeaveBalance(first.ledger, employees, employee, year);
      second.balance == first.balance && second.ledger == first.ledger
  {
  }

  /** The default allotment equals the ceiling, so giving back days to an
      untouched record leaves it at the default. */
  lemma RestoreOnNewRecordKeepsDefault(employees: set<string>, employee: string, t: LeaveType, days: nat, year: int)
    requires employee in employees
    ensures var r := RestoreLeaveBalance(map[], employees, employee, t, days, year);
      BalanceKey(employee, year) in r && r[BalanceKey(employee, year)] == NewBalance()
  {
    var r := RestoreLeaveBalance(map[], employees, employee, t, days, year);
    var b := r[BalanceKey(employee, year)];
    assert forall u :: Counter(b, u) == Counter(NewBalance(), u);
  }

  /** Restoring what was deducted gives back the original ledger, provided the
      counter was not above the ceiling. */
  lemma RestoreUndoesDeduct(ledger: Ledger, employees: set<string>, employee: string,
                            t: LeaveType, days: nat, currentYear: int)
    requires BalanceKey(employee, currentYear) in ledger
    requires Counter(ledger[BalanceKey(employee, currentYear)], t) <= RestoreCeiling
    ensures var deducted := DeductLeaveBalance(ledger, employee, t, days, currentYear).ledger;
      RestoreLeaveBalance(deducted, employees, employee, t, days, currentYear) == ledger
  {
    var key := BalanceKey(employee, currentYear);
    var deducted := DeductLeaveBalance(ledger, employee, t, days, currentYear).ledger;
    var r := RestoreLeaveBalance(deducted, employees, employee, t, days, currentYear);
    assert forall u :: Counter(r[key], u) == Counter(ledger[key], u);
    assert r[key] == ledger[key] by {
      assert r[key].casual == Counter(r[key], Casual);
      assert r[key].sick == Counter(r[key], Sick);
      assert r[key].withPay == Counter(r[key], LeaveWithPay);
      assert r[key].withoutPay == Counter(r[key], LeaveWithoutPay);
    }
  }

  /** Deduction has no lower bound: a counter of 1 debited 2 days becomes -1. */
  lemma DeductCanGoNegative(employee: string, year: int)
    ensures var ledger := map[BalanceKey(employee, year) := WithCounter(NewBalance(), Sick, 1)];
      var r := DeductLeaveBalance(ledger, employee, Sick, 2, year);
      r.balance.Some? && Counter(r.balance.value, Sick) == -1
  {
  }

  /** No ledger operation takes a counter above the ceiling (deductions of a
      non-negative number of days). */
  lemma LedgerOperationsStayWithinCeiling(ledger: Ledger, employees: set<string>, employee: string,
                                          t: LeaveType, days: nat, year: int)
    requires WithinCeiling(ledger)
    ensures WithinCeiling(GetLeaveBalance(ledger, employees, employee, year).ledger)
    ensures WithinCeiling(DeductLeaveBalance(ledger, employee, t, days, year).ledger)
    ensures WithinCeiling(RestoreLeaveBalance(ledger, employees, employee, t, days, year))
  {
  }
}
