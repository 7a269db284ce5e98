/**
 * Scheduled YQPoint distribution (app/scheduler_func.py).
 *
 * The college account pays a fixed amount to every activated person and to
 * every activated organisation whose balance is at most a threshold, and a
 * transfer record is written per recipient.  The person and organisation
 * tables are one sequence of accounts, each tagged with its kind; a
 * queryset is a `Recipients` filter that is evaluated afresh wherever the
 * source evaluates it.
 */
module Scheduler {
  import opened Wrappers

  /** The name of the college organisation that pays every distribution. */
  const College: string := "元培学院"

  /** The value of `YQPoint_Distribute.DistributionType.TEMPORARY`. */
  const TemporaryType: int := 0

  datatype Kind = Person | Org

  /** A NaturalPerson or Organization row: the id of its user account
      (`person_id` or `organization_id`), its name, whether it is activated,
      and its YQPoint balance. */
  datatype Account = Account(kind: Kind, userId: int, name: string, activated: bool, points: int)

  /** A recipient queryset: activated accounts of one kind whose balance is
      at most `maxPoints`, optionally excluding one name. */
  datatype Recipients = Recipients(kind: Kind, maxPoints: int, excludedName: Option<string>)

  predicate Matches(a: Account, q: Recipients)
  {
    && a.kind == q.kind
    && a.activated
    && a.points <= q.maxPoints
    && (q.excludedName.Some? ==> a.name != q.excludedName.value)
  }

  /** The filter rejects this account whatever its balance. */
  predicate ExcludedWhateverBalance(a: Account, q: Recipients)
  {
    a.kind != q.kind || !a.activated || (q.excludedName.Some? && a.name == q.excludedName.value)
  }

  /** Evaluating a queryset: its matching accounts, in table order. */
  function Selected(rows: seq<Account>, q: Recipients): (r: seq<Account>)
    ensures |r| <= |rows|
  {
    if |rows| == 0 then []
    else Selected(rows[..|rows| - 1], q) + (if Matches(rows[|rows| - 1], q) then [rows[|rows| - 1]] else [])
  }

  /** An account is selected exactly when it is in the table and matches. */
  lemma {:induction false} SelectedIsFilter(rows: seq<Account>, q: Recipients, a: Account)
    ensures a in Selected(rows, q) <==> a in rows && Matches(a, q)
  {
    if |rows| > 0 {
      var n := |rows| - 1;
      SelectedIsFilter(rows[..n], q, a);
      assert rows == rows[..n] + [rows[n]];
    }
  }

  /** The effect of `update(YQPoint=F('YQPoint') + amount)` on one row. */
  function CreditRow(a: Account, q: Recipients, amount: int): Account
  {
    if Matches(a, q) then a.(points := a.points + amount) else a
  }

  /** The bulk update over the whole table. */
  function Credit(rows: seq<Account>, q: Recipients, amount: int): (r: seq<Account>)
    ensures |r| == |rows|
  {
    if |rows| == 0 then []
    else Credit(rows[..|rows| - 1], q, amount) + [CreditRow(rows[|rows| - 1], q, amount)]
  }

  /** The bulk update treats each row on its own. */
  lemma {:induction false} CreditAt(rows: seq<Account>, q: Recipients, amount: int, i: nat)
    requires i < |rows|
    ensures Credit(rows, q, amount)[i] == CreditRow(rows[i], q, amount)
  {
    var n := |rows| - 1;
    if i < n {
      CreditAt(rows[..n], q, amount, i);
      assert Credit(rows, q, amount)[..n] == Credit(rows[..n], q, amount);
    }
  }

  /** The sum of all balances. */
  function Total(rows: seq<Account>): int
  {
    if |rows| == 0 then 0 else Total(rows[..|rows| - 1]) + rows[|rows| - 1].points
  }

  /** The only status this code writes. */
  datatype TransferStatus = Accepted

  datatype TransferRecord = TransferRecord(
    proposer: int, recipient: int, amount: int,
    startTime: int, finishTime: int, status: TransferStatus)

  /** One accepted record per recipient, in recipient order. */
  function Records(recipients: seq<Account>, proposerId: int, amount: int, time: int): (r: seq<TransferRecord>)
    ensures |r| == |recipients|
    ensures forall k :: 0 <= k < |r| ==>
              r[k] == TransferRecord(proposerId, recipients[k].userId, amount, time, time, Accepted)
  {
    if |recipients| == 0 then []
    else
      Records(recipients[..|recipients| - 1], proposerId, amount, time)
      + [TransferRecord(proposerId, recipients[|recipients| - 1].userId, amount, time, time, Accepted)]
  }

  /** The table, the proposer's in-memory balance and the new records after
      one `distribute_YQPoint_to_User` call. */
  datatype Outcome = Outcome(accounts: seq<Account>, proposerPoints: int, records: seq<TransferRecord>)

  /** `distribute_YQPoint_to_User`: nothing happens without a recipient;
      otherwise every recipient is credited, the proposer is debited the
      amount times the number of rows the queryset matches after the
      credit, the proposer's in-memory balance is saved, and records go to
      the rows the queryset matches after that save. */
  function Distribution(rows: seq<Account>, proposer: nat, proposerPoints: int,
                        q: Recipients, amount: int, time: int): (r: Outcome)
    requires proposer < |rows|
    ensures |r.accounts| == |rows|
  {
    if |Selected(rows, q)| == 0 then Outcome(rows, proposerPoints, [])
    else
      var credited := Credit(rows, q, amount);
      var debited := proposerPoints - Payment(|Selected(credited, q)|, amount);
      var saved := SaveBalance(credited, proposer, debited);
      Outcome(saved, debited, Records(Selected(saved, q), rows[proposer].userId, amount, time))
  }

  /** `save()` of an in-memory row: its stored balance becomes `points`. */
  function SaveBalance(rows: seq<Account>, i: nat, points: int): seq<Account>
    requires i < |rows|
  {
    rows[i := rows[i].(points := points)]
  }

  /** Saving one balance changes that row's balance and nothing else. */
  lemma SaveBalanceChangesOneRow(rows: seq<Account>, i: nat, points: int)
    requires i < |rows|
    ensures var r := SaveBalance(rows, i, points);
            && |r| == |rows| && r[i].points == points && r[i].(points := rows[i].points) == rows[i]
            && forall j :: 0 <= j < |rows| && j != i ==> r[j] == rows[j]
  {
  }

  /** The first two steps of a distribution with at least one recipient:
      the bulk credit and the proposer's save. */
  lemma DistributionSteps(rows: seq<Account>, proposer: nat, proposerPoints: int,
                          q: Recipients, amount: int, time: int, saved: seq<Account>, debited: int)
    requires proposer < |rows| && |Selected(rows, q)| > 0
    requires debited == proposerPoints - Payment(|Selected(Credit(rows, q, amount), q)|, amount)
    requires saved == SaveBalance(Credit(rows, q, amount), proposer, debited)
    ensures Distribution(rows, proposer, proposerPoints, q, amount, time).accounts == saved
    ensures Distribution(rows, proposer, proposerPoints, q, amount, time).proposerPoints == debited
  {
  }

  /** The last step: the records follow the saved table. */
  lemma DistributionRecords(rows: seq<Account>, proposer: nat, proposerPoints: int,
                            q: Recipients, amount: int, time: int, records: seq<TransferRecord>)
    requires proposer < |rows| && |Selected(rows, q)| > 0
    requires records == Records(Selected(Distribution(rows, proposer, proposerPoints, q, amount, time).accounts, q),
                                rows[proposer].userId, amount, time)
    ensures Distribution(rows, proposer, proposerPoints, q, amount, time).records == records
  {
  }

  /** What one distribution does to the table: only balances change; every
      other row the queryset matches gains the amount; the proposer's row
      ends up holding the in-memory balance, which has lost the amount once
      per row matching after the credit; and the records go to the rows
      matching at the end. */
  lemma DistributionEffect(rows: seq<Account>, proposer: nat, proposerPoints: int,
                           q: Recipients, amount: int, time: int)
    requires proposer < |rows| && |Selected(rows, q)| > 0
    ensures var r := Distribution(rows, proposer, proposerPoints, q, amount, time);
            && (forall i :: 0 <= i < |rows| ==> r.accounts[i] == rows[i].(points := r.accounts[i].points))
            && (forall i :: 0 <= i < |rows| && i != proposer ==>
                  r.accounts[i].points == rows[i].points + (if Matches(rows[i], q) then amount else 0))
            && r.proposerPoints == proposerPoints - Payment(|Selected(Credit(rows, q, amount), q)|, amount)
            && r.accounts[proposer].points == r.proposerPoints
            && r.records == Records(Selected(r.accounts, q), rows[proposer].userId, amount, time)
  {
    var credited := Credit(rows, q, amount);
    var r := Distribution(rows, proposer, proposerPoints, q, amount, time);
    assert r.accounts == credited[proposer := credited[proposer].(points := r.proposerPoints)];
    forall i | 0 <= i < |rows|
      ensures r.accounts[i] == rows[i].(points := r.accounts[i].points)
      ensures i != proposer ==> r.accounts[i].points == rows[i].points + (if Matches(rows[i], q) then amount else 0)
    {
      CreditAt(rows, q, amount, i);
    }
  }

  /** An empty queryset returns before the update: nothing changes and no
      record is written. */
  lemma DistributionWithoutRecipients(rows: seq<Account>, proposer: nat, proposerPoints: int,
                                      q: Recipients, amount: int, time: int)
    requires proposer < |rows| && |Selected(rows, q)| == 0
    ensures Distribution(rows, proposer, proposerPoints, q, amount, time) == Outcome(rows, proposerPoints, [])
  {
  }

  /** Re-evaluating a queryset after the credit: only rows that matched
      before can match, and the same number match exactly when every
      credited row is still within the threshold. */
  lemma {:induction false} CreditNarrowsSelection(rows: seq<Account>, q: Recipients, amount: int)
    ensures |Selected(Credit(rows, q, amount), q)| <= |Selected(rows, q)|
    ensures |Selected(Credit(rows, q, amount), q)| == |Selected(rows, q)| <==>
              forall i :: 0 <= i < |rows| && Matches(rows[i], q) ==> rows[i].points + amount <= q.maxPoints
  {
    if |rows| > 0 {
      var init := rows[..|rows| - 1];
      var last := rows[|rows| - 1];
      CreditNarrowsSelection(init, q, amount);
      var credited := Credit(rows, q, amount);
      assert credited[..|rows| - 1] == Credit(init, q, amount);
      assert forall i :: 0 <= i < |init| ==> init[i] == rows[i];
      if !(forall i :: 0 <= i < |init| && Matches(init[i], q) ==> init[i].points + amount <= q.maxPoints) {
        var i :| 0 <= i < |init| && Matches(init[i], q) && init[i].points + amount > q.maxPoints;
        assert rows[i] == init[i];
      }
    }
  }

  /** What the proposer pays for `n` recipients of `amount` each, written
      as repeated addition so that the proofs about it stay linear. */
  function Payment(n: nat, amount: int): int
  {
    if n == 0 then 0 else Payment(n - 1, amount) + amount
  }

  lemma {:induction false} PaymentIsProduct(n: nat, amount: int)
    ensures Payment(n, amount) == n * amount
  {
    if n > 0 {
      PaymentIsProduct(n - 1, amount);
      assert (n - 1) * amount + amount == n * amount;
    }
  }

  /** Paying for `a` recipients costs more than paying for `b` by exactly the
      payment for the `a - b` extra ones. */
  lemma {:induction false} PaymentDifference(a: nat, b: nat, amount: int)
    requires b <= a
    ensures Payment(a, amount) - Payment(b, amount) == Payment(a - b, amount)
  {
    if b > 0 {
      PaymentDifference(a - 1, b - 1, amount);
    }
  }

  /** Nothing is paid exactly when there is no recipient or the amount is zero. */
  lemma PaymentIsZero(n: nat, amount: int)
    ensures Payment(n, amount) == 0 <==> n == 0 || amount == 0
  {
    PaymentIsProduct(n, amount);
    if n != 0 && amount != 0 {
      assert n * amount != 0;
    }
  }

  /** The bulk update adds the amount once per matching row to the total. */
  lemma {:induction false} TotalAfterCredit(rows: seq<Account>, q: Recipients, amount: int)
    ensures Total(Credit(rows, q, amount)) == Total(rows) + Payment(|Selected(rows, q)|, amount)
  {
    if |rows| > 0 {
      var n := |rows| - 1;
      var init, last := rows[..n], rows[n];
      TotalAfterCredit(init, q, amount);
      var credited := Credit(rows, q, amount);
      assert credited[..n] == Credit(init, q, amount);
      assert Total(credited) == Total(Credit(init, q, amount)) + CreditRow(last, q, amount).points;
      var k := |Selected(init, q)|;
      if Matches(last, q) {
        assert |Selected(rows, q)| == k + 1;
      } else {
        assert |Selected(rows, q)| == k;
      }
    }
  }

  /** Overwriting one balance changes the total by the difference. */
  lemma {:induction false} TotalAfterUpdate(rows: seq<Account>, i: nat, a: Account)
    requires i < |rows|
    ensures Total(rows[i := a]) == Total(rows) - rows[i].points + a.points
  {
    var updated := rows[i := a];
    if i < |rows| - 1 {
      assert updated[..|rows| - 1] == rows[..|rows| - 1][i := a];
      TotalAfterUpdate(rows[..|rows| - 1], i, a);
    } else {
      assert updated[..|rows| - 1] == rows[..|rows| - 1];
    }
  }

  /** Overwriting a row the filter rejects with another such row leaves the
      queryset's result unchanged. */
  lemma {:induction false} SelectedUnaffected(rows: seq<Account>, i: nat, a: Account, q: Recipients)
    requires i < |rows| && !Matches(rows[i], q) && !Matches(a, q)
    ensures Selected(rows[i := a], q) == Selected(rows, q)
  {
    var updated := rows[i := a];
    if i < |rows| - 1 {
      assert updated[..|rows| - 1] == rows[..|rows| - 1][i := a];
      SelectedUnaffected(rows[..|rows| - 1], i, a, q);
    } else {
      assert updated[..|rows| - 1] == rows[..|rows| - 1];
    }
  }

  /** When the proposer is outside the recipient filter and its in-memory
      balance is its stored one, one record is written per row matching
      after the credit, the proposer pays exactly for the records written,
      and the new total plus that payment is the old total plus what the
      bulk update credited. */
  lemma DistributionPaysForRecords(rows: seq<Account>, proposer: nat, q: Recipients, amount: int, time: int)
    requires proposer < |rows| && ExcludedWhateverBalance(rows[proposer], q)
    ensures var d := Distribution(rows, proposer, rows[proposer].points, q, amount, time);
            && |d.records| == (if |Selected(rows, q)| > 0 then |Selected(Credit(rows, q, amount), q)| else 0)
            && rows[proposer].points - d.proposerPoints == Payment(|d.records|, amount)
            && Total(d.accounts) + Payment(|d.records|, amount) == Total(rows) + Payment(|Selected(rows, q)|, amount)
  {
    if |Selected(rows, q)| > 0 {
      var credited := Credit(rows, q, amount);
      var debited := rows[proposer].points - Payment(|Selected(credited, q)|, amount);
      var saved := SaveBalance(credited, proposer, debited);
      var records := Records(Selected(saved, q), rows[proposer].userId, amount, time);
      DistributionSteps(rows, proposer, rows[proposer].points, q, amount, time, saved, debited);
      DistributionRecords(rows, proposer, rows[proposer].points, q, amount, time, records);
      CreditAt(rows, q, amount, proposer);
      SelectedUnaffected(credited, proposer, saved[proposer], q);
      TotalAfterCredit(rows, q, amount);
      TotalAfterUpdate(credited, proposer, saved[proposer]);
    }
  }

  /** Under the same conditions the total over all accounts is conserved
      exactly when the amount is zero or every credited recipient still
      satisfies the threshold. */
  lemma DistributionConservation(rows: seq<Account>, proposer: nat, q: Recipients, amount: int, time: int)
    requires proposer < |rows| && ExcludedWhateverBalance(rows[proposer], q)
    ensures Total(Distribution(rows, proposer, rows[proposer].points, q, amount, time).accounts) == Total(rows)
            <==> amount == 0 ||
                 forall i :: 0 <= i < |rows| && Matches(rows[i], q) ==> rows[i].points + amount <= q.maxPoints
  {
    var d := Distribution(rows, proposer, rows[proposer].points, q, amount, time);
    DistributionPaysForRecords(rows, proposer, q, amount, time);
    CreditNarrowsSelection(rows, q, amount);
    var bounded := forall i :: 0 <= i < |rows| && Matches(rows[i], q) ==> rows[i].points + amount <= q.maxPoints;
    assert |d.records| == |Selected(rows, q)| <==> bounded;
    ConservedExactly(Total(rows), Total(d.accounts), |d.records|, |Selected(rows, q)|, amount, bounded);
  }

  /** The arithmetic behind `DistributionConservation`: when the payment for
      `paid` recipients balances the credit to `credited` of them, the
      total is unchanged exactly when the amount is zero or the two counts
      agree. */
  lemma ConservedExactly(before: int, after: int, paid: nat, credited: nat, amount: int, agree: bool)
    requires paid <= credited && (paid == credited <==> agree)
    requires after + Payment(paid, amount) == before + Payment(credited, amount)
    ensures after == before <==> amount == 0 || agree
  {
    PaymentDifference(credited, paid, amount);
    PaymentIsZero(credited - paid, amount);
  }

  /** The balance check only prints: a proposer that cannot cover the
      payment still pays, and its balance goes negative. */
  lemma OverdraftIsNotPrevented(rows: seq<Account>, proposer: nat, proposerPoints: int,
                                q: Recipients, amount: int, time: int)
    requires proposer < |rows|
    requires proposerPoints < Payment(|Selected(rows, q)|, amount)
    requires forall i :: 0 <= i < |rows| && Matches(rows[i], q) ==> rows[i].points + amount <= q.maxPoints
    ensures Distribution(rows, proposer, proposerPoints, q, amount, time).proposerPoints < 0
  {
    CreditNarrowsSelection(rows, q, amount);
  }

  /** A YQPoint_Distribute row. */
  datatype Distributer = Distributer(
    dtype: int, status: bool, startTime: int,
    perMaxPoints: int, orgMaxPoints: int, perPoints: int, orgPoints: int)

  /** The person queryset of `distribute_YQPoint`. */
  function PersonRecipients(d: Distributer): (q: Recipients)
    ensures forall a :: Matches(a, q) <==> a.kind == Person && a.activated && a.points <= d.perMaxPoints
  {
    Recipients(Person, d.perMaxPoints, None)
  }

  /** The organisation queryset of `distribute_YQPoint`, which excludes the college. */
  function OrgRecipients(d: Distributer): (q: Recipients)
    ensures forall a :: Matches(a, q) <==> a.kind == Org && a.activated && a.points <= d.orgMaxPoints && a.name != College
  {
    Recipients(Org, d.orgMaxPoints, Some(College))
  }

  /** The indices of the organisations with a given name, in table order. */
  function OrgsNamed(rows: seq<Account>, name: string): (r: seq<nat>)
    ensures forall k :: 0 <= k < |r| ==> r[k] < |rows| && rows[r[k]].kind == Org && rows[r[k]].name == name
    ensures forall i :: 0 <= i < |rows| && rows[i].kind == Org && rows[i].name == name ==> i in r
    ensures forall a, b :: 0 <= a < b < |r| ==> r[a] < r[b]
  {
    if |rows| == 0 then []
    else
      var n := |rows| - 1;
      OrgsNamed(rows[..n], name) + (if rows[n].kind == Org && rows[n].name == name then [n] else [])
  }

  /** Exactly one organisation is called `name`. */
  predicate UniqueOrg(rows: seq<Account>, name: string)
  {
    exists j :: 0 <= j < |rows| && rows[j].kind == Org && rows[j].name == name
      && forall i :: 0 <= i < |rows| && rows[i].kind == Org && rows[i].name == name ==> i == j
  }

  /** `Organization.objects.get(oname=College)`: the college when exactly one
      organisation has that name, and an exception otherwise. */
  function CollegeIndex(rows: seq<Account>): (r: Option<nat>)
    ensures r.Some? ==> r.value < |rows| && rows[r.value].kind == Org && rows[r.value].name == College
    ensures r.Some? ==> forall i :: 0 <= i < |rows| && rows[i].kind == Org && rows[i].name == College ==> i == r.value
    ensures UniqueOrg(rows, College) ==> r.Some?
  {
    UniqueNameFound(rows, College);
    var found := OrgsNamed(rows, College);
    if |found| == 1 then Some(found[0]) else None
  }

  /** When exactly one organisation has the name, `OrgsNamed` finds just it. */
  lemma UniqueNameFound(rows: seq<Account>, name: string)
    ensures UniqueOrg(rows, name) ==> |OrgsNamed(rows, name)| == 1
  {
    var found := OrgsNamed(rows, name);
    if UniqueOrg(rows, name) {
      var j :| 0 <= j < |rows| && rows[j].kind == Org && rows[j].name == name
               && forall i :: 0 <= i < |rows| && rows[i].kind == Org && rows[i].name == name ==> i == j;
      assert j in found;
      assert found[0] == j && found[|found| - 1] == j;
    }
  }

  /** Neither queryset of `distribute_YQPoint` can select the college, so it
      never pays itself. */
  lemma CollegeNeverPaysItself(rows: seq<Account>, d: Distributer)
    requires CollegeIndex(rows).Some?
    ensures ExcludedWhateverBalance(rows[CollegeIndex(rows).value], PersonRecipients(d))
    ensures ExcludedWhateverBalance(rows[CollegeIndex(rows).value], OrgRecipients(d))
    ensures forall a :: a in Selected(rows, OrgRecipients(d)) ==> a.name != College
  {
    forall a | a in Selected(rows, OrgRecipients(d))
      ensures a.name != College
    {
      SelectedIsFilter(rows, OrgRecipients(d), a);
    }
  }

  /** The YQPoint tables and the transfer-record table. */
  class Ledger {
    var accounts: seq<Account>
    var transfers: seq<TransferRecord>

    constructor (initial: seq<Account>)
      ensures accounts == initial && transfers == []
    {
      accounts := initial;
      transfers := [];
    }

    /** `distribute_YQPoint_to_User`: `proposer` is the proposer's row and
        `proposerPoints` the balance its in-memory object holds; the new
        in-memory balance is returned.  `warned` is the outcome of the
        balance check, which only prints a message. */
    method DistributeToUsers(proposer: nat, proposerPoints: int, q: Recipients, amount: int, time: int)
      returns (warned: bool, newProposerPoints: int)
      requires proposer < |accounts|
      modifies this
      ensures warned <==> proposerPoints < Payment(|Selected(old(accounts), q)|, amount)
      ensures var d := Distribution(old(accounts), proposer, proposerPoints, q, amount, time);
              && accounts == d.accounts
              && newProposerPoints == d.proposerPoints
              && transfers == old(transfers) + d.records
    {
      ghost var rows := accounts;
      warned := proposerPoints < Payment(|Selected(accounts, q)|, amount);
      if |Selected(accounts, q)| == 0 {
        return warned, proposerPoints;
      }
      CreditMatching(q, amount);
      ghost var credited := accounts;
      // line 39 re-evaluates the queryset; line 40 saves the in-memory proposer
      newProposerPoints := proposerPoints - Payment(|Selected(accounts, q)|, amount);
      accounts := accounts[proposer := accounts[proposer].(points := newProposerPoints)];
      // lines 43-52: one record per row of the queryset, evaluated once more
      var records := RecordsFor(accounts, q, accounts[proposer].userId, amount, time);
      transfers := transfers + records;
      ghost var c := Credit(rows, q, amount);
      assert credited == c;
      CreditAt(rows, q, amount, proposer);
      DistributionSteps(rows, proposer, proposerPoints, q, amount, time, accounts, newProposerPoints);
      DistributionRecords(rows, proposer, proposerPoints, q, amount, time, records);
    }

    /** `filter(...).update(YQPoint=F('YQPoint') + amount)`, row by row. */
    method CreditMatching(q: Recipients, amount: int)
      modifies this
      ensures accounts == Credit(old(accounts), q, amount)
      ensures transfers == old(transfers)
    {
      ghost var before := accounts;
      var i := 0;
      while i < |accounts|
        invariant 0 <= i <= |accounts| == |before|
        invariant forall j :: 0 <= j < i ==> accounts[j] == CreditRow(before[j], q, amount)
        invariant forall j :: i <= j < |accounts| ==> accounts[j] == before[j]
        invariant transfers == old(transfers)
      {
        if Matches(accounts[i], q) {
          accounts := accounts[i := accounts[i].(points := accounts[i].points + amount)];
        }
        i := i + 1;
      }
      forall j | 0 <= j < |accounts|
        ensures accounts[j] == Credit(before, q, amount)[j]
      {
        CreditAt(before, q, amount, j);
      }
    }

    /** `distribute_YQPoint`: the college pays persons first, then
        organisations, from one in-memory object.  `found` is false when the
        college lookup raises, and then nothing changes. */
    method DistributeYQPoint(d: Distributer) returns (found: bool)
      modifies this
      ensures found <==> CollegeIndex(old(accounts)).Some?
      ensures !found ==> accounts == old(accounts) && transfers == old(transfers)
      ensures found ==>
                var c := CollegeIndex(old(accounts)).value;
                var first := Distribution(old(accounts), c, old(accounts)[c].points,
                                          PersonRecipients(d), d.perPoints, d.startTime);
                var second := Distribution(first.accounts, c, first.proposerPoints,
                                           OrgRecipients(d), d.orgPoints, d.startTime);
                accounts == second.accounts && transfers == old(transfers) + first.records + second.records
    {
      var college := CollegeIndex(accounts);
      if college.None? {
        return false;
      }
      var c := college.value;
      var _, points := DistributeToUsers(c, accounts[c].points, PersonRecipients(d), d.perPoints, d.startTime);
      var _, _ := DistributeToUsers(c, points, OrgRecipients(d), d.orgPoints, d.startTime);
      found := true;
    }
  }

  /** The record-building loop: one accepted transfer per row of the
      queryset, in table order. */
  method RecordsFor(rows: seq<Account>, q: Recipients, proposerId: int, amount: int, time: int)
    returns (records: seq<TransferRecord>)
    ensures records == Records(Selected(rows, q), proposerId, amount, time)
  {
    records := [];
    var j := 0;
    while j < |rows|
      invariant 0 <= j <= |rows|
      invariant records == Records(Selected(rows[..j], q), proposerId, amount, time)
    {
      assert rows[..j + 1][..j] == rows[..j];
      ghost var sel := Selected(rows[..j], q);
      if Matches(rows[j], q) {
        assert Selected(rows[..j + 1], q) == sel + [rows[j]];
        assert (sel + [rows[j]])[..|sel|] == sel;
        records := records + [TransferRecord(proposerId, rows[j].userId, amount, time, time, Accepted)];
      } else {
        assert Selected(rows[..j + 1], q) == sel;
      }
      j := j + 1;
    }
    assert rows[..|rows|] == rows;
  }

  /** The decimal digits of a natural number. */
  function NatToDecimal(n: nat): (s: string)
    ensures |s| >= 1
    ensures n >= 10 ==> |s| >= 2
    ensures forall k :: 0 <= k < |s| ==> '0' <= s[k] <= '9'
  {
    if n < 10 then [('0' as int + n) as char]
    else NatToDecimal(n / 10) + [('0' as int + n % 10) as char]
  }

  /** `str(i)` for an integer. */
  function IntToDecimal(i: int): string
  {
    if i < 0 then "-" + NatToDecimal(-i) else NatToDecimal(i)
  }

  lemma {:induction false} NatToDecimalInjective(a: nat, b: nat)
    requires NatToDecimal(a) == NatToDecimal(b)
    ensures a == b
  {
    var s := NatToDecimal(a);
    if a >= 10 && b >= 10 {
      assert s[..|s| - 1] == NatToDecimal(a / 10) == NatToDecimal(b / 10);
      NatToDecimalInjective(a / 10, b / 10);
      assert s[|s| - 1] == ('0' as int + a % 10) as char == ('0' as int + b % 10) as char;
    }
  }

  /** The first character of `str(i)` is a minus sign exactly for a negative `i`. */
  lemma SignFirst(i: int)
    ensures |IntToDecimal(i)| >= 1
    ensures IntToDecimal(i)[0] == '-' <==> i < 0
  {
    if i >= 0 {
      assert '0' <= NatToDecimal(i)[0] <= '9';
    }
  }

  lemma IntToDecimalInjective(a: int, b: int)
    requires IntToDecimal(a) == IntToDecimal(b)
    ensures a == b
  {
    SignFirst(a);
    SignFirst(b);
    if a < 0 {
      assert b < 0;
      var s := IntToDecimal(a);
      assert s[1..] == NatToDecimal(-a) == NatToDecimal(-b);
      NatToDecimalInjective(-a, -b);
    } else {
      assert b >= 0;
      NatToDecimalInjective(a, b);
    }
  }

  /** A job registered with the scheduler. */
  datatype Job =
    | DateJob(id: string, runDate: int)
    | IntervalJob(id: string, weeks: int, nextRunTime: int)

  datatype Registration = Registered(job: Job) | NoUniqueActiveDistributer

  /** The scheduler id of a distribution type's job. */
  function JobId(dtype: int): (r: string)
    ensures r == TemporaryJobId <==> dtype == TemporaryType
    ensures dtype != TemporaryType <==> |r| > |IntervalSuffix| && r[|r| - |IntervalSuffix|..] == IntervalSuffix
  {
    SignFirst(dtype);
    if dtype == TemporaryType then TemporaryJobId
    else IntToDecimal(dtype) + IntervalSuffix
  }

  /** The id of the one-shot job. */
  const TemporaryJobId: string := "temporary_YQP_distribute"

  /** The id suffix of a weekly job. */
  const IntervalSuffix: string := "weeks_interval_YQP_distribute"

  /** Different distribution types get different job ids, so each type has
      its own job. */
  lemma JobIdsDistinct(t1: int, t2: int)
    requires t1 != t2
    ensures JobId(t1) != JobId(t2)
  {
    var suffix := IntervalSuffix;
    if t1 != TemporaryType && t2 != TemporaryType {
      if JobId(t1) == JobId(t2) {
        var s := JobId(t1);
        assert |IntToDecimal(t1)| == |IntToDecimal(t2)| == |s| - |suffix|;
        assert IntToDecimal(t1) == s[..|s| - |suffix|] == IntToDecimal(t2);
        IntToDecimalInjective(t1, t2);
      }
    } else if t1 != TemporaryType {
      assert |JobId(t1)| > |JobId(t2)|;
    } else {
      assert |JobId(t2)| > |JobId(t1)|;
    }
  }

  /** The active distributers of a type. */
  function ActiveOfType(ds: seq<Distributer>, dtype: int): (r: seq<Distributer>)
    ensures forall d :: d in r <==> d in ds && d.dtype == dtype && d.status
  {
    if |ds| == 0 then []
    else
      var n := |ds| - 1;
      ActiveOfType(ds[..n], dtype) + (if ds[n].dtype == dtype && ds[n].status then [ds[n]] else [])
  }

  /** The positions of the active distributers of a type. */
  function ActiveIndices(ds: seq<Distributer>, dtype: int): set<int>
  {
    set i | 0 <= i < |ds| && ds[i].dtype == dtype && ds[i].status
  }

  /** `ActiveOfType` keeps one entry per active distributer row of the type. */
  lemma {:induction false} ActiveOfTypeCount(ds: seq<Distributer>, dtype: int)
    ensures |ActiveOfType(ds, dtype)| == |ActiveIndices(ds, dtype)|
  {
    if |ds| > 0 {
      var n := |ds| - 1;
      ActiveOfTypeCount(ds[..n], dtype);
      ActiveIndicesStep(ds, dtype);
    }
  }

  /** The active positions of a table are those of all but its last row,
      plus the last one when it is active. */
  lemma ActiveIndicesStep(ds: seq<Distributer>, dtype: int)
    requires |ds| > 0
    ensures var n := |ds| - 1;
            ActiveIndices(ds, dtype) ==
              ActiveIndices(ds[..n], dtype) + (if ds[n].dtype == dtype && ds[n].status then {n} else {})
  {
    var n := |ds| - 1;
    var extra: set<int> := if ds[n].dtype == dtype && ds[n].status then {n} else {};
    forall i | i in ActiveIndices(ds, dtype)
      ensures i in ActiveIndices(ds[..n], dtype) + extra
    {
      if i < n {
        assert ds[..n][i] == ds[i];
      }
    }
    forall i | i in ActiveIndices(ds[..n], dtype) + extra
      ensures i in ActiveIndices(ds, dtype)
    {
      if i < n {
        assert ds[..n][i] == ds[i];
      }
    }
  }

  /** `add_YQPoints_distribute`: the one active distributer of the type is
      registered as a one-shot "date" job for the temporary type and as an
      "interval" job of `type` weeks otherwise; when there is not exactly one,
      the exception is printed and the next line fails on the unbound name. */
  function AddDistributeJob(ds: seq<Distributer>, dtype: int): (res: Registration)
    ensures res.Registered? <==> |ActiveOfType(ds, dtype)| == 1
    ensures res.Registered? ==> res.job.id == JobId(dtype)
    ensures res.Registered? && dtype == TemporaryType ==>
              res.job == DateJob(TemporaryJobId, ActiveOfType(ds, dtype)[0].startTime)
    ensures res.Registered? && dtype != TemporaryType ==>
              res.job.IntervalJob? && res.job.weeks == dtype &&
              res.job.nextRunTime == ActiveOfType(ds, dtype)[0].startTime
  {
    var active := ActiveOfType(ds, dtype);
    if |active| != 1 then NoUniqueActiveDistributer
    else
      var d := active[0];
      assert d in active;
      if dtype == TemporaryType then Registered(DateJob(JobId(dtype), d.startTime))
      else Registered(IntervalJob(JobId(dtype), d.dtype, d.startTime))
  }
}
