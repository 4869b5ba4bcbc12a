/** The balance summary of a group: every member starts at zero; for each
    expense in insertion order each id in its split is charged the share and
    the payer is credited the whole amount. Positive means the group owes the
    member, negative means the member owes the group. */
module Balances {
  import opened Wrappers
  import opened Seqs
  import opened Money
  import opened Records

  /** Total amount `u` paid over `es`. */
  function Paid(es: seq<Expense>, u: UserId): int {
    if es == [] then 0
    else
      var last := es[|es| - 1];
      Paid(es[..|es| - 1], u) + (if last.payer == u then last.amount else 0)
  }

  /** Total charged to `u` over `es`: the share of an expense for every time
      `u` occurs in its split. */
  function Charged(es: seq<Expense>, u: UserId): int {
    if es == [] then 0
    else
      var last := es[|es| - 1];
      Charged(es[..|es| - 1], u) + last.perPerson * Count(last.split, u)
  }

  /** The closed form of a member's balance. */
  function Net(es: seq<Expense>, u: UserId): int {
    Paid(es, u) - Charged(es, u)
  }

  /** Total of the shares charged to `u` over the expenses whose split
      contains `u`. */
  function SharedBy(es: seq<Expense>, u: UserId): int {
    if es == [] then 0
    else
      var last := es[|es| - 1];
      SharedBy(es[..|es| - 1], u) + (if u in last.split then last.perPerson else 0)
  }

  /** `u` occurs in the expense, as payer or in the split. */
  predicate Participates(e: Expense, u: UserId) {
    e.payer == u || u in e.split
  }

  /** Every id the expense names is in `members`. */
  predicate Covers(members: seq<UserId>, e: Expense) {
    e.payer in members && forall k :: 0 <= k < |e.split| ==> e.split[k] in members
  }

  predicate CoversAll(members: seq<UserId>, es: seq<Expense>) {
    forall i :: 0 <= i < |es| ==> Covers(members, es[i])
  }

  /** The inner loop of the balance pass: charge `share` to every id of
      `split`, in order. A missing id is Python's KeyError, `Failure`. */
  method ChargeSplit(balances: map<UserId, int>, split: seq<UserId>, share: int)
    returns (r: Result<map<UserId, int>, UserId>)
    ensures r.Success? <==> forall k :: 0 <= k < |split| ==> split[k] in balances
    ensures r.Failure? ==> r.error in split && r.error !in balances
    ensures r.Success? ==> r.value.Keys == balances.Keys
    ensures r.Success? ==> forall u :: u in r.value ==> r.value[u] == balances[u] - share * Count(split, u)
  {
    var b := balances;
    var j := 0;
    while j < |split|
      invariant 0 <= j <= |split|
      invariant b.Keys == balances.Keys
      invariant forall k :: 0 <= k < j ==> split[k] in balances
      invariant forall u :: u in b ==> b[u] == balances[u] - share * Count(split[..j], u)
    {
      var uid := split[j];
      if uid !in b {
        return Failure(uid);
      }
      b := b[uid := b[uid] - share];
      assert split[..j + 1] == split[..j] + [uid];
      forall u | u in b
        ensures b[u] == balances[u] - share * Count(split[..j + 1], u)
      {
        CountSnoc(split[..j], uid, u);
        MulAdd(share, Count(split[..j], u), if uid == u then 1 else 0);
      }
      j := j + 1;
    }
    assert split[..j] == split;
    return Success(b);
  }

  /** The balance pass. Python raises KeyError on the first id that is not a
      member of the group; that is `Failure` with that id. */
  method ComputeBalances(g: Group) returns (r: Result<map<UserId, int>, UserId>)
    ensures r.Success? <==> CoversAll(g.members, g.expenses)
    ensures r.Failure? ==>
      r.error !in g.members &&
      exists i :: 0 <= i < |g.expenses| && Participates(g.expenses[i], r.error)
    ensures r.Success? ==> forall u :: u in r.value <==> u in g.members
    ensures r.Success? ==> forall u :: u in r.value ==> r.value[u] == Net(g.expenses, u)
  {
    var es := g.expenses;
    var balances: map<UserId, int> := map u | u in g.members :: 0;
    var i := 0;
    while i < |es|
      invariant 0 <= i <= |es|
      invariant forall u :: u in balances <==> u in g.members
      invariant CoversAll(g.members, es[..i])
      invariant forall u :: u in balances ==> balances[u] == Net(es[..i], u)
    {
      var ex := es[i];
      assert es[..i + 1] == es[..i] + [ex];
      var charged := ChargeSplit(balances, ex.split, ex.perPerson);
      if charged.Failure? {
        assert Participates(es[i], charged.error);
        return Failure(charged.error);
      }
      var next := charged.value;
      if ex.payer !in next {
        assert Participates(es[i], ex.payer);
        return Failure(ex.payer);
      }
      next := next[ex.payer := next[ex.payer] + ex.amount];
      forall u | u in next ensures next[u] == Net(es[..i + 1], u) {
        NetSnoc(es[..i], ex, u);
      }
      assert Covers(g.members, ex);
      balances := next;
      i := i + 1;
    }
    assert es[..i] == es;
    return Success(balances);
  }

  /** One more expense credits its payer and charges each occurrence in its
      split. */
  lemma {:induction false} NetSnoc(es: seq<Expense>, e: Expense, u: UserId)
    ensures Net(es + [e], u) ==
      Net(es, u) + (if e.payer == u then e.amount else 0) - e.perPerson * Count(e.split, u)
  {
    assert (es + [e])[..|es|] == es;
  }

  /** What one more expense does to a balance: the payer gains the amount
      less their own share, every other id in the split loses the share, and
      nobody else changes. */
  lemma {:induction false} ExpenseEffect(es: seq<Expense>, e: Expense, u: UserId)
    requires |e.split| >= 1 && e.split[0] == e.payer && Distinct(e.split)
    ensures u == e.payer ==> Net(es + [e], u) == Net(es, u) + e.amount - e.perPerson
    ensures u != e.payer && u in e.split ==> Net(es + [e], u) == Net(es, u) - e.perPerson
    ensures u !in e.split ==> Net(es + [e], u) == Net(es, u)
  {
    NetSnoc(es, e, u);
    CountDistinct(e.split, u);
  }

  /** When no split names anyone twice, a member is charged the share of
      exactly the expenses whose split contains them. */
  lemma {:induction false} ChargedOncePerExpense(es: seq<Expense>, u: UserId)
    requires forall i :: 0 <= i < |es| ==> Distinct(es[i].split)
    ensures Charged(es, u) == SharedBy(es, u)
  {
    if es != [] {
      var last := es[|es| - 1];
      ChargedOncePerExpense(es[..|es| - 1], u);
      CountDistinct(last.split, u);
    }
  }

  /** Sum of the balances of `members`. */
  function TotalNet(members: seq<UserId>, es: seq<Expense>): int {
    if members == [] then 0
    else TotalNet(members[..|members| - 1], es) + Net(es, members[|members| - 1])
  }

  /** Sum of what the shares fail to cover over `es`. */
  function TotalRemainder(es: seq<Expense>): int {
    if es == [] then 0
    else
      var last := es[|es| - 1];
      TotalRemainder(es[..|es| - 1]) + (last.amount - |last.split| * last.perPerson)
  }

  /** Sum over `members` of the occurrences of each of them in `s`. */
  function CountAll(members: seq<UserId>, s: seq<UserId>): int {
    if members == [] then 0
    else CountAll(members[..|members| - 1], s) + Count(s, members[|members| - 1])
  }

  lemma {:induction false} TotalNetEmpty(members: seq<UserId>)
    ensures TotalNet(members, []) == 0
  {
    if members != [] {
      TotalNetEmpty(members[..|members| - 1]);
    }
  }

  lemma {:induction false} CountAllSnoc(members: seq<UserId>, s: seq<UserId>, x: UserId)
    ensures CountAll(members, s + [x]) == CountAll(members, s) + Count(members, x)
  {
    if members != [] {
      var m := members[|members| - 1];
      CountAllSnoc(members[..|members| - 1], s, x);
      CountSnoc(s, x, m);
    }
  }

  /** Every id of `s` occurs once in the ordered set `members`, so counting
      each member's occurrences in `s` counts `s`. */
  lemma {:induction false} CountAllCovered(members: seq<UserId>, s: seq<UserId>)
    requires Distinct(members)
    requires forall k :: 0 <= k < |s| ==> s[k] in members
    ensures CountAll(members, s) == |s|
  {
    if s == [] {
      CountAllNone(members);
    } else {
      var p := s[..|s| - 1];
      var x := s[|s| - 1];
      assert s == p + [x];
      CountAllCovered(members, p);
      CountAllSnoc(members, p, x);
      CountDistinct(members, x);
    }
  }

  lemma {:induction false} CountAllNone(members: seq<UserId>)
    ensures CountAll(members, []) == 0
  {
    if members != [] {
      CountAllNone(members[..|members| - 1]);
    }
  }

  /** Adding one expense changes the sum of the balances by the amount
      credited to members less the shares charged to members. */
  lemma {:induction false} TotalNetSnoc(members: seq<UserId>, es: seq<Expense>, e: Expense)
    ensures TotalNet(members, es + [e]) ==
      TotalNet(members, es) + e.amount * Count(members, e.payer) - e.perPerson * CountAll(members, e.split)
  {
    if members != [] {
      var ms := members[..|members| - 1];
      var m := members[|members| - 1];
      TotalNetSnoc(ms, es, e);
      NetSnoc(es, e, m);
      var c := if e.payer == m then 1 else 0;
      var paid0, shared0, shared1 := Count(ms, e.payer), CountAll(ms, e.split), Count(e.split, m);
      assert Count(members, e.payer) == paid0 + c;
      assert CountAll(members, e.split) == shared0 + shared1;
      MulAdd(e.amount, paid0, c);
      MulAdd(e.perPerson, shared0, shared1);
    }
  }

  lemma MulAdd(a: int, x: int, y: int)
    ensures a * (x + y) == a * x + a * y
  {
  }

  /** The balances of a group add up to what the rounded shares leave over:
      credits and charges cancel except for the rounding. */
  lemma {:induction false} Conservation(members: seq<UserId>, es: seq<Expense>)
    requires Distinct(members)
    requires CoversAll(members, es)
    ensures TotalNet(members, es) == TotalRemainder(es)
  {
    if es == [] {
      TotalNetEmpty(members);
    } else {
      var p := es[..|es| - 1];
      var e := es[|es| - 1];
      assert es == p + [e];
      assert CoversAll(members, p) by {
        forall i | 0 <= i < |p| ensures Covers(members, p[i]) {
          assert p[i] == es[i];
        }
      }
      assert Covers(members, e);
      Conservation(members, p);
      TotalNetSnoc(members, p, e);
      CountDistinct(members, e.payer);
      CountAllCovered(members, e.split);
    }
  }

  /** A stored expense leaves over exactly the rounding remainder of its
      amount among its split, zero when the amount divides evenly. */
  lemma {:induction false} RemainderOfStored(es: seq<Expense>, members: seq<UserId>)
    requires forall i :: 0 <= i < |es| ==>
      WellFormedExpense(es[i], members) && es[i].amount % |es[i].split| == 0
    ensures TotalRemainder(es) == 0
  {
    if es != [] {
      var last := es[|es| - 1];
      assert WellFormedExpense(last, members);
      RemainderOfStored(es[..|es| - 1], members);
      RemainderZeroIff(last.amount, |last.split|);
    }
  }

  /** Sum of the entries of `balances` for `members`. */
  function SumOver(balances: map<UserId, int>, members: seq<UserId>): int
    requires forall k :: 0 <= k < |members| ==> members[k] in balances
  {
    if members == [] then 0
    else SumOver(balances, members[..|members| - 1]) + balances[members[|members| - 1]]
  }

  lemma {:induction false} SumOverNet(balances: map<UserId, int>, members: seq<UserId>, es: seq<Expense>)
    requires forall k :: 0 <= k < |members| ==> members[k] in balances
    requires forall u :: u in balances ==> balances[u] == Net(es, u)
    ensures SumOver(balances, members) == TotalNet(members, es)
  {
    if members != [] {
      SumOverNet(balances, members[..|members| - 1], es);
    }
  }

  /** 90.00 paid by A and split three ways: each share is 30.00, A gains
      60.00, B and C each lose 30.00, and the balances add up to zero. */
  lemma EvenThreeWaySplit()
    ensures var e := NewExpense("A", 9000, "", ["B", "C"]);
      && e.perPerson == 3000
      && Net([e], "A") == 6000 && Net([e], "B") == -3000 && Net([e], "C") == -3000
      && TotalNet(["A", "B", "C"], [e]) == 0
  {
    var e := NewExpense("A", 9000, "", ["B", "C"]);
    PerPersonUnique(9000, 3, 3000);
    assert [e] == [] + [e];
    ExpenseEffect([], e, "A");
    ExpenseEffect([], e, "B");
    ExpenseEffect([], e, "C");
    assert CoversAll(["A", "B", "C"], [e]);
    Conservation(["A", "B", "C"], [e]);
  }

  /** 1.00 paid by A and split three ways: each share is 0.33 and the
      balances add up to 0.01, not zero; nothing redistributes the rounding. */
  lemma UnevenThreeWaySplit()
    ensures var e := NewExpense("A", 100, "", ["B", "C"]);
      TotalNet(["A", "B", "C"], [e]) == 1
  {
    var e := NewExpense("A", 100, "", ["B", "C"]);
    ThreeWaySplitOfOne();
    assert CoversAll(["A", "B", "C"], [e]);
    Conservation(["A", "B", "C"], [e]);
  }

  /** Remainders of different expenses can cancel: 1.00 and 2.00, each split
      three ways, leave 0.01 and -0.01, so the balances add up to zero although
      neither amount divides evenly. */
  lemma RemaindersCancel()
    ensures var e1 := NewExpense("A", 100, "", ["B", "C"]);
      var e2 := NewExpense("A", 200, "", ["B", "C"]);
      && 100 % 3 != 0 && 200 % 3 != 0
      && e1.perPerson == 33 && e2.perPerson == 67
      && TotalNet(["A", "B", "C"], [e1, e2]) == 0
  {
    var e1 := NewExpense("A", 100, "", ["B", "C"]);
    var e2 := NewExpense("A", 200, "", ["B", "C"]);
    PerPersonUnique(100, 3, 33);
    PerPersonUnique(200, 3, 67);
    var es := [e1, e2];
    assert es[..1] == [e1];
    assert [e1][..0] == [];
    assert TotalRemainder([e1]) == 1;
    assert TotalRemainder(es) == 1 + (200 - 3 * 67);
    assert CoversAll(["A", "B", "C"], es);
    Conservation(["A", "B", "C"], es);
  }
}
