/** The records the application stores: user entries, group records and
    expenses, and the invariants every stored group keeps. */
module Records {
  import opened Seqs
  import opened Money

  /** An `auth_id`: the device id joined to the password hash. Opaque here. */
  type UserId = string

  /** What `users[auth_id]` holds. */
  datatype User = User(deviceId: string)

  /** One expense: `payer` (stored under "by") paid `amount` hundredths,
      shared by everyone in `split` (the payer first), each share being
      `perPerson` hundredths. */
  datatype Expense = Expense(
    payer: UserId,
    amount: int,
    description: string,
    split: seq<UserId>,
    perPerson: int)

  /** A group record, as stored under its code. */
  datatype Group = Group(creator: UserId, members: seq<UserId>, expenses: seq<Expense>)

  /** What reading a group that has no stored record yields. */
  const EmptyGroup: Group := Group("", [], [])

  /** The record of a freshly created group. */
  function NewGroup(creator: UserId): (g: Group)
    ensures g.creator == creator && g.members == [creator] && g.expenses == []
  {
    Group(creator, [creator], [])
  }

  /** A group created by a registered user is well formed. */
  lemma NewGroupWellFormed(creator: UserId, registered: set<UserId>)
    requires creator in registered
    ensures WellFormedGroup(NewGroup(creator), registered)
  {
  }

  /** An expense as the application stores it, among `members`: positive
      amount, payer first in the split, at least one other participant, no
      one twice, every participant a member, and the share rounded from the
      amount. */
  ghost predicate WellFormedExpense(e: Expense, members: seq<UserId>) {
    && e.amount > 0
    && |e.split| >= 2
    && e.split[0] == e.payer
    && Distinct(e.split)
    && (forall k :: 0 <= k < |e.split| ==> e.split[k] in members)
    && e.perPerson == PerPerson(e.amount, |e.split|)
  }

  /** A stored group, given the set of registered users: members form an
      ordered set of registered users that contains the creator, and every
      expense is well formed among them. */
  ghost predicate WellFormedGroup(g: Group, registered: set<UserId>) {
    && Distinct(g.members)
    && g.creator in g.members
    && (forall k :: 0 <= k < |g.members| ==> g.members[k] in registered)
    && (forall i :: 0 <= i < |g.expenses| ==> WellFormedExpense(g.expenses[i], g.members))
  }

  /** Registering more users keeps a group well formed. */
  lemma WellFormedGroupGrows(g: Group, registered: set<UserId>, more: set<UserId>)
    requires WellFormedGroup(g, registered) && registered <= more
    ensures WellFormedGroup(g, more)
  {
  }

  /** The group after `user` joins it: unchanged if already a member,
      otherwise `user` is appended after the earlier members. */
  function Joined(g: Group, user: UserId): (r: Group)
    ensures user in g.members ==> r == g
    ensures r.creator == g.creator && r.expenses == g.expenses
    ensures |g.members| <= |r.members| <= |g.members| + 1
    ensures r.members[..|g.members|] == g.members
    ensures forall u :: u in r.members <==> u in g.members || u == user
    ensures Distinct(g.members) ==> Distinct(r.members)
  {
    if user in g.members then g else g.(members := g.members + [user])
  }

  /** Joining twice is the same as joining once. */
  lemma JoinIdempotent(g: Group, user: UserId)
    ensures Joined(Joined(g, user), user) == Joined(g, user)
  {
  }

  /** Joining keeps a stored group well formed. */
  lemma {:induction false} JoinKeepsWellFormed(g: Group, user: UserId, registered: set<UserId>)
    requires WellFormedGroup(g, registered)
    requires user in registered
    ensures WellFormedGroup(Joined(g, user), registered)
  {
    var r := Joined(g, user);
    forall i | 0 <= i < |r.expenses| ensures WellFormedExpense(r.expenses[i], r.members) {
      assert WellFormedExpense(g.expenses[i], g.members);
    }
  }

  /** The expense `payer` records: `split` is the payer followed by the chosen
      members, and each share is the amount divided among all of them. */
  function NewExpense(payer: UserId, amount: int, description: string, splitWith: seq<UserId>): (e: Expense)
    ensures e.payer == payer && e.amount == amount && e.description == description
    ensures |e.split| == |splitWith| + 1 && e.split[0] == payer && e.split[1..] == splitWith
    ensures -|e.split| < 2 * (|e.split| * e.perPerson - amount) <= |e.split|
  {
    Expense(payer, amount, description, [payer] + splitWith, PerPerson(amount, |splitWith| + 1))
  }

  /** An accepted expense, with a split drawn from the other members, is well
      formed. */
  lemma {:induction false} NewExpenseWellFormed(
    members: seq<UserId>, payer: UserId, amount: int, description: string, splitWith: seq<UserId>)
    requires payer in members
    requires Distinct(splitWith)
    requires forall k :: 0 <= k < |splitWith| ==> splitWith[k] in members && splitWith[k] != payer
    requires |splitWith| > 0 && amount > 0
    ensures WellFormedExpense(NewExpense(payer, amount, description, splitWith), members)
  {
    var e := NewExpense(payer, amount, description, splitWith);
    forall i, j | 0 <= i < j < |e.split| ensures e.split[i] != e.split[j] {
      if i == 0 {
        assert e.split[j] == splitWith[j - 1];
      } else {
        assert e.split[i] == splitWith[i - 1] && e.split[j] == splitWith[j - 1];
      }
    }
    forall k | 0 <= k < |e.split| ensures e.split[k] in members {
      if k > 0 {
        assert e.split[k] == splitWith[k - 1];
      }
    }
  }

  /** Adding an accepted expense keeps a stored group well formed, and the
      earlier expenses stay as they were. */
  lemma {:induction false} AddExpenseKeepsWellFormed(
    g: Group, registered: set<UserId>, payer: UserId, amount: int, description: string, splitWith: seq<UserId>)
    requires WellFormedGroup(g, registered)
    requires payer in g.members
    requires Distinct(splitWith)
    requires forall k :: 0 <= k < |splitWith| ==> splitWith[k] in g.members && splitWith[k] != payer
    requires |splitWith| > 0 && amount > 0
    ensures WellFormedGroup(g.(expenses := g.expenses + [NewExpense(payer, amount, description, splitWith)]), registered)
  {
    var e := NewExpense(payer, amount, description, splitWith);
    NewExpenseWellFormed(g.members, payer, amount, description, splitWith);
    var es := g.expenses + [e];
    forall i | 0 <= i < |es| ensures WellFormedExpense(es[i], g.members) {
      if i < |g.expenses| {
        assert es[i] == g.expenses[i];
      }
    }
  }
}
