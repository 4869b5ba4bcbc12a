# Let's Go Dutch: the group-expense ledger

This project models the ledger inside the Let's Go Dutch Streamlit script
(`app.py`). Users register and log in with an opaque `auth_id`. A logged-in
user creates a group under a random five-character code, joins a group by
its code, lists the groups they belong to, deletes a group they created,
records an expense split with other members, and sees every member's
balance. Positive means the group owes the member; negative means the
member owes the group.

The model is stateful, as the script is. Class `LedgerState.Ledger` holds:

- `users`: the users dict.
- `codes` and `creators`: the `groups` dict, as its keys in insertion
  order plus the code-to-creator map.
- `files`: the stored group records.

The operations that change state are methods with a `modifies` clause that
say what the new state is: `Register`, `CreateGroup`, `JoinGroup`,
`DeleteGroup` and `AddExpense`. The operations that only read it are
functions (`Login`, `LoadGroup`, `UserGroups` and its helper `GroupsWith`)
or, for the balance loop, the method `GroupBalances`, which modifies
nothing. `Valid()` is the invariant every state-changing method keeps:
registry and records name the same groups with the same creator, members
form an ordered set of registered users that contains the creator, and
every expense is well formed among the members.

The balance pass is the nested loop `ComputeBalances` / `ChargeSplit`. It
is proved against the closed form `Net = Paid - Charged`. Its total is proved
to be the rounding left over by the shares.

Modules, one per component:

- `Wrappers` (wrappers.dfy): the `Option` and `Result` return shapes.
- `Seqs` (seqs.dfy): lists used as ordered sets, occurrence counts, key
  deletion.
- `Money` (money.dfy): amounts in hundredths and the per-person share.
- `GroupCodes` (group_code.dfy): the code format.
- `Records` (records.dfy): user, group and expense records, with their
  invariants.
- `Balances` (balances.dfy): the balance pass and its properties.
- `LedgerState` (ledger.dfy): the stateful ledger.

Choices where the code decides:

- Amounts are integer hundredths. The share is `amount / shares` rounded
  to the nearest hundredth, ties rounding up.
- A new code that collides with an existing one overwrites that group, as
  the code does (no retry). The code keeps its place in the registry's
  order, as a Python dict key does.
- The balances do not always add up to zero. The code keeps no rounding
  remainder, so they add up to the total remainder of the shares
  (`Balances.Conservation`). This is zero when every amount divides evenly
  (`Balances.RemainderOfStored`). For a single expense it is zero only then
  (`Money.RemainderZeroIff`, `Balances.UnevenThreeWaySplit`). Across
  expenses the remainders can cancel (`Balances.RemaindersCancel`).
- The code never checks that `split_with` is drawn from the other members.
  The selection widget offers only those, so `AddExpense` requires it.

## Model

| member | source | states |
|---|---|---|
| `Money.PerPerson` | app.py:147 | the share p of amount a among n people is the nearest hundredth, a tie rounding up: -n < 2(n·p - a) <= n |
| `Money.PerPersonUnique` | app.py:147 | any value within that bound is the share, so the rounding rule fixes `per_person` |
| `Money.Remainder` | app.py:147 | what n shares leave uncovered of the amount lies in [-n/2, n/2) |
| `Money.RemainderZeroIff` | app.py:147 | the shares add up to the amount exactly when the amount divides evenly |
| `Money.ThreeWaySplitOfOne` | app.py:147 | 1.00 split three ways is 0.33 each and leaves 0.01 over |
| `GroupCodes.CharAt` | app.py:45 | the alphabet's character at an index is an upper-case letter or digit, the one at that position of ascii_uppercase + digits |
| `GroupCodes.IndexOf` | app.py:45 | every code character has a position in the alphabet |
| `GroupCodes.GenerateCode` | app.py:44-45 | the generated code has length 5, every character in A-Z or 0-9, the i-th being the i-th draw's character |
| `GroupCodes.DrawsOf` | app.py:44-45 | every well-formed code has valid draws |
| `GroupCodes.CodeRoundTrip` | app.py:44-45 | every well-formed code is what `generate_group_code` returns for some draws |
| `GroupCodes.DrawsRoundTrip` | app.py:44-45 | different draws give different codes |
| `Seqs.Remove` | app.py:133 | deleting a key leaves exactly the other keys, each once if they were |
| `Seqs.RemoveOrdered` | app.py:133 | deleting a key keeps the order of the remaining keys |
| `Records.NewGroup` | app.py:97-101 | the record a new group is saved with: the creator, the creator as its only member, and no expenses |
| `Records.NewGroupWellFormed` | app.py:97-101 | a group created by a registered user is well formed |
| `Records.WellFormedGroupGrows` | app.py:76-77 | registering a user keeps every stored group well formed |
| `Records.Joined` | app.py:110-111 | a user already a member leaves the group unchanged; otherwise joining keeps creator and expenses, keeps earlier members as a prefix in order, adds at most the joining user at the end, and keeps members duplicate-free |
| `Records.JoinIdempotent` | app.py:110-111 | joining twice equals joining once |
| `Records.JoinKeepsWellFormed` | app.py:108-112 | a join by a registered user keeps the group well formed |
| `Records.NewExpense` | app.py:147-154 | the recorded expense keeps payer, amount and description, its split is the payer followed by `split_with`, and its share is the rounded amount per split entry |
| `Records.NewExpenseWellFormed` | app.py:141-154 | an accepted expense with `split_with` drawn from the other members is well formed |
| `Records.AddExpenseKeepsWellFormed` | app.py:144-156 | appending an accepted expense keeps the group well formed |
| `Balances.ChargeSplit` | app.py:162-163 | the inner loop fails exactly when some split id has no balance entry; otherwise it keeps the keys and lowers each balance by the share times that id's occurrences in the split |
| `Balances.ComputeBalances` | app.py:160-164 | the pass succeeds exactly when every payer and split id is a member (otherwise KeyError on a participant who is not a member); the result has exactly the members as keys and each equals paid minus charged |
| `Balances.NetSnoc` | app.py:161-164 | one more expense credits its payer with the amount and charges the share per occurrence in its split |
| `Balances.ExpenseEffect` | app.py:161-164 | for one expense the payer changes by amount - share, each other split member by -share, everyone else by 0 |
| `Balances.ChargedOncePerExpense` | app.py:162-163 | with duplicate-free splits a member is charged the share of exactly the expenses whose split contains them |
| `Balances.TotalNetSnoc` | app.py:161-164 | one more expense changes the sum of the balances by the amount credited to members less the shares charged to members |
| `Balances.Conservation` | app.py:160-164 | the balances of a group add up to the sum over its expenses of amount minus split size times share |
| `Balances.RemainderOfStored` | app.py:147-164 | when every stored amount divides evenly among its split, that sum is zero |
| `Balances.RemaindersCancel` | app.py:147-164 | 1.00 and 2.00, each split three ways, leave 0.01 and -0.01: the balances add up to 0 although neither amount divides evenly |
| `Balances.EvenThreeWaySplit` | app.py:147-164 | 90.00 split three ways: share 30.00, payer +60.00, others -30.00, total 0 |
| `Balances.UnevenThreeWaySplit` | app.py:147-164 | 1.00 split three ways: the balances add up to 0.01, not 0 |
| `LedgerState.Ledger.constructor` | app.py:14-16 | the store starts with no users and no groups |
| `LedgerState.Ledger.LoadGroup` | app.py:48-53 | a code without a stored record reads as the empty record (no creator, members or expenses); a stored one reads as itself, and for a registered code that is a well-formed group whose creator is the registry's creator and a member |
| `LedgerState.Ledger.Register` | app.py:73-79 | registering fails and changes nothing when the id is known; otherwise it adds exactly that id, leaves other users and all groups unchanged, and the id can log in |
| `LedgerState.Ledger.Login` | app.py:81-87 | login yields the id as current user exactly when it is registered |
| `LedgerState.Ledger.CreateGroup` | app.py:93-102 | the code is a generated group code; the registry maps it to the creator and its record is {creator, [creator], []}, overwriting any earlier group under that code; nothing else changes |
| `LedgerState.Ledger.JoinGroup` | app.py:105-117 | an unknown code and a user already a member change nothing; otherwise the user is appended to that group's members and nothing else changes |
| `LedgerState.Ledger.GroupsWith` | app.py:121 | the result holds exactly the given codes whose group lists the user, in their order, without repeats when the given codes have none |
| `LedgerState.Ledger.UserGroups` | app.py:121 | a user's groups are exactly the registered codes whose members contain the user, each once, in registry order |
| `LedgerState.Ledger.DeleteGroup` | app.py:131-136 | deletion happens exactly when the requester is the group's creator; it removes exactly that code and record, keeping the order and contents of the others; otherwise nothing changes |
| `LedgerState.Ledger.AddExpense` | app.py:139-157 | the expense is refused, nothing changing, when `split_with` is empty or the amount is not positive; otherwise exactly one expense, payer first in the split and the rounded share, is appended to that group and nothing else changes |
| `LedgerState.Ledger.GroupBalances` | app.py:159-164 | a stored group's balances have exactly its members as keys, equal paid minus charged, and add up to the rounding remainder |
| `LedgerState.StoredGroupCovered` | app.py:160-164 | in every stored group each expense names only members, so the balance pass never raises KeyError |

## Left out

- The Streamlit user interface is not modelled: widgets, messages, `st.stop`, the eight-character short ids and the rounded display of balances.
- Files are not modelled. The secrets file and its `eval` parsing, the JSON group files, directory setup and `os.remove` become the in-memory fields `users`, `codes`/`creators` and `files`. `LoadGroup` keeps the default empty record that reading a missing group file yields.
- `get_device_id` and `hash_password` are calls into the platform and `hashlib`. The `auth_id` and the device id are opaque string parameters.
- The randomness of `generate_group_code` is a parameter: the five alphabet indices drawn.
- Float arithmetic is replaced by integer hundredths. The share uses one rounding rule, half up. Python's `round` on binary floats is not reproduced, and amounts with more than two decimals cannot be expressed.
- The session is not modelled: `current_user` is the parameter `user`. Operations reached only after login require it to be registered.
- `AddExpense` requires `split_with` to be duplicate-free members other than the payer. The code does not check this; the multiselect widget guarantees it.
- `DeleteGroup` requires the code to be registered, because the script offers only codes from the user's list.
- Concurrent scripts writing the same files (last writer wins) are not modelled.
- Balances.ComputeBalances: on failure it says only that the reported id is a participant who is not a member. It does not say that this is the first such id the loop meets.
