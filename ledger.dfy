/** The application's state and the operations its pages perform on it:
    register and log in, create, join, list and delete groups, add an
    expense, and show a group's balances. */
module LedgerState {
  import opened Wrappers
  import opened Seqs
  import opened GroupCodes
  import opened Records
  import opened Balances

  type GroupCode = string

  /** How a join request ends. */
  datatype JoinOutcome = JoinedGroup | AlreadyInGroup | GroupNotFound

  class Ledger {
    /** `users`: auth_id to user entry. */
    var users: map<UserId, User>
    /** The keys of the `groups` dict in insertion order, Python's dict order. */
    var codes: seq<GroupCode>
    /** The `groups` dict: group code to its creator. */
    var creators: map<GroupCode, UserId>
    /** The stored group records, one per code. */
    var files: map<GroupCode, Group>

    /** The registry and the group records describe the same groups, with the
        same creator, and every record is well formed over registered users. */
    ghost predicate Valid()
      reads this
    {
      && Distinct(codes)
      && (forall c :: c in codes <==> c in creators)
      && files.Keys == creators.Keys
      && (forall c :: c in files ==>
            files[c].creator == creators[c] && WellFormedGroup(files[c], users.Keys))
    }

    /** The empty store the application starts from. */
    constructor ()
      ensures Valid()
      ensures users == map[] && codes == [] && creators == map[] && files == map[]
    {
      users, codes, creators, files := map[], [], map[], map[];
    }

    /** Reading a group record; a code without one reads as an empty group
        with no creator, members or expenses. A registered code reads as a
        well-formed group whose creator is the registry's and a member. */
    function LoadGroup(code: GroupCode): (g: Group)
      reads this
      ensures code !in files ==> g.creator == "" && g.members == [] && g.expenses == []
      ensures code in files ==> g == files[code]
      ensures Valid() && code in creators ==>
        g.creator == creators[code] && g.creator in g.members && WellFormedGroup(g, users.Keys)
    {
      if code in files then files[code] else EmptyGroup
    }

    /** Registration: refused when the id is already known, otherwise the id
        is added and nothing else changes. */
    method Register(authId: UserId, deviceId: string) returns (registered: bool)
      requires Valid()
      modifies this
      ensures Valid()
      ensures registered <==> authId !in old(users)
      ensures users == if registered then old(users)[authId := User(deviceId)] else old(users)
      ensures codes == old(codes) && creators == old(creators) && files == old(files)
      ensures Login(authId) == Some(authId)
    {
      if authId in users {
        registered := false;
      } else {
        forall c | c in files ensures WellFormedGroup(files[c], users.Keys + {authId}) {
          WellFormedGroupGrows(files[c], users.Keys, users.Keys + {authId});
        }
        users := users[authId := User(deviceId)];
        registered := true;
      }
    }

    /** Login succeeds, with the id as the current user, exactly when the id
        is registered. */
    function Login(authId: UserId): (r: Option<UserId>)
      reads this
      ensures r.Some? <==> authId in users
      ensures r.Some? ==> r.value == authId
    {
      if authId in users then Some(authId) else None
    }

    /** Creating a group under the code the draws generate. An existing group
        under that code is overwritten; the code keeps its place in the
        registry's order. */
    method CreateGroup(user: UserId, draws: seq<nat>) returns (code: GroupCode)
      requires Valid() && user in users && IsDraws(draws)
      modifies this
      ensures Valid()
      ensures code == GenerateCode(draws) && IsGroupCode(code)
      ensures creators == old(creators)[code := user]
      ensures files == old(files)[code := NewGroup(user)]
      ensures codes == if code in old(creators) then old(codes) else old(codes) + [code]
      ensures users == old(users)
    {
      code := GenerateCode(draws);
      if code !in creators {
        codes := codes + [code];
      }
      creators := creators[code := user];
      files := files[code := NewGroup(user)];
    }

    /** Joining a group: an unknown code changes nothing, a member joining
        again changes nothing, anyone else is appended to the members. */
    method JoinGroup(code: GroupCode, user: UserId) returns (outcome: JoinOutcome)
      requires Valid() && user in users
      modifies this
      ensures Valid()
      ensures outcome == GroupNotFound <==> code !in old(creators)
      ensures outcome == AlreadyInGroup <==> code in old(creators) && user in old(files)[code].members
      ensures outcome != JoinedGroup ==> files == old(files)
      ensures outcome == JoinedGroup ==> files == old(files)[code := Joined(old(files)[code], user)]
      ensures users == old(users) && codes == old(codes) && creators == old(creators)
    {
      if code in creators {
        var g := LoadGroup(code);
        if user !in g.members {
          JoinKeepsWellFormed(g, user, users.Keys);
          files := files[code := Joined(g, user)];
          outcome := JoinedGroup;
        } else {
          outcome := AlreadyInGroup;
        }
      } else {
        outcome := GroupNotFound;
      }
    }

    /** The codes among `cs` whose group record lists `user`, in order. */
    function GroupsWith(cs: seq<GroupCode>, user: UserId): (r: seq<GroupCode>)
      reads this
      ensures forall c :: c in r <==> c in cs && user in LoadGroup(c).members
      ensures Distinct(cs) ==> Distinct(r)
      ensures OrderedIn(r, cs)
    {
      if cs == [] then []
      else
        var p := cs[..|cs| - 1];
        var last := cs[|cs| - 1];
        assert cs == p + [last];
        var rest := GroupsWith(p, user);
        assert Distinct(cs) ==> Distinct(p) && last !in p;
        OrderedSnoc(rest, p, last);
        if user in LoadGroup(last).members then rest + [last] else rest
    }

    /** The groups listed for `user`: every registered code whose group has
        `user` as a member, each once, in registry order. */
    function UserGroups(user: UserId): (r: seq<GroupCode>)
      reads this
      requires Valid()
      ensures forall c :: c in r <==> c in creators && user in files[c].members
      ensures Distinct(r)
      ensures OrderedIn(r, codes)
    {
      GroupsWith(codes, user)
    }

    /** Deleting a group: only its creator may; the code leaves the registry
        and its record is removed, every other group staying as it was. */
    method DeleteGroup(code: GroupCode, user: UserId) returns (deleted: bool)
      requires Valid() && code in creators
      modifies this
      ensures Valid()
      ensures deleted <==> user == old(files)[code].creator
      ensures deleted ==>
        creators == old(creators) - {code} && files == old(files) - {code} &&
        codes == Remove(old(codes), code) && OrderedIn(codes, old(codes))
      ensures !deleted ==> creators == old(creators) && files == old(files) && codes == old(codes)
      ensures users == old(users)
    {
      var g := LoadGroup(code);
      if user == g.creator {
        RemoveOrdered(codes, code);
        codes := Remove(codes, code);
        creators := creators - {code};
        files := files - {code};
        deleted := true;
      } else {
        deleted := false;
      }
    }

    /** Adding an expense paid by a member and split with other members: it
        is refused when nobody is chosen or the amount is not positive;
        otherwise exactly one expense is appended to that group. */
    method AddExpense(
      code: GroupCode, payer: UserId, amount: int, description: string, splitWith: seq<UserId>)
      returns (added: bool)
      requires Valid() && code in creators
      requires payer in files[code].members
      requires Distinct(splitWith)
      requires forall k :: 0 <= k < |splitWith| ==>
        splitWith[k] in files[code].members && splitWith[k] != payer
      modifies this
      ensures Valid()
      ensures added <==> |splitWith| > 0 && amount > 0
      ensures !added ==> files == old(files)
      ensures added ==> files == old(files)[code := old(files)[code].(expenses :=
        old(files)[code].expenses + [NewExpense(payer, amount, description, splitWith)])]
      ensures users == old(users) && codes == old(codes) && creators == old(creators)
    {
      if |splitWith| == 0 || amount <= 0 {
        added := false;
      } else {
        var g := LoadGroup(code);
        AddExpenseKeepsWellFormed(g, users.Keys, payer, amount, description, splitWith);
        files := files[code := g.(expenses := g.expenses + [NewExpense(payer, amount, description, splitWith)])];
        added := true;
      }
    }

    /** The balance summary of a stored group: one entry per member, the
        closed-form balance, and a total equal to the rounding left over. */
    method GroupBalances(code: GroupCode) returns (balances: map<UserId, int>)
      requires Valid() && code in creators
      ensures forall u :: u in balances <==> u in files[code].members
      ensures forall u :: u in balances ==> balances[u] == Net(files[code].expenses, u)
      ensures SumOver(balances, files[code].members) == TotalRemainder(files[code].expenses)
    {
      var g := LoadGroup(code);
      StoredGroupCovered(g, users.Keys);
      var r := ComputeBalances(g);
      balances := r.value;
      SumOverNet(balances, g.members, g.expenses);
      Conservation(g.members, g.expenses);
    }
  }

  /** In a well-formed group every id an expense names is a member, so the
      balance pass never meets an unknown id. */
  lemma StoredGroupCovered(g: Group, registered: set<UserId>)
    requires WellFormedGroup(g, registered)
    ensures CoversAll(g.members, g.expenses)
  {
    forall i | 0 <= i < |g.expenses| ensures Covers(g.members, g.expenses[i]) {
      assert WellFormedExpense(g.expenses[i], g.members);
    }
  }

  /** U1 creates a group and U2 joins it twice: the members are [U1, U2]. */
  method JoinScenario() {
    var ledger := new Ledger();
    var r1 := ledger.Register("U1", "device");
    var r2 := ledger.Register("U2", "device");
    var code := ledger.CreateGroup("U1", [25, 25, 25, 25, 25]);
    var joined := ledger.JoinGroup(code, "U2");
    var rejoined := ledger.JoinGroup(code, "U2");
    assert code == "ZZZZZ" && rejoined == AlreadyInGroup;
    assert ledger.files[code].members == ["U1", "U2"];
  }
}
