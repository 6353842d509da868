/**
 * The older group engine of group_logic.py: create a group under a name that
 * is unique ignoring case, join a group by name, and list an assignment's
 * groups with their capacity. Groups made here carry their own `max_members`.
 * The random uuid in a new group's id is a parameter.
 */
module GroupLogic {
  import opened Wrappers
  import opened Text
  import opened Groups

  type AllGroups = map<string, seq<Entry>>

  /** The replies of `create_group`; `Text` gives the words the source returns. */
  datatype CreateReply =
    | NameTaken(name: string, aid: string)
    | AssignmentNotFound
    | CreatedWithId(name: string, id: string)
  {
    function Text(): string {
      match this
      case NameTaken(n, a) => "A group named '" + n + "' already exists for " + a + "."
      case AssignmentNotFound => "Assignment not found."
      case CreatedWithId(n, id) => "✅ Group '" + n + "' created successfully with ID " + id + "."
    }
  }

  /** The replies of `join_group`. */
  datatype JoinReply =
    | AlreadyIn(name: string)
    | Full(name: string, max: int)
    | JoinedGroup(name: string)
    | NotFound(name: string, aid: string)
  {
    function Text(): string {
      match this
      case AlreadyIn(n) => "You're already a member of '" + n + "'."
      case Full(n, m) => "Sorry, '" + n + "' is full (" + IntToString(m) + " members max)."
      case JoinedGroup(n) => "✅ You've joined the group '" + n + "'!"
      case NotFound(n, a) => "Group '" + n + "' not found in " + a + "."
    }
  }

  /** The two names are equal once both are lower-cased. */
  predicate SameName(a: string, b: string) {
    Lower(a) == Lower(b)
  }

  /**
   * Scans `gs[k..]` for the first group named `name` ignoring case, the way
   * both `any(...)` and the join loop do: a non-record met first raises.
   */
  function FirstNamed(gs: seq<Entry>, name: string, k: nat): (r: Search)
    requires k <= |gs|
    ensures r.Found? ==> k <= r.index < |gs| && gs[r.index].Record? && SameName(gs[r.index].group.name, name)
    ensures r.Malformed? ==> k <= r.index < |gs| && gs[r.index].NonRecord?
    ensures r.Found? || r.Malformed? ==>
      forall j :: k <= j < r.index ==> gs[j].Record? && !SameName(gs[j].group.name, name)
    ensures r.Absent? <==> forall j :: k <= j < |gs| ==> gs[j].Record? && !SameName(gs[j].group.name, name)
    decreases |gs| - k
  {
    if k == |gs| then Absent
    else if gs[k].NonRecord? then Malformed(k)
    else if SameName(gs[k].group.name, name) then Found(k)
    else FirstNamed(gs, name, k + 1)
  }

  /** The id of a new group: the assignment id, "-G" and the first 8 characters of the uuid. */
  function NewGroupId(aid: string, uuid: string): string {
    aid + "-G" + Take(uuid, 8)
  }

  // ----- create -----

  /** `create_group`: the new `all_groups` and the reply. */
  function CreateGroupSpec(all: AllGroups, aid: string, groupName: string, user: string,
                           assignments: seq<Assignment>, uuid: string): (AllGroups, Outcome<CreateReply>)
  {
    var gs := GroupsOf(all, aid);
    match FirstNamed(gs, groupName, 0)
    case Malformed(_) => (all, Raised(TypeError))
    case Found(_) => (all, Value(NameTaken(groupName, aid)))
    case Absent =>
      match FindAssignment(assignments, aid)
      case None => (all, Value(AssignmentNotFound))
      case Some(ai) =>
        var a := assignments[ai];
        if a.maxMembers.None? then (all, Raised(KeyError))
        else
          var id := NewGroupId(aid, uuid);
          var g := Group(id, groupName, [user], user, a.maxMembers);
          (all[aid := gs + [Record(g)]], Value(CreatedWithId(groupName, id)))
  }

  method CreateGroup(store: GroupStore, aid: string, groupName: string, user: string,
                     assignments: seq<Assignment>, uuid: string) returns (r: Outcome<CreateReply>)
    modifies store
    ensures (store.all, r) == CreateGroupSpec(old(store.all), aid, groupName, user, assignments, uuid)
  {
    var gs := GroupsOf(store.all, aid);
    var k := 0;
    while k < |gs|
      invariant k <= |gs|
      invariant FirstNamed(gs, groupName, k) == FirstNamed(gs, groupName, 0)
    {
      if gs[k].NonRecord? {
        return Raised(TypeError);
      }
      if Lower(gs[k].group.name) == Lower(groupName) {
        return Value(NameTaken(groupName, aid));
      }
      k := k + 1;
    }
    var found: Option<nat> := None;
    var n := 0;
    while n < |assignments| && found.None?
      invariant n <= |assignments|
      invariant found.None? ==> forall j :: 0 <= j < n ==> assignments[j].id != aid
      invariant found.Some? ==> found == FindAssignment(assignments, aid)
    {
      if assignments[n].id == aid {
        found := Some(n);
      }
      n := n + 1;
    }
    if found.None? {
      return Value(AssignmentNotFound);
    }
    var a := assignments[found.value];
    var id := aid + "-G" + Take(uuid, 8);
    if a.maxMembers.None? {
      return Raised(KeyError);
    }
    var g := Group(id, groupName, [user], user, a.maxMembers);
    store.all := store.all[aid := gs + [Record(g)]];
    return Value(CreatedWithId(groupName, id));
  }

  // ----- join -----

  /** `join_group`: the new `all_groups` and the reply. */
  function JoinGroupSpec(all: AllGroups, aid: string, groupName: string, user: string): (AllGroups, Outcome<JoinReply>)
  {
    var gs := GroupsOf(all, aid);
    match FirstNamed(gs, groupName, 0)
    case Malformed(_) => (all, Raised(TypeError))
    case Absent => (all, Value(NotFound(groupName, aid)))
    case Found(i) =>
      var g := gs[i].group;
      if user in g.members then (all, Value(AlreadyIn(groupName)))
      else if g.maxMembers.None? then (all, Raised(KeyError))
      else if |g.members| >= g.maxMembers.value then (all, Value(Full(groupName, g.maxMembers.value)))
      else (all[aid := gs[i := Record(g.(members := g.members + [user]))]], Value(JoinedGroup(groupName)))
  }

  method JoinGroup(store: GroupStore, aid: string, groupName: string, user: string) returns (r: Outcome<JoinReply>)
    modifies store
    ensures (store.all, r) == JoinGroupSpec(old(store.all), aid, groupName, user)
  {
    var gs := GroupsOf(store.all, aid);
    var k := 0;
    while k < |gs|
      invariant k <= |gs|
      invariant FirstNamed(gs, groupName, k) == FirstNamed(gs, groupName, 0)
    {
      if gs[k].NonRecord? {
        return Raised(TypeError);
      }
      var g := gs[k].group;
      if Lower(g.name) == Lower(groupName) {
        if user in g.members {
          return Value(AlreadyIn(groupName));
        }
        if g.maxMembers.None? {
          return Raised(KeyError);
        }
        if |g.members| >= g.maxMembers.value {
          return Value(Full(groupName, g.maxMembers.value));
        }
        store.all := store.all[aid := gs[k := Record(g.(members := g.members + [user]))]];
        return Value(JoinedGroup(groupName));
      }
      k := k + 1;
    }
    return Value(NotFound(groupName, aid));
  }

  // ----- list -----

  /** One line of the listing: name, member count and capacity. */
  function CapacityLine(g: Group): string
    requires g.maxMembers.Some?
  {
    "- " + g.name + " (" + IntToString(|g.members|) + "/" + IntToString(g.maxMembers.value) + " members)\n"
  }

  /** An entry the listing can show: a group with a `max_members`. */
  predicate Listable(e: Entry) {
    e.Record? && e.group.maxMembers.Some?
  }

  /** The exception the listing raises on an entry, if any: `g['group_name']` on a non-record, `g['max_members']` missing. */
  function LineError(e: Entry): (r: Option<Exc>)
    ensures r.None? <==> Listable(e)
  {
    if e.NonRecord? then Some(TypeError)
    else if e.group.maxMembers.None? then Some(KeyError)
    else None
  }

  /** What the listing loop raises: the exception of the first entry that has one. */
  function FirstLineError(gs: seq<Entry>): (r: Option<Exc>)
    ensures r.None? <==> forall j :: 0 <= j < |gs| ==> Listable(gs[j])
  {
    if gs == [] then None
    else if LineError(gs[0]).Some? then LineError(gs[0])
    else FirstLineError(gs[1..])
  }

  /** The lines for groups that all have a capacity, one per group in stored order. */
  function CapacityLines(gs: seq<Entry>): string
    requires forall j :: 0 <= j < |gs| ==> Listable(gs[j])
  {
    if gs == [] then ""
    else
      assert Listable(gs[|gs| - 1]);
      CapacityLines(gs[..|gs| - 1]) + CapacityLine(gs[|gs| - 1].group)
  }

  function NoGroupsMessage(aid: string): string {
    "No groups found for " + aid + " yet."
  }

  function GroupsHeading(aid: string): string {
    "📋 Groups for " + aid + ":\n"
  }

  /** The result of `get_groups`. */
  function GroupsText(aid: string, gs: seq<Entry>): Outcome<string> {
    if gs == [] then Value(NoGroupsMessage(aid))
    else match FirstLineError(gs)
      case Some(x) => Raised(x)
      case None => Value(GroupsHeading(aid) + CapacityLines(gs))
  }

  /** The error of the entry at `k` is the one raised when every earlier entry is fine. */
  lemma {:induction false} FirstLineErrorAt(gs: seq<Entry>, k: nat)
    requires k < |gs| && LineError(gs[k]).Some?
    requires forall j :: 0 <= j < k ==> Listable(gs[j])
    ensures FirstLineError(gs) == LineError(gs[k])
    decreases k
  {
    if k > 0 {
      FirstLineErrorAt(gs[1..], k - 1);
    }
  }

  method GetGroups(aid: string, store: GroupStore) returns (r: Outcome<string>)
    ensures r == GroupsText(aid, GroupsOf(store.all, aid))
  {
    var gs := GroupsOf(store.all, aid);
    if gs == [] {
      return Value(NoGroupsMessage(aid));
    }
    var msg := GroupsHeading(aid);
    ghost var lines := "";
    var k := 0;
    while k < |gs|
      invariant k <= |gs|
      invariant forall j :: 0 <= j < k ==> Listable(gs[j])
      invariant lines == CapacityLines(gs[..k])
      invariant msg == GroupsHeading(aid) + lines
    {
      var err := LineError(gs[k]);
      if err.Some? {
        FirstLineErrorAt(gs, k);
        return Raised(err.value);
      }
      var line := CapacityLine(gs[k].group);
      CapacityLinesStep(gs, k);
      AppendAssoc(GroupsHeading(aid), lines, line);
      msg := msg + line;
      lines := lines + line;
      k := k + 1;
    }
    assert gs[..k] == gs;
    return Value(msg);
  }

  /** One more listable entry adds its line. */
  lemma CapacityLinesStep(gs: seq<Entry>, k: nat)
    requires k < |gs| && forall j :: 0 <= j <= k ==> Listable(gs[j])
    ensures CapacityLines(gs[..k + 1]) == CapacityLines(gs[..k]) + CapacityLine(gs[k].group)
  {
    assert gs[..k + 1][..k] == gs[..k];
  }

  // ----- properties -----

  /** Every record's members are within its own `max_members`, where it has one. */
  predicate WithinCapacity(gs: seq<Entry>) {
    forall i :: 0 <= i < |gs| && gs[i].Record? && gs[i].group.maxMembers.Some? ==>
      |gs[i].group.members| <= gs[i].group.maxMembers.value
  }

  /** No two records carry the same name ignoring case. */
  predicate DistinctNames(gs: seq<Entry>) {
    forall i, j :: 0 <= i < j < |gs| && gs[i].Record? && gs[j].Record? ==>
      !SameName(gs[i].group.name, gs[j].group.name)
  }

  /**
   * The duplicate-name check comes before the assignment lookup: a taken name
   * is reported whatever the assignments, and nothing changes.
   */
  lemma CreateChecksNameFirst(all: AllGroups, aid: string, groupName: string, user: string,
                              assignments: seq<Assignment>, uuid: string)
    requires forall j :: 0 <= j < |GroupsOf(all, aid)| ==> GroupsOf(all, aid)[j].Record?
    requires exists j :: 0 <= j < |GroupsOf(all, aid)| && SameName(GroupsOf(all, aid)[j].group.name, groupName)
    ensures CreateGroupSpec(all, aid, groupName, user, assignments, uuid) == (all, Value(NameTaken(groupName, aid)))
  {
    assert !FirstNamed(GroupsOf(all, aid), groupName, 0).Absent?;
  }

  /** With a fresh name but no assignment of that id, create answers "Assignment not found." and adds nothing. */
  lemma CreateNeedsAssignment(all: AllGroups, aid: string, groupName: string, user: string,
                              assignments: seq<Assignment>, uuid: string)
    requires forall j :: 0 <= j < |GroupsOf(all, aid)| ==>
      GroupsOf(all, aid)[j].Record? && !SameName(GroupsOf(all, aid)[j].group.name, groupName)
    requires forall j :: 0 <= j < |assignments| ==> assignments[j].id != aid
    ensures CreateGroupSpec(all, aid, groupName, user, assignments, uuid) == (all, Value(AssignmentNotFound))
  {
  }

  /**
   * A successful create appends exactly one group at the end of the
   * assignment's list: the caller as its only member and creator, the
   * capacity of the first assignment with that id, and the uuid-based id.
   */
  lemma CreateAppendsOneGroup(all: AllGroups, aid: string, groupName: string, user: string,
                              assignments: seq<Assignment>, uuid: string)
    requires CreateGroupSpec(all, aid, groupName, user, assignments, uuid).1.Value?
    requires CreateGroupSpec(all, aid, groupName, user, assignments, uuid).1.v.CreatedWithId?
    ensures var gs := GroupsOf(all, aid);
      var res := CreateGroupSpec(all, aid, groupName, user, assignments, uuid);
      var ai := FindAssignment(assignments, aid);
      && (forall j :: 0 <= j < |gs| ==> gs[j].Record? && !SameName(gs[j].group.name, groupName))
      && ai.Some? && assignments[ai.value].maxMembers.Some?
      && res.0 == all[aid := gs + [Record(Group(NewGroupId(aid, uuid), groupName, [user], user,
                                               assignments[ai.value].maxMembers))]]
  {
    assert FirstNamed(GroupsOf(all, aid), groupName, 0).Absent?;
  }

  /** Create keeps the names of a list distinct ignoring case. */
  lemma CreateKeepsNamesDistinct(all: AllGroups, aid: string, groupName: string, user: string,
                                 assignments: seq<Assignment>, uuid: string)
    requires DistinctNames(GroupsOf(all, aid))
    ensures DistinctNames(GroupsOf(CreateGroupSpec(all, aid, groupName, user, assignments, uuid).0, aid))
  {
    var res := CreateGroupSpec(all, aid, groupName, user, assignments, uuid);
    if res.1.Value? && res.1.v.CreatedWithId? {
      CreateAppendsOneGroup(all, aid, groupName, user, assignments, uuid);
      var gs := GroupsOf(all, aid);
      var gs' := GroupsOf(res.0, aid);
      forall i, j | 0 <= i < j < |gs'| && gs'[i].Record? && gs'[j].Record?
        ensures !SameName(gs'[i].group.name, gs'[j].group.name)
      {
        if j == |gs| {
          assert !SameName(gs[i].group.name, groupName);
        } else {
          assert gs'[i] == gs[i] && gs'[j] == gs[j];
        }
      }
    }
  }

  /** Create keeps every group within its capacity when every assignment allows at least one member. */
  lemma CreateKeepsCapacity(all: AllGroups, aid: string, groupName: string, user: string,
                            assignments: seq<Assignment>, uuid: string)
    requires WithinCapacity(GroupsOf(all, aid))
    requires forall j :: 0 <= j < |assignments| && assignments[j].maxMembers.Some? ==> assignments[j].maxMembers.value >= 1
    ensures WithinCapacity(GroupsOf(CreateGroupSpec(all, aid, groupName, user, assignments, uuid).0, aid))
  {
    var res := CreateGroupSpec(all, aid, groupName, user, assignments, uuid);
    if res.1.Value? && res.1.v.CreatedWithId? {
      CreateAppendsOneGroup(all, aid, groupName, user, assignments, uuid);
      var gs := GroupsOf(all, aid);
      var gs' := GroupsOf(res.0, aid);
      forall i | 0 <= i < |gs'| && gs'[i].Record? && gs'[i].group.maxMembers.Some?
        ensures |gs'[i].group.members| <= gs'[i].group.maxMembers.value
      {
        if i < |gs| {
          assert gs'[i] == gs[i];
        }
      }
    }
  }

  /**
   * Unlike features/group_management.py, this create does not check that the
   * caller is in no other group: a member of one group can create a second
   * and belong to both.
   */
  lemma CreateAllowsSecondGroup()
    ensures var first := Group("A1-G1", "Alpha", ["u@rmit.edu.au"], "u@rmit.edu.au", Some(3));
      var all := map["A1" := [Record(first)]];
      var res := CreateGroupSpec(all, "A1", "Beta", "u@rmit.edu.au",
                                 [Assignment("A1", "Essay", None, Some(3))], "0123456789");
      && res.1 == Value(CreatedWithId("Beta", "A1-G01234567"))
      && !ValidGroups(GroupsOf(res.0, "A1"), 3)
  {
    var first := Group("A1-G1", "Alpha", ["u@rmit.edu.au"], "u@rmit.edu.au", Some(3));
    var all := map["A1" := [Record(first)]];
    assert Lower("Alpha") != Lower("Beta") by {
      assert Lower("Alpha")[0] == 'a' && Lower("Beta")[0] == 'b';
    }
    assert FirstNamed([Record(first)], "Beta", 0) == Absent;
    assert FindAssignment([Assignment("A1", "Essay", None, Some(3))], "A1") == Some(0);
    assert Take("0123456789", 8) == "01234567";
    assert NewGroupId("A1", "0123456789") == "A1-G01234567";
    var gs' := GroupsOf(CreateGroupSpec(all, "A1", "Beta", "u@rmit.edu.au",
                                        [Assignment("A1", "Essay", None, Some(3))], "0123456789").0, "A1");
    assert "u@rmit.edu.au" in Members(gs'[0]) && "u@rmit.edu.au" in Members(gs'[1]);
  }

  /**
   * Join looks only at the named group: a user already in one group of the
   * assignment is let into a second.
   */
  lemma JoinAllowsSecondGroup()
    ensures var first := Group("A1-G1", "Alpha", ["u@rmit.edu.au"], "u@rmit.edu.au", Some(3));
      var second := Group("A1-G2", "Beta", ["v@rmit.edu.au"], "v@rmit.edu.au", Some(3));
      var res := JoinGroupSpec(map["A1" := [Record(first), Record(second)]], "A1", "Beta", "u@rmit.edu.au");
      && res.1 == Value(JoinedGroup("Beta"))
      && !ValidGroups(GroupsOf(res.0, "A1"), 3)
  {
    var first := Group("A1-G1", "Alpha", ["u@rmit.edu.au"], "u@rmit.edu.au", Some(3));
    var second := Group("A1-G2", "Beta", ["v@rmit.edu.au"], "v@rmit.edu.au", Some(3));
    var gs := [Record(first), Record(second)];
    assert Lower("Alpha") != Lower("Beta") by {
      assert Lower("Alpha")[0] == 'a' && Lower("Beta")[0] == 'b';
    }
    assert FirstNamed(gs, "Beta", 1) == Found(1);
    assert FirstNamed(gs, "Beta", 0) == Found(1);
    assert "u@rmit.edu.au" !in second.members by {
      assert "u@rmit.edu.au"[0] != "v@rmit.edu.au"[0];
    }
    var gs' := GroupsOf(JoinGroupSpec(map["A1" := gs], "A1", "Beta", "u@rmit.edu.au").0, "A1");
    assert "u@rmit.edu.au" in Members(gs'[0]) && "u@rmit.edu.au" in Members(gs'[1]);
  }

  /** Join changes the store only when it reports that the caller joined. */
  lemma JoinChangesOnlyOnSuccess(all: AllGroups, aid: string, groupName: string, user: string)
    ensures var res := JoinGroupSpec(all, aid, groupName, user);
      res.0 == all <==> !(res.1.Value? && res.1.v.JoinedGroup?)
  {
    var res := JoinGroupSpec(all, aid, groupName, user);
    if res.1.Value? && res.1.v.JoinedGroup? {
      var gs := GroupsOf(all, aid);
      var i := FirstNamed(gs, groupName, 0).index;
      assert |res.0[aid][i].group.members| == |gs[i].group.members| + 1;
    }
  }

  /**
   * A successful join adds the caller once to the first group whose name
   * matches ignoring case, which had room and did not hold the caller; the
   * other groups are unchanged.
   */
  lemma JoinAddsToFirstMatch(all: AllGroups, aid: string, groupName: string, user: string)
    requires JoinGroupSpec(all, aid, groupName, user).1.Value?
    requires JoinGroupSpec(all, aid, groupName, user).1.v.JoinedGroup?
    ensures var gs := GroupsOf(all, aid);
      var res := JoinGroupSpec(all, aid, groupName, user);
      exists i :: 0 <= i < |gs| && gs[i].Record? && SameName(gs[i].group.name, groupName)
        && (forall j :: 0 <= j < i ==> gs[j].Record? && !SameName(gs[j].group.name, groupName))
        && user !in gs[i].group.members
        && gs[i].group.maxMembers.Some? && |gs[i].group.members| < gs[i].group.maxMembers.value
        && res.0 == all[aid := gs[i := Record(gs[i].group.(members := gs[i].group.members + [user]))]]
  {
    var gs := GroupsOf(all, aid);
    var i := FirstNamed(gs, groupName, 0).index;
    assert gs[i].Record?;
  }

  /** "not found" is the answer exactly when every entry is a group with another name. */
  lemma JoinNotFoundIff(all: AllGroups, aid: string, groupName: string, user: string)
    ensures var gs := GroupsOf(all, aid);
      JoinGroupSpec(all, aid, groupName, user).1 == Value(NotFound(groupName, aid)) <==>
        forall j :: 0 <= j < |gs| ==> gs[j].Record? && !SameName(gs[j].group.name, groupName)
  {
  }

  /** Join keeps every group within its capacity. */
  lemma JoinKeepsCapacity(all: AllGroups, aid: string, groupName: string, user: string)
    requires WithinCapacity(GroupsOf(all, aid))
    ensures WithinCapacity(GroupsOf(JoinGroupSpec(all, aid, groupName, user).0, aid))
  {
    var res := JoinGroupSpec(all, aid, groupName, user);
    if res.1.Value? && res.1.v.JoinedGroup? {
      var gs := GroupsOf(all, aid);
      var i := FirstNamed(gs, groupName, 0).index;
      var gs' := GroupsOf(res.0, aid);
      assert gs' == gs[i := Record(gs[i].group.(members := gs[i].group.members + [user]))];
    } else {
      JoinChangesOnlyOnSuccess(all, aid, groupName, user);
    }
  }

  /** The lines keep the stored order: the lines of `a + b` are those of `a` followed by those of `b`. */
  lemma {:induction false} CapacityLinesAppend(a: seq<Entry>, b: seq<Entry>)
    requires forall j :: 0 <= j < |a| ==> Listable(a[j])
    requires forall j :: 0 <= j < |b| ==> Listable(b[j])
    ensures CapacityLines(a + b) == CapacityLines(a) + CapacityLines(b)
    decreases |b|
  {
    if b == [] {
      assert a + b == a;
    } else {
      var front := b[..|b| - 1];
      assert (a + b)[..|a + b| - 1] == a + front;
      CapacityLinesAppend(a, front);
      AppendAssoc(CapacityLines(a), CapacityLines(front), CapacityLine(b[|b| - 1].group));
    }
  }

  /**
   * `get_groups` answers "No groups found" exactly for an empty list, raises
   * exactly when some entry is not a group with a capacity, and otherwise
   * gives the heading followed by one line per group.
   */
  lemma GroupsTextCases(aid: string, gs: seq<Entry>)
    ensures GroupsText(aid, gs) == Value(NoGroupsMessage(aid)) <==> gs == []
    ensures GroupsText(aid, gs).Raised? <==> exists j :: 0 <= j < |gs| && !Listable(gs[j])
    ensures !GroupsText(aid, gs).NoValue?
  {
    if gs != [] && FirstLineError(gs).None? {
      var h := GroupsHeading(aid) + CapacityLines(gs);
      assert h[0] != NoGroupsMessage(aid)[0];
    }
  }
}
