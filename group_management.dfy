/**
 * The group-membership engine of features/group_management.py: listing an
 * assignment's groups as text, creating a group, joining one, and leaving or
 * deleting one. The Streamlit widgets the Python functions read (the typed
 * group name, the buttons, the group picker and the exit/delete radio) are
 * parameters here.
 *
 * Each operation is a method that updates the store the way the Python code
 * does, proved equal to a function of the old store; the lemmas at the end state
 * the membership rules about those functions.
 */
module GroupManagement {
  import opened Wrappers
  import opened Text
  import opened Groups

  type AllGroups = map<string, seq<Entry>>

  /**
   * The messages create and join answer with; `Text` gives the words the
   * source shows for each.
   */
  datatype Notice =
    | AlreadyPart(name: string)
    | Created(name: string)
    | AlreadyMember(name: string)
    | AllFull
    | NowFull(name: string)
    | Joined(name: string)
  {
    function Text(): string {
      match this
      case AlreadyPart(n) => "⚠️ You are already part of **" + n + "**. Please leave it before creating a new one."
      case Created(n) => "✅ Group **" + n + "** created. You are now a member!"
      case AlreadyMember(n) => "⚠️ You are already a member of **" + n + "**. Please leave it before joining another group."
      case AllFull => "🚫 All groups are currently full. You can create a new group instead."
      case NowFull(n) => "🚫 Sorry, **" + n + "** is now full."
      case Joined(n) => "🎉 You have successfully joined **" + n + "**!"
    }
  }

  /** What create and join return with `return_group_name`: the message and the group name or None. */
  datatype Answer = Answer(notice: Notice, groupName: Option<string>)

  /** The `{user_message, bot_response}` dictionary that exit/delete returns. */
  datatype Exchange = Exchange(userMessage: string, botResponse: string)

  /** The outcomes of exit/delete; `AsExchange` gives the dictionary the source returns for each. */
  datatype ExitNotice =
    | NotInGroup
    | Transferred(name: string, leader: string)
    | LastMember(name: string)
    | Exited(name: string)
    | Deleted(name: string)
    | OnlyCreator(name: string)
  {
    function AsExchange(): Exchange {
      match this
      case NotInGroup => Exchange("Leave my group", "⚠️ You're not part of any group in this assignment.")
      case Transferred(n, l) =>
        Exchange("exit group " + n, "✅ You’ve exited **" + n + "**. Leadership transferred to **" + l + "**.")
      case LastMember(n) =>
        Exchange("exit group " + n, "✅ You were the last member of **" + n + "**. The group has been deleted.")
      case Exited(n) => Exchange("exit group " + n, "✅ You’ve exited **" + n + "**.")
      case Deleted(n) => Exchange("delete group " + n, "🗑️ Group **" + n + "** has been deleted.")
      case OnlyCreator(n) => Exchange("try to delete group " + n, "🚫 Only the group creator can delete the group.")
    }
  }

  /** The choice on the "What would you like to do?" radio. */
  datatype ExitChoice = ExitGroup | DeleteGroup

  /** The entry's "Maximum Group Members" as an integer, 3 when the entry has none. */
  function MaxMembersOf(a: Assignment): int {
    a.maxMembers.GetOr(3)
  }

  /** Every assignment's group list is valid under that assignment's own maximum. */
  predicate StoreValid(all: AllGroups, assignments: map<string, Assignment>) {
    forall a :: a in assignments ==> ValidGroups(GroupsOf(all, a), MaxMembersOf(assignments[a]))
  }

  // ----- messages -----

  const NoAssignmentMessage := "⚠️ No assignment selected."
  const NoOtherGroupsMessage := "ℹ️ No other groups created yet."
  function UserGroupHeader(g: Group): string {
    "🎯 **You are part of this group:** `" + g.name + "`\n" +
    "👥 Members: " + JoinStrings(g.members, ", ") + "\n\n"
  }

  function NotInAnyGroupHeader(aid: string): string {
    "❗ You are currently not part of any group in **" + aid + "**.\n\n"
  }

  function OthersHeading(aid: string): string {
    "📋 **Other groups in " + aid + ":**\n"
  }

  function GroupLine(g: Group): string {
    "- `" + g.name + "` (" + IntToString(|g.members|) + " members): " + JoinStrings(g.members, ", ") + "\n"
  }

  /** The picker label of an open group, `"{name} ({count}/{max})"`. */
  function Label(g: Group, max: int): string {
    g.name + " (" + IntToString(|g.members|) + "/" + IntToString(max) + ")"
  }

  // ----- listing -----

  /** The caller is a non-empty address listed among the members. */
  predicate Holds(g: Group, user: string) {
    user != "" && user in g.members
  }

  /**
   * The group the listing shows as the caller's: the loop overwrites
   * `user_group` on every match, so it is the LAST record holding the caller.
   */
  function UserGroupOf(gs: seq<Entry>, user: string): Option<Group> {
    if gs == [] then None
    else
      var last := gs[|gs| - 1];
      if last.Record? && Holds(last.group, user) then Some(last.group)
      else UserGroupOf(gs[..|gs| - 1], user)
  }

  /** The records that do not hold the caller, in stored order; non-records are skipped. */
  function OthersOf(gs: seq<Entry>, user: string): seq<Group> {
    if gs == [] then []
    else
      var last := gs[|gs| - 1];
      var r := OthersOf(gs[..|gs| - 1], user);
      if last.Record? && !Holds(last.group, user) then r + [last.group] else r
  }

  /** The lines listing `others`, one per group, in order. */
  function OtherLines(others: seq<Group>): string {
    if others == [] then ""
    else OtherLines(others[..|others| - 1]) + GroupLine(others[|others| - 1])
  }

  /** The text `get_group_list_as_text` returns. */
  function GroupListText(aid: string, gs: seq<Entry>, user: string): string {
    if aid == "" then NoAssignmentMessage
    else
      var header := match UserGroupOf(gs, user)
        case Some(g) => UserGroupHeader(g)
        case None => NotInAnyGroupHeader(aid);
      var others := OthersOf(gs, user);
      header + if others != [] then OthersHeading(aid) + OtherLines(others) else NoOtherGroupsMessage
  }

  /** `get_group_list_as_text(assignment_id, all_groups, user_email)`; "" stands for None. */
  method GetGroupListAsText(aid: string, store: GroupStore, user: string) returns (message: string)
    ensures message == GroupListText(aid, GroupsOf(store.all, aid), user)
  {
    if aid == "" {
      return NoAssignmentMessage;
    }
    var userGroup: Option<Group> := None;
    var others: seq<Group> := [];
    var gs := GroupsOf(store.all, aid);
    var k := 0;
    while k < |gs|
      invariant k <= |gs|
      invariant userGroup == UserGroupOf(gs[..k], user)
      invariant others == OthersOf(gs[..k], user)
    {
      assert gs[..k + 1][..k] == gs[..k];
      var e := gs[k];
      if e.Record? {
        if Holds(e.group, user) {
          userGroup := Some(e.group);
        } else {
          others := others + [e.group];
        }
      }
      k := k + 1;
    }
    assert gs[..k] == gs;
    var header := match userGroup
      case Some(g) => UserGroupHeader(g)
      case None => NotInAnyGroupHeader(aid);
    var tail := NoOtherGroupsMessage;
    if others != [] {
      tail := AppendGroupLines(OthersHeading(aid), others);
    }
    message := header + tail;
  }

  /** The `for g in other_groups: message += group_line + "\n"` loop, from the text so far. */
  method AppendGroupLines(start: string, others: seq<Group>) returns (message: string)
    ensures message == start + OtherLines(others)
  {
    message := start;
    var n := 0;
    while n < |others|
      invariant n <= |others|
      invariant message == start + OtherLines(others[..n])
    {
      assert others[..n + 1][..n] == others[..n];
      AppendAssoc(start, OtherLines(others[..n]), GroupLine(others[n]));
      message := message + GroupLine(others[n]);
      n := n + 1;
    }
    assert others[..n] == others;
  }

  // ----- create -----

  /**
   * `create_group_for_user` with the typed name and the button as parameters:
   * the result and the new `all_groups`. `setdefault` stores an empty list for
   * an unknown assignment before anything else happens.
   */
  function Create(all: AllGroups, aid: string, assignments: map<string, Assignment>,
                  user: string, typedName: string, clicked: bool): (AllGroups, Outcome<Answer>)
  {
    var gs := GroupsOf(all, aid);
    var defaulted := all[aid := gs];
    if aid !in assignments then (defaulted, Raised(KeyError))
    else match FindMember(gs, user)
      case Malformed(_) => (defaulted, Raised(AttributeError))
      case Found(i) => (defaulted, Value(Answer(AlreadyPart(gs[i].group.name), None)))
      case Absent =>
        var name := Strip(typedName);
        if clicked && name != "" then
          var g := Group(aid + "-G" + NatToString(|gs| + 1), name, [user], user, None);
          (all[aid := gs + [Record(g)]], Value(Answer(Created(name), Some(name))))
        else (defaulted, NoValue)
  }

  /**
   * The membership scan create and join open with: the first group listing
   * the user, or the first entry that is not a group (whose `.get` raises).
   */
  method SearchMember(gs: seq<Entry>, user: string) returns (found: Search)
    ensures found == FindMember(gs, user)
  {
    var k := 0;
    while k < |gs|
      invariant k <= |gs|
      invariant FindFrom(gs, user, k) == FindMember(gs, user)
    {
      if gs[k].NonRecord? {
        return Malformed(k);
      }
      if user in gs[k].group.members {
        return Found(k);
      }
      k := k + 1;
    }
    return Absent;
  }

  method CreateGroupForUser(store: GroupStore, aid: string, assignments: map<string, Assignment>,
                            user: string, typedName: string, clicked: bool) returns (r: Outcome<Answer>)
    modifies store
    ensures (store.all, r) == Create(old(store.all), aid, assignments, user, typedName, clicked)
  {
    var all := store.all;
    var gs := GroupsOf(all, aid);
    ghost var want := Create(all, aid, assignments, user, typedName, clicked);
    store.all := all[aid := gs];
    if aid !in assignments {
      return Raised(KeyError);
    }
    var found := SearchMember(gs, user);
    match found {
      case Malformed(_) => return Raised(AttributeError);
      case Found(k) => return Value(Answer(AlreadyPart(gs[k].group.name), None));
      case Absent =>
    }
    var name := Strip(typedName);
    if clicked && name != "" {
      var g := Group(aid + "-G" + NatToString(|gs| + 1), name, [user], user, None);
      store.all := all[aid := gs + [Record(g)]];
      r := Value(Answer(Created(name), Some(name)));
      assert (store.all, r) == want;
      return;
    }
    return NoValue;
  }

  // ----- join -----

  /** A record with room left: fewer members than the maximum. */
  predicate Open(e: Entry, max: int) {
    e.Record? && |e.group.members| < max
  }

  /**
   * The group a picker label stands for among `gs[..k]`: the options are a
   * dictionary keyed by label, so a later open group with the same label
   * replaces an earlier one.
   */
  function LastWithLabel(gs: seq<Entry>, max: int, picked: string, k: nat): (r: Option<nat>)
    requires k <= |gs|
    ensures r.Some? ==> r.value < k && Open(gs[r.value], max) && Label(gs[r.value].group, max) == picked
    ensures r.Some? ==> forall j :: r.value < j < k ==> !(Open(gs[j], max) && Label(gs[j].group, max) == picked)
    ensures r.None? ==> forall j :: 0 <= j < k ==> !(Open(gs[j], max) && Label(gs[j].group, max) == picked)
  {
    if k == 0 then None
    else if Open(gs[k - 1], max) && Label(gs[k - 1].group, max) == picked then Some(k - 1)
    else LastWithLabel(gs, max, picked, k - 1)
  }

  /**
   * The `group_options` dictionary, built over the groups in order: each open
   * group's label maps to its index, a later group replacing an earlier one
   * with the same label.
   */
  method OptionsOf(gs: seq<Entry>, max: int) returns (options: map<string, nat>)
    requires forall j :: 0 <= j < |gs| ==> gs[j].Record?
    ensures forall l :: l in options <==> LastWithLabel(gs, max, l, |gs|).Some?
    ensures forall l :: l in options ==> options[l] == LastWithLabel(gs, max, l, |gs|).value
  {
    options := map[];
    var k := 0;
    while k < |gs|
      invariant k <= |gs|
      invariant forall l :: l in options <==> LastWithLabel(gs, max, l, k).Some?
      invariant forall l :: l in options ==> options[l] == LastWithLabel(gs, max, l, k).value
    {
      if |gs[k].group.members| < max {
        options := options[Label(gs[k].group, max) := k];
        assert Label(gs[k].group, max) in options;
      }
      k := k + 1;
    }
  }

  /**
   * `join_group_for_user` with the picked label and the confirm button as
   * parameters: the new `all_groups` and the result.
   */
  function Join(all: AllGroups, aid: string, assignments: map<string, Assignment>,
                user: string, picked: string, confirm: bool): (AllGroups, Outcome<Answer>)
  {
    var gs := GroupsOf(all, aid);
    if aid !in assignments then (all, Raised(KeyError))
    else
      var max := MaxMembersOf(assignments[aid]);
      match FindMember(gs, user)
      case Malformed(_) => (all, Raised(AttributeError))
      case Found(i) => (all, Value(Answer(AlreadyMember(gs[i].group.name), None)))
      case Absent =>
        if forall j :: 0 <= j < |gs| ==> !Open(gs[j], max) then (all, Value(Answer(AllFull, None)))
        else if !confirm then (all, NoValue)
        else match LastWithLabel(gs, max, picked, |gs|)
          case None => (all, Raised(KeyError))
          case Some(j) =>
            var g := gs[j].group;
            if |g.members| >= max then (all, Value(Answer(NowFull(g.name), None)))
            else (all[aid := gs[j := Record(g.(members := g.members + [user]))]],
                  Value(Answer(Joined(g.name), Some(g.name))))
  }

  method JoinGroupForUser(store: GroupStore, aid: string, assignments: map<string, Assignment>,
                          user: string, picked: string, confirm: bool) returns (r: Outcome<Answer>)
    modifies store
    ensures (store.all, r) == Join(old(store.all), aid, assignments, user, picked, confirm)
  {
    var gs := GroupsOf(store.all, aid);
    if aid !in assignments {
      return Raised(KeyError);
    }
    var max := MaxMembersOf(assignments[aid]);
    var found := SearchMember(gs, user);
    match found {
      case Malformed(_) => return Raised(AttributeError);
      case Found(k) => return Value(Answer(AlreadyMember(gs[k].group.name), None));
      case Absent =>
    }
    var options := OptionsOf(gs, max);
    if options == map[] {
      forall j | 0 <= j < |gs| ensures !Open(gs[j], max) {
        var l := Label(gs[j].group, max);
        assert l !in options;
      }
      return Value(Answer(AllFull, None));
    }
    if !confirm {
      return NoValue;
    }
    if picked !in options {
      return Raised(KeyError);
    }
    var j := options[picked];
    var g := gs[j].group;
    if |g.members| >= max {
      return Value(Answer(NowFull(g.name), None));
    }
    store.all := store.all[aid := gs[j := Record(g.(members := g.members + [user]))]];
    return Value(Answer(Joined(g.name), Some(g.name)));
  }

  // ----- exit or delete -----

  /** The position of the first occurrence of `x` in `s`. */
  function FirstAt(s: seq<string>, x: string): (k: nat)
    requires x in s
    ensures k < |s| && s[k] == x && x !in s[..k]
  {
    if s[0] == x then 0
    else
      var k := 1 + FirstAt(s[1..], x);
      assert s[..k] == [s[0]] + s[1..][..k - 1];
      k
  }

  /**
   * Removing a user from a list: the first occurrence goes and the other
   * members keep their order.
   */
  function RemoveFirst(s: seq<string>, x: string): (r: seq<string>)
    requires x in s
    ensures r == s[..FirstAt(s, x)] + s[FirstAt(s, x) + 1..]
  {
    if s[0] == x then s[1..]
    else
      var t := RemoveFirst(s[1..], x);
      var k := FirstAt(s[1..], x);
      assert s[..k + 1] == [s[0]] + s[1..][..k];
      assert s[k + 2..] == s[1..][k + 1..];
      [s[0]] + t
  }

  /**
   * Removing a user keeps every other member, and takes a duplicate-free list
   * to a duplicate-free list without that user.
   */
  lemma RemoveFirstKeepsOthers(s: seq<string>, x: string)
    requires x in s
    ensures |RemoveFirst(s, x)| == |s| - 1
    ensures forall y :: y in RemoveFirst(s, x) ==> y in s
    ensures forall y :: y in s && y != x ==> y in RemoveFirst(s, x)
    ensures NoDuplicates(s) ==> NoDuplicates(RemoveFirst(s, x)) && x !in RemoveFirst(s, x)
  {
    DropAtKeepsOthers(s, FirstAt(s, x));
  }

  /** Dropping position `k` keeps every other element, each at its place or one to the left. */
  lemma DropAtKeepsOthers(s: seq<string>, k: nat)
    requires k < |s|
    ensures |s[..k] + s[k + 1..]| == |s| - 1
    ensures forall y :: y in s[..k] + s[k + 1..] ==> y in s
    ensures forall y :: y in s && y != s[k] ==> y in s[..k] + s[k + 1..]
    ensures NoDuplicates(s) ==> NoDuplicates(s[..k] + s[k + 1..]) && s[k] !in s[..k] + s[k + 1..]
  {
    var r := s[..k] + s[k + 1..];
    forall i | 0 <= i < |r| ensures r[i] == s[Shift(i, k)] {
      if i < k {
        assert r[i] == s[..k][i];
      } else {
        assert r[i] == s[k + 1..][i - k];
      }
    }
    forall y | y in s && y != s[k] ensures y in r {
      var i :| 0 <= i < |s| && s[i] == y;
      assert r[if i < k then i else i - 1] == y;
    }
    if NoDuplicates(s) {
      forall i, j | 0 <= i < j < |r| ensures r[i] != r[j] {
        assert Shift(i, k) < Shift(j, k);
      }
    }
  }

  /** Where the element at `i` after dropping position `k` was before. */
  function Shift(i: nat, k: nat): nat {
    if i < k then i else i + 1
  }

  /** `groups.remove(entry)`: drops the first entry equal to `e`. */
  function RemoveEntry(gs: seq<Entry>, e: Entry): (r: seq<Entry>)
    requires e in gs
    ensures |r| == |gs| - 1
  {
    if gs[0] == e then gs[1..] else [gs[0]] + RemoveEntry(gs[1..], e)
  }

  /**
   * `delete_or_exit_group_for_user` with the radio choice and the confirm
   * button as parameters: the new `all_groups` and the result.
   */
  function ExitOrDelete(all: AllGroups, aid: string, user: string,
                        choice: ExitChoice, proceed: bool): (AllGroups, Outcome<ExitNotice>)
  {
    var gs := GroupsOf(all, aid);
    match FindMember(gs, user)
    case Malformed(_) => (all, Raised(TypeError))
    case Absent => (all, Value(NotInGroup))
    case Found(i) =>
      var g := gs[i].group;
      if !proceed then (all, NoValue)
      else if choice == ExitGroup then
        var rest := RemoveFirst(g.members, user);
        var left := g.(members := rest);
        if user == g.createdBy then
          if rest != [] then
            (all[aid := gs[i := Record(left.(createdBy := rest[0]))]],
             Value(Transferred(g.name, rest[0])))
          else
            var emptied := gs[i := Record(left)];
            assert emptied[i] == Record(left);
            (all[aid := RemoveEntry(emptied, Record(left))],
             Value(LastMember(g.name)))
        else
          (all[aid := gs[i := Record(left)]], Value(Exited(g.name)))
      else if user == g.createdBy then
        (all[aid := RemoveEntry(gs, gs[i])],
         Value(Deleted(g.name)))
      else
        (all, Value(OnlyCreator(g.name)))
  }

  method DeleteOrExitGroupForUser(store: GroupStore, aid: string, user: string,
                                  choice: ExitChoice, proceed: bool) returns (r: Outcome<ExitNotice>)
    modifies store
    ensures (store.all, r) == ExitOrDelete(old(store.all), aid, user, choice, proceed)
  {
    var gs := GroupsOf(store.all, aid);
    var k := 0;
    while k < |gs| && !(gs[k].Record? && user in gs[k].group.members)
      invariant k <= |gs|
      invariant FindFrom(gs, user, k) == FindMember(gs, user)
    {
      if gs[k].NonRecord? {
        return Raised(TypeError);
      }
      k := k + 1;
    }
    if k == |gs| {
      return Value(NotInGroup);
    }
    if !proceed {
      return NoValue;
    }
    var g := gs[k].group;
    if choice == ExitGroup {
      var left := g.(members := RemoveFirst(g.members, user));
      if user == g.createdBy {
        if left.members != [] {
          var leader := left.members[0];
          store.all := store.all[aid := gs[k := Record(left.(createdBy := leader))]];
          return Value(Transferred(g.name, leader));
        }
        var emptied := gs[k := Record(left)];
        assert emptied[k] == Record(left);
        store.all := store.all[aid := RemoveEntry(emptied, Record(left))];
        return Value(LastMember(g.name));
      }
      store.all := store.all[aid := gs[k := Record(left)]];
      return Value(Exited(g.name));
    } else if user == g.createdBy {
      store.all := store.all[aid := RemoveEntry(gs, gs[k])];
      return Value(Deleted(g.name));
    } else {
      return Value(OnlyCreator(g.name));
    }
  }

  // ----- properties of listing -----

  /** `groups.remove` on the first entry equal to `gs[i]` drops exactly index `i`. */
  lemma {:induction false} RemoveEntryAt(gs: seq<Entry>, e: Entry, i: nat)
    requires i < |gs| && gs[i] == e
    requires forall j :: 0 <= j < i ==> gs[j] != e
    ensures RemoveEntry(gs, e) == gs[..i] + gs[i + 1..]
    decreases i
  {
    if i > 0 {
      RemoveEntryAt(gs[1..], e, i - 1);
      assert gs[1..][..i - 1] == gs[1..i];
      assert gs[1..][i..] == gs[i + 1..];
      assert [gs[0]] + gs[1..i] == gs[..i];
    }
  }

  /** The listing splits over a concatenation of group lists, keeping stored order. */
  lemma {:induction false} OthersOfAppend(a: seq<Entry>, b: seq<Entry>, user: string)
    ensures OthersOf(a + b, user) == OthersOf(a, user) + OthersOf(b, user)
    decreases |b|
  {
    if b == [] {
      assert a + b == a;
    } else {
      var front := b[..|b| - 1];
      assert (a + b)[..|a + b| - 1] == a + front;
      OthersOfAppend(a, front, user);
    }
  }

  /** The caller's group among `a + b` is the last one in `b`, else the one in `a`. */
  lemma {:induction false} UserGroupOfAppend(a: seq<Entry>, b: seq<Entry>, user: string)
    ensures UserGroupOf(a + b, user) == if UserGroupOf(b, user).Some? then UserGroupOf(b, user) else UserGroupOf(a, user)
    decreases |b|
  {
    if b == [] {
      assert a + b == a;
    } else {
      var front := b[..|b| - 1];
      assert (a + b)[..|a + b| - 1] == a + front;
      UserGroupOfAppend(a, front, user);
    }
  }

  /** A non-record entry anywhere in the list changes nothing in the listing. */
  lemma ListingSkipsNonRecords(aid: string, a: seq<Entry>, b: seq<Entry>, user: string)
    ensures GroupListText(aid, a + [NonRecord] + b, user) == GroupListText(aid, a + b, user)
  {
    OthersOfAppend(a, [NonRecord], user);
    OthersOfAppend(a + [NonRecord], b, user);
    OthersOfAppend(a, b, user);
    UserGroupOfAppend(a, [NonRecord], user);
    UserGroupOfAppend(a + [NonRecord], b, user);
    UserGroupOfAppend(a, b, user);
  }

  /**
   * The "other groups" are exactly the records that do not hold the caller:
   * the caller's own group is never among them, and every other record is.
   */
  lemma {:induction false} OthersAreTheNonHolders(gs: seq<Entry>, user: string)
    ensures forall g :: g in OthersOf(gs, user) ==> Record(g) in gs && !Holds(g, user)
    ensures forall i :: 0 <= i < |gs| && gs[i].Record? && !Holds(gs[i].group, user) ==> gs[i].group in OthersOf(gs, user)
    decreases |gs|
  {
    if gs != [] {
      var front := gs[..|gs| - 1];
      OthersAreTheNonHolders(front, user);
      assert forall i :: 0 <= i < |front| ==> gs[i] == front[i];
    }
  }

  /** The group shown as the caller's is the last record holding them; None when no record does. */
  lemma {:induction false} UserGroupIsLastHolder(gs: seq<Entry>, user: string, i: nat)
    requires i < |gs| && gs[i].Record? && Holds(gs[i].group, user)
    requires forall j :: i < j < |gs| ==> !(gs[j].Record? && Holds(gs[j].group, user))
    ensures UserGroupOf(gs, user) == Some(gs[i].group)
    decreases |gs|
  {
    if i < |gs| - 1 {
      UserGroupIsLastHolder(gs[..|gs| - 1], user, i);
    }
  }

  lemma {:induction false} NoUserGroupWithoutHolder(gs: seq<Entry>, user: string)
    ensures UserGroupOf(gs, user) == None <==> forall j :: 0 <= j < |gs| ==> !(gs[j].Record? && Holds(gs[j].group, user))
    decreases |gs|
  {
    if gs != [] {
      NoUserGroupWithoutHolder(gs[..|gs| - 1], user);
    }
  }

  /**
   * When no user is in two groups, the group the listing shows as the caller's
   * is the one create, join and exit find for them.
   */
  lemma UserGroupIsTheFoundGroup(gs: seq<Entry>, max: int, user: string)
    requires ValidGroups(gs, max) && user != ""
    ensures UserGroupOf(gs, user).Some? <==> FindMember(gs, user).Found?
    ensures FindMember(gs, user).Found? ==> UserGroupOf(gs, user) == Some(gs[FindMember(gs, user).index].group)
  {
    NoUserGroupWithoutHolder(gs, user);
    if FindMember(gs, user).Found? {
      var i := FindMember(gs, user).index;
      FoundIsUnique(gs, max, user);
      UserGroupIsLastHolder(gs, user, i);
    }
  }

  /** The lines for a non-empty list of groups end with a line break. */
  lemma OtherLinesEndWithBreak(others: seq<Group>)
    requires others != []
    ensures EndsWith(OtherLines(others), "\n")
  {
  }

  /** "No other groups created yet." ends the listing exactly when no other group is listed. */
  lemma NoOthersMessageIffNoOthers(aid: string, gs: seq<Entry>, user: string)
    requires aid != ""
    ensures OthersOf(gs, user) == [] <==> EndsWith(GroupListText(aid, gs, user), NoOtherGroupsMessage)
  {
    var text := GroupListText(aid, gs, user);
    var others := OthersOf(gs, user);
    if others != [] {
      OtherLinesEndWithBreak(others);
      assert text[|text| - 1] == '\n';
      assert NoOtherGroupsMessage[|NoOtherGroupsMessage| - 1] == '.';
    }
  }

  // ----- properties of create -----

  /**
   * Create changes a group list only when it reports a new group; otherwise
   * the only change is the empty list `setdefault` stores.
   */
  lemma CreateChangesOnlyOnSuccess(all: AllGroups, aid: string, assignments: map<string, Assignment>,
                                   user: string, typedName: string, clicked: bool)
    ensures var res := Create(all, aid, assignments, user, typedName, clicked);
      (forall a :: GroupsOf(res.0, a) == GroupsOf(all, a)) <==> !(res.1.Value? && res.1.v.notice.Created?)
    ensures var res := Create(all, aid, assignments, user, typedName, clicked);
      res.0.Keys == all.Keys + {aid}
  {
    var res := Create(all, aid, assignments, user, typedName, clicked);
    var gs := GroupsOf(all, aid);
    if res.1.Value? && res.1.v.notice.Created? {
      assert |GroupsOf(res.0, aid)| == |gs| + 1;
    }
  }

  /**
   * A user already in a group of the assignment is told so, naming the first
   * group that holds them, and no group is added.
   */
  lemma CreateRefusesMember(all: AllGroups, aid: string, assignments: map<string, Assignment>,
                            user: string, typedName: string, clicked: bool)
    requires aid in assignments
    requires exists i :: 0 <= i < |GroupsOf(all, aid)| && user in Members(GroupsOf(all, aid)[i])
    requires forall i :: 0 <= i < |GroupsOf(all, aid)| ==> GroupsOf(all, aid)[i].Record?
    ensures var res := Create(all, aid, assignments, user, typedName, clicked);
      var gs := GroupsOf(all, aid);
      && FindMember(gs, user).Found?
      && res.1 == Value(Answer(AlreadyPart(gs[FindMember(gs, user).index].group.name), None))
      && GroupsOf(res.0, aid) == gs
  {
    var gs := GroupsOf(all, aid);
    var i :| 0 <= i < |gs| && user in Members(gs[i]);
    assert !FindMember(gs, user).Absent?;
  }

  /**
   * A successful create appends exactly one group at the end: the trimmed
   * name, the caller as its only member and creator, and an id made from the
   * list's new length.
   */
  lemma CreateAppendsOneGroup(all: AllGroups, aid: string, assignments: map<string, Assignment>,
                              user: string, typedName: string, clicked: bool)
    requires Create(all, aid, assignments, user, typedName, clicked).1.Value?
    requires Create(all, aid, assignments, user, typedName, clicked).1.v.notice.Created?
    ensures var gs := GroupsOf(all, aid);
      var gs' := GroupsOf(Create(all, aid, assignments, user, typedName, clicked).0, aid);
      && |gs'| == |gs| + 1 && gs'[..|gs|] == gs
      && gs'[|gs|] == Record(Group(aid + "-G" + NatToString(|gs'|), Strip(typedName), [user], user, None))
      && clicked && Strip(typedName) != ""
      && (forall j :: 0 <= j < |gs| ==> gs[j].Record? && user !in gs[j].group.members)
      && forall a :: a != aid ==> GroupsOf(Create(all, aid, assignments, user, typedName, clicked).0, a) == GroupsOf(all, a)
  {
    var gs := GroupsOf(all, aid);
    assert FindMember(gs, user).Absent?;
  }

  /**
   * A caller in no group who clicks with a non-blank name gets the group:
   * it is appended with the stripped name and the count-based id.
   */
  lemma CreateSucceeds(all: AllGroups, aid: string, assignments: map<string, Assignment>,
                       user: string, typedName: string)
    requires aid in assignments
    requires forall j :: 0 <= j < |GroupsOf(all, aid)| ==>
      GroupsOf(all, aid)[j].Record? && user !in GroupsOf(all, aid)[j].group.members
    requires Strip(typedName) != ""
    ensures var gs := GroupsOf(all, aid);
      var res := Create(all, aid, assignments, user, typedName, true);
      && res.1 == Value(Answer(Created(Strip(typedName)), Some(Strip(typedName))))
      && res.0 == all[aid := gs + [Record(Group(aid + "-G" + NatToString(|gs| + 1), Strip(typedName), [user], user, None))]]
  {
    assert FindMember(GroupsOf(all, aid), user) == Absent;
  }

  /**
   * Without a click, or with a blank name, create answers nothing; only the
   * empty list `setdefault` stores is added.
   */
  lemma CreateWaitsForClickAndName(all: AllGroups, aid: string, assignments: map<string, Assignment>,
                                   user: string, typedName: string, clicked: bool)
    requires aid in assignments
    requires forall j :: 0 <= j < |GroupsOf(all, aid)| ==>
      GroupsOf(all, aid)[j].Record? && user !in GroupsOf(all, aid)[j].group.members
    requires !clicked || Strip(typedName) == ""
    ensures var res := Create(all, aid, assignments, user, typedName, clicked);
      res.1 == NoValue && res.0 == all[aid := GroupsOf(all, aid)]
  {
    assert FindMember(GroupsOf(all, aid), user) == Absent;
  }

  /**
   * Group ids count the list: once a group is deleted, the next group created
   * in the assignment takes the id of a group still present.
   */
  lemma CountedIdsRepeatAfterDelete()
    ensures var first := Group("A1" + "-G" + NatToString(1), "Alpha", ["ann"], "ann", None);
      var second := Group("A1" + "-G" + NatToString(2), "Beta", ["bob"], "bob", None);
      var catalog := map["A1" := Assignment("A1", "Essay", None, None)];
      var afterDelete := ExitOrDelete(map["A1" := [Record(first), Record(second)]], "A1", "ann", DeleteGroup, true).0;
      var gs := GroupsOf(Create(afterDelete, "A1", catalog, "cy", "Gamma", true).0, "A1");
      && |gs| == 2 && gs[0] == Record(second)
      && gs[1].Record? && gs[1].group.groupId == second.groupId
  {
    var first := Group("A1" + "-G" + NatToString(1), "Alpha", ["ann"], "ann", None);
    var second := Group("A1" + "-G" + NatToString(2), "Beta", ["bob"], "bob", None);
    var catalog := map["A1" := Assignment("A1", "Essay", None, None)];
    var before := [Record(first), Record(second)];
    assert FindMember(before, "ann") == Found(0);
    assert RemoveEntry(before, before[0]) == [Record(second)];
    var afterDelete := ExitOrDelete(map["A1" := before], "A1", "ann", DeleteGroup, true).0;
    assert GroupsOf(afterDelete, "A1") == [Record(second)];
    assert FindMember([Record(second)], "cy") == Absent;
    assert Strip("Gamma") != "" by { assert !IsSpace("Gamma"[0]); }
    CreateAppendsOneGroup(afterDelete, "A1", catalog, "cy", "Gamma", true);
  }

  /**
   * Create keeps "no user in two groups" and the other validity rules, each
   * assignment's list under its own maximum, provided the assignment created
   * in allows a group of one.
   */
  lemma CreateKeepsGroupsValid(all: AllGroups, aid: string, assignments: map<string, Assignment>,
                               user: string, typedName: string, clicked: bool)
    requires aid in assignments ==> MaxMembersOf(assignments[aid]) >= 1
    requires StoreValid(all, assignments)
    ensures StoreValid(Create(all, aid, assignments, user, typedName, clicked).0, assignments)
  {
    var res := Create(all, aid, assignments, user, typedName, clicked);
    var gs := GroupsOf(all, aid);
    CreateChangesOnlyOnSuccess(all, aid, assignments, user, typedName, clicked);
    if res.1.Value? && res.1.v.notice.Created? {
      CreateAppendsOneGroup(all, aid, assignments, user, typedName, clicked);
    }
    forall a | a in assignments ensures ValidGroups(GroupsOf(res.0, a), MaxMembersOf(assignments[a])) {
      var max := MaxMembersOf(assignments[a]);
      if a == aid && res.1.Value? && res.1.v.notice.Created? {
        var gs' := GroupsOf(res.0, aid);
        var g := gs'[|gs|].group;
        assert gs' == gs + [Record(g)];
        assert ValidGroups(gs, max);
        ValidAppend(gs, max, g);
      } else {
        assert GroupsOf(res.0, a) == GroupsOf(all, a);
      }
    }
  }

  // ----- properties of join -----

  /** Join changes the store only when it reports that the caller joined. */
  lemma JoinChangesOnlyOnSuccess(all: AllGroups, aid: string, assignments: map<string, Assignment>,
                                 user: string, picked: string, confirm: bool)
    ensures var res := Join(all, aid, assignments, user, picked, confirm);
      res.0 == all <==> !(res.1.Value? && res.1.v.notice.Joined?)
  {
    var res := Join(all, aid, assignments, user, picked, confirm);
    if res.1.Value? && res.1.v.notice.Joined? {
      var gs := GroupsOf(all, aid);
      var max := MaxMembersOf(assignments[aid]);
      var j := LastWithLabel(gs, max, picked, |gs|).value;
      assert |res.0[aid][j].group.members| == |gs[j].group.members| + 1;
    }
  }

  /**
   * A successful join adds the caller, who was in no group, to one open group
   * carrying the picked label, and leaves every other group as it was; the
   * group grows by one and so stays within the maximum.
   */
  lemma JoinAddsCallerToOneOpenGroup(all: AllGroups, aid: string, assignments: map<string, Assignment>,
                                     user: string, picked: string, confirm: bool)
    requires aid in assignments
    requires Join(all, aid, assignments, user, picked, confirm).1.Value?
    requires Join(all, aid, assignments, user, picked, confirm).1.v.notice.Joined?
    ensures var gs := GroupsOf(all, aid);
      var max := MaxMembersOf(assignments[aid]);
      var res := Join(all, aid, assignments, user, picked, confirm);
      && confirm
      && (forall j :: 0 <= j < |gs| ==> gs[j].Record? && user !in gs[j].group.members)
      && exists j :: 0 <= j < |gs| && Open(gs[j], max) && Label(gs[j].group, max) == picked
           && res.0 == all[aid := gs[j := Record(gs[j].group.(members := gs[j].group.members + [user]))]]
           && res.1.v == Answer(Joined(gs[j].group.name), Some(gs[j].group.name))
  {
    var gs := GroupsOf(all, aid);
    var max := MaxMembersOf(assignments[aid]);
    assert FindMember(gs, user).Absent?;
    var j := LastWithLabel(gs, max, picked, |gs|).value;
    assert Open(gs[j], max);
  }

  /**
   * A caller in no group who confirms the label of an open group joins it:
   * the caller is appended to the last open group carrying that label.
   */
  lemma JoinSucceeds(all: AllGroups, aid: string, assignments: map<string, Assignment>,
                     user: string, picked: string)
    requires aid in assignments
    requires forall j :: 0 <= j < |GroupsOf(all, aid)| ==>
      GroupsOf(all, aid)[j].Record? && user !in GroupsOf(all, aid)[j].group.members
    requires exists j :: (0 <= j < |GroupsOf(all, aid)| && Open(GroupsOf(all, aid)[j], MaxMembersOf(assignments[aid]))
      && Label(GroupsOf(all, aid)[j].group, MaxMembersOf(assignments[aid])) == picked)
    ensures var gs := GroupsOf(all, aid);
      var pick := LastWithLabel(gs, MaxMembersOf(assignments[aid]), picked, |gs|);
      var res := Join(all, aid, assignments, user, picked, true);
      && pick.Some?
      && var g := gs[pick.value].group;
         && res.1 == Value(Answer(Joined(g.name), Some(g.name)))
         && res.0 == all[aid := gs[pick.value := Record(g.(members := g.members + [user]))]]
  {
    var gs := GroupsOf(all, aid);
    var max := MaxMembersOf(assignments[aid]);
    assert FindMember(gs, user) == Absent;
    var j :| 0 <= j < |gs| && Open(gs[j], max) && Label(gs[j].group, max) == picked;
    assert LastWithLabel(gs, max, picked, |gs|).Some?;
  }

  /** With an open group to offer but no confirmation, join answers nothing and changes nothing. */
  lemma JoinWaitsForConfirm(all: AllGroups, aid: string, assignments: map<string, Assignment>,
                            user: string, picked: string)
    requires aid in assignments
    requires forall j :: 0 <= j < |GroupsOf(all, aid)| ==>
      GroupsOf(all, aid)[j].Record? && user !in GroupsOf(all, aid)[j].group.members
    requires exists j :: 0 <= j < |GroupsOf(all, aid)| && Open(GroupsOf(all, aid)[j], MaxMembersOf(assignments[aid]))
    ensures Join(all, aid, assignments, user, picked, false) == (all, NoValue)
  {
    assert FindMember(GroupsOf(all, aid), user) == Absent;
  }

  /**
   * The commit-time re-check `len(members) >= max_members` never fires: the
   * picker offers only groups with room, and nothing changes in between.
   */
  lemma JoinNeverReportsNowFull(all: AllGroups, aid: string, assignments: map<string, Assignment>,
                                user: string, picked: string, confirm: bool)
    ensures var r := Join(all, aid, assignments, user, picked, confirm).1;
      !(r.Value? && r.v.notice.NowFull?)
  {
  }

  /**
   * Join keeps "no user in two groups" and the capacity rule, each
   * assignment's list under its own maximum.
   */
  lemma JoinKeepsGroupsValid(all: AllGroups, aid: string, assignments: map<string, Assignment>,
                             user: string, picked: string, confirm: bool)
    requires StoreValid(all, assignments)
    ensures StoreValid(Join(all, aid, assignments, user, picked, confirm).0, assignments)
  {
    var res := Join(all, aid, assignments, user, picked, confirm);
    if res.1.Value? && res.1.v.notice.Joined? {
      var max := MaxMembersOf(assignments[aid]);
      var gs := GroupsOf(all, aid);
      assert ValidGroups(gs, max);
      assert FindMember(gs, user).Absent?;
      var j := LastWithLabel(gs, max, picked, |gs|).value;
      var g := gs[j].group;
      var g' := g.(members := g.members + [user]);
      assert ValidGroup(g', max) by {
        assert g.createdBy in g'.members;
        forall a, b | 0 <= a < b < |g'.members| ensures g'.members[a] != g'.members[b] {
          if b == |g.members| {
            assert g'.members[a] == g.members[a];
          }
        }
      }
      forall k | 0 <= k < |gs| && k != j ensures Disjoint(g'.members, Members(gs[k])) {
        if k < j {
          assert Disjoint(Members(gs[k]), Members(gs[j]));
        } else {
          assert Disjoint(Members(gs[j]), Members(gs[k]));
        }
      }
      ValidReplace(gs, max, j, g');
      forall a | a in assignments ensures ValidGroups(GroupsOf(res.0, a), MaxMembersOf(assignments[a])) {
        if a != aid {
          assert GroupsOf(res.0, a) == GroupsOf(all, a);
        }
      }
    } else {
      JoinChangesOnlyOnSuccess(all, aid, assignments, user, picked, confirm);
    }
  }

  // ----- properties of exit and delete -----

  /** The caller is told they are in no group exactly when no record holds them; nothing changes then. */
  lemma NotInGroupIffNoRecordHoldsUser(all: AllGroups, aid: string, user: string,
                                       choice: ExitChoice, proceed: bool)
    ensures var gs := GroupsOf(all, aid);
      var res := ExitOrDelete(all, aid, user, choice, proceed);
      && (res.1 == Value(NotInGroup) <==> forall j :: 0 <= j < |gs| ==> gs[j].Record? && user !in gs[j].group.members)
      && (res.1 == Value(NotInGroup) ==> res.0 == all)
  {
  }

  /**
   * Deleting is for the creator only: the store changes exactly when the
   * group is reported deleted, and then precisely the caller's group is gone
   * from the list; anyone else is refused and nothing changes.
   */
  lemma DeleteOnlyByCreator(all: AllGroups, aid: string, user: string, proceed: bool)
    ensures var gs := GroupsOf(all, aid);
      var res := ExitOrDelete(all, aid, user, DeleteGroup, proceed);
      && (res.0 != all <==> res.1.Value? && res.1.v.Deleted?)
      && (res.0 != all ==>
            var i := FindMember(gs, user).index;
            && FindMember(gs, user).Found? && proceed && user == gs[i].group.createdBy
            && res.0 == all[aid := gs[..i] + gs[i + 1..]])
      && (FindMember(gs, user).Found? && proceed && user != gs[FindMember(gs, user).index].group.createdBy ==>
            res.1.Value? && res.1.v.OnlyCreator? && res.0 == all)
      && (FindMember(gs, user).Found? && proceed && user == gs[FindMember(gs, user).index].group.createdBy ==>
            res.1 == Value(Deleted(gs[FindMember(gs, user).index].group.name)))
  {
    var gs := GroupsOf(all, aid);
    var res := ExitOrDelete(all, aid, user, DeleteGroup, proceed);
    if FindMember(gs, user).Found? && proceed {
      var i := FindMember(gs, user).index;
      if user == gs[i].group.createdBy {
        RemoveEntryAt(gs, gs[i], i);
        assert |res.0[aid]| == |gs| - 1;
      }
    }
  }

  /**
   * Exiting takes the caller out of every group. A group the caller was the
   * last member of is removed from the list; otherwise only the caller's
   * group changes: it loses the caller, and if the caller created it the
   * first remaining member becomes its creator.
   */
  lemma ExitTakesCallerOut(all: AllGroups, aid: string, user: string, max: int)
    requires ValidGroups(GroupsOf(all, aid), max)
    requires FindMember(GroupsOf(all, aid), user).Found?
    ensures var gs := GroupsOf(all, aid);
      var i := FindMember(gs, user).index;
      var g := gs[i].group;
      var gs' := GroupsOf(ExitOrDelete(all, aid, user, ExitGroup, true).0, aid);
      && (forall j :: 0 <= j < |gs'| ==> user !in Members(gs'[j]))
      && (|g.members| == 1 ==> gs' == gs[..i] + gs[i + 1..])
      && (|g.members| > 1 ==>
            && |gs'| == |gs|
            && (forall j :: 0 <= j < |gs| && j != i ==> gs'[j] == gs[j])
            && gs'[i].Record? && gs'[i].group.members == RemoveFirst(g.members, user)
            && gs'[i].group.createdBy == if user == g.createdBy then gs'[i].group.members[0] else g.createdBy)
  {
    var gs := GroupsOf(all, aid);
    var i := FindMember(gs, user).index;
    var g := gs[i].group;
    FoundIsUnique(gs, max, user);
    var rest := RemoveFirst(g.members, user);
    RemoveFirstKeepsOthers(g.members, user);
    if user == g.createdBy && rest == [] {
      var left := g.(members := rest);
      var emptied := gs[i := Record(left)];
      RemoveEntryAt(emptied, Record(left), i);
      assert emptied[..i] == gs[..i] && emptied[i + 1..] == gs[i + 1..];
    }
  }

  /**
   * Exit and delete keep the list valid: in particular a group's creator is
   * still one of its members, or the group is gone.
   */
  lemma ExitOrDeleteKeepsGroupsValid(all: AllGroups, aid: string, user: string,
                                     choice: ExitChoice, proceed: bool, assignments: map<string, Assignment>)
    requires StoreValid(all, assignments)
    ensures StoreValid(ExitOrDelete(all, aid, user, choice, proceed).0, assignments)
  {
    var res := ExitOrDelete(all, aid, user, choice, proceed);
    forall a | a in assignments ensures ValidGroups(GroupsOf(res.0, a), MaxMembersOf(assignments[a])) {
      if a == aid {
        ExitOrDeleteKeepsListValid(all, aid, user, choice, proceed, MaxMembersOf(assignments[a]));
      } else {
        assert GroupsOf(res.0, a) == GroupsOf(all, a);
      }
    }
  }

  /** The list exit or delete works on stays valid under its maximum. */
  lemma ExitOrDeleteKeepsListValid(all: AllGroups, aid: string, user: string,
                                   choice: ExitChoice, proceed: bool, max: int)
    requires ValidGroups(GroupsOf(all, aid), max)
    ensures ValidGroups(GroupsOf(ExitOrDelete(all, aid, user, choice, proceed).0, aid), max)
  {
    var gs := GroupsOf(all, aid);
    if FindMember(gs, user).Found? && proceed {
      var i := FindMember(gs, user).index;
      var g := gs[i].group;
      var rest := RemoveFirst(g.members, user);
      if choice == ExitGroup {
        if user == g.createdBy && rest == [] {
          ExitTakesCallerOut(all, aid, user, max);
          ValidRemoveAt(gs, max, i);
        } else {
          RemoveFirstKeepsOthers(g.members, user);
          var g' := if user == g.createdBy then g.(members := rest, createdBy := rest[0]) else g.(members := rest);
          ShrunkGroupKeepsValid(gs, max, i, g');
        }
      } else if user == g.createdBy {
        RemoveEntryAt(gs, gs[i], i);
        ValidRemoveAt(gs, max, i);
      }
    }
  }

  /** Replacing a group by a valid one whose members it already had keeps the list valid. */
  lemma ShrunkGroupKeepsValid(gs: seq<Entry>, max: int, i: nat, g': Group)
    requires ValidGroups(gs, max) && i < |gs| && ValidGroup(g', max)
    requires forall u :: u in g'.members ==> u in Members(gs[i])
    ensures ValidGroups(gs[i := Record(g')], max)
  {
    forall k | 0 <= k < |gs| && k != i ensures Disjoint(g'.members, Members(gs[k])) {
      if k < i {
        assert Disjoint(Members(gs[k]), Members(gs[i]));
      } else {
        assert Disjoint(Members(gs[i]), Members(gs[k]));
      }
    }
    ValidReplace(gs, max, i, g');
  }
}
