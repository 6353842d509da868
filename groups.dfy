/**
 * The group store shared by both group-membership engines: the group and
 * assignment records, the in-memory map from assignment id to that
 * assignment's ordered list of groups, the search for a user's group, and the
 * invariant the membership rules are meant to keep.
 */
module Groups {
  import opened Wrappers

  /**
   * A group record `{group_id, group_name, members, created_by[, max_members]}`.
   * `maxMembers` is None when the record has no `max_members` key (groups made
   * by features/group_management.py never have one).
   */
  datatype Group = Group(
    groupId: string,
    name: string,
    members: seq<string>,
    createdBy: string,
    maxMembers: Option<int>)

  /** One element of an assignment's group list: a group record, or some other JSON value. */
  datatype Entry = Record(group: Group) | NonRecord

  /**
   * An assignment of the catalog. `description` and `maxMembers` are None when
   * the record lacks "description" or "Maximum Group Members".
   */
  datatype Assignment = Assignment(
    id: string,
    title: string,
    description: Option<string>,
    maxMembers: Option<int>)

  /** The position of the first assignment with the id, or None when no assignment has it. */
  function FindAssignment(assignments: seq<Assignment>, aid: string): (r: Option<nat>)
    ensures r.Some? ==> r.value < |assignments| && assignments[r.value].id == aid
    ensures r.Some? ==> forall j :: 0 <= j < r.value ==> assignments[j].id != aid
    ensures r.None? <==> forall j :: 0 <= j < |assignments| ==> assignments[j].id != aid
  {
    if assignments == [] then None
    else if assignments[0].id == aid then Some(0)
    else match FindAssignment(assignments[1..], aid)
      case None => None
      case Some(j) => Some(j + 1)
  }

  /** The Python exceptions malformed data makes the operations raise. */
  datatype Exc = KeyError | TypeError | AttributeError

  /** What a Python function gives back: a value, `None`, or an exception it raised. */
  datatype Outcome<T> = Value(v: T) | NoValue | Raised(exc: Exc)

  /** The `all_groups` dictionary, updated in place by the operations. */
  class GroupStore {
    var all: map<string, seq<Entry>>

    constructor (init: map<string, seq<Entry>>)
      ensures all == init
    {
      all := init;
    }
  }

  /** `all_groups.get(assignment_id, [])`. */
  function GroupsOf(all: map<string, seq<Entry>>, aid: string): seq<Entry> {
    if aid in all then all[aid] else []
  }

  /** The members of an entry; a non-record has none. */
  function Members(e: Entry): seq<string> {
    if e.Record? then e.group.members else []
  }

  /** The result of scanning a group list for the first group holding a user. */
  datatype Search = Found(index: nat) | Absent | Malformed(index: nat)

  /**
   * Scans `gs[k..]` in order the way `for group in groups: if user in group...`
   * does: the first record holding `user` is found, unless a non-record comes
   * first, on which the Python code raises.
   */
  function FindFrom(gs: seq<Entry>, user: string, k: nat): (r: Search)
    requires k <= |gs|
    ensures r.Found? ==> k <= r.index < |gs| && gs[r.index].Record? && user in gs[r.index].group.members
    ensures r.Malformed? ==> k <= r.index < |gs| && gs[r.index].NonRecord?
    ensures r.Found? || r.Malformed? ==>
      forall j :: k <= j < r.index ==> gs[j].Record? && user !in gs[j].group.members
    ensures r.Absent? <==> forall j :: k <= j < |gs| ==> gs[j].Record? && user !in gs[j].group.members
    decreases |gs| - k
  {
    if k == |gs| then Absent
    else if gs[k].NonRecord? then Malformed(k)
    else if user in gs[k].group.members then Found(k)
    else FindFrom(gs, user, k + 1)
  }

  /** The first group of `gs` that holds `user`, as the Python loops find it. */
  function FindMember(gs: seq<Entry>, user: string): Search {
    FindFrom(gs, user, 0)
  }

  predicate NoDuplicates(s: seq<string>) {
    forall i, j :: 0 <= i < j < |s| ==> s[i] != s[j]
  }

  predicate Disjoint(a: seq<string>, b: seq<string>) {
    forall u :: u in a ==> u !in b
  }

  /** A group as the data model means it: 1..max distinct members, its creator among them. */
  predicate ValidGroup(g: Group, max: int) {
    && 1 <= |g.members| <= max
    && NoDuplicates(g.members)
    && g.createdBy in g.members
  }

  /**
   * The invariant of one assignment's group list: every entry is a valid group
   * and no user is in two groups.
   */
  predicate ValidGroups(gs: seq<Entry>, max: int) {
    && (forall i :: 0 <= i < |gs| ==> gs[i].Record? && ValidGroup(gs[i].group, max))
    && (forall i, j :: 0 <= i < j < |gs| ==> Disjoint(Members(gs[i]), Members(gs[j])))
  }

  /** In a valid list the group found for a user is the only one holding them. */
  lemma FoundIsUnique(gs: seq<Entry>, max: int, user: string)
    requires ValidGroups(gs, max)
    requires FindMember(gs, user).Found?
    ensures forall j :: 0 <= j < |gs| && j != FindMember(gs, user).index ==> user !in Members(gs[j])
  {
    var i := FindMember(gs, user).index;
    forall j | 0 <= j < |gs| && j != i ensures user !in Members(gs[j]) {
      if j < i {
        assert Disjoint(Members(gs[j]), Members(gs[i]));
      } else {
        assert Disjoint(Members(gs[i]), Members(gs[j]));
      }
    }
  }

  /** Adding a valid group whose members are in no existing group keeps the list valid. */
  lemma ValidAppend(gs: seq<Entry>, max: int, g: Group)
    requires ValidGroups(gs, max) && ValidGroup(g, max)
    requires forall j :: 0 <= j < |gs| ==> Disjoint(g.members, Members(gs[j]))
    ensures ValidGroups(gs + [Record(g)], max)
  {
    var t := gs + [Record(g)];
    forall i, j | 0 <= i < j < |t| ensures Disjoint(Members(t[i]), Members(t[j])) {
      if j == |gs| {
        assert Disjoint(g.members, Members(gs[i]));
      } else {
        assert Disjoint(Members(gs[i]), Members(gs[j]));
      }
    }
  }

  /**
   * Replacing the group at `i` by a valid group whose members are in no other
   * group keeps the list valid.
   */
  lemma ValidReplace(gs: seq<Entry>, max: int, i: nat, g: Group)
    requires ValidGroups(gs, max) && i < |gs| && ValidGroup(g, max)
    requires forall j :: 0 <= j < |gs| && j != i ==> Disjoint(g.members, Members(gs[j]))
    ensures ValidGroups(gs[i := Record(g)], max)
  {
    var t := gs[i := Record(g)];
    forall a, b | 0 <= a < b < |t| ensures Disjoint(Members(t[a]), Members(t[b])) {
      if a == i {
        assert Disjoint(g.members, Members(gs[b]));
      } else if b == i {
        assert Disjoint(g.members, Members(gs[a]));
      } else {
        assert Disjoint(Members(gs[a]), Members(gs[b]));
      }
    }
  }

  /** Dropping the group at `i` keeps the list valid. */
  lemma ValidRemoveAt(gs: seq<Entry>, max: int, i: nat)
    requires ValidGroups(gs, max) && i < |gs|
    ensures ValidGroups(gs[..i] + gs[i + 1..], max)
  {
    var t := gs[..i] + gs[i + 1..];
    assert forall a :: 0 <= a < |t| ==> t[a] == if a < i then gs[a] else gs[a + 1];
    forall a, b | 0 <= a < b < |t| ensures Disjoint(Members(t[a]), Members(t[b])) {
      var a' := if a < i then a else a + 1;
      var b' := if b < i then b else b + 1;
      assert Disjoint(Members(gs[a']), Members(gs[b']));
    }
  }
}
