/**
 * `handle_user_input` of utils/helpers.py: the parsed records are handled in
 * order, each intent answering with one response and possibly updating the
 * session's `selected_assignment` and `show_*` flags; a chat or error record,
 * or an intent that needs an assignment when there is none, ends the turn at
 * once. The session is an explicit record passed in and returned.
 */
module Dispatch {
  import opened Wrappers
  import opened Text
  import opened Groups
  import opened GroupManagement
  import opened Intents

  /** The part of `st.session_state` the dispatcher writes; JNull stands for None. */
  datatype Session = Session(selected: Json, showCreate: bool, showJoin: bool, showDelete: bool)

  /** The session after "go back": nothing selected, no flow open. */
  const MainMenu := Session(JNull, false, false, false)

  type AllGroups = map<string, seq<Entry>>

  /**
   * The inputs of one turn besides the records and the groups: the catalog,
   * `selected_id` (whatever the session holds, JNull for None) and the user.
   */
  datatype Context = Context(assignments: seq<Assignment>, selectedId: Json, user: string)

  /** Why a turn ends before the last record. */
  datatype Stop =
    | ChatReply(raw: string)
    | ClaudeError(raw: string)
    | NeedAssignment
    | Crash(exc: Exc)

  /** The response an intent appends to `all_responses`; `Text` gives its words. */
  datatype Response =
    | Selected(a: Assignment)
    | UnknownAssignment
    | CreateFlow
    | JoinFlow
    | DeleteFlow
    | GroupList(text: string)
    | BackToMenu
    | NotUnderstood
  {
    function Text(): string {
      match this
      case Selected(a) =>
        "✅ Assignment selected: **" + a.id + " - " + a.title + "**\n\n📘 **Description:** "
        + a.description.GetOr("No description.") + "\n👥 **Group limit:** "
        + (match a.maxMembers case Some(m) => IntToString(m) case None => "N/A")
        + " members.\n\nWhat would you like to do next?"
      case UnknownAssignment => "⚠️ Couldn't find that assignment. Try 'Pick A1'."
      case CreateFlow => "🛠️ Starting group creation flow..."
      case JoinFlow => "➡️ Joining a group... let's go!"
      case DeleteFlow => "🚪 Preparing to delete or exit your group..."
      case GroupList(t) => t
      case BackToMenu => "🔙 You're back at the main menu. Please select an assignment."
      case NotUnderstood => "🤖 I'm not sure what you meant. Try saying 'Create group for A1'."
    }
  }

  /** The text a turn ends with when it stops early. */
  function StopText(s: Stop): string
    requires !s.Crash?
  {
    match s
    case ChatReply(raw) => raw
    case ClaudeError(raw) => "⚠️ Claude could not process that: " + raw
    case NeedAssignment => "❗ Please select an assignment first. Try 'Pick A1' or 'Show me A2'."
  }

  /** The record's "action" field, or "unknown" when it has none. */
  function ActionOf(fields: map<string, Json>): Json {
    if "action" in fields then fields["action"] else JStr("unknown")
  }

  /** The record's assignment id when it is truthy, the selected id otherwise. */
  function EffectiveAid(fields: map<string, Json>, selectedId: Json): Json {
    var v := Get(fields, "assignment_id");
    if Truthy(v) then v else selectedId
  }

  /** The actions that do not need an assignment. */
  predicate NeedsNoAssignment(action: Json) {
    action == JStr("select_assignment") || action == JStr("go_back")
  }

  /**
   * `get_group_list_as_text` called with the effective assignment id: a
   * string is looked up; a number or boolean is no key of `all_groups` and is
   * shown in Python's spelling; a list or dict cannot be hashed and raises.
   */
  function ViewGroups(aid: Json, all: AllGroups, ctx: Context): Outcome<string> {
    match aid
    case JStr(s) => Value(GroupListText(s, GroupsOf(all, s), ctx.user))
    case JNum(n) => Value(GroupListText(IntToString(n), [], ctx.user))
    case JBool(b) => Value(GroupListText(if b then "True" else "False", [], ctx.user))
    case JNull => Value(GroupListText("", [], ctx.user))
    case _ => Raised(TypeError)
  }

  /** The first catalog entry whose assignment id equals the given one. */
  function CatalogEntry(aid: Json, assignments: seq<Assignment>): Option<Assignment> {
    if !aid.JStr? then None
    else match FindAssignment(assignments, aid.s)
      case Some(i) => Some(assignments[i])
      case None => None
  }

  /** Whether a record ends the turn, and how; it does not depend on the session. */
  function HaltOf(item: Item, all: AllGroups, ctx: Context): Option<Stop> {
    match item
    case Chat(raw) => Some(ChatReply(raw))
    case Error(raw) => Some(ClaudeError(raw))
    case Intent(f) =>
      var action := ActionOf(f);
      var aid := EffectiveAid(f, ctx.selectedId);
      if !Truthy(aid) && !NeedsNoAssignment(action) then Some(NeedAssignment)
      else if action == JStr("view_groups") && ViewGroups(aid, all, ctx).Raised? then Some(Crash(ViewGroups(aid, all, ctx).exc))
      else None
  }

  /** The response of an intent that does not end the turn; it does not depend on the session. */
  function ResponseOf(f: map<string, Json>, all: AllGroups, ctx: Context): Response {
    var action := ActionOf(f);
    var aid := EffectiveAid(f, ctx.selectedId);
    if action == JStr("select_assignment") && Truthy(aid) then
      match CatalogEntry(aid, ctx.assignments)
      case Some(a) => Selected(a)
      case None => UnknownAssignment
    else if action == JStr("create_group") then CreateFlow
    else if action == JStr("join_group") then JoinFlow
    else if action == JStr("delete_group") then DeleteFlow
    else if action == JStr("view_groups") then
      (match ViewGroups(aid, all, ctx) case Value(t) => GroupList(t) case _ => GroupList(""))
    else if action == JStr("go_back") then BackToMenu
    else NotUnderstood
  }

  /** The session after an intent that does not end the turn. */
  function SessionAfter(f: map<string, Json>, ctx: Context, s: Session): Session {
    var action := ActionOf(f);
    var aid := EffectiveAid(f, ctx.selectedId);
    if action == JStr("select_assignment") && Truthy(aid) then s.(selected := aid)
    else if action == JStr("create_group") then s.(showCreate := true)
    else if action == JStr("join_group") then s.(showJoin := true)
    else if action == JStr("delete_group") then s.(showDelete := true)
    else if action == JStr("go_back") then MainMenu
    else s
  }

  /** How a turn ends: stopped early, or with every response collected. */
  datatype TurnEnd = Stopped(stop: Stop) | Finished(responses: seq<string>)

  /** The loop over `parsed_results` from `items`, with the session and the responses so far. */
  function Run(items: seq<Item>, s: Session, all: AllGroups, ctx: Context, acc: seq<string>): (Session, TurnEnd)
    decreases |items|
  {
    if items == [] then (s, Finished(acc))
    else match HaltOf(items[0], all, ctx)
      case Some(st) => (s, Stopped(st))
      case None =>
        Run(items[1..], SessionAfter(items[0].fields, ctx, s), all, ctx, acc + [ResponseOf(items[0].fields, all, ctx).Text()])
  }

  /** What `handle_user_input` returns for a turn's outcome. */
  function Reply(o: TurnEnd): Outcome<string> {
    match o
    case Stopped(Crash(x)) => Raised(x)
    case Stopped(st) => Value(StopText(st))
    case Finished(rs) => Value(JoinStrings(rs, "\n\n"))
  }

  /**
   * One pass of the loop body for an intent record: whether it ends the turn,
   * and otherwise the session it leaves and the response it appends.
   */
  method HandleIntent(f: map<string, Json>, store: GroupStore, ctx: Context, s: Session)
    returns (halt: Option<Stop>, s': Session, response: string)
    ensures halt == HaltOf(Intent(f), store.all, ctx)
    ensures halt.None? ==> s' == SessionAfter(f, ctx, s) && response == ResponseOf(f, store.all, ctx).Text()
  {
    s' := s;
    response := "";
    var action := ActionOf(f);
    var aid := EffectiveAid(f, ctx.selectedId);
    if !Truthy(aid) && !(action == JStr("select_assignment") || action == JStr("go_back")) {
      return Some(NeedAssignment), s', response;
    }
    halt := None;
    if action == JStr("select_assignment") && Truthy(aid) {
      s' := s.(selected := aid);
      var a := CatalogEntry(aid, ctx.assignments);
      if a.Some? {
        response := Selected(a.value).Text();
      } else {
        response := UnknownAssignment.Text();
      }
    } else if action == JStr("create_group") {
      s' := s.(showCreate := true);
      response := CreateFlow.Text();
    } else if action == JStr("join_group") {
      s' := s.(showJoin := true);
      response := JoinFlow.Text();
    } else if action == JStr("delete_group") {
      s' := s.(showDelete := true);
      response := DeleteFlow.Text();
    } else if action == JStr("view_groups") {
      var text: string;
      match aid {
        case JStr(a) =>
          text := GetGroupListAsText(a, store, ctx.user);
        case JNum(n) =>
          text := GroupListText(IntToString(n), [], ctx.user);
        case JBool(b) =>
          text := GroupListText(if b then "True" else "False", [], ctx.user);
        case JNull =>
          text := GroupListText("", [], ctx.user);
        case JList(_) =>
          return Some(Crash(TypeError)), s', response;
        case JObj(_) =>
          return Some(Crash(TypeError)), s', response;
      }
      response := GroupList(text).Text();
    } else if action == JStr("go_back") {
      s' := Session(JNull, false, false, false);
      response := BackToMenu.Text();
    } else {
      response := NotUnderstood.Text();
    }
  }

  /**
   * `handle_user_input` once the classifier has replied: the new session and
   * the reply; `all_groups` is only read.
   */
  method HandleUserInput(reply: LlmReply, store: GroupStore, ctx: Context, session: Session)
    returns (s: Session, r: Outcome<string>)
    ensures var run := Run(ParseIntent(reply), session, store.all, ctx, []);
      s == run.0 && r == Reply(run.1)
  {
    var items := ParseIntent(reply);
    var responses: seq<string> := [];
    s := session;
    var k := 0;
    while k < |items|
      invariant k <= |items|
      invariant Run(items, session, store.all, ctx, []) == Run(items[k..], s, store.all, ctx, responses)
    {
      assert items[k..][1..] == items[k + 1..];
      match items[k]
      case Chat(raw) =>
        return s, Value(raw);
      case Error(raw) =>
        return s, Value("⚠️ Claude could not process that: " + raw);
      case Intent(f) =>
        var halt, s', response := HandleIntent(f, store, ctx, s);
        if halt.Some? {
          if halt.value.Crash? {
            return s, Raised(halt.value.exc);
          }
          return s, Value(StopText(halt.value));
        }
        s := s';
        responses := responses + [response];
      k := k + 1;
    }
    return s, Value(JoinStrings(responses, "\n\n"));
  }

  // ----- properties -----

  /** An intent record with this action. */
  predicate IsAction(item: Item, action: string) {
    item.Intent? && ActionOf(item.fields) == JStr(action)
  }

  /** The reply of a turn never depends on the session it starts from: the session is only written. */
  lemma {:induction false} ReplyIgnoresSession(items: seq<Item>, s1: Session, s2: Session, all: AllGroups,
                                               ctx: Context, acc: seq<string>)
    ensures Run(items, s1, all, ctx, acc).1 == Run(items, s2, all, ctx, acc).1
    decreases |items|
  {
    if items != [] && HaltOf(items[0], all, ctx).None? {
      var f := items[0].fields;
      ReplyIgnoresSession(items[1..], SessionAfter(f, ctx, s1), SessionAfter(f, ctx, s2), all, ctx,
                          acc + [ResponseOf(f, all, ctx).Text()]);
    }
  }

  /**
   * The first record that ends the turn decides the reply: the responses of
   * the intents before it are discarded and the records after it are never
   * looked at.
   */
  lemma {:induction false} FirstStopDecides(prefix: seq<Item>, item: Item, rest: seq<Item>, s: Session,
                                            all: AllGroups, ctx: Context, acc: seq<string>)
    requires forall i :: 0 <= i < |prefix| ==> prefix[i].Intent? && HaltOf(prefix[i], all, ctx).None?
    requires HaltOf(item, all, ctx).Some?
    ensures Run(prefix + [item] + rest, s, all, ctx, acc).1 == Stopped(HaltOf(item, all, ctx).value)
    decreases |prefix|
  {
    var items := prefix + [item] + rest;
    if prefix != [] {
      assert items[0] == prefix[0];
      assert items[1..] == prefix[1..] + [item] + rest;
      var f := prefix[0].fields;
      FirstStopDecides(prefix[1..], item, rest, SessionAfter(f, ctx, s), all, ctx,
                       acc + [ResponseOf(f, all, ctx).Text()]);
    } else {
      assert items[0] == item;
    }
  }

  /** The responses of a list of intents, one per intent and in order. */
  function Responses(items: seq<Item>, all: AllGroups, ctx: Context): (rs: seq<string>)
    requires forall i :: 0 <= i < |items| ==> items[i].Intent?
    ensures |rs| == |items|
  {
    if items == [] then [] else [ResponseOf(items[0].fields, all, ctx).Text()] + Responses(items[1..], all, ctx)
  }

  /** The i-th response is that of the i-th intent. */
  lemma {:induction false} ResponseAt(items: seq<Item>, all: AllGroups, ctx: Context, i: nat)
    requires forall i :: 0 <= i < |items| ==> items[i].Intent?
    requires i < |items|
    ensures Responses(items, all, ctx)[i] == ResponseOf(items[i].fields, all, ctx).Text()
    decreases i
  {
    if i > 0 {
      ResponseAt(items[1..], all, ctx, i - 1);
      assert items[1..][i - 1] == items[i];
    }
  }

  /** When no record ends the turn, the responses of its intents follow the ones collected so far. */
  lemma {:induction false} AllProceedCollectsResponses(items: seq<Item>, s: Session, all: AllGroups,
                                                       ctx: Context, acc: seq<string>)
    requires forall i :: 0 <= i < |items| ==> items[i].Intent? && HaltOf(items[i], all, ctx).None?
    ensures Run(items, s, all, ctx, acc).1 == Finished(acc + Responses(items, all, ctx))
    decreases |items|
  {
    if items == [] {
      assert acc + [] == acc;
    } else {
      var f := items[0].fields;
      var r := ResponseOf(f, all, ctx).Text();
      AllProceedCollectsResponses(items[1..], SessionAfter(f, ctx, s), all, ctx, acc + [r]);
      assert (acc + [r]) + Responses(items[1..], all, ctx) == acc + ([r] + Responses(items[1..], all, ctx));
    }
  }

  /**
   * The reply of a turn in which no record stops it: the responses, one per
   * intent in order, joined by blank lines; no intents give "".
   */
  lemma ReplyJoinsResponses(items: seq<Item>, s: Session, all: AllGroups, ctx: Context)
    requires forall i :: 0 <= i < |items| ==> items[i].Intent? && HaltOf(items[i], all, ctx).None?
    ensures Reply(Run(items, s, all, ctx, []).1) == Value(JoinStrings(Responses(items, all, ctx), "\n\n"))
    ensures items == [] ==> Reply(Run(items, s, all, ctx, []).1) == Value("")
  {
    AllProceedCollectsResponses(items, s, all, ctx, []);
    assert [] + Responses(items, all, ctx) == Responses(items, all, ctx);
  }

  /** Handling one more intent that does not stop the turn updates the session as that intent says. */
  lemma {:induction false} SessionAfterLast(prefix: seq<Item>, item: Item, s: Session, all: AllGroups,
                                            ctx: Context, acc: seq<string>)
    requires forall i :: 0 <= i < |prefix| ==> prefix[i].Intent? && HaltOf(prefix[i], all, ctx).None?
    requires HaltOf(item, all, ctx).None?
    ensures Run(prefix + [item], s, all, ctx, acc).0 == SessionAfter(item.fields, ctx, Run(prefix, s, all, ctx, acc).0)
    decreases |prefix|
  {
    if prefix == [] {
      assert [item][1..] == [];
    } else {
      var f := prefix[0].fields;
      assert (prefix + [item])[1..] == prefix[1..] + [item];
      SessionAfterLast(prefix[1..], item, SessionAfter(f, ctx, s), all, ctx, acc + [ResponseOf(f, all, ctx).Text()]);
    }
  }

  /** A turn whose last intent is "go_back" leaves nothing selected and every flow closed. */
  lemma GoBackLastClearsSession(prefix: seq<Item>, item: Item, s: Session, all: AllGroups, ctx: Context)
    requires forall i :: 0 <= i < |prefix| ==> prefix[i].Intent? && HaltOf(prefix[i], all, ctx).None?
    requires IsAction(item, "go_back")
    ensures Run(prefix + [item], s, all, ctx, []).0 == MainMenu
  {
    SessionAfterLast(prefix, item, s, all, ctx, []);
  }

  /** One intent raises a flag only by its own action and changes the selection only by selecting or going back. */
  lemma StepChanges(f: map<string, Json>, ctx: Context, s: Session)
    ensures var s' := SessionAfter(f, ctx, s);
      && (s'.showCreate ==> s.showCreate || IsAction(Intent(f), "create_group"))
      && (s'.showJoin ==> s.showJoin || IsAction(Intent(f), "join_group"))
      && (s'.showDelete ==> s.showDelete || IsAction(Intent(f), "delete_group"))
      && (s'.selected != s.selected ==> IsAction(Intent(f), "select_assignment") || IsAction(Intent(f), "go_back"))
  {
  }

  /** Some record of `items` is an intent with this action. */
  predicate HasAction(items: seq<Item>, action: string) {
    exists i :: 0 <= i < |items| && IsAction(items[i], action)
  }

  /**
   * Each `show_*` flag is raised only by its own action, and the selection
   * changes only through "select_assignment" or "go_back".
   */
  lemma {:induction false} SessionChangesOnlyThroughActions(items: seq<Item>, s: Session, all: AllGroups,
                                                            ctx: Context, acc: seq<string>)
    ensures var s' := Run(items, s, all, ctx, acc).0;
      && (s'.showCreate ==> s.showCreate || HasAction(items, "create_group"))
      && (s'.showJoin ==> s.showJoin || HasAction(items, "join_group"))
      && (s'.showDelete ==> s.showDelete || HasAction(items, "delete_group"))
      && (s'.selected != s.selected ==> HasAction(items, "select_assignment") || HasAction(items, "go_back"))
    decreases |items|
  {
    if items != [] && HaltOf(items[0], all, ctx).None? {
      var f := items[0].fields;
      var s1 := SessionAfter(f, ctx, s);
      StepChanges(f, ctx, s);
      SessionChangesOnlyThroughActions(items[1..], s1, all, ctx, acc + [ResponseOf(f, all, ctx).Text()]);
      forall action | HasAction(items[1..], action) ensures HasAction(items, action) {
        var i :| 0 <= i < |items[1..]| && IsAction(items[1..][i], action);
        assert IsAction(items[i + 1], action);
      }
      forall action | IsAction(Intent(f), action) ensures HasAction(items, action) {
        assert IsAction(items[0], action);
      }
    }
  }

  /**
   * "select_assignment" with an assignment id stores it before the catalog
   * lookup: an unknown id is still selected, with the "Couldn't find" answer.
   */
  lemma SelectStoresBeforeLookup(f: map<string, Json>, s: Session, all: AllGroups, ctx: Context)
    requires ActionOf(f) == JStr("select_assignment") && Truthy(EffectiveAid(f, ctx.selectedId))
    requires CatalogEntry(EffectiveAid(f, ctx.selectedId), ctx.assignments).None?
    ensures Run([Intent(f)], s, all, ctx, []) ==
      (s.(selected := EffectiveAid(f, ctx.selectedId)), Finished([UnknownAssignment.Text()]))
  {
    var items := [Intent(f)];
    assert HaltOf(items[0], all, ctx).None?;
    assert items[1..] == [];
    assert ResponseOf(f, all, ctx) == UnknownAssignment;
    assert SessionAfter(f, ctx, s) == s.(selected := EffectiveAid(f, ctx.selectedId));
    assert [] + [UnknownAssignment.Text()] == [UnknownAssignment.Text()];
  }
}
