/**
 * `parse_intent_with_llm` of utils/helpers.py: the classifier's reply,
 * already decoded (or found undecodable), is reduced to a list of intent,
 * chat and error records. The model call and `json.loads` are not modelled:
 * their outcome is the input.
 */
module Intents {
  import opened Wrappers
  import opened Text

  /** A decoded JSON value; numbers are integers. */
  datatype Json =
    | JNull
    | JBool(b: bool)
    | JNum(n: int)
    | JStr(s: string)
    | JList(items: seq<Json>)
    | JObj(fields: map<string, Json>)

  /** Python's truth value of a decoded JSON value. */
  predicate Truthy(j: Json) {
    match j
    case JNull => false
    case JBool(b) => b
    case JNum(n) => n != 0
    case JStr(s) => s != ""
    case JList(items) => items != []
    case JObj(fields) => fields != map[]
  }

  /** The Python type name of a decoded value, as it appears in exception messages. */
  function TypeName(j: Json): string {
    match j
    case JNull => "NoneType"
    case JBool(_) => "bool"
    case JNum(_) => "int"
    case JStr(_) => "str"
    case JList(_) => "list"
    case JObj(_) => "dict"
  }

  /** `str(e)` for the AttributeError of calling `.get` on a value that is not a dict. */
  function NoGetMessage(j: Json): string {
    "'" + TypeName(j) + "' object has no attribute 'get'"
  }

  /** `d.get(key)` on a dict, None standing for a missing key. */
  function Get(fields: map<string, Json>, key: string): Json {
    if key in fields then fields[key] else JNull
  }

  /** `p.get("type") == "intent"` for a dict. */
  predicate IsIntent(j: Json) {
    j.JObj? && Get(j.fields, "type") == JStr("intent")
  }

  /** What `json.loads` made of the reply text. */
  datatype Decoded = Undecodable | Decoded(value: Json)

  /** The classifier call: its raw text and that text decoded, or the exception message it failed with. */
  datatype LlmReply = Reply(raw: string, decoded: Decoded) | CallFailed(error: string)

  /** One record of the parsed list: an intent dict, a chat reply or an error. */
  datatype Item = Intent(fields: map<string, Json>) | Chat(raw: string) | Error(raw: string)

  /** The index of the first element that is not a dict, if any: `p.get` raises there. */
  function FirstNonObject(items: seq<Json>): (r: Option<nat>)
    ensures r.None? <==> forall i :: 0 <= i < |items| ==> items[i].JObj?
    ensures r.Some? ==> r.value < |items| && !items[r.value].JObj?
    ensures r.Some? ==> forall i :: 0 <= i < r.value ==> items[i].JObj?
  {
    if items == [] then None
    else if !items[0].JObj? then Some(0)
    else match FirstNonObject(items[1..])
      case None => None
      case Some(i) => Some(i + 1)
  }

  /** `[p for p in parsed if p.get("type") == "intent"]` over dicts, in order. */
  function IntentsOf(items: seq<Json>): seq<Item> {
    if items == [] then []
    else
      var last := items[|items| - 1];
      IntentsOf(items[..|items| - 1]) + if IsIntent(last) then [Intent(last.fields)] else []
  }

  /** `parse_intent_with_llm`, once the classifier has replied. */
  function ParseIntent(reply: LlmReply): seq<Item> {
    match reply
    case CallFailed(e) => [Error(e)]
    case Reply(raw, Undecodable) => [Chat(Strip(raw))]
    case Reply(raw, Decoded(parsed)) =>
      match parsed
      case JList(items) =>
        (match FirstNonObject(items)
         case Some(i) => [Error(NoGetMessage(items[i]))]
         case None => IntentsOf(items))
      case JObj(fields) =>
        if IsIntent(parsed) then [Intent(fields)] else [Chat(Strip(raw))]
      case _ => [Error(NoGetMessage(parsed))]
  }

  // ----- properties -----

  /** Filtering keeps the stored order: the intents of `a + b` are those of `a`, then those of `b`. */
  lemma {:induction false} IntentsOfAppend(a: seq<Json>, b: seq<Json>)
    ensures IntentsOf(a + b) == IntentsOf(a) + IntentsOf(b)
    decreases |b|
  {
    if b == [] {
      assert a + b == a;
    } else {
      var front := b[..|b| - 1];
      assert (a + b)[..|a + b| - 1] == a + front;
      IntentsOfAppend(a, front);
    }
  }

  /** The filter keeps exactly the elements whose type is "intent", each as an intent record. */
  lemma {:induction false} IntentsOfKeepsExactlyIntents(items: seq<Json>)
    ensures forall x :: x in IntentsOf(items) ==> x.Intent? && JObj(x.fields) in items && IsIntent(JObj(x.fields))
    ensures forall i :: 0 <= i < |items| && IsIntent(items[i]) ==> Intent(items[i].fields) in IntentsOf(items)
    ensures |IntentsOf(items)| <= |items|
    decreases |items|
  {
    if items != [] {
      var front := items[..|items| - 1];
      IntentsOfKeepsExactlyIntents(front);
      assert forall i :: 0 <= i < |front| ==> items[i] == front[i];
    }
  }

  /**
   * A decoded list of dicts yields its intent elements in order; a list with
   * some other element yields one error record, naming the type of the
   * first such element.
   */
  lemma ParseListCases(raw: string, items: seq<Json>)
    ensures (forall i :: 0 <= i < |items| ==> items[i].JObj?) ==>
      ParseIntent(Reply(raw, Decoded(JList(items)))) == IntentsOf(items)
    ensures forall k :: 0 <= k < |items| && !items[k].JObj? && (forall i :: 0 <= i < k ==> items[i].JObj?) ==>
      ParseIntent(Reply(raw, Decoded(JList(items)))) == [Error(NoGetMessage(items[k]))]
  {
    forall k | 0 <= k < |items| && !items[k].JObj? && (forall i :: 0 <= i < k ==> items[i].JObj?)
      ensures ParseIntent(Reply(raw, Decoded(JList(items)))) == [Error(NoGetMessage(items[k]))]
    {
      assert FirstNonObject(items).Some?;
    }
  }

  /**
   * Anything but a decoded list gives exactly one record: the intent dict
   * itself, a chat record holding the stripped reply text, or an error.
   */
  lemma ParseSingleRecord(reply: LlmReply)
    requires !(reply.Reply? && reply.decoded.Decoded? && reply.decoded.value.JList?)
    ensures |ParseIntent(reply)| == 1
    ensures var r := ParseIntent(reply)[0];
      && (r.Intent? <==> reply.Reply? && reply.decoded.Decoded? && IsIntent(reply.decoded.value))
      && (r.Intent? ==> JObj(r.fields) == reply.decoded.value)
      && (r.Chat? <==> reply.Reply? && (reply.decoded.Undecodable? ||
                                        (reply.decoded.value.JObj? && !IsIntent(reply.decoded.value))))
      && (r.Chat? ==> r.raw == Strip(reply.raw))
      && (reply.CallFailed? ==> r == Error(reply.error))
  {
    match reply
    case CallFailed(_) =>
    case Reply(_, Undecodable) =>
    case Reply(_, Decoded(v)) =>
      if v.JObj? {
        assert IsIntent(v) ==> ParseIntent(reply) == [Intent(v.fields)];
      }
  }
}
