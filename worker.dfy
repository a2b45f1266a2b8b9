/**
 * The coordinator (service worker): turning the remote matcher's answer into match
 * results with the stored values, the badge text, and the listener's fallbacks
 * for failures.
 *
 * The remote matcher and the health check are calls that may fail; they are passed
 * in as functions whose `None` result stands for a rejected promise.
 */
module Worker {
  import opened Wrappers
  import opened Text
  import opened Types

  /** `fetchMatch(descriptions, keys)`: the matcher's entries, or `None` when the request fails. */
  type Matcher = (seq<string>, seq<string>) -> Option<seq<ServerMatchEntry>>

  /** `fields.map(f => f.description)`. */
  function Descriptions(fields: seq<DetectedField>): (ds: seq<string>)
    ensures |ds| == |fields|
    ensures forall i :: 0 <= i < |fields| ==> ds[i] == fields[i].description
  {
    if fields == [] then [] else [fields[0].description] + Descriptions(fields[1..])
  }

  /**
   * One server entry as a match result: the index, description, key and score are
   * copied, and the value is the stored value for the key, or `""` when none is stored.
   */
  function ToMatchResult(data: UserData, e: ServerMatchEntry): (r: MatchResult)
    ensures r.fieldIndex == e.fieldIndex && r.fieldDescription == e.fieldDescription
    ensures r.matchedKey == e.matchedKey && r.score == e.score
    ensures (forall i :: 0 <= i < |data| ==> data[i].0 != e.matchedKey) ==> r.value == ""
    ensures forall i :: 0 <= i < |data| && data[i].0 == e.matchedKey && DistinctKeys(data) ==> r.value == data[i].1
  {
    var value := Lookup(data, e.matchedKey).GetOr("");
    assert forall i :: 0 <= i < |data| && data[i].0 == e.matchedKey && DistinctKeys(data) ==> value == data[i].1 by {
      forall i | 0 <= i < |data| && data[i].0 == e.matchedKey && DistinctKeys(data)
        ensures value == data[i].1
      {
        var j :| 0 <= j < |data| && data[j] == (e.matchedKey, Lookup(data, e.matchedKey).value);
        assert i == j;
      }
    }
    MatchResult(e.fieldIndex, e.fieldDescription, e.matchedKey, value, e.score)
  }

  /** `serverMatches.map(...)`: the same entries in the same order, each as a match result. */
  function MapServerMatches(data: UserData, entries: seq<ServerMatchEntry>): (r: seq<MatchResult>)
    ensures |r| == |entries|
    ensures forall i :: 0 <= i < |entries| ==> r[i] == ToMatchResult(data, entries[i])
  {
    if entries == [] then [] else [ToMatchResult(data, entries[0])] + MapServerMatches(data, entries[1..])
  }

  /** No stored keys or no fields: the answer is known without asking the matcher. */
  predicate ShortCircuits(data: UserData, fields: seq<DetectedField>) {
    |Keys(data)| == 0 || |fields| == 0
  }

  /** `handleMatchRequest`; `None` when it rejects because the matcher failed. */
  function HandleMatchRequest(data: UserData, fields: seq<DetectedField>, fetchMatch: Matcher): (r: Option<seq<MatchResult>>)
    ensures ShortCircuits(data, fields) ==> r == Some([])
    ensures !ShortCircuits(data, fields) ==> (r.None? <==> fetchMatch(Descriptions(fields), Keys(data)).None?)
    ensures !ShortCircuits(data, fields) && r.Some? ==>
              r.value == MapServerMatches(data, fetchMatch(Descriptions(fields), Keys(data)).value)
  {
    var keys := Keys(data);
    if |keys| == 0 || |fields| == 0 then Some([])
    else
      match fetchMatch(Descriptions(fields), keys)
      case None => None
      case Some(entries) => Some(MapServerMatches(data, entries))
  }

  /** With no keys or no fields the matcher is not consulted: any two matchers give the same answer. */
  lemma ShortCircuitIgnoresMatcher(data: UserData, fields: seq<DetectedField>, f: Matcher, g: Matcher)
    requires ShortCircuits(data, fields)
    ensures HandleMatchRequest(data, fields, f) == HandleMatchRequest(data, fields, g) == Some([])
  {
  }

  /**
   * The matcher is asked about the fields' descriptions in field order and the stored
   * keys in storage order, and about nothing else: two matchers that agree there give
   * the same answer.
   */
  lemma MatcherSeesDescriptionsAndKeys(data: UserData, fields: seq<DetectedField>, f: Matcher, g: Matcher)
    requires f(Descriptions(fields), Keys(data)) == g(Descriptions(fields), Keys(data))
    ensures HandleMatchRequest(data, fields, f) == HandleMatchRequest(data, fields, g)
  {
  }

  /** The listener's `REQUEST_MATCH` answer: a rejection becomes the empty match list. */
  function MatchResponse(data: UserData, fields: seq<DetectedField>, fetchMatch: Matcher): (r: seq<MatchResult>)
    ensures HandleMatchRequest(data, fields, fetchMatch).None? ==> r == []
    ensures HandleMatchRequest(data, fields, fetchMatch).Some? ==> r == HandleMatchRequest(data, fields, fetchMatch).value
  {
    HandleMatchRequest(data, fields, fetchMatch).GetOr([])
  }

  /** Each match of the answer carries the stored value of its key, in the order the matcher gave. */
  lemma ResponseValues(data: UserData, fields: seq<DetectedField>, fetchMatch: Matcher, i: nat)
    requires DistinctKeys(data) && !ShortCircuits(data, fields)
    requires fetchMatch(Descriptions(fields), Keys(data)).Some?
    requires i < |fetchMatch(Descriptions(fields), Keys(data)).value|
    ensures var e := fetchMatch(Descriptions(fields), Keys(data)).value[i];
            var r := MatchResponse(data, fields, fetchMatch);
            i < |r| && r[i].fieldIndex == e.fieldIndex && r[i].matchedKey == e.matchedKey &&
            r[i].value == Lookup(data, e.matchedKey).GetOr("")
  {
  }

  /** `count > 0 ? String(count) : ""`. */
  function BadgeText(count: int): (t: string)
    ensures t == "" <==> count <= 0
    ensures count > 0 ==> (forall i :: 0 <= i < |t| ==> IsDigit(t[i])) && DecimalValue(t) == count
    ensures count > 0 ==> t[0] != '0'
  {
    if count > 0 then
      DecimalRoundTrip(count);
      DecimalString(count)
    else ""
  }

  /** The `CHECK_SERVER` answer: the health check's result, and offline when it rejects. */
  function ServerOnline(health: Option<bool>): (online: bool)
    ensures health.None? ==> !online
    ensures health.Some? ==> online == health.value
  {
    health.GetOr(false)
  }

  /** What the listener sends back. */
  datatype Reply = Matches(matches: seq<MatchResult>) | Online(online: bool)

  /** The listener's effects: the reply it sends, and the badge it sets as (tab, text). */
  datatype ListenerEffect = ListenerEffect(reply: Option<Reply>, badge: Option<(int, string)>)

  /**
   * The coordinator's message switch. `tab` is the sending tab's id, when there is one;
   * `health` is the health check's result.
   */
  function Listener(message: ExtensionMessage, data: UserData, fetchMatch: Matcher, health: Option<bool>,
                    tab: Option<int>): (e: ListenerEffect)
    ensures message.RequestMatch? ==>
              e.badge.None? && e.reply == Some(Matches(MatchResponse(data, message.fields, fetchMatch)))
    ensures message.FieldsDetected? ==> e.reply.None?
    ensures message.FieldsDetected? ==> (e.badge.Some? <==> tab.Some?)
    ensures message.FieldsDetected? && tab.Some? ==> e.badge == Some((tab.value, BadgeText(message.count)))
    ensures message.CheckServer? ==> e.badge.None? && e.reply == Some(Online(ServerOnline(health)))
    ensures message.TriggerAutofill? || message.GetFields? ==> e == ListenerEffect(None, None)
  {
    match message
    case RequestMatch(fields) => ListenerEffect(Some(Matches(MatchResponse(data, fields, fetchMatch))), None)
    case FieldsDetected(count) =>
      ListenerEffect(None, if tab.Some? then Some((tab.value, BadgeText(count))) else None)
    case CheckServer => ListenerEffect(Some(Online(ServerOnline(health))), None)
    case _ => ListenerEffect(None, None)
  }
}
