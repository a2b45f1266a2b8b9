/**
 * The records exchanged between the page context, the coordinator and the editor,
 * and the user's stored data.
 */
module Types {
  import opened Wrappers

  /** One `tag:nth-child(nth)` step of a positional selector. */
  datatype Step = Step(tag: string, nth: nat)

  /**
   * The two selector shapes the detector produces: `#` followed by the escaped id,
   * or the `" > "`-join of `tag:nth-child(k)` steps, outermost first.
   */
  datatype Selector = ById(id: string) | Positional(steps: seq<Step>)

  /** The selector's text is the empty string: only a positional selector without steps. */
  predicate IsEmptySelector(s: Selector) {
    s.Positional? && s.steps == []
  }

  /** A form field found by one scan; `index` is its position in that scan's list. */
  datatype DetectedField = DetectedField(
    index: int,
    description: string,
    selector: Selector,
    tagName: string,
    inputType: Option<string>)

  /** The matcher's confidence; carried through, never computed with. */
  datatype Score = Score(value: real)

  /** One entry of the remote matcher's answer. */
  datatype ServerMatchEntry = ServerMatchEntry(
    fieldIndex: int,
    fieldDescription: string,
    matchedKey: string,
    score: Score)

  /** A match with the stored value filled in, as the page context receives it. */
  datatype MatchResult = MatchResult(
    fieldIndex: int,
    fieldDescription: string,
    matchedKey: string,
    value: string,
    score: Score)

  datatype ExtensionMessage =
    | TriggerAutofill
    | GetFields
    | RequestMatch(fields: seq<DetectedField>)
    | FieldsDetected(count: int)
    | CheckServer

  /**
   * The user's data as a JavaScript object: its own properties in insertion order.
   * A well-formed value has no key twice.
   */
  type UserData = seq<(string, string)>

  function Keys(d: UserData): (ks: seq<string>)
    ensures |ks| == |d| && forall i :: 0 <= i < |d| ==> ks[i] == d[i].0
  {
    if d == [] then [] else [d[0].0] + Keys(d[1..])
  }

  predicate DistinctKeys(d: UserData) {
    forall i, j :: 0 <= i < j < |d| ==> d[i].0 != d[j].0
  }

  /** `d[k]` for an own property, `None` standing for `undefined`. */
  function Lookup(d: UserData, k: string): (r: Option<string>)
    ensures r.Some? ==> exists i :: 0 <= i < |d| && d[i] == (k, r.value)
    ensures r.None? <==> forall i :: 0 <= i < |d| ==> d[i].0 != k
  {
    if d == [] then None else if d[0].0 == k then Some(d[0].1) else Lookup(d[1..], k)
  }

  /** `d[k] = v`: an existing key keeps its place and takes the new value; a new key goes last. */
  function Put(d: UserData, k: string, v: string): (r: UserData)
    ensures Lookup(r, k) == Some(v)
    ensures forall k' :: k' != k ==> Lookup(r, k') == Lookup(d, k')
    ensures DistinctKeys(d) ==> DistinctKeys(r)
    ensures Lookup(d, k).Some? ==> |r| == |d| && Keys(r) == Keys(d)
    ensures Lookup(d, k).None? ==> r == d + [(k, v)]
  {
    if d == [] then [(k, v)]
    else if d[0].0 == k then
      PutAtHead(d, k, v);
      [(k, v)] + d[1..]
    else
      var rest := Put(d[1..], k, v);
      PutBehindHead(d, k, v, rest);
      [d[0]] + rest
  }

  /** Looking up in entries `[e] + rest` finds `e` first. */
  lemma LookupCons(e: (string, string), rest: UserData, k: string)
    ensures Lookup([e] + rest, k) == if e.0 == k then Some(e.1) else Lookup(rest, k)
  {
    assert ([e] + rest)[1..] == rest;
  }

  /** `Put` on data whose first key is `k`: the first entry takes the new value. */
  lemma PutAtHead(d: UserData, k: string, v: string)
    requires d != [] && d[0].0 == k
    ensures var r := [(k, v)] + d[1..];
            Lookup(r, k) == Some(v) &&
            (forall k' :: k' != k ==> Lookup(r, k') == Lookup(d, k')) &&
            (DistinctKeys(d) ==> DistinctKeys(r)) &&
            |r| == |d| && Keys(r) == Keys(d)
  {
    var r := [(k, v)] + d[1..];
    assert d == [d[0]] + d[1..];
    forall k' | k' != k
      ensures Lookup(r, k') == Lookup(d, k')
    {
      LookupCons((k, v), d[1..], k');
      LookupCons(d[0], d[1..], k');
    }
    if DistinctKeys(d) {
      DistinctTail(d);
      DistinctCons((k, v), d[1..]);
    }
    LookupCons((k, v), d[1..], k);
    assert Keys(r) == [k] + Keys(d[1..]);
  }

  /** `Put` on data whose first key is not `k`: the first entry stays, and the rest is put into. */
  lemma PutBehindHead(d: UserData, k: string, v: string, rest: UserData)
    requires d != [] && d[0].0 != k
    requires Lookup(rest, k) == Some(v)
    requires forall k' :: k' != k ==> Lookup(rest, k') == Lookup(d[1..], k')
    requires DistinctKeys(d[1..]) ==> DistinctKeys(rest)
    requires Lookup(d[1..], k).Some? ==> |rest| == |d[1..]| && Keys(rest) == Keys(d[1..])
    requires Lookup(d[1..], k).None? ==> rest == d[1..] + [(k, v)]
    ensures Lookup([d[0]] + rest, k) == Some(v)
    ensures forall k' :: k' != k ==> Lookup([d[0]] + rest, k') == Lookup(d, k')
    ensures DistinctKeys(d) ==> DistinctKeys([d[0]] + rest)
    ensures Lookup(d, k).Some? ==> |[d[0]] + rest| == |d| && Keys([d[0]] + rest) == Keys(d)
    ensures Lookup(d, k).None? ==> [d[0]] + rest == d + [(k, v)]
  {
    PutBehindHeadLookup(d, k, v, rest);
    if DistinctKeys(d) {
      PutBehindHeadDistinct(d, k, v, rest);
    }
    if Lookup(d[1..], k).Some? {
      PutBehindHeadKeys(d, rest);
    } else {
      PutBehindHeadAppend(d, k, v, rest);
    }
  }

  /** Lookups through the unchanged first entry. */
  lemma PutBehindHeadLookup(d: UserData, k: string, v: string, rest: UserData)
    requires d != [] && d[0].0 != k
    requires Lookup(rest, k) == Some(v)
    requires forall k' :: k' != k ==> Lookup(rest, k') == Lookup(d[1..], k')
    ensures Lookup([d[0]] + rest, k) == Some(v)
    ensures forall k' :: k' != k ==> Lookup([d[0]] + rest, k') == Lookup(d, k')
  {
    assert d == [d[0]] + d[1..];
    LookupCons(d[0], rest, k);
    forall k' | k' != k
      ensures Lookup([d[0]] + rest, k') == Lookup(d, k')
    {
      LookupCons(d[0], rest, k');
      LookupCons(d[0], d[1..], k');
    }
  }

  /** The first key stays distinct from those of the rest after the put. */
  lemma PutBehindHeadDistinct(d: UserData, k: string, v: string, rest: UserData)
    requires d != [] && d[0].0 != k && DistinctKeys(d)
    requires DistinctKeys(d[1..]) ==> DistinctKeys(rest)
    requires Lookup(d[1..], k).Some? ==> |rest| == |d[1..]| && Keys(rest) == Keys(d[1..])
    requires Lookup(d[1..], k).None? ==> rest == d[1..] + [(k, v)]
    ensures DistinctKeys([d[0]] + rest)
  {
    DistinctTail(d);
    forall j | 0 <= j < |rest|
      ensures rest[j].0 != d[0].0
    {
      if Lookup(d[1..], k).Some? {
        assert rest[j].0 == Keys(rest)[j] == Keys(d[1..])[j] == d[1..][j].0;
      } else if j < |d| - 1 {
        assert rest[j] == d[1..][j];
      }
    }
    DistinctCons(d[0], rest);
  }

  /** The keys of `[e] + r` are `e`'s key, then those of `r`. */
  lemma KeysCons(e: (string, string), r: UserData)
    ensures Keys([e] + r) == [e.0] + Keys(r)
  {
    assert ([e] + r)[1..] == r;
  }

  /** Replacing the entries after the first by ones with the same keys keeps the length and the keys. */
  lemma PutBehindHeadKeys(d: UserData, rest: UserData)
    requires d != [] && |rest| == |d| - 1 && Keys(rest) == Keys(d[1..])
    ensures |[d[0]] + rest| == |d| && Keys([d[0]] + rest) == Keys(d)
  {
    KeysCons(d[0], rest);
    KeysCons(d[0], d[1..]);
    assert [d[0]] + d[1..] == d;
  }

  /** Appending behind the first entry is appending to the whole. */
  lemma PutBehindHeadAppend(d: UserData, k: string, v: string, rest: UserData)
    requires d != [] && rest == d[1..] + [(k, v)]
    ensures [d[0]] + rest == d + [(k, v)]
  {
    assert [d[0]] + d[1..] == d;
  }

  /** Dropping the first entry keeps the keys distinct, and the first key is none of the others. */
  lemma DistinctTail(d: UserData)
    requires d != [] && DistinctKeys(d)
    ensures DistinctKeys(d[1..])
    ensures forall j :: 0 <= j < |d| - 1 ==> d[1..][j].0 != d[0].0
  {
    assert forall j :: 0 <= j < |d| - 1 ==> d[1..][j] == d[j + 1];
  }

  /** An entry whose key is new in front of entries with distinct keys keeps the keys distinct. */
  lemma DistinctCons(e: (string, string), d: UserData)
    requires DistinctKeys(d) && forall j :: 0 <= j < |d| ==> d[j].0 != e.0
    ensures DistinctKeys([e] + d)
  {
    var r := [e] + d;
    assert forall j :: 0 < j < |r| ==> r[j] == d[j - 1];
  }

  /** Every entry after a `Put` is the new entry or the entry that was at the same place. */
  lemma {:induction false} PutEntries(d: UserData, k: string, v: string)
    ensures forall i :: 0 <= i < |Put(d, k, v)| ==> Put(d, k, v)[i] == (k, v) || (i < |d| && Put(d, k, v)[i] == d[i])
    decreases |d|
  {
    if d != [] && d[0].0 != k {
      var r := Put(d, k, v);
      var rest := Put(d[1..], k, v);
      PutEntries(d[1..], k, v);
      assert r == [d[0]] + rest;
      forall i | 0 < i < |r|
        ensures r[i] == (k, v) || (i < |d| && r[i] == d[i])
      {
        assert r[i] == rest[i - 1];
      }
    }
  }
}
