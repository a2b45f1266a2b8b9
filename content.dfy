/**
 * The content script's state machine: the held detection result, the scans that
 * replace it, the two-phase autofill around the awaited match response, the message
 * switch, and the debounce timer driven by page mutations.
 */
module Content {
  import opened Wrappers
  import opened Dom
  import opened Types
  import opened Detector
  import opened Filler
  import opened Selectors

  /** The debounce delay of the mutation observer, in milliseconds. */
  const DebounceMillis: nat := 500

  /** The `field.index -> field.selector` map, later fields overwriting earlier ones with the same index. */
  function SelectorMap(fields: seq<DetectedField>): (m: map<int, Selector>)
    ensures forall i :: 0 <= i < |fields| ==> fields[i].index in m
    ensures forall k :: k in m ==> exists i :: 0 <= i < |fields| && fields[i].index == k && m[k] == fields[i].selector
    decreases |fields|
  {
    if fields == [] then map[]
    else
      var init := fields[..|fields| - 1];
      var last := fields[|fields| - 1];
      assert forall i :: 0 <= i < |init| ==> init[i] == fields[i];
      SelectorMap(init)[last.index := last.selector]
  }

  /** A field's selector is in the map unless a later field has the same index. */
  lemma {:induction false} SelectorMapLast(fields: seq<DetectedField>, i: nat)
    requires i < |fields|
    requires forall j :: i < j < |fields| ==> fields[j].index != fields[i].index
    ensures SelectorMap(fields)[fields[i].index] == fields[i].selector
    decreases |fields|
  {
    var init := fields[..|fields| - 1];
    if i < |fields| - 1 {
      assert init[i] == fields[i];
      assert forall j :: i < j < |init| ==> init[j] == fields[j];
      SelectorMapLast(init, i);
    }
  }

  /** For a detection result, whose indices are the positions, the map sends each position to that field's selector. */
  lemma IndexedSelectorMap(fields: seq<DetectedField>)
    requires forall i :: 0 <= i < |fields| ==> fields[i].index == i
    ensures forall k :: k in SelectorMap(fields) <==> 0 <= k < |fields|
    ensures forall i :: 0 <= i < |fields| ==> SelectorMap(fields)[i] == fields[i].selector
  {
    forall k | k in SelectorMap(fields)
      ensures 0 <= k < |fields|
    {
      var i :| 0 <= i < |fields| && fields[i].index == k && SelectorMap(fields)[k] == fields[i].selector;
    }
    forall i | 0 <= i < |fields|
      ensures i in SelectorMap(fields) && SelectorMap(fields)[i] == fields[i].selector
    {
      SelectorMapLast(fields, i);
    }
  }

  /**
   * The selector map is built from the list held when the response arrives. When a
   * rescan replaced it during the await, the element a match for field `k` is written
   * to is whatever field `k` of the new list resolves to in the current page, which
   * need not be the element the match was computed for; an index past the new list
   * reaches no element.
   */
  lemma StaleScanRedirects(doc: Node, current: seq<DetectedField>, m: MatchResult)
    requires forall i :: 0 <= i < |current| ==> current[i].index == i
    ensures 0 <= m.fieldIndex < |current| ==>
              m.fieldIndex in SelectorMap(current) &&
              SelectorMap(current)[m.fieldIndex] == current[m.fieldIndex].selector &&
              Target(doc, m, SelectorMap(current)) ==
                (if IsEmptySelector(current[m.fieldIndex].selector) then None
                 else QuerySelector(doc, current[m.fieldIndex].selector))
    ensures !(0 <= m.fieldIndex < |current|) ==> Target(doc, m, SelectorMap(current)).None?
  {
    IndexedSelectorMap(current);
  }

  /** A form with no id of its own whose children have no children. */
  ghost predicate LeafForm(doc: Node) {
    doc.tag == "form" && Id(doc) == "" &&
    forall i :: 0 <= i < |doc.children| ==> doc.children[i].children == []
  }

  /**
   * Such a form whose children are fillable, non-file inputs: every child is a
   * candidate, and the form itself is not.
   */
  ghost predicate LeafInputs(doc: Node) {
    LeafForm(doc) &&
    forall i :: 0 <= i < |doc.children| ==>
      doc.children[i].tag == "input" && IsFillable(doc.children[i]) && InputType(doc.children[i]) != "file"
  }

  /** Such a form after a mutation inserted a phone input before the email input. */
  ghost predicate PhoneThenEmail(doc: Node) {
    LeafInputs(doc) && |doc.children| == 2 &&
    Id(doc.children[0]) == "phone" && Id(doc.children[1]) == "email"
  }

  /** The same form before the phone input was inserted: only the email input. */
  function BeforeInsert(doc: Node): Node
    requires |doc.children| == 2
  {
    Node(doc.tag, doc.attrs, doc.text, [doc.children[1]])
  }

  /** Such a form exists: `<form><input id=phone><input id=email></form>`. */
  lemma PhoneThenEmailExample()
    ensures PhoneThenEmail(Node("form", map[], "", [Node("input", map["id" := "phone"], "", []),
                                                    Node("input", map["id" := "email"], "", [])]))
  {
  }

  /** A childless element has no elements below it. */
  lemma LeafPaths(n: Node, r: Path)
    requires n.children == [] && ValidPath(n, r)
    ensures r == []
  {
  }

  /** An element of such a form is the form itself or one of its children. */
  lemma LeafInputPath(doc: Node, q: Path)
    requires LeafForm(doc) && ValidPath(doc, q)
    ensures q == [] || (|q| == 1 && q[0] < |doc.children|)
  {
    if q != [] {
      var c := doc.children[q[0]];
      assert c.children == [];
      LeafPaths(c, q[1..]);
      assert q == [q[0]] + q[1..];
    }
  }

  /** Child `i` of a form is the element at path `[i]`. */
  lemma ChildPath(doc: Node, i: nat)
    requires i < |doc.children|
    ensures ValidPath(doc, [i]) && At(doc, [i]) == doc.children[i]
  {
    assert [i][1..] == [];
  }

  /** The candidates of such a form are exactly its children. */
  lemma LeafInputCandidates(doc: Node)
    requires LeafInputs(doc)
    ensures forall q :: IsCandidate(doc, q) <==> |q| == 1 && q[0] < |doc.children|
  {
    forall q | IsCandidate(doc, q) ensures |q| == 1 && q[0] < |doc.children| {
      LeafInputPath(doc, q);
    }
    forall q | |q| == 1 && q[0] < |doc.children| ensures IsCandidate(doc, q) {
      ChildPath(doc, q[0]);
      assert q == [q[0]];
    }
  }

  /** With one input, the scan lists exactly that input. */
  lemma OneCandidate(doc: Node)
    requires LeafInputs(doc) && |doc.children| == 1
    ensures Candidates(doc) == [[0]]
  {
    LeafInputCandidates(doc);
    SortedOne(Candidates(doc));
  }

  /** With two inputs, the scan lists the first and then the second. */
  lemma TwoCandidates(doc: Node)
    requires LeafInputs(doc) && |doc.children| == 2
    ensures Candidates(doc) == [[0], [1]]
  {
    LeafInputCandidates(doc);
    SortedTwo(Candidates(doc));
  }

  /** The only sorted list holding exactly `[0]` is `[[0]]`. */
  lemma SortedOne(cs: seq<Path>)
    requires Sorted(cs) && forall q :: q in cs <==> |q| == 1 && q[0] < 1
    ensures cs == [[0]]
  {
    assert [0] in cs;
    SortedDistinct(cs);
    if |cs| > 1 {
      SortedAt(cs, 0, 1);
      assert false;
    }
  }

  /** The only sorted list holding exactly `[0]` and `[1]` is `[[0], [1]]`. */
  lemma SortedTwo(cs: seq<Path>)
    requires Sorted(cs) && forall q :: q in cs <==> |q| == 1 && q[0] < 2
    ensures cs == [[0], [1]]
  {
    assert [0] in cs && [1] in cs;
    SortedDistinct(cs);
    if |cs| > 2 {
      SortedAt(cs, 0, 1);
      SortedAt(cs, 1, 2);
      assert false;
    }
    assert !LexLess([1], [0]);
  }

  /** Two positions of a sorted list are in lexicographic order. */
  lemma SortedAt(cs: seq<Path>, i: nat, j: nat)
    requires Sorted(cs) && i < j < |cs|
    ensures LexLess(cs[i], cs[j])
  {
  }

  /**
   * A concrete stale scan. The request was sent with the scan of the form before the
   * insertion, whose field 0 is the email input. The rescan during the await lists the
   * phone input as field 0. The match computed for field 0 of the sent scan is therefore
   * written into the phone input, and the email input is left as it was.
   */
  lemma StaleScanWritesOtherElement(doc: Node, cs: Controls)
    requires PhoneThenEmail(doc) && Covers(doc, cs)
    ensures var sent := DetectedFields(BeforeInsert(doc));
            |sent| == 1 && sent[0].index == 0 && sent[0].selector == ById("email") &&
            QuerySelector(doc, sent[0].selector) == Some([1])
    ensures var current := DetectedFields(doc);
            |current| == 2 && current[0].index == 0 && current[0].selector == ById("phone") &&
            QuerySelector(doc, current[0].selector) == Some([0])
    ensures var sent := DetectedFields(BeforeInsert(doc));
            var m := MatchResult(0, sent[0].description, "email", "ada@example.com", Score(0.9));
            var o := Applied(doc, cs, [m], SelectorMap(DetectedFields(doc)));
            o.completed && o.controls[[0]].value == "ada@example.com" && o.controls[[1]] == cs[[1]]
  {
    SentScan(doc);
    Rescan(doc);
    var sent := DetectedFields(BeforeInsert(doc));
    var m := MatchResult(0, sent[0].description, "email", "ada@example.com", Score(0.9));
    StaleApply(doc, cs, m, SelectorMap(DetectedFields(doc)));
  }

  /** Applying a match for field 0 through a map whose field 0 is `#phone` fills the phone input only. */
  lemma StaleApply(doc: Node, cs: Controls, m: MatchResult, selectors: map<int, Selector>)
    requires PhoneThenEmail(doc) && Covers(doc, cs) && m.fieldIndex == 0
    requires 0 in selectors && selectors[0] == ById("phone")
    ensures var o := Applied(doc, cs, [m], selectors);
            o.completed && o.controls[[0]].value == m.value && o.controls[[1]] == cs[[1]]
  {
    StaleMatchTarget(doc, m, selectors);
    AppliedCompletes(doc, cs, [m], selectors);
    LastMatchWins(doc, cs, [m], selectors, [0], 0);
    AppliedFrame(doc, cs, [m], selectors, [1]);
  }

  /** The scan sent with the request, taken before the insertion, has the email input as field 0. */
  lemma SentScan(doc: Node)
    requires PhoneThenEmail(doc)
    ensures var sent := DetectedFields(BeforeInsert(doc));
            |sent| == 1 && sent[0].index == 0 && sent[0].selector == ById("email") &&
            QuerySelector(doc, sent[0].selector) == Some([1])
  {
    var before := BeforeInsert(doc);
    assert LeafInputs(before);
    OneCandidate(before);
    DetectedFieldAt(before, 0);
    ChildPath(before, 0);
    PhoneThenEmailIds(doc);
  }

  /** The rescan after the insertion has the phone input as field 0, and its map sends 0 to `#phone`. */
  lemma Rescan(doc: Node)
    requires PhoneThenEmail(doc)
    ensures var current := DetectedFields(doc);
            |current| == 2 && current[0].index == 0 && current[0].selector == ById("phone") &&
            QuerySelector(doc, current[0].selector) == Some([0]) &&
            0 in SelectorMap(current) && SelectorMap(current)[0] == ById("phone")
  {
    TwoCandidates(doc);
    DetectedFieldAt(doc, 0);
    ChildPath(doc, 0);
    PhoneThenEmailIds(doc);
    ScanIndices(doc);
    IndexedSelectorMap(DetectedFields(doc));
  }

  /** Every field of a scan carries its own position as index. */
  lemma ScanIndices(doc: Node)
    ensures forall i :: 0 <= i < |DetectedFields(doc)| ==> DetectedFields(doc)[i].index == i
  {
    forall i | 0 <= i < |DetectedFields(doc)| ensures DetectedFields(doc)[i].index == i {
      DetectedFieldAt(doc, i);
    }
  }

  /** On such a form, `#phone` finds the first input and `#email` the second. */
  lemma PhoneThenEmailIds(doc: Node)
    requires PhoneThenEmail(doc)
    ensures QuerySelector(doc, ById("phone")) == Some([0])
    ensures QuerySelector(doc, ById("email")) == Some([1])
  {
    LeafFormIds(doc);
  }

  /** The id lookups on a leaf form with children `phone` and `email`. */
  lemma LeafFormIds(doc: Node)
    requires LeafForm(doc) && |doc.children| == 2
    requires Id(doc.children[0]) == "phone" && Id(doc.children[1]) == "email"
    ensures QuerySelector(doc, ById("phone")) == Some([0])
    ensures QuerySelector(doc, ById("email")) == Some([1])
  {
    ChildPath(doc, 0);
    ChildPath(doc, 1);
    forall q | ValidPath(doc, q) ensures q == [] || q == [0] || q == [1] {
      LeafInputPath(doc, q);
    }
    assert MatchesSelector(doc, [0], ById("phone"));
    assert MatchesSelector(doc, [1], ById("email"));
  }

  /** Through a map whose field 0 is `#phone`, a match for field 0 targets the phone input and writes its value there without throwing. */
  lemma StaleMatchTarget(doc: Node, m: MatchResult, selectors: map<int, Selector>)
    requires PhoneThenEmail(doc) && m.fieldIndex == 0
    requires 0 in selectors && selectors[0] == ById("phone")
    ensures Target(doc, m, selectors) == Some([0])
    ensures !Throws(doc, m, selectors)
    ensures WriteOf(doc, m, selectors, [0]) == Some(m.value)
  {
    ChildPath(doc, 0);
    PhoneThenEmailIds(doc);
    assert At(doc, [0]).tag == "input" && InputType(At(doc, [0])) != "file";
  }

  /** The content script of one page. */
  class ContentScript {
    const page: Page
    /** `lastDetectedFields`: the result of the most recent scan. */
    var lastDetectedFields: seq<DetectedField>
    /** `debounceTimer`: the id of the last timer set; it keeps that id after the timer fires. */
    var debounceTimer: Option<nat>
    /** The timers set and neither cleared nor fired. */
    var pending: set<nat>
    /** The id the next `setTimeout` returns; ids are positive. */
    var nextTimerId: nat
    /** The messages sent to the coordinator, oldest first. */
    var sent: seq<ExtensionMessage>

    ghost predicate Valid()
      reads this, page
    {
      page.Valid() && nextTimerId > 0 &&
      (debounceTimer.None? ==> pending == {}) &&
      (debounceTimer.Some? ==> pending <= {debounceTimer.value} && debounceTimer.value < nextTimerId)
    }

    /** Loading the script: nothing held, no timer, then the initial scan. */
    constructor (page: Page)
      requires page.Valid()
      ensures Valid() && this.page == page
      ensures lastDetectedFields == DetectedFields(page.doc)
      ensures sent == if lastDetectedFields == [] then [] else [FieldsDetected(|lastDetectedFields|)]
      ensures debounceTimer == None && pending == {}
    {
      this.page := page;
      lastDetectedFields := [];
      debounceTimer := None;
      pending := {};
      nextTimerId := 1;
      sent := [];
      new;
      ScanPage();
    }

    /** `scanPage`: replace the held list by a fresh detection, and report the count when it is not zero. */
    method ScanPage()
      requires Valid()
      modifies this`lastDetectedFields, this`sent
      ensures Valid()
      ensures lastDetectedFields == DetectedFields(page.doc)
      ensures sent == old(sent) + if lastDetectedFields == [] then [] else [FieldsDetected(|lastDetectedFields|)]
    {
      lastDetectedFields := DetectFormFields(page.doc);
      if |lastDetectedFields| > 0 {
        sent := sent + [FieldsDetected(|lastDetectedFields|)];
      }
    }

    /**
     * `triggerAutofill` up to its `await`: rescan only when nothing is held, and send the
     * match request only when the list is non-empty then.
     */
    method BeginAutofill() returns (requested: bool)
      requires Valid()
      modifies this`lastDetectedFields, this`sent
      ensures Valid()
      ensures old(lastDetectedFields) != [] ==> lastDetectedFields == old(lastDetectedFields)
      ensures old(lastDetectedFields) == [] ==> lastDetectedFields == DetectedFields(page.doc)
      ensures requested <==> lastDetectedFields != []
      ensures old(lastDetectedFields) != [] ==> sent == old(sent) + [RequestMatch(lastDetectedFields)]
      ensures old(lastDetectedFields) == [] && requested ==>
                sent == old(sent) + [FieldsDetected(|lastDetectedFields|), RequestMatch(lastDetectedFields)]
      ensures !requested ==> sent == old(sent)
    {
      if |lastDetectedFields| == 0 {
        ScanPage();
      }
      if |lastDetectedFields| == 0 {
        requested := false;
        return;
      }
      sent := sent + [RequestMatch(lastDetectedFields)];
      requested := true;
    }

    /** The loop that fills the selector map, one `set` per held field. */
    method BuildSelectorMap(fields: seq<DetectedField>) returns (selectors: map<int, Selector>)
      ensures selectors == SelectorMap(fields)
    {
      selectors := map[];
      for i := 0 to |fields|
        invariant selectors == SelectorMap(fields[..i])
      {
        assert fields[..i + 1][..i] == fields[..i];
        selectors := selectors[fields[i].index := fields[i].selector];
      }
      assert fields[..|fields|] == fields;
    }

    /**
     * `triggerAutofill` after its `await`: nothing happens for a missing or empty response;
     * otherwise the matches are applied through the selector map of the list held now.
     */
    method FinishAutofill(response: Option<seq<MatchResult>>) returns (completed: bool)
      requires Valid()
      modifies page
      ensures Valid() && page.doc == old(page.doc)
      ensures response.None? || response.value == [] ==> page.controls == old(page.controls) && completed
      ensures response.Some? && response.value != [] ==>
                Outcome(page.controls, completed) ==
                Applied(page.doc, old(page.controls), response.value, SelectorMap(lastDetectedFields))
    {
      if response.None? || |response.value| == 0 {
        completed := true;
        return;
      }
      var selectors := BuildSelectorMap(lastDetectedFields);
      completed := page.ApplyMatchesWithSelectors(response.value, selectors);
    }

    /**
     * The message switch: `TRIGGER_AUTOFILL` starts an autofill, `GET_FIELDS` scans and
     * replies with the new list, every other message is ignored.
     */
    method OnMessage(message: ExtensionMessage) returns (reply: Option<seq<DetectedField>>)
      requires Valid()
      modifies this`lastDetectedFields, this`sent
      ensures Valid()
      ensures message.GetFields? ==>
                lastDetectedFields == DetectedFields(page.doc) && reply == Some(lastDetectedFields) &&
                sent == old(sent) + if lastDetectedFields == [] then [] else [FieldsDetected(|lastDetectedFields|)]
      ensures message.TriggerAutofill? ==> reply.None?
      ensures message.TriggerAutofill? && old(lastDetectedFields) != [] ==>
                lastDetectedFields == old(lastDetectedFields) && sent == old(sent) + [RequestMatch(lastDetectedFields)]
      ensures message.TriggerAutofill? && old(lastDetectedFields) == [] ==>
                lastDetectedFields == DetectedFields(page.doc) &&
                sent == old(sent) + if lastDetectedFields == [] then []
                                    else [FieldsDetected(|lastDetectedFields|), RequestMatch(lastDetectedFields)]
      ensures !message.GetFields? && !message.TriggerAutofill? ==>
                reply.None? && lastDetectedFields == old(lastDetectedFields) && sent == old(sent)
    {
      reply := None;
      match message
      case TriggerAutofill =>
        var _ := BeginAutofill();
      case GetFields =>
        ScanPage();
        reply := Some(lastDetectedFields);
      case _ =>
    }

    /** The mutation observer's callback: clear the pending timer, if any, and set a new one. */
    method OnMutation()
      requires Valid()
      modifies this`debounceTimer, this`pending, this`nextTimerId
      ensures Valid()
      ensures debounceTimer == Some(old(nextTimerId)) && pending == {old(nextTimerId)}
      ensures nextTimerId == old(nextTimerId) + 1
    {
      if debounceTimer.Some? {
        pending := pending - {debounceTimer.value};
      }
      debounceTimer := Some(nextTimerId);
      pending := pending + {nextTimerId};
      nextTimerId := nextTimerId + 1;
    }

    /** A pending timer fires: it is no longer pending and the page is scanned. */
    method TimerFired(id: nat)
      requires Valid() && id in pending
      modifies this`pending, this`lastDetectedFields, this`sent
      ensures Valid()
      ensures pending == old(pending) - {id} && pending == {}
      ensures lastDetectedFields == DetectedFields(page.doc)
      ensures sent == old(sent) + if lastDetectedFields == [] then [] else [FieldsDetected(|lastDetectedFields|)]
    {
      pending := pending - {id};
      ScanPage();
    }
  }

  /** At most one scan is ever pending. */
  lemma AtMostOnePending(c: ContentScript)
    requires c.Valid()
    ensures |c.pending| <= 1
  {
    if c.debounceTimer.Some? {
      var t := c.debounceTimer.value;
      assert c.pending <= {t};
      if c.pending != {} {
        assert c.pending == {t};
      }
    }
  }
}
