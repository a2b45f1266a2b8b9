/**
 * Putting matched values into the page: choosing a `select` option, writing a text
 * control followed by its `input` and `change` events, and the best-effort loop
 * over the match list.
 *
 * Filling never changes the document's structure; what it changes is the live state
 * of elements, kept as one `Control` per element path.
 */
module Filler {
  import opened Wrappers
  import opened Text
  import opened Dom
  import opened Types
  import opened Selectors

  /** The events the filler dispatches; both are created with `bubbles: true`. */
  datatype Event = InputEvent | ChangeEvent

  /** The live state of one element: its current `value` and the events dispatched at it, oldest first. */
  datatype Control = Control(value: string, events: seq<Event>)

  type Controls = map<Path, Control>

  /** Every element of the document has a live state. */
  ghost predicate Covers(doc: Node, cs: Controls) {
    forall p :: ValidPath(doc, p) ==> p in cs
  }

  // ----- the options of a select -----

  /** An `option` as its `value` and `text` IDL attributes read it. */
  datatype SelectOption = SelectOption(value: string, text: string)

  /** `option.text` is the stripped and collapsed text content; `option.value` is the `value` attribute, else the text. */
  function OptionOf(o: Node): (r: SelectOption)
    ensures r.text == StripAndCollapse(TextContent(o))
    ensures r.value == (if "value" in o.attrs then o.attrs["value"] else r.text)
  {
    var text := StripAndCollapse(TextContent(o));
    SelectOption(Attr(o, "value").GetOr(text), text)
  }

  /** The `option` elements among `cs`. */
  function OptionChildren(cs: seq<Node>): (r: seq<Node>)
    ensures forall o :: o in r ==> o in cs && o.tag == "option"
    ensures forall o :: o in cs && o.tag == "option" ==> o in r
    decreases |cs|
  {
    if cs == [] then []
    else (if cs[0].tag == "option" then [cs[0]] else []) + OptionChildren(cs[1..])
  }

  /**
   * The select's list of options: its `option` children and the `option` children of
   * its `optgroup` children, in tree order.
   */
  function OptionNodes(cs: seq<Node>): (r: seq<Node>)
    ensures forall o :: o in r ==> o.tag == "option"
    decreases |cs|
  {
    if cs == [] then []
    else
      var c := cs[0];
      (if c.tag == "option" then [c] else if c.tag == "optgroup" then OptionChildren(c.children) else []) +
      OptionNodes(cs[1..])
  }

  /** A lone child contributes itself when it is an `option`, and nothing otherwise. */
  lemma OptionChildrenOne(c: Node)
    ensures OptionChildren([c]) == if c.tag == "option" then [c] else []
  {
    assert [c][1..] == [];
  }

  /** The options of consecutive children come in tree order: the first part's, then the second's. */
  lemma {:induction false} OptionChildrenAppend(a: seq<Node>, b: seq<Node>)
    ensures OptionChildren(a + b) == OptionChildren(a) + OptionChildren(b)
    decreases |a|
  {
    if a == [] {
      assert a + b == b;
    } else {
      assert (a + b)[0] == a[0] && (a + b)[1..] == a[1..] + b;
      OptionChildrenAppend(a[1..], b);
    }
  }

  /** A lone child of the select contributes itself if an `option`, its `option` children if an `optgroup`, else nothing. */
  lemma OptionNodesOne(c: Node)
    ensures OptionNodes([c]) ==
            if c.tag == "option" then [c] else if c.tag == "optgroup" then OptionChildren(c.children) else []
  {
    assert [c][1..] == [];
  }

  /** One step of the walk over the select's children. */
  lemma OptionNodesCons(c: Node, rest: seq<Node>)
    ensures OptionNodes([c] + rest) == OptionNodes([c]) + OptionNodes(rest)
  {
    assert ([c] + rest)[0] == c && ([c] + rest)[1..] == rest;
    OptionNodesOne(c);
  }

  /** Prepending one child to the first part keeps the split of the options over the two parts. */
  lemma OptionNodesAppendStep(c: Node, t: seq<Node>, b: seq<Node>)
    requires OptionNodes(t + b) == OptionNodes(t) + OptionNodes(b)
    ensures OptionNodes([c] + (t + b)) == OptionNodes([c] + t) + OptionNodes(b)
  {
    OptionNodesCons(c, t + b);
    OptionNodesCons(c, t);
    ConcatAssoc(OptionNodes([c]), OptionNodes(t), OptionNodes(b));
  }

  /** Concatenation regroups freely. */
  lemma ConcatAssoc<T>(x: seq<T>, y: seq<T>, z: seq<T>)
    ensures x + (y + z) == (x + y) + z
  {
  }

  /** The select's options of consecutive children come in tree order: the first part's, then the second's. */
  lemma {:induction false} OptionNodesAppend(a: seq<Node>, b: seq<Node>)
    ensures OptionNodes(a + b) == OptionNodes(a) + OptionNodes(b)
    decreases |a|
  {
    if a == [] {
      assert a + b == b;
    } else {
      assert a == [a[0]] + a[1..] && a + b == [a[0]] + (a[1..] + b);
      OptionNodesAppend(a[1..], b);
      OptionNodesAppendStep(a[0], a[1..], b);
    }
  }

  /** `Array.from(el.options)`, as value/text pairs. */
  function Options(n: Node): (r: seq<SelectOption>)
    ensures |r| == |OptionNodes(n.children)|
    ensures forall i :: 0 <= i < |r| ==> r[i] == OptionOf(OptionNodes(n.children)[i])
  {
    var os := OptionNodes(n.children);
    seq(|os|, i requires 0 <= i < |os| => OptionOf(os[i]))
  }

  // ----- choosing an option -----

  /** The option's value or text equals the lower-cased match value, compared in lower case. */
  predicate ExactOption(o: SelectOption, lowerValue: string) {
    Lower(o.value) == lowerValue || Lower(o.text) == lowerValue
  }

  /** The option's value or text contains the lower-cased match value, or is contained in it, compared in lower case. */
  predicate PartialOption(o: SelectOption, lowerValue: string) {
    Contains(Lower(o.value), lowerValue) || Contains(Lower(o.text), lowerValue) ||
    Contains(lowerValue, Lower(o.value)) || Contains(lowerValue, Lower(o.text))
  }

  /** `options.find(P)`, as the position of the first option satisfying `P`. */
  function FindOption(os: seq<SelectOption>, P: SelectOption -> bool): (r: Option<nat>)
    ensures r.Some? ==> r.value < |os| && P(os[r.value])
    ensures r.Some? ==> forall j :: 0 <= j < r.value ==> !P(os[j])
    ensures r.None? <==> forall j :: 0 <= j < |os| ==> !P(os[j])
    decreases |os|
  {
    if os == [] then None
    else if P(os[0]) then Some(0)
    else
      match FindOption(os[1..], P)
      case None =>
        assert forall j :: 1 <= j < |os| ==> os[j] == os[1..][j - 1];
        None
      case Some(i) =>
        assert forall j :: 1 <= j <= i + 1 ==> os[j] == os[1..][j - 1];
        Some(i + 1)
  }

  /**
   * `fillSelect`'s choice: the first exact match if there is one, otherwise the first
   * partial match, otherwise nothing. The choice depends on the options and the
   * value only, never on the current selection.
   */
  function ChooseOption(os: seq<SelectOption>, value: string): (r: Option<nat>)
    ensures r.Some? ==> r.value < |os|
    ensures (exists i :: 0 <= i < |os| && ExactOption(os[i], Lower(value))) ==>
              r.Some? && ExactOption(os[r.value], Lower(value))
    ensures (exists i :: 0 <= i < |os| && ExactOption(os[i], Lower(value))) ==>
              forall j :: 0 <= j < r.value ==> !ExactOption(os[j], Lower(value))
    ensures (forall i :: 0 <= i < |os| ==> !ExactOption(os[i], Lower(value))) ==>
              r == FindOption(os, o => PartialOption(o, Lower(value)))
  {
    var lowerValue := Lower(value);
    var exact := FindOption(os, o => ExactOption(o, lowerValue));
    if exact.Some? then exact else FindOption(os, o => PartialOption(o, lowerValue))
  }

  /** `s.includes(s)`. */
  lemma ContainsSelf(s: string)
    ensures Contains(s, s)
  {
    assert OccursAt(s, s, 0);
  }

  /** An exact match is also a partial one. */
  lemma ExactIsPartial(o: SelectOption, lowerValue: string)
    requires ExactOption(o, lowerValue)
    ensures PartialOption(o, lowerValue)
  {
    ContainsSelf(lowerValue);
  }

  /** Some option is chosen exactly when some option matches partially. */
  lemma ChosenIffPartial(os: seq<SelectOption>, value: string)
    ensures ChooseOption(os, value).Some? <==> exists i :: 0 <= i < |os| && PartialOption(os[i], Lower(value))
  {
    var lowerValue := Lower(value);
    if exists i :: 0 <= i < |os| && ExactOption(os[i], lowerValue) {
      var i :| 0 <= i < |os| && ExactOption(os[i], lowerValue);
      ExactIsPartial(os[i], lowerValue);
    } else {
      var P := o => PartialOption(o, lowerValue);
      var r := FindOption(os, P);
      if r.Some? {
        assert P(os[r.value]);
      }
    }
  }

  /** An option whose value or text is empty matches any value partially. */
  lemma EmptyOptionMatches(o: SelectOption, lowerValue: string)
    requires o.value == "" || o.text == ""
    ensures PartialOption(o, lowerValue)
  {
    ContainsEmpty(lowerValue);
  }

  /** An empty match value matches every option partially, so a select with any option gets one. */
  lemma EmptyValueChoosesOption(os: seq<SelectOption>)
    ensures ChooseOption(os, "").Some? <==> os != []
  {
    if os != [] {
      ContainsEmpty(Lower(os[0].value));
      assert PartialOption(os[0], Lower(""));
    }
    ChosenIffPartial(os, "");
  }

  /** Two options of which the later is an exact match for "C" and the earlier only a partial one. */
  const States: seq<SelectOption> := [SelectOption("ca", "California"), SelectOption("c", "Cee")]

  /** The exact match wins over an earlier partial match. */
  lemma ExactBeatsEarlierPartial()
    ensures PartialOption(States[0], Lower("C")) && !ExactOption(States[0], Lower("C"))
    ensures ChooseOption(States, "C") == Some(1)
  {
    var lv := Lower("C");
    assert lv == "c";
    assert Lower("ca") == "ca";
    assert OccursAt("ca", "c", 0);
    assert Lower("c") == "c";
    assert ExactOption(States[1], lv);
  }

  // ----- what one write does to the live state -----

  /** An element `setNativeValue` writes: `HTMLInputElement` or `HTMLTextAreaElement`. */
  predicate IsTextControl(n: Node) {
    n.tag == "input" || n.tag == "textarea"
  }

  /**
   * A file input's value setter accepts only the empty string; any other value throws
   * an `InvalidStateError` before anything changes.
   */
  predicate SetterThrows(n: Node, value: string) {
    n.tag == "input" && InputType(n) == "file" && value != ""
  }

  /** `setNativeValue`: the value becomes `value`, then `input` and `change` are dispatched; `None` when the setter throws. */
  function NativeValueSet(doc: Node, cs: Controls, p: Path, value: string): (r: Option<Controls>)
    requires Covers(doc, cs) && ValidPath(doc, p)
  {
    if SetterThrows(At(doc, p), value) then None
    else Some(cs[p := Control(value, cs[p].events + [InputEvent, ChangeEvent])])
  }

  /** `fillSelect`: when an option is chosen, the value becomes its value and one `change` is dispatched; otherwise nothing happens. */
  function SelectFilled(doc: Node, cs: Controls, p: Path, value: string): (r: Controls)
    requires Covers(doc, cs) && ValidPath(doc, p)
  {
    var os := Options(At(doc, p));
    match ChooseOption(os, value)
    case None => cs
    case Some(i) => cs[p := Control(os[i].value, cs[p].events + [ChangeEvent])]
  }

  /**
   * The element a match is applied to: its field's selector exists and is non-empty,
   * and `document.querySelector` finds an element for it.
   */
  function Target(doc: Node, m: MatchResult, selectors: map<int, Selector>): (r: Option<Path>)
    ensures r.Some? ==> m.fieldIndex in selectors && !IsEmptySelector(selectors[m.fieldIndex])
    ensures r.Some? ==> r == QuerySelector(doc, selectors[m.fieldIndex]) && ValidPath(doc, r.value)
    ensures r.None? <==> m.fieldIndex !in selectors || IsEmptySelector(selectors[m.fieldIndex]) ||
                         QuerySelector(doc, selectors[m.fieldIndex]).None?
  {
    if m.fieldIndex !in selectors then None
    else
      var sel := selectors[m.fieldIndex];
      if IsEmptySelector(sel) then None else QuerySelector(doc, sel)
  }

  /** One iteration of the apply loop; `None` when it throws. */
  function FillOne(doc: Node, cs: Controls, m: MatchResult, selectors: map<int, Selector>): (r: Option<Controls>)
    requires Covers(doc, cs)
  {
    match Target(doc, m, selectors)
    case None => Some(cs)
    case Some(p) =>
      var n := At(doc, p);
      if n.tag == "select" then Some(SelectFilled(doc, cs, p, m.value))
      else if IsTextControl(n) then NativeValueSet(doc, cs, p, m.value)
      else Some(cs)
  }

  /** The match throws when applied: its element is a file input and its value is not empty. */
  predicate Throws(doc: Node, m: MatchResult, selectors: map<int, Selector>) {
    var t := Target(doc, m, selectors);
    t.Some? && SetterThrows(At(doc, t.value), m.value)
  }

  /** The value match `m` writes into the element at `q`, if it writes one there. */
  function WriteOf(doc: Node, m: MatchResult, selectors: map<int, Selector>, q: Path): (r: Option<string>)
    ensures r.Some? ==> Target(doc, m, selectors) == Some(q)
  {
    var t := Target(doc, m, selectors);
    if t != Some(q) then None
    else
      var n := At(doc, q);
      if n.tag == "select" then
        var os := Options(n);
        match ChooseOption(os, m.value)
        case None => None
        case Some(i) => Some(os[i].value)
      else if IsTextControl(n) then Some(m.value)
      else None
  }

  /**
   * One iteration changes the element it targets and nothing else; that element's
   * value becomes what the match writes, and its events grow by the dispatched ones.
   */
  lemma FillOneEffect(doc: Node, cs: Controls, m: MatchResult, selectors: map<int, Selector>)
    requires Covers(doc, cs)
    ensures FillOne(doc, cs, m, selectors).None? <==> Throws(doc, m, selectors)
    ensures FillOne(doc, cs, m, selectors).Some? ==>
              var cs' := FillOne(doc, cs, m, selectors).value;
              cs'.Keys == cs.Keys && Covers(doc, cs')
    ensures FillOne(doc, cs, m, selectors).Some? ==>
              forall q :: q in cs && Target(doc, m, selectors) != Some(q) ==>
                FillOne(doc, cs, m, selectors).value[q] == cs[q]
    ensures FillOne(doc, cs, m, selectors).Some? ==>
              forall q :: q in cs ==>
                FillOne(doc, cs, m, selectors).value[q].value == WriteOf(doc, m, selectors, q).GetOr(cs[q].value)
  {
  }

  // ----- the apply loop -----

  /** How the loop ended: the live state it left, and whether it ran to the end or stopped at a throw. */
  datatype Outcome = Outcome(controls: Controls, completed: bool)

  /** `applyMatchesWithSelectors`: the matches in order, each applied to the state the previous left. */
  function Applied(doc: Node, cs: Controls, ms: seq<MatchResult>, selectors: map<int, Selector>): (o: Outcome)
    requires Covers(doc, cs)
    ensures o.controls.Keys == cs.Keys && Covers(doc, o.controls)
    decreases |ms|
  {
    if ms == [] then Outcome(cs, true)
    else
      match FillOne(doc, cs, ms[0], selectors)
      case None => Outcome(cs, false)
      case Some(cs') =>
        FillOneEffect(doc, cs, ms[0], selectors);
        Applied(doc, cs', ms[1..], selectors)
  }

  /** The loop runs to the end exactly when no match throws. */
  lemma {:induction false} AppliedCompletes(doc: Node, cs: Controls, ms: seq<MatchResult>, selectors: map<int, Selector>)
    requires Covers(doc, cs)
    ensures Applied(doc, cs, ms, selectors).completed <==> forall k :: 0 <= k < |ms| ==> !Throws(doc, ms[k], selectors)
    decreases |ms|
  {
    if ms != [] {
      FillOneEffect(doc, cs, ms[0], selectors);
      assert forall k :: 1 <= k < |ms| ==> ms[k] == ms[1..][k - 1];
      if FillOne(doc, cs, ms[0], selectors).Some? {
        AppliedCompletes(doc, FillOne(doc, cs, ms[0], selectors).value, ms[1..], selectors);
      }
    }
  }

  /** Running two lists one after the other is running their concatenation, unless the first stops. */
  lemma {:induction false} AppliedConcat(doc: Node, cs: Controls, a: seq<MatchResult>, b: seq<MatchResult>, selectors: map<int, Selector>)
    requires Covers(doc, cs)
    ensures var oa := Applied(doc, cs, a, selectors);
            Applied(doc, cs, a + b, selectors) == if oa.completed then Applied(doc, oa.controls, b, selectors) else oa
    decreases |a|
  {
    if a == [] {
      assert a + b == b;
    } else {
      assert (a + b)[0] == a[0] && (a + b)[1..] == a[1..] + b;
      FillOneEffect(doc, cs, a[0], selectors);
      if FillOne(doc, cs, a[0], selectors).Some? {
        AppliedConcat(doc, FillOne(doc, cs, a[0], selectors).value, a[1..], b, selectors);
      }
    }
  }

  /**
   * A match that resolves to no element (no selector for its field, an empty selector,
   * or a selector that finds nothing) is skipped, and the loop goes on as if it were
   * not there: a skip never aborts later matches.
   */
  lemma SkippedMatch(doc: Node, cs: Controls, a: seq<MatchResult>, m: MatchResult, b: seq<MatchResult>,
                     selectors: map<int, Selector>)
    requires Covers(doc, cs) && Target(doc, m, selectors).None?
    ensures Applied(doc, cs, a + [m] + b, selectors) == Applied(doc, cs, a + b, selectors)
  {
    AppliedConcat(doc, cs, a, [m] + b, selectors);
    AppliedConcat(doc, cs, a, b, selectors);
    assert a + [m] + b == a + ([m] + b);
    var oa := Applied(doc, cs, a, selectors);
    if oa.completed {
      assert ([m] + b)[0] == m && ([m] + b)[1..] == b;
    }
  }

  /** Only elements some match resolves to are changed; every other element keeps its value and its events. */
  lemma {:induction false} AppliedFrame(doc: Node, cs: Controls, ms: seq<MatchResult>, selectors: map<int, Selector>, q: Path)
    requires Covers(doc, cs) && q in cs
    requires forall k :: 0 <= k < |ms| ==> Target(doc, ms[k], selectors) != Some(q)
    ensures Applied(doc, cs, ms, selectors).controls[q] == cs[q]
    decreases |ms|
  {
    if ms != [] {
      FillOneEffect(doc, cs, ms[0], selectors);
      assert Target(doc, ms[0], selectors) != Some(q);
      if FillOne(doc, cs, ms[0], selectors).Some? {
        assert forall k :: 1 <= k < |ms| ==> ms[k] == ms[1..][k - 1];
        AppliedFrame(doc, FillOne(doc, cs, ms[0], selectors).value, ms[1..], selectors, q);
      }
    }
  }

  /** The value the last writing match in `ms` writes into `q`. */
  function LastWrite(doc: Node, ms: seq<MatchResult>, selectors: map<int, Selector>, q: Path): (r: Option<string>)
    decreases |ms|
  {
    if ms == [] then None
    else
      match LastWrite(doc, ms[1..], selectors, q)
      case Some(w) => Some(w)
      case None => WriteOf(doc, ms[0], selectors, q)
  }

  /** A run to the end leaves each element with the value of the last match that writes it, or its old value. */
  lemma {:induction false} AppliedValue(doc: Node, cs: Controls, ms: seq<MatchResult>, selectors: map<int, Selector>, q: Path)
    requires Covers(doc, cs) && q in cs
    requires Applied(doc, cs, ms, selectors).completed
    ensures Applied(doc, cs, ms, selectors).controls[q].value == LastWrite(doc, ms, selectors, q).GetOr(cs[q].value)
    decreases |ms|
  {
    if ms != [] {
      FillOneEffect(doc, cs, ms[0], selectors);
      var cs' := FillOne(doc, cs, ms[0], selectors).value;
      AppliedValue(doc, cs', ms[1..], selectors, q);
    }
  }

  /** The last writing match is the one after which no match writes. */
  lemma {:induction false} LastWriteIs(doc: Node, ms: seq<MatchResult>, selectors: map<int, Selector>, q: Path, k: nat)
    requires k < |ms| && WriteOf(doc, ms[k], selectors, q).Some?
    requires forall j :: k < j < |ms| ==> WriteOf(doc, ms[j], selectors, q).None?
    ensures LastWrite(doc, ms, selectors, q) == WriteOf(doc, ms[k], selectors, q)
    decreases |ms|
  {
    if k > 0 {
      assert forall j :: k - 1 < j < |ms| - 1 ==> ms[1..][j] == ms[j + 1];
      LastWriteIs(doc, ms[1..], selectors, q, k - 1);
    } else {
      LastWriteNone(doc, ms[1..], selectors, q);
    }
  }

  /** When no match writes `q`, there is no last write. */
  lemma {:induction false} LastWriteNone(doc: Node, ms: seq<MatchResult>, selectors: map<int, Selector>, q: Path)
    requires forall j :: 0 <= j < |ms| ==> WriteOf(doc, ms[j], selectors, q).None?
    ensures LastWrite(doc, ms, selectors, q).None?
    decreases |ms|
  {
    if ms != [] {
      assert forall j :: 0 <= j < |ms| - 1 ==> ms[1..][j] == ms[j + 1];
      LastWriteNone(doc, ms[1..], selectors, q);
    }
  }

  /**
   * When several matches resolve to one element, the later match in list order decides
   * its final value: the value of the last match that writes it.
   */
  lemma LastMatchWins(doc: Node, cs: Controls, ms: seq<MatchResult>, selectors: map<int, Selector>, q: Path, k: nat)
    requires Covers(doc, cs) && q in cs && Applied(doc, cs, ms, selectors).completed
    requires k < |ms| && WriteOf(doc, ms[k], selectors, q).Some?
    requires forall j :: k < j < |ms| ==> WriteOf(doc, ms[j], selectors, q).None?
    ensures Applied(doc, cs, ms, selectors).controls[q].value == WriteOf(doc, ms[k], selectors, q).value
  {
    AppliedValue(doc, cs, ms, selectors, q);
    LastWriteIs(doc, ms, selectors, q, k);
  }

  /**
   * Applying the same match list a second time to an unchanged tree runs to the end when
   * the first did, and leaves every element with the value the first run left.
   */
  lemma ApplyTwice(doc: Node, cs: Controls, ms: seq<MatchResult>, selectors: map<int, Selector>)
    requires Covers(doc, cs) && Applied(doc, cs, ms, selectors).completed
    ensures var once := Applied(doc, cs, ms, selectors).controls;
            var twice := Applied(doc, once, ms, selectors);
            twice.completed && forall q :: q in cs ==> twice.controls[q].value == once[q].value
  {
    var once := Applied(doc, cs, ms, selectors).controls;
    AppliedCompletes(doc, cs, ms, selectors);
    AppliedCompletes(doc, once, ms, selectors);
    var twice := Applied(doc, once, ms, selectors);
    forall q | q in cs
      ensures twice.controls[q].value == once[q].value
    {
      AppliedValue(doc, cs, ms, selectors, q);
      AppliedValue(doc, once, ms, selectors, q);
    }
  }

  // ----- the page -----

  /** The page as the filler changes it: a fixed document and the live state of its elements. */
  class Page {
    var doc: Node
    var controls: Controls

    ghost predicate Valid()
      reads this
    {
      Covers(doc, controls)
    }

    constructor (doc: Node, controls: Controls)
      requires Covers(doc, controls)
      ensures Valid() && this.doc == doc && this.controls == controls
    {
      this.doc := doc;
      this.controls := controls;
    }

    /** The page's own scripts change the tree; every element of the new tree has a live state. */
    method Replace(doc: Node, controls: Controls)
      requires Covers(doc, controls)
      modifies this
      ensures Valid() && this.doc == doc && this.controls == controls
    {
      this.doc := doc;
      this.controls := controls;
    }

    /** `setNativeValue`; `thrown` reports the setter's exception, after which nothing has changed. */
    method SetNativeValue(p: Path, value: string) returns (thrown: bool)
      requires Valid() && ValidPath(doc, p) && IsTextControl(At(doc, p))
      modifies this
      ensures Valid() && doc == old(doc)
      ensures thrown <==> SetterThrows(At(doc, p), value)
      ensures thrown ==> controls == old(controls)
      ensures !thrown ==> controls == old(controls)[p := Control(value, old(controls)[p].events + [InputEvent, ChangeEvent])]
      ensures NativeValueSet(doc, old(controls), p, value) == if thrown then None else Some(controls)
    {
      var n := At(doc, p);
      if n.tag == "input" && InputType(n) == "file" && value != "" {
        thrown := true;
        return;
      }
      ghost var before := controls[p].events;
      var c := controls[p];
      controls := controls[p := Control(value, c.events + [InputEvent])];
      c := controls[p];
      controls := controls[p := Control(c.value, c.events + [ChangeEvent])];
      assert before + [InputEvent] + [ChangeEvent] == before + [InputEvent, ChangeEvent];
      thrown := false;
    }

    /** `fillSelect`: select the chosen option's value and dispatch `change`, or do nothing. */
    method FillSelect(p: Path, value: string)
      requires Valid() && ValidPath(doc, p)
      modifies this
      ensures Valid() && doc == old(doc)
      ensures controls == SelectFilled(doc, old(controls), p, value)
      ensures ChooseOption(Options(At(doc, p)), value).None? ==> controls == old(controls)
      ensures ChooseOption(Options(At(doc, p)), value).Some? ==>
                var o := Options(At(doc, p))[ChooseOption(Options(At(doc, p)), value).value];
                controls == old(controls)[p := Control(o.value, old(controls)[p].events + [ChangeEvent])]
    {
      var options := Options(At(doc, p));
      var choice := ChooseOption(options, value);
      if choice.Some? {
        var c := controls[p];
        controls := controls[p := Control(options[choice.value].value, c.events + [ChangeEvent])];
      }
    }

    /** One iteration of the apply loop: look the match's element up and fill it; `thrown` when the write threw. */
    method ApplyOne(m: MatchResult, selectors: map<int, Selector>) returns (thrown: bool)
      requires Valid()
      modifies this
      ensures Valid() && doc == old(doc)
      ensures FillOne(doc, old(controls), m, selectors) == if thrown then None else Some(controls)
      ensures thrown ==> controls == old(controls)
    {
      thrown := false;
      if m.fieldIndex in selectors && !IsEmptySelector(selectors[m.fieldIndex]) {
        var el := QuerySelector(doc, selectors[m.fieldIndex]);
        if el.Some? {
          var n := At(doc, el.value);
          if n.tag == "select" {
            FillSelect(el.value, m.value);
          } else if n.tag == "input" || n.tag == "textarea" {
            thrown := SetNativeValue(el.value, m.value);
          }
        }
      }
    }

    /**
     * `applyMatchesWithSelectors`: each match's element is looked up through its field's
     * selector and filled; `completed` is false when a write threw and ended the loop.
     */
    method ApplyMatchesWithSelectors(matches: seq<MatchResult>, selectors: map<int, Selector>) returns (completed: bool)
      requires Valid()
      modifies this
      ensures Valid() && doc == old(doc)
      ensures Outcome(controls, completed) == Applied(doc, old(controls), matches, selectors)
    {
      var i := 0;
      while i < |matches|
        invariant 0 <= i <= |matches|
        invariant Valid() && doc == old(doc)
        invariant Applied(doc, controls, matches[i..], selectors) == Applied(doc, old(controls), matches, selectors)
      {
        assert matches[i..][0] == matches[i] && matches[i..][1..] == matches[i + 1..];
        var thrown := ApplyOne(matches[i], selectors);
        if thrown {
          completed := false;
          return;
        }
        i := i + 1;
      }
      completed := true;
    }
  }
}
