/**
 * Building a selector for a detected element (`buildSelector`) and re-locating an
 * element by such a selector (`document.querySelector`).
 */
module Selectors {
  import opened Wrappers
  import opened Text
  import opened Dom
  import opened Types

  /** The 1-based position of an element among its parent's children (the document element counts as first). */
  function Position(q: Path): nat {
    if q == [] then 1 else q[|q| - 1] + 1
  }

  /** The `tag:nth-child(k)` step that describes the element at `d`. */
  function StepOf(doc: Node, d: Path): Step
    requires ValidPath(doc, d)
  {
    Step(At(doc, d).tag, Position(d))
  }

  /** The steps for the elements strictly below ancestor `c` down to `p`, outermost first. */
  function Steps(doc: Node, c: Path, p: Path): (r: seq<Step>)
    requires ValidPath(doc, p) && |c| <= |p| && c == p[..|c|]
    ensures |r| == |p| - |c|
    ensures forall k :: |c| < k <= |p| ==> ValidPath(doc, p[..k])
    ensures forall j :: 0 <= j < |r| ==> r[j] == StepOf(doc, p[..|c| + j + 1])
    decreases |p| - |c|
  {
    if |c| == |p| then []
    else
      var d := p[..|c| + 1];
      ValidPrefix(doc, p, |c| + 1);
      assert d[..|c|] == c;
      var rest := Steps(doc, d, p);
      var r := [StepOf(doc, d)] + rest;
      assert forall j :: 0 <= j < |r| ==> r[j] == StepOf(doc, p[..|c| + j + 1]) by {
        forall j | 0 <= j < |r| ensures r[j] == StepOf(doc, p[..|c| + j + 1]) {
          if j > 0 {
            assert r[j] == rest[j - 1];
            assert |d| + (j - 1) + 1 == |c| + j + 1;
          }
        }
      }
      r
  }

  /**
   * Where the upward walk of `buildSelector` stops: at `document.body` when the
   * element is inside it (or is it), otherwise at the document element.
   */
  function Anchor(doc: Node, p: Path): (a: Path)
    ensures |a| <= |p| && a == p[..|a|]
  {
    match Body(doc)
    case Some(b) => if |b| <= |p| && p[..|b|] == b then b else []
    case None => []
  }

  /** The selector `buildSelector` produces for the element at `p`. */
  function SelectorOf(doc: Node, p: Path): Selector
    requires ValidPath(doc, p)
  {
    var id := Id(At(doc, p));
    if id != "" then ById(id) else Positional(Steps(doc, Anchor(doc, p), p))
  }

  /**
   * `buildSelector`: `#id` for an element with an id; otherwise walk up from the
   * element, prepending one step per level, until reaching `document.body` or an
   * element without a parent.
   */
  method BuildSelector(doc: Node, p: Path) returns (s: Selector)
    requires ValidPath(doc, p)
    ensures s == SelectorOf(doc, p)
    ensures s.ById? <==> Id(At(doc, p)) != ""
    ensures s.Positional? ==> |s.steps| == |p| - |Anchor(doc, p)|
  {
    var id := Id(At(doc, p));
    if id != "" {
      return ById(id);
    }
    var body := Body(doc);
    var parts: seq<Step> := [];
    var current := p;
    while body != Some(current)
      invariant |current| <= |p| && current == p[..|current|]
      invariant ValidPath(doc, current)
      invariant parts == Steps(doc, current, p)
      invariant forall k :: |current| < k <= |p| ==> body != Some(p[..k])
      decreases |current|
    {
      if current == [] {
        break;
      }
      var index := current[|current| - 1] + 1;
      parts := [Step(At(doc, current).tag, index)] + parts;
      ValidPrefix(doc, current, |current| - 1);
      assert p[..|current| - 1] == current[..|current| - 1];
      current := current[..|current| - 1];
    }
    assert current == Anchor(doc, p) by {
      if body == Some(current) {
        assert |current| == 1;
      } else {
        assert current == [];
        assert body.Some? ==> |body.value| == 1;
        assert |p| >= 1 ==> body != Some(p[..1]);
      }
    }
    s := Positional(parts);
  }

  /** The element at `e` fits one `tag:nth-child(k)` step. */
  predicate StepFits(doc: Node, e: Path, st: Step) {
    ValidPath(doc, e) && At(doc, e).tag == st.tag && Position(e) == st.nth
  }

  /**
   * The element at `q` matches the selector. A positional selector is matched as CSS
   * does: its last step by the element itself and each earlier step by the next
   * ancestor up, wherever in the document that chain sits.
   */
  predicate MatchesSelector(doc: Node, q: Path, sel: Selector) {
    ValidPath(doc, q) &&
    match sel
    case ById(id) => Id(At(doc, q)) == id
    case Positional(steps) =>
      0 < |steps| <= |q| + 1 &&
      forall j :: 0 <= j < |steps| ==> StepFits(doc, q[..|q| + 1 + j - |steps|], steps[j])
  }

  /** `document.querySelector(sel)` for a valid, non-empty selector. */
  function QuerySelector(doc: Node, sel: Selector): (r: Option<Path>)
    ensures r.Some? ==> ValidPath(doc, r.value) && MatchesSelector(doc, r.value, sel)
    ensures r.Some? ==> forall q :: MatchesSelector(doc, q, sel) && q != r.value ==> LexLess(r.value, q)
    ensures r.None? ==> forall q :: !MatchesSelector(doc, q, sel)
  {
    QueryFirst(doc, q => MatchesSelector(doc, q, sel))
  }

  /** The element at `p` matches the positional selector of the steps from any ancestor `c` down to it. */
  lemma StepsMatch(doc: Node, c: Path, p: Path)
    requires ValidPath(doc, p) && |c| < |p| && c == p[..|c|]
    ensures MatchesSelector(doc, p, Positional(Steps(doc, c, p)))
  {
    var steps := Steps(doc, c, p);
    forall j | 0 <= j < |steps| ensures StepFits(doc, p[..|p| + 1 + j - |steps|], steps[j]) {
      assert |p| + 1 + j - |steps| == |c| + j + 1;
    }
  }

  /** An element matches the selector built for it. */
  lemma OwnSelectorMatches(doc: Node, p: Path)
    requires ValidPath(doc, p) && !IsEmptySelector(SelectorOf(doc, p))
    ensures MatchesSelector(doc, p, SelectorOf(doc, p))
  {
    var sel := SelectorOf(doc, p);
    if sel.Positional? {
      var a := Anchor(doc, p);
      assert sel == Positional(Steps(doc, a, p));
      StepsMatch(doc, a, p);
    }
  }

  /**
   * On an unchanged document, re-locating by the built selector always finds an
   * element: the original one or one before it in document order.
   */
  lemma ResolvesAtOrBefore(doc: Node, p: Path)
    requires ValidPath(doc, p) && !IsEmptySelector(SelectorOf(doc, p))
    ensures QuerySelector(doc, SelectorOf(doc, p)).Some?
    ensures var q := QuerySelector(doc, SelectorOf(doc, p)).value; q == p || LexLess(q, p)
  {
    OwnSelectorMatches(doc, p);
  }

  /**
   * The `#id` selector re-locates exactly the original element if and only if no
   * element before it in document order carries the same id.
   */
  lemma IdSelectorRoundTrip(doc: Node, p: Path)
    requires ValidPath(doc, p) && Id(At(doc, p)) != ""
    ensures QuerySelector(doc, SelectorOf(doc, p)) == Some(p) <==>
            forall q :: ValidPath(doc, q) && LexLess(q, p) ==> Id(At(doc, q)) != Id(At(doc, p))
  {
    var sel := SelectorOf(doc, p);
    OwnSelectorMatches(doc, p);
    var r := QuerySelector(doc, sel).value;
    if r == p {
      forall q | ValidPath(doc, q) && LexLess(q, p) ensures Id(At(doc, q)) != Id(At(doc, p)) {
        LexLessIrreflexive(p);
        if Id(At(doc, q)) == Id(At(doc, p)) {
          assert MatchesSelector(doc, q, sel);
          LexLessAsymmetric(q, p);
        }
      }
    } else {
      assert ValidPath(doc, r) && LexLess(r, p) && Id(At(doc, r)) == Id(At(doc, p));
    }
  }

  /** With ids unique in the document, the `#id` selector re-locates exactly the original element. */
  lemma UniqueIdRoundTrip(doc: Node, p: Path)
    requires ValidPath(doc, p) && Id(At(doc, p)) != ""
    requires forall q :: ValidPath(doc, q) && q != p ==> Id(At(doc, q)) != Id(At(doc, p))
    ensures QuerySelector(doc, SelectorOf(doc, p)) == Some(p)
  {
    IdSelectorRoundTrip(doc, p);
    forall q | ValidPath(doc, q) && LexLess(q, p) ensures q != p {
      LexLessIrreflexive(p);
    }
  }

  // ----- a page where the positional selector re-locates another element -----

  const Leaf := Node("input", map[], "", [])
  const Inner := Node("div", map[], "", [Node("span", map[], "", []), Node("div", map[], "", [Leaf])])
  const TwoBlocks := Node("html", map[], "", [Node("body", map[], "", [Inner, Node("div", map[], "", [Leaf])])])

  /** The two inputs, the second one's parent, and the first one's parent in the example page. */
  lemma TwoBlocksElements()
    ensures ValidPath(TwoBlocks, [0, 1, 0]) && At(TwoBlocks, [0, 1, 0]).tag == "input"
    ensures Id(At(TwoBlocks, [0, 1, 0])) == ""
    ensures ValidPath(TwoBlocks, [0, 1]) && At(TwoBlocks, [0, 1]).tag == "div"
    ensures ValidPath(TwoBlocks, [0, 0, 1, 0]) && At(TwoBlocks, [0, 0, 1, 0]).tag == "input"
    ensures ValidPath(TwoBlocks, [0, 0, 1]) && At(TwoBlocks, [0, 0, 1]).tag == "div"
  {
    var t: Path := [0, 1, 0];
    var e: Path := [0, 0, 1, 0];
    assert t[1..] == [1, 0] && t[1..][1..] == [0] && t[1..][1..][1..] == [];
    assert e[1..] == [0, 1, 0] && e[1..][1..] == [1, 0] && e[1..][1..][1..] == [0] && e[1..][1..][1..][1..] == [];
    assert [0, 1][1..] == [1] && [0, 1][1..][1..] == [];
    assert [0, 0, 1][1..] == [0, 1] && [0, 0, 1][1..][1..] == [1] && [0, 0, 1][1..][1..][1..] == [];
  }

  /** The second input's selector is `div:nth-child(2) > input:nth-child(1)`, relative to `body`. */
  lemma TwoBlocksSelector()
    ensures ValidPath(TwoBlocks, [0, 1, 0])
    ensures SelectorOf(TwoBlocks, [0, 1, 0]) == Positional([Step("div", 2), Step("input", 1)])
  {
    var t: Path := [0, 1, 0];
    TwoBlocksElements();
    assert FirstBodyChild(TwoBlocks.children) == Some(0);
    assert Body(TwoBlocks) == Some([0]);
    assert Anchor(TwoBlocks, t) == [0] by { assert t[..1] == [0]; }
    assert t[..2] == [0, 1] && t[..3] == t;
    assert Steps(TwoBlocks, [0], t) == [Step("div", 2), Step("input", 1)];
  }

  /** The first input matches that selector. */
  lemma TwoBlocksFirstInputMatches()
    ensures MatchesSelector(TwoBlocks, [0, 0, 1, 0], Positional([Step("div", 2), Step("input", 1)]))
  {
    var e: Path := [0, 0, 1, 0];
    TwoBlocksElements();
    assert e[..3] == [0, 0, 1] && e[..4] == e;
    assert StepFits(TwoBlocks, e[..3], Step("div", 2));
    assert StepFits(TwoBlocks, e[..4], Step("input", 1));
  }

  /**
   * In `<body><div><span/><div><input/></div></div><div><input/></div></body>` the
   * second input's selector `div:nth-child(2) > input:nth-child(1)` also matches the
   * first input, which comes first in document order, so `querySelector` does not
   * return the second input.
   */
  lemma PositionalSelectorFindsOtherElement()
    ensures ValidPath(TwoBlocks, [0, 1, 0]) && ValidPath(TwoBlocks, [0, 0, 1, 0])
    ensures QuerySelector(TwoBlocks, SelectorOf(TwoBlocks, [0, 1, 0])).Some?
    ensures QuerySelector(TwoBlocks, SelectorOf(TwoBlocks, [0, 1, 0])).value != [0, 1, 0]
  {
    var t: Path := [0, 1, 0];
    var e: Path := [0, 0, 1, 0];
    TwoBlocksElements();
    TwoBlocksSelector();
    TwoBlocksFirstInputMatches();
    var r := QuerySelector(TwoBlocks, SelectorOf(TwoBlocks, t)).value;
    assert LexLess(e, t);
    if r == t {
      LexLessAsymmetric(e, t);
    }
  }

  // ----- corrected resolution: descend from the anchor instead of matching anywhere -----

  /**
   * Resolving a positional selector from the element it was built relative to
   * (`body`, or the document element): each step picks the `nth` child and checks
   * its tag. This is what the selector is meant to denote, and what an anchored
   * query such as `:scope > …` evaluated on the anchor would return.
   */
  function ResolveFrom(doc: Node, a: Path, steps: seq<Step>): (r: Option<Path>)
    requires ValidPath(doc, a)
    ensures r.Some? ==> ValidPath(doc, r.value) && |r.value| == |a| + |steps| && r.value[..|a|] == a
    ensures r.Some? ==> forall j :: 0 <= j < |steps| ==> StepFits(doc, r.value[..|a| + j + 1], steps[j])
    decreases |steps|
  {
    if steps == [] then Some(a)
    else
      var st := steps[0];
      if st.nth == 0 then None
      else
        var q := a + [st.nth - 1];
        ChildPath(doc, a, st.nth - 1);
        if !ValidPath(doc, q) || At(doc, q).tag != st.tag then None
        else
          var r := ResolveFrom(doc, q, steps[1..]);
          if r.None? then None
          else
            var e := r.value;
            assert e[..|a|] == a by { assert e[..|q|][..|a|] == q[..|a|]; }
            assert e[..|a| + 1] == q;
            forall j | 0 <= j < |steps| ensures StepFits(doc, e[..|a| + j + 1], steps[j]) {
              if j > 0 {
                assert steps[j] == steps[1..][j - 1];
                assert |q| + (j - 1) + 1 == |a| + j + 1;
              }
            }
            r
  }

  /** One step of the descent: a step that describes child `i` of `c` moves the descent to that child. */
  lemma ResolveFromChild(doc: Node, c: Path, i: nat, steps: seq<Step>)
    requires ValidPath(doc, c) && ValidPath(doc, c + [i])
    requires steps != [] && steps[0] == StepOf(doc, c + [i])
    ensures ResolveFrom(doc, c, steps) == ResolveFrom(doc, c + [i], steps[1..])
  {
  }

  /** The steps below `c` are the step for the next element down, then the steps below that element. */
  lemma StepsFirst(doc: Node, c: Path, p: Path)
    requires ValidPath(doc, p) && |c| < |p| && c == p[..|c|]
    ensures p[..|c| + 1] == c + [p[|c|]] && ValidPath(doc, c + [p[|c|]])
    ensures Steps(doc, c, p) == [StepOf(doc, c + [p[|c|]])] + Steps(doc, c + [p[|c|]], p)
  {
    ValidPrefix(doc, p, |c| + 1);
    assert p[..|c| + 1] == c + [p[|c|]];
  }

  /**
   * Anchored resolution re-locates exactly the original element: the descent from
   * the anchor along the built steps ends at `p`, whatever else the page contains.
   */
  lemma {:induction false} AnchoredRoundTrip(doc: Node, p: Path, c: Path)
    requires ValidPath(doc, p) && |c| <= |p| && c == p[..|c|]
    ensures ValidPath(doc, c)
    ensures ResolveFrom(doc, c, Steps(doc, c, p)) == Some(p)
    decreases |p| - |c|
  {
    ValidPrefix(doc, p, |c|);
    if |c| < |p| {
      StepsFirst(doc, c, p);
      var d := c + [p[|c|]];
      assert d[..|c|] == c;
      AnchoredRoundTrip(doc, p, d);
      ResolveFromChild(doc, c, p[|c|], Steps(doc, c, p));
    } else {
      assert c == p;
    }
  }

  /** For every element, the selector built for it resolves back to it under anchored resolution. */
  lemma BuiltSelectorResolvesAnchored(doc: Node, p: Path)
    requires ValidPath(doc, p) && SelectorOf(doc, p).Positional?
    ensures ValidPath(doc, Anchor(doc, p))
    ensures ResolveFrom(doc, Anchor(doc, p), SelectorOf(doc, p).steps) == Some(p)
  {
    AnchoredRoundTrip(doc, p, Anchor(doc, p));
  }
}
