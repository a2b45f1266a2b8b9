/**
 * Form-field detection: which elements are candidates, the description cascade,
 * and the ordered list of detected fields.
 */
module Detector {
  import opened Wrappers
  import opened Text
  import opened Dom
  import opened Types
  import opened Selectors

  // ----- candidates -----

  /** The `type` values excluded by the `:not([type="…"])` parts of the candidate selector. */
  const ExcludedInputTypes: set<string> := {"hidden", "submit", "button", "reset", "image"}

  /**
   * The candidate selector: an `input` whose `type` attribute is not one of the
   * excluded values (attribute values of `type` compare ASCII-case-insensitively),
   * every `select` and every `textarea`.
   */
  predicate IsFillable(n: Node) {
    (n.tag == "input" && Lower(AttrOr(n, "type")) !in ExcludedInputTypes) || n.tag == "select" || n.tag == "textarea"
  }

  predicate IsCandidate(doc: Node, q: Path) {
    ValidPath(doc, q) && IsFillable(At(doc, q))
  }

  /** `document.querySelectorAll` with the candidate selector. */
  function Candidates(doc: Node): (r: seq<Path>)
    ensures forall q :: q in r <==> IsCandidate(doc, q)
    ensures Sorted(r)
  {
    QueryAll(doc, q => IsCandidate(doc, q))
  }

  /** The candidates appear once each, and list order is document order. */
  lemma CandidatesInDocumentOrder(doc: Node)
    ensures forall i, j :: 0 <= i < |Candidates(doc)| && 0 <= j < |Candidates(doc)| && i != j ==>
              Candidates(doc)[i] != Candidates(doc)[j]
    ensures forall i, j :: 0 <= i < |Candidates(doc)| && 0 <= j < |Candidates(doc)| ==>
              (i < j <==> LexLess(Candidates(doc)[i], Candidates(doc)[j]))
  {
    var cs := Candidates(doc);
    SortedDistinct(cs);
    forall i, j | 0 <= i < |cs| && 0 <= j < |cs| ensures i < j <==> LexLess(cs[i], cs[j]) {
      SortedIndexOrder(cs, i, j);
    }
  }

  // ----- the description cascade -----

  /** `s.trim()` when it is non-empty (truthy), otherwise nothing: one rule's test-and-return. */
  function Nonblank(s: string): (r: Option<string>)
    ensures r.Some? <==> !AllSpace(s)
    ensures r.Some? ==> r.value == Trim(s) && r.value != "" && IsTrimmed(r.value)
  {
    var t := Trim(s);
    if t != "" then Some(t) else None
  }

  predicate IsLabelFor(doc: Node, id: string, q: Path) {
    ValidPath(doc, q) && At(doc, q).tag == "label" && Attr(At(doc, q), "for") == Some(id)
  }

  /**
   * Rule 1, `<label for>`: only for an element with an id, and only the first
   * `label` in document order whose `for` equals that id is consulted.
   */
  function LabelForRule(doc: Node, p: Path): (r: Option<string>)
    requires ValidPath(doc, p)
    ensures r.Some? ==> r.value != "" && IsTrimmed(r.value)
    ensures Id(At(doc, p)) == "" ==> r.None?
    ensures (forall q :: !IsLabelFor(doc, Id(At(doc, p)), q)) ==> r.None?
    ensures forall l ::
              (IsLabelFor(doc, Id(At(doc, p)), l) && Id(At(doc, p)) != "" &&
               (forall q :: IsLabelFor(doc, Id(At(doc, p)), q) ==> q == l || LexLess(l, q))) ==>
              r == Nonblank(TextContent(At(doc, l)))
  {
    var id := Id(At(doc, p));
    if id == "" then None
    else
      match QueryFirst(doc, q => IsLabelFor(doc, id, q))
      case None => None
      case Some(l) =>
        assert forall l' :: IsLabelFor(doc, id, l') && (forall q :: IsLabelFor(doc, id, q) ==> q == l' || LexLess(l', q)) ==> l' == l by {
          forall l' | IsLabelFor(doc, id, l') && (forall q :: IsLabelFor(doc, id, q) ==> q == l' || LexLess(l', q)) ensures l' == l {
            if l' != l {
              assert LexLess(l, l') && LexLess(l', l);
              LexLessAsymmetric(l, l');
            }
          }
        }
        Nonblank(TextContent(At(doc, l)))
  }

  /**
   * Rule 2, the wrapping label: the nearest `label` ancestor's text with the first
   * occurrence of the element's own text cut out, then trimmed.
   */
  function WrappingLabelRule(doc: Node, p: Path): (r: Option<string>)
    requires ValidPath(doc, p)
    ensures r.Some? ==> r.value != "" && IsTrimmed(r.value)
    ensures Closest(doc, p, "label").None? ==> r.None?
  {
    match Closest(doc, p, "label")
    case None => None
    case Some(l) => Nonblank(RemoveFirst(TextContent(At(doc, l)), TextContent(At(doc, p))))
  }

  /** Rule 3, `aria-label`. */
  function AriaLabelRule(doc: Node, p: Path): (r: Option<string>)
    requires ValidPath(doc, p)
    ensures r.Some? <==> !AllSpace(AttrOr(At(doc, p), "aria-label"))
    ensures r.Some? ==> r.value == Trim(AttrOr(At(doc, p), "aria-label")) && r.value != ""
  {
    Nonblank(AttrOr(At(doc, p), "aria-label"))
  }

  /** What one `aria-labelledby` id contributes: its element's trimmed text, or nothing when that is missing or blank. */
  function ReferencedText(doc: Node, id: string): (r: seq<string>)
    ensures |r| <= 1
    ensures r != [] <==> GetElementById(doc, id).Some? && !AllSpace(TextContent(At(doc, GetElementById(doc, id).value)))
    ensures r != [] ==> r[0] == Trim(TextContent(At(doc, GetElementById(doc, id).value))) && r[0] != "" && IsTrimmed(r[0])
  {
    match GetElementById(doc, id)
    case None => []
    case Some(q) => (match Nonblank(TextContent(At(doc, q))) case None => [] case Some(t) => [t])
  }

  /** The texts of a list of ids, in list order, dropping the ids that contribute nothing. */
  function ReferencedTexts(doc: Node, ids: seq<string>): (r: seq<string>)
    ensures |r| <= |ids|
    ensures forall k :: 0 <= k < |r| ==> r[k] != "" && IsTrimmed(r[k])
  {
    if ids == [] then []
    else
      var h := ReferencedText(doc, ids[0]);
      var t := ReferencedTexts(doc, ids[1..]);
      PiecesConcat(h, t);
      h + t
  }

  lemma PiecesConcat(h: seq<string>, t: seq<string>)
    requires forall k :: 0 <= k < |h| ==> h[k] != "" && IsTrimmed(h[k])
    requires forall k :: 0 <= k < |t| ==> t[k] != "" && IsTrimmed(t[k])
    ensures forall k :: 0 <= k < |h + t| ==> (h + t)[k] != "" && IsTrimmed((h + t)[k])
  {
    assert forall k :: |h| <= k < |h + t| ==> (h + t)[k] == t[k - |h|];
  }

  /** The texts of a non-empty list are the first id's text, then the texts of the rest. */
  lemma ReferencedTextsCons(doc: Node, ids: seq<string>)
    requires ids != []
    ensures ReferencedTexts(doc, ids) == ReferencedText(doc, ids[0]) + ReferencedTexts(doc, ids[1..])
  {
  }

  /** Resolving a list of ids piecewise: the texts of a concatenation are the concatenated texts. */
  lemma {:induction false} ReferencedTextsAppend(doc: Node, a: seq<string>, b: seq<string>)
    ensures ReferencedTexts(doc, a + b) == ReferencedTexts(doc, a) + ReferencedTexts(doc, b)
  {
    if a != [] {
      assert (a + b)[0] == a[0] && (a + b)[1..] == a[1..] + b;
      ReferencedTextsAppend(doc, a[1..], b);
      ReferencedTextsCons(doc, a + b);
      ReferencedTextsCons(doc, a);
      var h, t, u := ReferencedText(doc, a[0]), ReferencedTexts(doc, a[1..]), ReferencedTexts(doc, b);
      assert ReferencedTexts(doc, a + b) == h + (t + u);
      assert h + (t + u) == (h + t) + u;
    } else {
      assert a + b == b;
    }
  }

  /**
   * Rule 4, `aria-labelledby`: the attribute split on whitespace, each id's text,
   * joined with single spaces; the rule falls through when no text survives.
   */
  function AriaLabelledByRule(doc: Node, p: Path): (r: Option<string>)
    requires ValidPath(doc, p)
    ensures r.Some? ==> r.value != "" && IsTrimmed(r.value)
    ensures r.Some? <==> ReferencedTexts(doc, Words(AttrOr(At(doc, p), "aria-labelledby"), false)) != []
    ensures r.Some? ==> r.value == Join(ReferencedTexts(doc, Words(AttrOr(At(doc, p), "aria-labelledby"), false)), " ")
  {
    var lb := AttrOr(At(doc, p), "aria-labelledby");
    var parts := ReferencedTexts(doc, Words(lb, false));
    if lb == "" then
      assert Words(lb, false) == [];
      None
    else if parts == [] then None
    else
      JoinTrimmed(parts, " ");
      Some(Join(parts, " "))
  }

  /** Rule 5, `placeholder`: consulted for `input` and `textarea` only. */
  function PlaceholderRule(doc: Node, p: Path): (r: Option<string>)
    requires ValidPath(doc, p)
    ensures r.Some? ==> At(doc, p).tag in {"input", "textarea"}
    ensures At(doc, p).tag in {"input", "textarea"} ==> r == Nonblank(AttrOr(At(doc, p), "placeholder"))
  {
    var n := At(doc, p);
    if n.tag == "input" || n.tag == "textarea" then Nonblank(AttrOr(n, "placeholder")) else None
  }

  /**
   * Rule 6, `name`: tested before the separators are replaced, so a name made only
   * of separators passes the test and gives the empty string.
   */
  function NameRule(doc: Node, p: Path): (r: Option<string>)
    requires ValidPath(doc, p)
    ensures r.Some? <==> !AllSpace(AttrOr(At(doc, p), "name"))
    ensures r.Some? ==> IsTrimmed(r.value)
    ensures r.Some? ==> forall i :: 0 <= i < |r.value| ==> !IsNameSeparator(r.value[i])
    ensures r.Some? ==> r.value == Trim(ReplaceSeparators(AttrOr(At(doc, p), "name")))
  {
    var name := AttrOr(At(doc, p), "name");
    if AllSpace(name) then None
    else
      var spaced := ReplaceSeparators(name);
      assert forall i :: 0 <= i < |Trim(spaced)| ==> !IsNameSeparator(Trim(spaced)[i]) by {
        var k := TrimSlice(spaced);
        assert forall i :: 0 <= i < |Trim(spaced)| ==> Trim(spaced)[i] == spaced[k + i];
      }
      Some(Trim(spaced))
  }

  /** Rule 7, `title`. */
  function TitleRule(doc: Node, p: Path): (r: Option<string>)
    requires ValidPath(doc, p)
    ensures r.Some? <==> !AllSpace(AttrOr(At(doc, p), "title"))
    ensures r.Some? ==> r.value == Trim(AttrOr(At(doc, p), "title")) && r.value != ""
  {
    Nonblank(AttrOr(At(doc, p), "title"))
  }

  /** An element's previous sibling is an element. */
  lemma PreviousSiblingValid(doc: Node, p: Path)
    requires ValidPath(doc, p) && PreviousSibling(p).Some?
    ensures ValidPath(doc, PreviousSibling(p).value)
  {
    var u := p[..|p| - 1];
    var i := p[|p| - 1];
    ValidPrefix(doc, p, |p| - 1);
    assert p == u + [i];
    ChildPath(doc, u, i);
    ChildPath(doc, u, i - 1);
  }

  /** Rule 8, the previous element sibling's text. */
  function PreviousSiblingRule(doc: Node, p: Path): (r: Option<string>)
    requires ValidPath(doc, p)
    ensures r.Some? ==> r.value != "" && IsTrimmed(r.value)
    ensures PreviousSibling(p).None? ==> r.None?
    ensures PreviousSibling(p).Some? ==> ValidPath(doc, PreviousSibling(p).value)
    ensures PreviousSibling(p).Some? ==> r == Nonblank(TextContent(At(doc, PreviousSibling(p).value)))
  {
    match PreviousSibling(p)
    case None => None
    case Some(q) =>
      PreviousSiblingValid(doc, p);
      Nonblank(TextContent(At(doc, q)))
  }

  /** Rule 9: the `type` of an `input`, otherwise the lower-case tag name. */
  function Fallback(doc: Node, p: Path): (r: string)
    requires ValidPath(doc, p)
    ensures At(doc, p).tag == "input" ==> r in InputTypeKeywords && r == InputType(At(doc, p))
    ensures At(doc, p).tag != "input" ==> r == Lower(At(doc, p).tag)
  {
    var n := At(doc, p);
    if n.tag == "input" then InputType(n) else Lower(n.tag)
  }

  /** The eight text rules, named. */
  datatype Rule = LabelFor | WrappingLabel | AriaLabel | AriaLabelledBy | Placeholder | Name | Title | PreviousSiblingText

  /** The order in which `extractDescription` tries the rules. */
  const RuleOrder: seq<Rule> := [LabelFor, WrappingLabel, AriaLabel, AriaLabelledBy, Placeholder, Name, Title, PreviousSiblingText]

  /** What one rule gives for the element at `p`: its text, or nothing when it falls through. */
  function RuleValue(doc: Node, p: Path, rule: Rule): Option<string>
    requires ValidPath(doc, p)
  {
    match rule
    case LabelFor => LabelForRule(doc, p)
    case WrappingLabel => WrappingLabelRule(doc, p)
    case AriaLabel => AriaLabelRule(doc, p)
    case AriaLabelledBy => AriaLabelledByRule(doc, p)
    case Placeholder => PlaceholderRule(doc, p)
    case Name => NameRule(doc, p)
    case Title => TitleRule(doc, p)
    case PreviousSiblingText => PreviousSiblingRule(doc, p)
  }

  /**
   * The cascade from the `k`-th rule of the order on: the value of the first of
   * those rules that gives one, else the fallback.
   */
  function DescribeFrom(doc: Node, p: Path, k: nat): string
    requires ValidPath(doc, p) && k <= |RuleOrder|
    decreases |RuleOrder| - k, p
  {
    if k == |RuleOrder| then Fallback(doc, p)
    else
      match RuleValue(doc, p, RuleOrder[k])
      case Some(d) => d
      case None => DescribeFrom(doc, p, k + 1)
  }

  /** `extractDescription`: the first rule, in rule order, that gives a value, else the fallback. */
  function Description(doc: Node, p: Path): string
    requires ValidPath(doc, p)
  {
    DescribeFrom(doc, p, 0)
  }

  /** No rule from the `k`-th up to, but not including, the `j`-th gives a value. */
  predicate NoneBetween(doc: Node, p: Path, k: nat, j: nat)
    requires ValidPath(doc, p) && j <= |RuleOrder|
  {
    forall i :: k <= i < j ==> RuleValue(doc, p, RuleOrder[i]).None?
  }

  /**
   * The cascade from rule `k` stops at the first rule `j` from `k` on that gives a
   * value and returns that value, or returns the fallback when no such rule exists.
   */
  lemma {:induction false} DescribeFromCases(doc: Node, p: Path, k: nat) returns (j: nat)
    requires ValidPath(doc, p) && k <= |RuleOrder|
    ensures k <= j <= |RuleOrder| && NoneBetween(doc, p, k, j)
    ensures j < |RuleOrder| ==>
              RuleValue(doc, p, RuleOrder[j]).Some? && DescribeFrom(doc, p, k) == RuleValue(doc, p, RuleOrder[j]).value
    ensures j == |RuleOrder| ==> DescribeFrom(doc, p, k) == Fallback(doc, p)
    decreases |RuleOrder| - k
  {
    if k == |RuleOrder| || RuleValue(doc, p, RuleOrder[k]).Some? {
      j := k;
    } else {
      j := DescribeFromCases(doc, p, k + 1);
      NoneBetweenCons(doc, p, k, j);
      DescribeFromSkips(doc, p, k);
    }
  }

  /** A rule that gives no value passes the cascade on to the next rule. */
  lemma DescribeFromSkips(doc: Node, p: Path, k: nat)
    requires ValidPath(doc, p) && k < |RuleOrder| && RuleValue(doc, p, RuleOrder[k]).None?
    ensures DescribeFrom(doc, p, k) == DescribeFrom(doc, p, k + 1)
  {
  }

  /** A rule that gives no value, followed by a stretch of such rules, is a longer stretch. */
  lemma NoneBetweenCons(doc: Node, p: Path, k: nat, j: nat)
    requires ValidPath(doc, p) && k < j <= |RuleOrder|
    requires RuleValue(doc, p, RuleOrder[k]).None? && NoneBetween(doc, p, k + 1, j)
    ensures NoneBetween(doc, p, k, j)
  {
  }

  /** Priority: when rule `i` of the order is the first that gives a value, the description is that value. */
  lemma FirstRuleWins(doc: Node, p: Path, i: nat)
    requires ValidPath(doc, p) && i < |RuleOrder| && NoneBetween(doc, p, 0, i)
    requires RuleValue(doc, p, RuleOrder[i]).Some?
    ensures Description(doc, p) == RuleValue(doc, p, RuleOrder[i]).value
  {
    var j := DescribeFromCases(doc, p, 0);
    if j != i {
      assert false;
    }
  }

  /** When none of the eight rules gives a value, the description is the fallback. */
  lemma NoRuleFallback(doc: Node, p: Path)
    requires ValidPath(doc, p) && NoneBetween(doc, p, 0, |RuleOrder|)
    ensures Description(doc, p) == Fallback(doc, p)
  {
    var j := DescribeFromCases(doc, p, 0);
    if j != |RuleOrder| {
      assert false;
    }
  }

  /** Every rule's text is trimmed, and only the name rule can give the empty string. */
  lemma RuleValueShape(doc: Node, p: Path, rule: Rule)
    requires ValidPath(doc, p) && RuleValue(doc, p, rule).Some?
    ensures IsTrimmed(RuleValue(doc, p, rule).value)
    ensures RuleValue(doc, p, rule).value == "" ==> rule == Name
  {
  }

  /** None of the five rules tried before the name rule gives a value. */
  predicate NoRuleBeforeName(doc: Node, p: Path)
    requires ValidPath(doc, p)
  {
    LabelForRule(doc, p).None? && WrappingLabelRule(doc, p).None? && AriaLabelRule(doc, p).None? &&
    AriaLabelledByRule(doc, p).None? && PlaceholderRule(doc, p).None?
  }

  /** The rule order written out entry by entry. */
  lemma RuleOrderEntries()
    ensures RuleOrder[0] == LabelFor && RuleOrder[1] == WrappingLabel && RuleOrder[2] == AriaLabel
    ensures RuleOrder[3] == AriaLabelledBy && RuleOrder[4] == Placeholder && RuleOrder[5] == Name
    ensures RuleOrder[6] == Title && RuleOrder[7] == PreviousSiblingText
  {
  }

  /** When none of the first five rules of the order gives a value, none of the five rules before the name rule does. */
  lemma NoneBetweenBeforeName(doc: Node, p: Path)
    requires ValidPath(doc, p) && NoneBetween(doc, p, 0, 5)
    ensures NoRuleBeforeName(doc, p)
  {
    RuleOrderEntries();
    assert RuleValue(doc, p, RuleOrder[0]).None? && RuleValue(doc, p, RuleOrder[1]).None?;
    assert RuleValue(doc, p, RuleOrder[2]).None? && RuleValue(doc, p, RuleOrder[3]).None?;
    assert RuleValue(doc, p, RuleOrder[4]).None?;
  }

  /** When none of the five rules before the name rule gives a value, none of the first five of the order does. */
  lemma BeforeNameNoneBetween(doc: Node, p: Path)
    requires ValidPath(doc, p) && NoRuleBeforeName(doc, p)
    ensures NoneBetween(doc, p, 0, 5)
  {
    RuleOrderEntries();
    forall i | 0 <= i < 5
      ensures RuleValue(doc, p, RuleOrder[i]).None?
    {
      if i == 0 {} else if i == 1 {} else if i == 2 {} else if i == 3 {} else {}
    }
  }

  /** The five rules before the name rule are the first five of the order. */
  lemma NoRuleBeforeNameBetween(doc: Node, p: Path)
    requires ValidPath(doc, p)
    ensures NoneBetween(doc, p, 0, 5) <==> NoRuleBeforeName(doc, p)
  {
    if NoneBetween(doc, p, 0, 5) {
      NoneBetweenBeforeName(doc, p);
    }
    if NoRuleBeforeName(doc, p) {
      BeforeNameNoneBetween(doc, p);
    }
  }

  /** The name rule is the sixth rule, and only the sixth. */
  lemma NameIsSixth(k: nat)
    requires k < |RuleOrder| && RuleOrder[k] == Name
    ensures k == 5
  {
    RuleOrderEntries();
  }

  /** A name made only of `_`, `-`, `[` and `]` passes the name rule's test and gives the empty string. */
  lemma SeparatorNameRule(doc: Node, p: Path)
    requires ValidPath(doc, p)
    requires var name := AttrOr(At(doc, p), "name"); name != "" && forall i :: 0 <= i < |name| ==> IsNameSeparator(name[i])
    ensures NameRule(doc, p) == Some("")
  {
    var name := AttrOr(At(doc, p), "name");
    assert !IsJsSpace(name[0]);
    assert AllSpace(ReplaceSeparators(name));
  }

  /** Such a name, reached by the cascade, makes the description empty. */
  lemma SeparatorNameGivesEmpty(doc: Node, p: Path)
    requires ValidPath(doc, p)
    requires var name := AttrOr(At(doc, p), "name"); name != "" && forall i :: 0 <= i < |name| ==> IsNameSeparator(name[i])
    requires NoRuleBeforeName(doc, p)
    ensures Description(doc, p) == ""
  {
    SeparatorNameRule(doc, p);
    NoRuleBeforeNameBetween(doc, p);
    RuleOrderEntries();
    FirstRuleWins(doc, p, 5);
  }

  /** The fallback of a candidate is a non-empty trimmed word. */
  lemma FallbackWord(doc: Node, p: Path)
    requires IsCandidate(doc, p)
    ensures Fallback(doc, p) != "" && IsTrimmed(Fallback(doc, p))
  {
    var n := At(doc, p);
    if n.tag != "input" {
      var t := Lower(n.tag);
      assert t[0] == LowerChar(n.tag[0]) && t[|t| - 1] == LowerChar(n.tag[|n.tag| - 1]);
      assert n.tag[0] in {'s', 't'} && n.tag[|n.tag| - 1] in {'t', 'a'};
    }
  }

  /**
   * The description of a candidate is trimmed, and it is empty only through the
   * name rule: every other rule and the fallback give non-empty text.
   */
  lemma DescriptionShape(doc: Node, p: Path)
    requires IsCandidate(doc, p)
    ensures IsTrimmed(Description(doc, p))
    ensures Description(doc, p) == "" ==> NoRuleBeforeName(doc, p) && NameRule(doc, p) == Some("")
  {
    var j := DescribeFromCases(doc, p, 0);
    if j < |RuleOrder| {
      ReturnedRuleShape(doc, p, j);
    } else {
      FallbackWord(doc, p);
    }
  }

  /** The value of the first rule that gives one is trimmed, and it is empty only when it is the name rule's. */
  lemma ReturnedRuleShape(doc: Node, p: Path, j: nat)
    requires ValidPath(doc, p) && j < |RuleOrder| && NoneBetween(doc, p, 0, j)
    requires RuleValue(doc, p, RuleOrder[j]).Some?
    ensures IsTrimmed(RuleValue(doc, p, RuleOrder[j]).value)
    ensures RuleValue(doc, p, RuleOrder[j]).value == "" ==> NoRuleBeforeName(doc, p) && NameRule(doc, p) == Some("")
  {
    RuleValueShape(doc, p, RuleOrder[j]);
    if RuleValue(doc, p, RuleOrder[j]).value == "" {
      EmptyRuleIsName(doc, p, j);
    }
  }

  /** A first rule that gives the empty string is the name rule, reached with all five rules before it silent. */
  lemma EmptyRuleIsName(doc: Node, p: Path, j: nat)
    requires ValidPath(doc, p) && j < |RuleOrder| && NoneBetween(doc, p, 0, j)
    requires RuleValue(doc, p, RuleOrder[j]) == Some("")
    ensures NoRuleBeforeName(doc, p) && NameRule(doc, p) == Some("")
  {
    RuleValueShape(doc, p, RuleOrder[j]);
    NameIsSixth(j);
    NoneBetweenBeforeName(doc, p);
  }

  // ----- the wrapping label cuts an occurrence of the element's own text -----

  /** A child's text occurs in its parent's text content, after the parent's own text and its earlier children's. */
  lemma {:induction false} ForestTextAt(cs: seq<Node>, i: nat) returns (off: nat)
    requires i < |cs|
    ensures OccursAt(ForestText(cs), TextContent(cs[i]), off)
  {
    if i == 0 {
      off := 0;
      OccursInside("", TextContent(cs[0]), ForestText(cs[1..]), TextContent(cs[0]), 0);
    } else {
      var rest := ForestTextAt(cs[1..], i - 1);
      off := |TextContent(cs[0])| + rest;
      OccursInside(TextContent(cs[0]), ForestText(cs[1..]), "", TextContent(cs[i]), rest);
      assert ForestText(cs) + "" == TextContent(cs[0]) + ForestText(cs[1..]) + "";
    }
  }

  /** A child's text content occurs in its parent's text content, after the parent's own text. */
  lemma ChildTextAt(n: Node, i: nat) returns (off: nat)
    requires i < |n.children|
    ensures OccursAt(TextContent(n), TextContent(n.children[i]), off)
  {
    var mid := ForestTextAt(n.children, i);
    OccursInside(n.text, ForestText(n.children), "", TextContent(n.children[i]), mid);
    assert n.text + ForestText(n.children) + "" == TextContent(n);
    off := |n.text| + mid;
  }

  /** A descendant's text content occurs in an ancestor's text content. */
  lemma {:induction false} DescendantTextAt(n: Node, q: Path) returns (off: nat)
    requires ValidPath(n, q)
    ensures OccursAt(TextContent(n), TextContent(At(n, q)), off)
    decreases |q|
  {
    if q == [] {
      off := 0;
      OccursInside("", TextContent(n), "", TextContent(n), 0);
      assert "" + TextContent(n) + "" == TextContent(n);
    } else {
      var c := n.children[q[0]];
      var inner := DescendantTextAt(c, q[1..]);
      var mid := ChildTextAt(n, q[0]);
      OccursNested(TextContent(n), TextContent(c), TextContent(At(n, q)), mid, inner);
      off := mid + inner;
    }
  }

  /** In a path, the element at a prefix is an ancestor: the suffix leads from it to the element. */
  lemma {:induction false} AtPrefix(n: Node, q: Path, k: nat)
    requires ValidPath(n, q) && k <= |q|
    ensures ValidPath(n, q[..k]) && ValidPath(At(n, q[..k]), q[k..])
    ensures At(At(n, q[..k]), q[k..]) == At(n, q)
    decreases k
  {
    if k == 0 {
      assert q[..0] == [] && q[0..] == q;
    } else {
      AtPrefix(n.children[q[0]], q[1..], k - 1);
      assert q[..k][1..] == q[1..][..k - 1];
      assert q[1..][k - 1..] == q[k..];
    }
  }

  /**
   * The wrapping-label rule always cuts a real occurrence: the control's text occurs
   * in the label's text, and the rule's text is the label's text with the first
   * occurrence removed, trimmed.
   */
  lemma WrappingLabelCutsFirstOccurrence(doc: Node, p: Path) returns (i: nat)
    requires ValidPath(doc, p) && Closest(doc, p, "label").Some?
    ensures var lt := TextContent(At(doc, Closest(doc, p, "label").value));
            FirstOccurrence(lt, TextContent(At(doc, p)), i)
    ensures var lt := TextContent(At(doc, Closest(doc, p, "label").value));
            WrappingLabelRule(doc, p) == Nonblank(RemoveFirst(lt, TextContent(At(doc, p))))
    ensures var lt := TextContent(At(doc, Closest(doc, p, "label").value));
            var own := TextContent(At(doc, p));
            RemoveFirst(lt, own) == lt[..i] + lt[i + |own|..]
  {
    var l := Closest(doc, p, "label").value;
    var lt := TextContent(At(doc, l));
    var own := TextContent(At(doc, p));
    var off := LabelTextHoldsOwnText(doc, p, l);
    i := CutsFirstOccurrence(lt, own, off);
  }

  /** The text of a `label` ancestor holds the element's own text. */
  lemma LabelTextHoldsOwnText(doc: Node, p: Path, l: Path) returns (off: nat)
    requires ValidPath(doc, p) && ValidPath(doc, l) && |l| <= |p| && l == p[..|l|]
    ensures OccursAt(TextContent(At(doc, l)), TextContent(At(doc, p)), off)
  {
    AtPrefix(doc, p, |l|);
    off := DescendantTextAt(At(doc, l), p[|l|..]);
  }

  // ----- the detected field list -----

  /** The record `detectFormFields` pushes for the element at `q`, the `index`-th candidate. */
  function FieldFor(doc: Node, q: Path, index: int): (f: DetectedField)
    requires ValidPath(doc, q)
    ensures f.index == index
    ensures f.selector == SelectorOf(doc, q)
    ensures f.inputType.Some? <==> At(doc, q).tag == "input"
    ensures f.inputType.Some? ==> f.inputType.value == InputType(At(doc, q))
    ensures f.description == Description(doc, q)
    ensures f.tagName == Upper(At(doc, q).tag)
  {
    var n := At(doc, q);
    DetectedField(index, Description(doc, q), SelectorOf(doc, q), Upper(n.tag),
                  if n.tag == "input" then Some(InputType(n)) else None)
  }

  /** `f` applied to each path of `cs` and its position, positions counted from `start`. */
  function Enumerate<T>(f: (Path, int) --> T, cs: seq<Path>, start: int): (r: seq<T>)
    requires forall i :: 0 <= i < |cs| ==> f.requires(cs[i], start + i)
    ensures |r| == |cs|
    decreases |cs|
  {
    if cs == [] then [] else [f(cs[0], start)] + Enumerate(f, cs[1..], start + 1)
  }

  /** Element `i` of the enumeration is `f` at path `i` and position `start + i`. */
  lemma {:induction false} EnumerateAt<T>(f: (Path, int) --> T, cs: seq<Path>, start: int, i: nat)
    requires forall i :: 0 <= i < |cs| ==> f.requires(cs[i], start + i)
    requires i < |cs|
    ensures Enumerate(f, cs, start)[i] == f(cs[i], start + i)
    decreases |cs|
  {
    if i > 0 {
      assert forall k :: 0 <= k < |cs[1..]| ==> cs[1..][k] == cs[k + 1];
      EnumerateAt(f, cs[1..], start + 1, i - 1);
    }
  }

  /** The record for a candidate and its position, as a function value. */
  function FieldMaker(doc: Node): (Path, int) --> DetectedField {
    (q: Path, i: int) requires ValidPath(doc, q) => FieldFor(doc, q, i)
  }

  /** The list `detectFormFields` returns: one record per candidate, in document order. */
  function DetectedFields(doc: Node): (fs: seq<DetectedField>)
    ensures |fs| == |Candidates(doc)|
  {
    Enumerate(FieldMaker(doc), Candidates(doc), 0)
  }

  /** Field `i` of a scan is the record for candidate `i` (in document order), with index `i`. */
  lemma DetectedFieldAt(doc: Node, i: nat)
    requires i < |Candidates(doc)|
    ensures DetectedFields(doc)[i] == FieldFor(doc, Candidates(doc)[i], i)
    ensures DetectedFields(doc)[i].index == i
  {
    EnumerateAt(FieldMaker(doc), Candidates(doc), 0, i);
  }

  /** The prefix one longer is the prefix followed by the next element. */
  lemma PrefixSnoc<T>(s: seq<T>, i: nat)
    requires i < |s|
    ensures s[..i + 1] == s[..i] + [s[i]]
  {
  }

  /** The loop body of `detectFormFields`: describe, locate and label candidate `index`. */
  method DescribeCandidate(doc: Node, el: Path, index: nat) returns (field: DetectedField)
    requires index < |Candidates(doc)| && el == Candidates(doc)[index]
    ensures field == DetectedFields(doc)[index]
    ensures DetectedFields(doc)[..index + 1] == DetectedFields(doc)[..index] + [field]
  {
    var description := Description(doc, el);
    var selector := BuildSelector(doc, el);
    var n := At(doc, el);
    field := DetectedField(index, description, selector, Upper(n.tag),
                           if n.tag == "input" then Some(InputType(n)) else None);
    DetectedFieldAt(doc, index);
    PrefixSnoc(DetectedFields(doc), index);
  }

  /** `detectFormFields`: walk the candidates in document order, pushing one record each. */
  method DetectFormFields(doc: Node) returns (fields: seq<DetectedField>)
    ensures fields == DetectedFields(doc)
  {
    var elements := Candidates(doc);
    fields := [];
    var index := 0;
    while index < |elements|
      invariant index <= |elements|
      invariant fields == DetectedFields(doc)[..index]
    {
      var field := DescribeCandidate(doc, elements[index], index);
      fields := fields + [field];
      index := index + 1;
    }
    assert DetectedFields(doc)[..index] == DetectedFields(doc);
  }
}
