/**
 * The document the content script runs in, as a finite tree of elements.
 *
 * An element is its tag (the local name, lower case as the HTML parser gives it),
 * its attribute map, its own text, and its ordered element children. An element is
 * identified by its position path from the document element: `[]` is the document
 * element and `p + [i]` is the `i`-th (0-based) child of the element at `p`.
 * Document (tree) order is depth-first pre-order, which on paths is the
 * lexicographic order `LexLess` (a prefix comes first).
 */
module Dom {
  import opened Wrappers
  import opened Text

  datatype Node = Node(tag: string, attrs: map<string, string>, text: string, children: seq<Node>)

  type Path = seq<nat>

  /** `p` leads from `n` to an element. */
  predicate ValidPath(n: Node, p: Path)
    decreases |p|
  {
    p == [] || (p[0] < |n.children| && ValidPath(n.children[p[0]], p[1..]))
  }

  /** The element at the end of path `p`. */
  function At(n: Node, p: Path): Node
    requires ValidPath(n, p)
    decreases |p|
  {
    if p == [] then n else At(n.children[p[0]], p[1..])
  }

  /** Every ancestor of an element is an element. */
  lemma {:induction false} ValidPrefix(n: Node, p: Path, k: nat)
    requires ValidPath(n, p) && k <= |p|
    ensures ValidPath(n, p[..k])
    decreases |p|
  {
    if k > 0 {
      ValidPrefix(n.children[p[0]], p[1..], k - 1);
      assert p[..k][1..] == p[1..][..k - 1];
    }
  }

  /** Stepping from an element to one of its children. */
  lemma {:induction false} ChildPath(n: Node, p: Path, i: nat)
    requires ValidPath(n, p)
    ensures ValidPath(n, p + [i]) <==> i < |At(n, p).children|
    ensures ValidPath(n, p + [i]) ==> At(n, p + [i]) == At(n, p).children[i]
    decreases |p|
  {
    if p == [] {
      assert ([] + [i])[1..] == [];
    } else {
      ChildPath(n.children[p[0]], p[1..], i);
      assert (p + [i])[1..] == p[1..] + [i];
    }
  }

  /** `getAttribute(name)`, `None` standing for `null`. */
  function Attr(n: Node, name: string): Option<string> {
    if name in n.attrs then Some(n.attrs[name]) else None
  }

  /** `getAttribute(name) ?? ""`: where the extension only tests truthiness, absent and empty coincide. */
  function AttrOr(n: Node, name: string): string {
    Attr(n, name).GetOr("")
  }

  /** The `id` IDL attribute: the `id` content attribute, or `""`. */
  function Id(n: Node): string {
    AttrOr(n, "id")
  }

  /** The keywords of the `type` attribute of `input` in the HTML standard. */
  const InputTypeKeywords: set<string> := {
    "hidden", "text", "search", "tel", "url", "email", "password", "date", "month", "week",
    "time", "datetime-local", "number", "range", "color", "checkbox", "radio", "file",
    "submit", "image", "reset", "button"
  }

  /**
   * The `type` IDL attribute of an `input`: the attribute's keyword matched
   * ASCII-case-insensitively, and `"text"` when the attribute is missing or unknown.
   */
  function InputType(n: Node): (t: string)
    ensures t in InputTypeKeywords
    ensures t != "" && IsTrimmed(t)
    ensures Lower(AttrOr(n, "type")) in InputTypeKeywords ==> t == Lower(AttrOr(n, "type"))
    ensures Lower(AttrOr(n, "type")) !in InputTypeKeywords ==> t == "text"
  {
    var a := Lower(AttrOr(n, "type"));
    if a in InputTypeKeywords then a else "text"
  }

  /** `textContent`: the element's own text, then its children's text content in order. */
  function TextContent(n: Node): string
    decreases n
  {
    n.text + ForestText(n.children)
  }

  function ForestText(cs: seq<Node>): string
    decreases cs
  {
    if cs == [] then "" else TextContent(cs[0]) + ForestText(cs[1..])
  }

  // ----- document order -----

  /** Every path of `n`'s tree, in depth-first pre-order. */
  function PreOrder(n: Node): seq<Path>
    decreases n
  {
    [[]] + Forest(n.children, 0)
  }

  /** The pre-order paths of the trees `cs`, whose first tree is child number `k`. */
  function Forest(cs: seq<Node>, k: nat): seq<Path>
    decreases cs
  {
    if cs == [] then [] else Prefixed(k, PreOrder(cs[0])) + Forest(cs[1..], k + 1)
  }

  function Prefixed(k: nat, ps: seq<Path>): (r: seq<Path>)
    ensures |r| == |ps| && forall i :: 0 <= i < |ps| ==> r[i] == [k] + ps[i]
  {
    seq(|ps|, i requires 0 <= i < |ps| => [k] + ps[i])
  }

  lemma PrefixedMember(k: nat, ps: seq<Path>, q: Path)
    ensures q in Prefixed(k, ps) <==> |q| > 0 && q[0] == k && q[1..] in ps
  {
    var r := Prefixed(k, ps);
    if q in r {
      var i :| 0 <= i < |r| && r[i] == q;
      assert q[1..] == ps[i];
    }
    if |q| > 0 && q[0] == k && q[1..] in ps {
      var i :| 0 <= i < |ps| && ps[i] == q[1..];
      assert r[i] == q;
    }
  }

  /** The pre-order lists exactly the paths of the tree. */
  lemma {:induction false} PreOrderMember(n: Node, q: Path)
    ensures q in PreOrder(n) <==> ValidPath(n, q)
    decreases n
  {
    if q != [] {
      ForestMember(n.children, 0, q);
    }
  }

  lemma {:induction false} ForestMember(cs: seq<Node>, k: nat, q: Path)
    ensures q in Forest(cs, k) <==> |q| > 0 && k <= q[0] < k + |cs| && ValidPath(cs[q[0] - k], q[1..])
    decreases cs
  {
    if cs != [] {
      var a := Prefixed(k, PreOrder(cs[0]));
      var b := Forest(cs[1..], k + 1);
      assert Forest(cs, k) == a + b;
      assert q in a + b <==> q in a || q in b;
      PrefixedMember(k, PreOrder(cs[0]), q);
      ForestMember(cs[1..], k + 1, q);
      if |q| > 0 {
        PreOrderMember(cs[0], q[1..]);
        if k + 1 <= q[0] < k + |cs| {
          assert cs[1..][q[0] - (k + 1)] == cs[q[0] - k];
        }
      }
    }
  }

  lemma PreOrderPaths(n: Node)
    ensures forall q :: q in PreOrder(n) <==> ValidPath(n, q)
  {
    forall q ensures q in PreOrder(n) <==> ValidPath(n, q) {
      PreOrderMember(n, q);
    }
  }

  /** Document order on paths: an ancestor precedes its descendants, and earlier siblings' subtrees come first. */
  predicate LexLess(a: Path, b: Path)
    decreases |a|
  {
    b != [] && (a == [] || a[0] < b[0] || (a[0] == b[0] && LexLess(a[1..], b[1..])))
  }

  lemma {:induction false} LexLessIrreflexive(a: Path)
    ensures !LexLess(a, a)
    decreases |a|
  {
    if a != [] {
      LexLessIrreflexive(a[1..]);
    }
  }

  lemma {:induction false} LexLessAsymmetric(a: Path, b: Path)
    requires LexLess(a, b)
    ensures !LexLess(b, a)
    decreases |a|
  {
    if a != [] && a[0] == b[0] && LexLess(a[1..], b[1..]) {
      LexLessAsymmetric(a[1..], b[1..]);
    }
  }

  /** Every two distinct paths are ordered one way or the other. */
  lemma {:induction false} LexLessTotal(a: Path, b: Path)
    requires a != b
    ensures LexLess(a, b) || LexLess(b, a)
    decreases |a|
  {
    if a != [] && b != [] && a[0] == b[0] {
      assert a == [a[0]] + a[1..] && b == [b[0]] + b[1..];
      LexLessTotal(a[1..], b[1..]);
    }
  }

  predicate Sorted(ps: seq<Path>) {
    forall i, j :: 0 <= i < j < |ps| ==> LexLess(ps[i], ps[j])
  }

  lemma SortedConcat(a: seq<Path>, b: seq<Path>)
    requires Sorted(a) && Sorted(b)
    requires forall i, j :: 0 <= i < |a| && 0 <= j < |b| ==> LexLess(a[i], b[j])
    ensures Sorted(a + b)
  {
    var ab := a + b;
    forall i, j | 0 <= i < j < |ab| ensures LexLess(ab[i], ab[j]) {
      if j < |a| {
        assert ab[i] == a[i] && ab[j] == a[j];
      } else if i >= |a| {
        assert ab[i] == b[i - |a|] && ab[j] == b[j - |a|];
      } else {
        assert ab[i] == a[i] && ab[j] == b[j - |a|];
      }
    }
  }

  /** The pre-order of a tree is strictly increasing in document order. */
  lemma {:induction false} PreOrderSorted(n: Node)
    ensures Sorted(PreOrder(n))
    decreases n
  {
    ForestSorted(n.children, 0);
    var f := Forest(n.children, 0);
    forall j | 0 <= j < |f| ensures f[j] != [] {
      ForestMember(n.children, 0, f[j]);
    }
    SortedConcat([[]], f);
  }

  lemma {:induction false} ForestSorted(cs: seq<Node>, k: nat)
    ensures Sorted(Forest(cs, k))
    decreases cs
  {
    if cs != [] {
      var a := Prefixed(k, PreOrder(cs[0]));
      var b := Forest(cs[1..], k + 1);
      PreOrderSorted(cs[0]);
      ForestSorted(cs[1..], k + 1);
      forall i, j | 0 <= i < j < |a| ensures LexLess(a[i], a[j]) {
        assert a[i][1..] == PreOrder(cs[0])[i] && a[j][1..] == PreOrder(cs[0])[j];
      }
      forall i, j | 0 <= i < |a| && 0 <= j < |b| ensures LexLess(a[i], b[j]) {
        ForestMember(cs[1..], k + 1, b[j]);
      }
      SortedConcat(a, b);
    }
  }

  /** In a sorted list, document order and list order agree. */
  lemma SortedIndexOrder(ps: seq<Path>, i: nat, j: nat)
    requires Sorted(ps) && i < |ps| && j < |ps|
    ensures i < j <==> LexLess(ps[i], ps[j])
  {
    if j < i {
      LexLessAsymmetric(ps[j], ps[i]);
    } else if i == j {
      LexLessIrreflexive(ps[i]);
    }
  }

  /** A sorted list never repeats a path. */
  lemma SortedDistinct(ps: seq<Path>)
    requires Sorted(ps)
    ensures forall i, j :: 0 <= i < |ps| && 0 <= j < |ps| && i != j ==> ps[i] != ps[j]
  {
    forall i, j | 0 <= i < |ps| && 0 <= j < |ps| && i != j ensures ps[i] != ps[j] {
      if i < j { LexLessIrreflexive(ps[i]); } else { LexLessIrreflexive(ps[j]); }
    }
  }

  // ----- queries -----

  /** The paths of `ps` that satisfy `P`, in the order of `ps`. */
  function FilterPaths(ps: seq<Path>, P: Path -> bool): (r: seq<Path>)
    ensures forall q :: q in r <==> q in ps && P(q)
    ensures Sorted(ps) ==> Sorted(r)
    decreases |ps|
  {
    if ps == [] then []
    else
      var rest := FilterPaths(ps[1..], P);
      if P(ps[0]) then
        assert Sorted(ps) ==> forall j :: 0 <= j < |rest| ==> LexLess(ps[0], rest[j]) by {
          if Sorted(ps) {
            forall j | 0 <= j < |rest| ensures LexLess(ps[0], rest[j]) {
              assert rest[j] in rest;
              var t :| 0 <= t < |ps[1..]| && ps[1..][t] == rest[j];
              assert ps[t + 1] == rest[j];
            }
          }
        }
        [ps[0]] + rest
      else
        rest
  }

  /** `querySelectorAll`: the elements satisfying `P`, in document order. */
  function QueryAll(doc: Node, P: Path -> bool): (r: seq<Path>)
    ensures forall q :: q in r <==> ValidPath(doc, q) && P(q)
    ensures Sorted(r)
  {
    PreOrderPaths(doc);
    PreOrderSorted(doc);
    FilterPaths(PreOrder(doc), P)
  }

  /** `querySelector`: the first element in document order satisfying `P`. */
  function QueryFirst(doc: Node, P: Path -> bool): (r: Option<Path>)
    ensures r.Some? ==> ValidPath(doc, r.value) && P(r.value)
    ensures r.Some? ==> forall q :: ValidPath(doc, q) && P(q) && q != r.value ==> LexLess(r.value, q)
    ensures r.None? ==> forall q :: ValidPath(doc, q) ==> !P(q)
  {
    var all := QueryAll(doc, P);
    if all == [] then None
    else
      assert forall q :: q in all && q != all[0] ==> LexLess(all[0], q) by {
        forall q | q in all && q != all[0] ensures LexLess(all[0], q) {
          var j :| 0 <= j < |all| && all[j] == q;
        }
      }
      Some(all[0])
  }

  predicate HasId(doc: Node, id: string, q: Path) {
    ValidPath(doc, q) && Id(At(doc, q)) == id
  }

  /** `document.getElementById(id)`: no element has the empty string as its ID. */
  function GetElementById(doc: Node, id: string): (r: Option<Path>)
    ensures r.Some? ==> id != "" && ValidPath(doc, r.value) && Id(At(doc, r.value)) == id
    ensures r.Some? ==> forall q :: HasId(doc, id, q) && q != r.value ==> LexLess(r.value, q)
    ensures r.None? ==> id == "" || forall q :: ValidPath(doc, q) ==> Id(At(doc, q)) != id
  {
    if id == "" then None else QueryFirst(doc, q => HasId(doc, id, q))
  }

  /** The index of the first of `cs` whose tag is `body` or `frameset`. */
  function FirstBodyChild(cs: seq<Node>): (r: Option<nat>)
    ensures r.Some? ==> r.value < |cs| && cs[r.value].tag in {"body", "frameset"}
    ensures r.Some? ==> forall j :: 0 <= j < r.value ==> cs[j].tag !in {"body", "frameset"}
    ensures r.None? ==> forall j :: 0 <= j < |cs| ==> cs[j].tag !in {"body", "frameset"}
  {
    if cs == [] then None
    else if cs[0].tag in {"body", "frameset"} then Some(0)
    else match FirstBodyChild(cs[1..])
      case None => None
      case Some(i) => Some(i + 1)
  }

  /** `document.body`: the first `body` or `frameset` child of an `html` document element. */
  function Body(doc: Node): (r: Option<Path>)
    ensures r.Some? ==> ValidPath(doc, r.value) && |r.value| == 1
  {
    if doc.tag != "html" then None
    else match FirstBodyChild(doc.children)
      case None => None
      case Some(i) => assert ValidPath(doc, [i]) by { assert [i][1..] == []; } Some([i])
  }

  /** `el.closest(tag)`: the element itself or its nearest ancestor with that tag. */
  function Closest(doc: Node, p: Path, tag: string): (r: Option<Path>)
    requires ValidPath(doc, p)
    ensures r.Some? ==> |r.value| <= |p| && r.value == p[..|r.value|]
    ensures r.Some? ==> ValidPath(doc, r.value) && At(doc, r.value).tag == tag
    decreases |p|
  {
    if At(doc, p).tag == tag then Some(p)
    else if p == [] then None
    else
      var up := p[..|p| - 1];
      ValidPrefix(doc, p, |p| - 1);
      var r := Closest(doc, up, tag);
      assert r.Some? ==> r.value == up[..|r.value|] && up[..|r.value|] == p[..|r.value|];
      r
  }

  /** `closest` finds the nearest such element: none lies strictly between it and `p`, and without a result none exists. */
  lemma {:induction false} ClosestNearest(doc: Node, p: Path, tag: string)
    requires ValidPath(doc, p)
    ensures Closest(doc, p, tag).Some? ==> forall k :: |Closest(doc, p, tag).value| < k <= |p| ==>
              ValidPath(doc, p[..k]) && At(doc, p[..k]).tag != tag
    ensures Closest(doc, p, tag).None? ==> forall k :: 0 <= k <= |p| ==>
              ValidPath(doc, p[..k]) && At(doc, p[..k]).tag != tag
    decreases |p|
  {
    assert p[..|p|] == p;
    if At(doc, p).tag != tag && p != [] {
      var up := p[..|p| - 1];
      ValidPrefix(doc, p, |p| - 1);
      ClosestNearest(doc, up, tag);
      assert forall k :: 0 <= k <= |up| ==> up[..k] == p[..k];
    }
  }

  /** `previousElementSibling`. */
  function PreviousSibling(p: Path): (r: Option<Path>)
    ensures r.Some? ==> p != [] && p[|p| - 1] > 0 && r.value == p[..|p| - 1] + [p[|p| - 1] - 1]
    ensures r.None? ==> p == [] || p[|p| - 1] == 0
  {
    if p == [] || p[|p| - 1] == 0 then None else Some(p[..|p| - 1] + [p[|p| - 1] - 1])
  }
}
