/** The already-parsed HTML document that the extractor walks, and the three
    queries it makes of it: `find_all`, `find` and `get_text`. Searching is a
    preorder walk over the descendants of a node, the node itself excluded,
    as in BeautifulSoup. */
module Dom {
  import opened Strings

  datatype Option<T> = None | Some(value: T)

  /** An element with its tag name, class list, `id` and `href` attributes
      (absent or present) and children; or a string. A string parsed while a
      string container element was open is `contained`: BeautifulSoup gives
      it a class of its own instead of `NavigableString`. */
  datatype Node =
    | Element(tag: string, classes: seq<string>, id: Option<string>, href: Option<string>, children: seq<Node>)
    | Text(content: string, contained: bool)

  /** The filters the extractor passes to `find` / `find_all`:
      `("div", class_="x")`, `("div", id="x")` and a bare tag name. */
  datatype Query =
    | ByClass(tag: string, cls: string)
    | ById(tag: string, want: string)
    | ByTag(tag: string)

  /** Whether an attribute value satisfies an `id=want` filter. As in
      BeautifulSoup before 4.13, an absent attribute satisfies an empty `want`. */
  predicate IdMatches(id: Option<string>, want: string) {
    match id
    case None => want == ""
    case Some(v) => v == want
  }

  predicate Satisfies(n: Node, q: Query) {
    n.Element? && n.tag == q.tag &&
    match q
    case ByClass(_, c) => c in n.classes
    case ById(_, want) => IdMatches(n.id, want)
    case ByTag(_) => true
  }

  /** `a` can be obtained from `b` by deleting elements. */
  predicate SubsequenceOf<T(==)>(a: seq<T>, b: seq<T>) {
    if a == [] then true
    else if b == [] then false
    else (a[0] == b[0] && SubsequenceOf(a[1..], b[1..])) || SubsequenceOf(a, b[1..])
  }

  /** Every node below `n`, in document (preorder) order. */
  function Descendants(n: Node): seq<Node>
    decreases n, 1
  {
    match n
    case Text(_, _) => []
    case Element(_, _, _, _, kids) => Forest(kids)
  }

  /** Every node of the trees `kids`, roots included, in preorder. */
  function Forest(kids: seq<Node>): seq<Node>
    decreases kids, 0
  {
    if kids == [] then []
    else [kids[0]] + Descendants(kids[0]) + Forest(kids[1..])
  }

  /** The elements of `s` that satisfy `q`, in the order of `s`. */
  function Select(s: seq<Node>, q: Query): (r: seq<Node>)
    ensures |r| <= |s|
    ensures forall x :: x in r <==> x in s && Satisfies(x, q)
  {
    if s == [] then []
    else (if Satisfies(s[0], q) then [s[0]] else []) + Select(s[1..], q)
  }

  /** `Select` keeps the order of `s`: its result is a subsequence. */
  lemma {:induction false} SelectKeepsOrder(s: seq<Node>, q: Query)
    ensures SubsequenceOf(Select(s, q), s)
  {
    if s != [] {
      SelectKeepsOrder(s[1..], q);
      if Satisfies(s[0], q) {
        assert Select(s, q)[1..] == Select(s[1..], q);
      } else {
        assert Select(s, q) == Select(s[1..], q);
      }
    }
  }

  /** `Select` keeps every satisfying element as often as it occurs in `s`,
      and no other. */
  lemma {:induction false} SelectKeepsCount(s: seq<Node>, q: Query)
    ensures forall x :: multiset(Select(s, q))[x] == if Satisfies(x, q) then multiset(s)[x] else 0
  {
    if s != [] {
      SelectKeepsCount(s[1..], q);
      assert s == [s[0]] + s[1..];
    }
  }

  /** BeautifulSoup's `n.find_all(...)`. */
  function FindAll(n: Node, q: Query): seq<Node> {
    Select(Descendants(n), q)
  }

  /** `find_all` returns exactly the descendants that satisfy the filter, in
      document order and each as often as it occurs. */
  lemma FindAllMatches(n: Node, q: Query)
    ensures forall x :: x in FindAll(n, q) <==> x in Descendants(n) && Satisfies(x, q)
    ensures SubsequenceOf(FindAll(n, q), Descendants(n))
    ensures forall x :: multiset(FindAll(n, q))[x] == if Satisfies(x, q) then multiset(Descendants(n))[x] else 0
  {
    SelectKeepsOrder(Descendants(n), q);
    SelectKeepsCount(Descendants(n), q);
  }

  /** BeautifulSoup's `n.find(...)`: the first match of `find_all`, if any. */
  function Find(n: Node, q: Query): (r: Option<Node>)
    ensures r.Some? ==> r.value in Descendants(n) && Satisfies(r.value, q)
  {
    var all := FindAll(n, q);
    if all == [] then None else assert all[0] in all; Some(all[0])
  }

  /** `find` comes back empty exactly when no descendant satisfies the filter. */
  lemma FindNone(n: Node, q: Query)
    ensures Find(n, q).None? <==> forall x :: x in Descendants(n) ==> !Satisfies(x, q)
  {
    FindAllMatches(n, q);
  }

  /** The first element of `Select(s, q)` is the earliest satisfying element. */
  lemma {:induction false} SelectFirst(s: seq<Node>, q: Query)
    requires Select(s, q) != []
    ensures exists k :: 0 <= k < |s| && s[k] == Select(s, q)[0] && IsFirstMatch(s, q, k)
  {
    if Satisfies(s[0], q) {
      assert Select(s, q)[0] == s[0];
      assert IsFirstMatch(s, q, 0);
    } else {
      assert Select(s, q) == Select(s[1..], q);
      SelectFirst(s[1..], q);
      var k :| 0 <= k < |s[1..]| && s[1..][k] == Select(s[1..], q)[0] && IsFirstMatch(s[1..], q, k);
      assert forall j :: 1 <= j <= k + 1 ==> s[j] == s[1..][j - 1];
      assert IsFirstMatch(s, q, k + 1);
    }
  }

  /** `s[k]` satisfies `q` and nothing before it does. */
  predicate IsFirstMatch(s: seq<Node>, q: Query, k: int)
    requires 0 <= k < |s|
  {
    Satisfies(s[k], q) && forall j :: 0 <= j < k ==> !Satisfies(s[j], q)
  }

  /** `find` returns the first matching descendant in document order. */
  lemma FindIsFirst(n: Node, q: Query)
    requires Find(n, q).Some?
    ensures exists k :: 0 <= k < |Descendants(n)| && Descendants(n)[k] == Find(n, q).value &&
                        IsFirstMatch(Descendants(n), q, k)
  {
    SelectFirst(Descendants(n), q);
  }

  /** The tags whose strings BeautifulSoup keeps in classes of their own:
      `Script`, `Stylesheet`, `TemplateString`, and the ruby text and
      parenthesis strings. */
  const StringContainers: seq<string> := ["script", "style", "template", "rt", "rp"]

  /** No element among `s` is a string container. */
  predicate NoContainerIn(s: seq<Node>) {
    forall x :: x in s && x.Element? ==> x.tag !in StringContainers
  }

  /** How the parser classifies strings: `n` was parsed with a string
      container open around it exactly when `open` holds, and a string is
      `contained` exactly when some container was open around it. */
  predicate ParsedIn(n: Node, open: bool) {
    match n
    case Text(_, contained) => contained == open
    case Element(tag, _, _, _, kids) =>
      forall k :: k in kids ==> ParsedIn(k, open || tag in StringContainers)
  }

  /** The contents of the plain (not contained) strings among `s`, in order. */
  function Readable(s: seq<Node>): seq<string> {
    if s == [] then []
    else (if s[0].Text? && !s[0].contained then [s[0].content] else []) + Readable(s[1..])
  }

  lemma {:induction false} ReadableMembers(s: seq<Node>)
    ensures forall t :: t in Readable(s) <==> Text(t, false) in s
  {
    if s != [] {
      ReadableMembers(s[1..]);
      assert s == [s[0]] + s[1..];
    }
  }

  lemma {:induction false} ReadableConcat(a: seq<Node>, b: seq<Node>)
    ensures Readable(a + b) == Readable(a) + Readable(b)
  {
    if a != [] {
      ReadableConcat(a[1..], b);
      assert (a + b)[0] == a[0] && (a + b)[1..] == a[1..] + b;
      var head := if a[0].Text? && !a[0].contained then [a[0].content] else [];
      calc {
        Readable(a + b);
        head + Readable(a[1..] + b);
        head + (Readable(a[1..]) + Readable(b));
        (head + Readable(a[1..])) + Readable(b);
      }
    } else {
      assert a + b == b;
    }
  }

  /** Where every string is contained, nothing is readable. */
  lemma {:induction false} NothingReadable(s: seq<Node>)
    requires forall x :: x in s && x.Text? ==> x.contained
    ensures Readable(s) == []
  {
    if s != [] {
      assert forall x :: x in s[1..] ==> x in s;
      NothingReadable(s[1..]);
    }
  }

  /** The strings `n.get_text()` reads when `n` is not itself a string
      container (the extractor only calls it on divs): the plain strings
      below `n`, in document order. */
  function ReadTexts(n: Node): (r: seq<string>)
    ensures forall t :: t in r <==> Text(t, false) in Descendants(n)
  {
    ReadableMembers(Descendants(n));
    Readable(Descendants(n))
  }

  /** Below a node parsed inside a container every string is contained;
      below a node parsed outside one, with no container at or below it,
      no string is. */
  lemma {:induction false} ParsedLeaves(n: Node, open: bool)
    requires ParsedIn(n, open)
    ensures open ==> forall x :: x in Descendants(n) && x.Text? ==> x.contained
    ensures !open && NoContainerIn([n] + Descendants(n)) ==>
              forall x :: x in Descendants(n) && x.Text? ==> !x.contained
    decreases n, 1
  {
    match n
    case Text(_, _) =>
    case Element(tag, _, _, _, kids) =>
      if !open && NoContainerIn([n] + Descendants(n)) {
        assert n in [n] + Descendants(n);
        assert NoContainerIn(Forest(kids)) by {
          assert forall x :: x in Forest(kids) ==> x in [n] + Descendants(n);
        }
      }
      ForestLeaves(kids, open || tag in StringContainers);
  }

  lemma {:induction false} ForestLeaves(kids: seq<Node>, open: bool)
    requires forall k :: k in kids ==> ParsedIn(k, open)
    ensures open ==> forall x :: x in Forest(kids) && x.Text? ==> x.contained
    ensures !open && NoContainerIn(Forest(kids)) ==>
              forall x :: x in Forest(kids) && x.Text? ==> !x.contained
    decreases kids, 0
  {
    if kids != [] {
      var k := kids[0];
      var below := Descendants(k);
      var rest := Forest(kids[1..]);
      assert Forest(kids) == [k] + below + rest;
      assert forall x :: x in kids[1..] ==> x in kids;
      ParsedLeaves(k, open);
      ForestLeaves(kids[1..], open);
      if !open && NoContainerIn(Forest(kids)) {
        assert NoContainerIn([k] + below) && NoContainerIn(rest) by {
          assert forall x :: x in [k] + below ==> x in Forest(kids);
          assert forall x :: x in rest ==> x in Forest(kids);
        }
      }
    }
  }

  /** A non-empty text with no whitespace at either end. */
  predicate Trimmed(p: string) {
    p != [] && !IsSpace(p[0]) && !IsSpace(p[|p| - 1])
  }

  /** The stripped texts that are not empty, in order. */
  function Pieces(texts: seq<string>): (r: seq<string>)
    ensures forall i :: 0 <= i < |r| ==> Trimmed(r[i])
    ensures r == [] <==> forall t :: t in texts ==> AllSpace(t)
  {
    if texts == [] then []
    else
      var rest := Pieces(texts[1..]);
      assert forall t :: t in texts <==> t == texts[0] || t in texts[1..];
      if AllSpace(texts[0]) then rest
      else [Strip(texts[0])] + rest
  }

  /** BeautifulSoup's `n.get_text(separator=sep, strip=True)`: the strings
      it reads below `n`, each stripped, the empty ones dropped, joined with
      `sep`. The result is empty exactly when every string read is
      whitespace, and otherwise neither begins nor ends with whitespace. */
  function GetText(n: Node, sep: string): (r: string)
    ensures r == [] <==> forall t :: t in ReadTexts(n) ==> AllSpace(t)
    ensures r != [] ==> !IsSpace(r[0]) && !IsSpace(r[|r| - 1])
  {
    var parts := Pieces(ReadTexts(n));
    if parts == [] then []
    else
      JoinEnds(sep, parts);
      Join(sep, parts)
  }

  /** A node parsed inside a string container, such as a div inside a
      `template`, has no text for `get_text`. */
  lemma InsideContainerReadsNothing(n: Node, sep: string)
    requires ParsedIn(n, true)
    ensures ReadTexts(n) == [] && GetText(n, sep) == []
  {
    ParsedLeaves(n, true);
    NothingReadable(Descendants(n));
  }

  /** Outside every container, `get_text` reads every string below the
      node. */
  lemma ReadsEveryStringOutsideContainers(n: Node)
    requires ParsedIn(n, false) && NoContainerIn([n] + Descendants(n))
    ensures forall x :: x in Descendants(n) && x.Text? ==> x.content in ReadTexts(n)
  {
    ParsedLeaves(n, false);
    forall x | x in Descendants(n) && x.Text?
      ensures x.content in ReadTexts(n)
    {
      assert x == Text(x.content, false);
    }
  }

  /** A container's strings never reach `get_text`: an element holding a
      string container and then a string reads only that string, so its
      text is that string stripped. */
  lemma ContainerStringsAreSkipped(tag: string, classes: seq<string>, id: Option<string>, href: Option<string>,
                                   c: Node, t: string, contained: bool, sep: string)
    requires ParsedIn(Element(tag, classes, id, href, [c, Text(t, contained)]), false)
    requires tag !in StringContainers && c.Element? && c.tag in StringContainers
    ensures ReadTexts(Element(tag, classes, id, href, [c, Text(t, contained)])) == [t]
    ensures GetText(Element(tag, classes, id, href, [c, Text(t, contained)]), sep) == Strip(t)
  {
    var leaf := Text(t, contained);
    var kids := [c, leaf];
    assert kids[0] == c && kids[1] == leaf;
    assert c in kids && leaf in kids;
    ContainerThenString(c, leaf, tag);
    assert Pieces([t]) == if AllSpace(t) then [] else [Strip(t)] by {
      assert [t][1..] == [];
    }
  }

  /** The strings read from the children `[c, leaf]` of a non-container
      parsed outside any container, `c` being a container. */
  lemma ContainerThenString(c: Node, leaf: Node, tag: string)
    requires c.Element? && c.tag in StringContainers && leaf.Text?
    requires ParsedIn(c, false) && ParsedIn(leaf, false)
    ensures Readable(Forest([c, leaf])) == [leaf.content]
  {
    var kids := [c, leaf];
    assert kids[1..] == [leaf] && [leaf][1..] == [];
    assert forall k :: k in c.children ==> ParsedIn(k, true);
    ForestLeaves(c.children, true);
    var below := Descendants(c);
    NothingReadable(below);
    assert Forest([leaf]) == [leaf];
    assert Forest(kids) == [c] + below + [leaf];
    ReadableConcat([c] + below, [leaf]);
    ReadableConcat([c], below);
    assert [c][1..] == [];
  }
}
