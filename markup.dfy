/**
  The parsed page the scraper queries. The markup library's tree is modelled
  as plain values: an element has a tag name, an attribute map and its child
  nodes in document order; a text node holds one string. The three queries
  the scraper uses are defined over the preorder (document order) of a
  node's proper descendants: `find_all`, `find` and `get_text`.
 */
module Markup {
  import opened Wrappers
  import opened Whitespace

  datatype Node =
    | Element(tag: string, attrs: map<string, string>, children: seq<Node>)
    | TextNode(content: string)

  /** The node and then everything below it, in document order. */
  function Preorder(n: Node): (r: seq<Node>)
    ensures |r| >= 1 && r[0] == n
    decreases n, 1
  {
    match n
    case TextNode(_) => [n]
    case Element(_, _, cs) => [n] + Forest(cs)
  }

  /** The preorders of a list of sibling nodes, one after the other. */
  function Forest(cs: seq<Node>): (r: seq<Node>)
    decreases cs, 0
  {
    if cs == [] then [] else Preorder(cs[0]) + Forest(cs[1..])
  }

  /** Everything strictly below `n`, in document order: what `find_all` and
      `find` search. A text node has no descendants. */
  function Descendants(n: Node): seq<Node>
  {
    match n
    case TextNode(_) => []
    case Element(_, _, cs) => Forest(cs)
  }

  /** An element whose tag name is one of `tags`. */
  predicate Tagged(n: Node, tags: set<string>)
  {
    n.Element? && n.tag in tags
  }

  /** The nodes of `s` that are elements tagged with one of `tags`, in order. */
  function Select(s: seq<Node>, tags: set<string>): (r: seq<Node>)
    ensures |r| <= |s|
  {
    if s == [] then []
    else if Tagged(s[0], tags) then [s[0]] + Select(s[1..], tags)
    else Select(s[1..], tags)
  }

  /** What `Select` keeps: exactly the nodes of `s` tagged with one of
      `tags`. */
  lemma {:induction false} SelectMembers(s: seq<Node>, tags: set<string>)
    ensures forall x :: x in Select(s, tags) <==> x in s && Tagged(x, tags)
    decreases |s|
  {
    if s != [] {
      SelectMembers(s[1..], tags);
      assert s == [s[0]] + s[1..];
    }
  }

  /** The position of the first node of `s` tagged with one of `tags`. */
  function FirstIndex(s: seq<Node>, tags: set<string>): (r: Option<nat>)
    ensures r.Some? ==> r.value < |s| && Tagged(s[r.value], tags) &&
                        forall j :: 0 <= j < r.value ==> !Tagged(s[j], tags)
    ensures r.None? ==> forall j :: 0 <= j < |s| ==> !Tagged(s[j], tags)
  {
    if s == [] then None
    else if Tagged(s[0], tags) then Some(0)
    else match FirstIndex(s[1..], tags)
      case None => None
      case Some(k) => Some(k + 1)
  }

  /** `n.find_all(tags)`: every descendant element with one of the tag
      names, in document order. */
  function FindAll(n: Node, tags: set<string>): (r: seq<Node>)
    ensures forall x :: x in r <==> x in Descendants(n) && Tagged(x, tags)
  {
    SelectMembers(Descendants(n), tags);
    Select(Descendants(n), tags)
  }

  /** `n.find(tags)`: the first descendant element, in document order, with
      one of the tag names, or `None` when there is none. */
  function FindFirst(n: Node, tags: set<string>): (r: Option<Node>)
    ensures r.None? <==> forall x :: x in Descendants(n) ==> !Tagged(x, tags)
    ensures r.Some? ==> r.value in Descendants(n) && Tagged(r.value, tags)
  {
    var d := Descendants(n);
    match FirstIndex(d, tags)
    case None => None
    case Some(i) => Some(d[i])
  }

  /** `tag.get(name)`: the attribute's value, or `None` when it is absent. */
  function GetAttr(n: Node, name: string): (r: Option<string>)
    ensures r.Some? <==> n.Element? && name in n.attrs
    ensures r.Some? ==> r.value == n.attrs[name]
  {
    if n.Element? && name in n.attrs then Some(n.attrs[name]) else None
  }

  /** `n.get_text()`: all text below the node, concatenated in document
      order. */
  function AllText(n: Node): string
    decreases n, 1
  {
    match n
    case TextNode(s) => s
    case Element(_, _, cs) => AllTextOf(cs)
  }

  function AllTextOf(cs: seq<Node>): string
    decreases cs, 0
  {
    if cs == [] then "" else AllText(cs[0]) + AllTextOf(cs[1..])
  }

  /** `n.get_text(strip=True)`: each text string below the node stripped of
      surrounding whitespace, the empty ones dropped and the rest
      concatenated. The result never begins or ends with whitespace. */
  function StrippedText(n: Node): (r: string)
    ensures Trimmed(r)
    decreases n, 1
  {
    match n
    case TextNode(s) => Strip(s)
    case Element(_, _, cs) => StrippedTextOf(cs)
  }

  function StrippedTextOf(cs: seq<Node>): (r: string)
    ensures Trimmed(r)
    decreases cs, 0
  {
    if cs == [] then ""
    else
      var head, tail := StrippedText(cs[0]), StrippedTextOf(cs[1..]);
      TrimmedConcat(head, tail);
      head + tail
  }

  lemma TrimmedConcat(a: string, b: string)
    requires Trimmed(a) && Trimmed(b)
    ensures Trimmed(a + b)
  {
  }

  // ---------------------------------------------------------------------
  // Lemmas

  /** What `find` returns comes before every other match in document
      order. */
  lemma FindFirstIsEarliest(n: Node, tags: set<string>)
    requires FindFirst(n, tags).Some?
    ensures exists i :: 0 <= i < |Descendants(n)| &&
              Descendants(n)[i] == FindFirst(n, tags).value &&
              forall j :: 0 <= j < i ==> !Tagged(Descendants(n)[j], tags)
  {
  }

  lemma PrefixStep<T>(s: seq<T>, i: nat)
    requires i < |s|
    ensures s[..i + 1] == s[..i] + [s[i]]
  {
  }

  /** The positions from `i` on at which `s` holds an element tagged with
      one of `tags`: each such position exactly once, in increasing order. */
  function MatchPositions(s: seq<Node>, tags: set<string>, i: nat): (r: seq<nat>)
    requires i <= |s|
    ensures forall k :: 0 <= k < |r| ==> i <= r[k] < |s| && Tagged(s[r[k]], tags)
    ensures forall k, l :: 0 <= k < l < |r| ==> r[k] < r[l]
    decreases |s| - i
  {
    if i == |s| then []
    else
      var rest := MatchPositions(s, tags, i + 1);
      if Tagged(s[i], tags) then [i] + rest else rest
  }

  /** No matching position from `i` on is missed. */
  lemma {:induction false} MatchPositionsComplete(s: seq<Node>, tags: set<string>, i: nat)
    requires i <= |s|
    ensures forall j :: i <= j < |s| && Tagged(s[j], tags) ==> j in MatchPositions(s, tags, i)
    decreases |s| - i
  {
    if i < |s| {
      MatchPositionsComplete(s, tags, i + 1);
    }
  }

  /** `r` lists the nodes of `s` at the positions `idx`, in that order. */
  predicate IndexedBy(r: seq<Node>, s: seq<Node>, idx: seq<nat>)
  {
    |r| == |idx| && forall k :: 0 <= k < |idx| ==> idx[k] < |s| && r[k] == s[idx[k]]
  }

  lemma {:induction false} SelectOfSuffix(s: seq<Node>, tags: set<string>, i: nat)
    requires i <= |s|
    ensures IndexedBy(Select(s[i..], tags), s, MatchPositions(s, tags, i))
    decreases |s| - i
  {
    if i < |s| {
      SelectOfSuffix(s, tags, i + 1);
      var rest, restAt := Select(s[i + 1..], tags), MatchPositions(s, tags, i + 1);
      assert s[i..][0] == s[i] && s[i..][1..] == s[i + 1..];
      if Tagged(s[i], tags) {
        var r, at := [s[i]] + rest, [i] + restAt;
        forall k | 0 <= k < |at| ensures at[k] < |s| && r[k] == s[at[k]] {
          if k > 0 {
            assert at[k] == restAt[k - 1] && r[k] == rest[k - 1];
          }
        }
      }
    }
  }

  /** `find_all` keeps document order and multiplicity: it has one result
      per matching position of the descendants, and its `k`-th result is
      the node at the `k`-th such position. */
  lemma FindAllInOrder(n: Node, tags: set<string>)
    ensures IndexedBy(FindAll(n, tags), Descendants(n), MatchPositions(Descendants(n), tags, 0))
  {
    var d := Descendants(n);
    SelectOfSuffix(d, tags, 0);
    assert d[0..] == d;
  }

  /** `find_all` finds nothing exactly when no descendant carries one of
      the tags. */
  lemma FindAllEmpty(n: Node, tags: set<string>)
    ensures FindAll(n, tags) == [] <==> forall x :: x in Descendants(n) ==> !Tagged(x, tags)
  {
    var r := FindAll(n, tags);
    if r != [] {
      assert r[0] in r;
    }
  }

  /** `find` is the first result of `find_all`. */
  lemma {:induction false} FindFirstIsHeadOfFindAll(n: Node, tags: set<string>)
    ensures FindFirst(n, tags) ==
            if FindAll(n, tags) == [] then None else Some(FindAll(n, tags)[0])
  {
    SelectStartsAtFirst(Descendants(n), tags);
  }

  lemma {:induction false} SelectStartsAtFirst(s: seq<Node>, tags: set<string>)
    ensures match FirstIndex(s, tags)
            case None => Select(s, tags) == []
            case Some(i) => Select(s, tags) != [] && Select(s, tags)[0] == s[i]
  {
    if s != [] && !Tagged(s[0], tags) {
      SelectStartsAtFirst(s[1..], tags);
    }
  }

  /** A node's descendants are all in its preorder. */
  lemma {:induction false} ForestMembers(cs: seq<Node>, x: Node)
    requires x in Forest(cs)
    ensures exists k :: 0 <= k < |cs| && x in Preorder(cs[k])
    decreases cs
  {
    if x !in Preorder(cs[0]) {
      ForestMembers(cs[1..], x);
      var k :| 0 <= k < |cs[1..]| && x in Preorder(cs[1..][k]);
      assert cs[1..][k] == cs[k + 1];
    }
  }

  lemma {:induction false} InForest(cs: seq<Node>, k: nat, x: Node)
    requires k < |cs| && x in Preorder(cs[k])
    ensures x in Forest(cs)
    decreases cs
  {
    if k > 0 {
      assert cs[1..][k - 1] == cs[k];
      InForest(cs[1..], k - 1, x);
    }
  }

  /** Being below is transitive: a descendant of a descendant of `n` is a
      descendant of `n`. */
  lemma {:induction false} DescendantTransitive(n: Node, m: Node, x: Node)
    requires m in Descendants(n) && x in Descendants(m)
    ensures x in Descendants(n)
    decreases n
  {
    var cs := n.children;
    ForestMembers(cs, m);
    var k :| 0 <= k < |cs| && m in Preorder(cs[k]);
    var c := cs[k];
    if m == c {
      InForest(cs, k, x);
    } else {
      assert m in Descendants(c);
      DescendantTransitive(c, m, x);
      InForest(cs, k, x);
    }
  }
}
