/**
  A value model of the part of an HTML document that the caption plugin
  reads and rewrites, the jQuery operations it calls on it, and the live
  document those operations change in place.

  An element carries its tag name (lower case, as jQuery's `is('a')`
  compares it for HTML), its attributes other than `class`, its `class`
  attribute as a list of class tokens (an empty list is an absent
  attribute), and its children. A node is addressed by the child indices
  leading to it from the root.
*/
module Dom {

  datatype Node =
    | Elem(tag: string, attrs: map<string, string>, classes: seq<string>, children: seq<Node>)
    | Text(text: string)

  /** Child indices from the root to a node; `[]` is the root itself. */
  type Path = seq<nat>

  /** Tag of the node that stands for the document itself (the parent of the top-level element). */
  const DocumentTag := "#document"

  /** Attribute `name` is present on `n`. */
  predicate HasAttr(n: Node, name: string)
  {
    n.Elem? && if name == "class" then n.classes != [] else name in n.attrs
  }

  /** No element in the subtree of `n` keeps a `class` entry among its other attributes: classes live in `classes` only. */
  predicate WellFormed(n: Node)
  {
    match n
    case Text(_) => true
    case Elem(_, attrs, _, children) =>
      && "class" !in attrs
      && forall i :: 0 <= i < |children| ==> WellFormed(children[i])
  }

  /** jQuery's `is(tag)` on a single node. */
  predicate Is(n: Node, tag: string)
  {
    n.Elem? && n.tag == tag
  }

  /** No two positions of `s` hold the same token. */
  predicate NoDuplicates(s: seq<string>)
  {
    forall i, j :: 0 <= i < j < |s| ==> s[i] != s[j]
  }

  /** `added` repeats no token and holds none of the tokens of `current`. */
  predicate Fresh(current: seq<string>, added: seq<string>)
  {
    NoDuplicates(added) && forall x :: x in added ==> x !in current
  }

  // ---------------------------------------------------------------------
  // Addressing nodes by path
  // ---------------------------------------------------------------------

  predicate ValidPath(t: Node, path: Path)
  {
    path == [] || (t.Elem? && path[0] < |t.children| && ValidPath(t.children[path[0]], path[1..]))
  }

  function Get(t: Node, path: Path): Node
    requires ValidPath(t, path)
  {
    if path == [] then t else Get(t.children[path[0]], path[1..])
  }

  /** The parent's path (jQuery's `parent()`). */
  function Parent(path: Path): (q: Path)
    requires path != []
    ensures q <= path && |q| == |path| - 1
  {
    path[..|path| - 1]
  }

  /** Two elements with the same tag and the same attributes other than `class`. */
  predicate SameHead(a: Node, b: Node)
  {
    a.Elem? && b.Elem? && a.tag == b.tag && a.attrs == b.attrs
  }

  /** Two elements that differ at most in what their children contain. */
  predicate SameShell(a: Node, b: Node)
  {
    SameHead(a, b) && a.classes == b.classes && |a.children| == |b.children|
  }

  /**
    The tree with the node at `path` replaced by `n`: `n` sits at that path
    afterwards, and every ancestor keeps its tag, attributes, classes,
    number of children and all its other children.
  */
  function SetAt(t: Node, path: Path, n: Node): (r: Node)
    requires ValidPath(t, path)
    ensures ValidPath(r, path) && Get(r, path) == n
    ensures path != [] ==> SameShell(r, t)
    ensures path != [] ==> forall k :: 0 <= k < |t.children| && k != path[0] ==> r.children[k] == t.children[k]
  {
    if path == [] then n
    else t.(children := t.children[path[0] := SetAt(t.children[path[0]], path[1..], n)])
  }

  /** Every subtree of a well-formed tree is well formed. */
  lemma {:induction false} WellFormedGet(t: Node, path: Path)
    requires WellFormed(t) && ValidPath(t, path)
    ensures WellFormed(Get(t, path))
  {
    if path != [] {
      WellFormedGet(t.children[path[0]], path[1..]);
    }
  }

  /** Putting a well-formed node into a well-formed tree keeps it well formed. */
  lemma {:induction false} WellFormedSetAt(t: Node, path: Path, n: Node)
    requires WellFormed(t) && WellFormed(n) && ValidPath(t, path)
    ensures WellFormed(SetAt(t, path, n))
  {
    if path != [] {
      WellFormedSetAt(t.children[path[0]], path[1..], n);
      var r := SetAt(t, path, n);
      assert forall i :: 0 <= i < |r.children| ==> r.children[i] == t.children[i] || i == path[0];
    }
  }

  lemma PrefixTransitive(a: Path, b: Path, c: Path)
    requires a <= b && b <= c
    ensures a <= c
  {
  }

  /** Every prefix of a valid path is valid, and the node at `p` is reached from the node at the prefix. */
  lemma {:induction false} PrefixValid(t: Node, p: Path, u: Path)
    requires ValidPath(t, p) && u <= p
    ensures ValidPath(t, u) && ValidPath(Get(t, u), p[|u|..])
    ensures Get(Get(t, u), p[|u|..]) == Get(t, p)
  {
    if u == [] {
      assert p[|u|..] == p;
    } else {
      assert u[1..] <= p[1..];
      PrefixValid(t.children[p[0]], p[1..], u[1..]);
      assert p[1..][|u| - 1..] == p[|u|..];
    }
  }

  /** Replacing at `u` leaves alone every node that is neither above nor below `u`. */
  lemma {:induction false} SetAtElsewhere(t: Node, u: Path, n: Node, q: Path)
    requires ValidPath(t, u) && ValidPath(t, q)
    requires !(u <= q) && !(q <= u)
    ensures ValidPath(SetAt(t, u, n), q) && Get(SetAt(t, u, n), q) == Get(t, q)
  {
    var r := SetAt(t, u, n);
    if u[0] == q[0] {
      assert u == [u[0]] + u[1..] && q == [q[0]] + q[1..];
      assert !(u[1..] <= q[1..]) && !(q[1..] <= u[1..]);
      SetAtElsewhere(t.children[u[0]], u[1..], n, q[1..]);
    } else {
      assert r.children[q[0]] == t.children[q[0]];
    }
  }

  /** Replacing at `u` changes a node above `u` into that node with the replacement made below it. */
  lemma {:induction false} SetAtAbove(t: Node, u: Path, n: Node, q: Path)
    requires ValidPath(t, u) && q <= u
    ensures ValidPath(t, q) && ValidPath(Get(t, q), u[|q|..])
    ensures ValidPath(SetAt(t, u, n), q)
    ensures Get(SetAt(t, u, n), q) == SetAt(Get(t, q), u[|q|..], n)
  {
    PrefixValid(t, u, q);
    if q == [] {
      assert u[|q|..] == u;
    } else {
      assert q[1..] <= u[1..];
      SetAtAbove(t.children[u[0]], u[1..], n, q[1..]);
      assert u[1..][|q| - 1..] == u[|q|..];
    }
  }

  /** A replacement at `p` is lost when a node on the way to `p` is replaced afterwards. */
  lemma {:induction false} SetAtAbsorbs(t: Node, p: Path, a: Node, u: Path, c: Node)
    requires ValidPath(t, p) && u <= p
    ensures ValidPath(t, u) && ValidPath(SetAt(t, p, a), u)
    ensures SetAt(SetAt(t, p, a), u, c) == SetAt(t, u, c)
  {
    PrefixValid(t, p, u);
    PrefixValid(SetAt(t, p, a), p, u);
    if u != [] {
      assert u[1..] <= p[1..];
      var s := SetAt(t, p, a);
      SetAtAbsorbs(t.children[p[0]], p[1..], a, u[1..], c);
      assert s.children[u[0] := SetAt(s.children[u[0]], u[1..], c)]
          == t.children[u[0] := SetAt(t.children[u[0]], u[1..], c)];
    }
  }

  /** The number of nodes in a subtree. */
  function Size(n: Node): nat
  {
    match n
    case Text(_) => 1
    case Elem(_, _, _, children) => 1 + SizeOf(children)
  }

  function SizeOf(nodes: seq<Node>): nat
  {
    if nodes == [] then 0 else SizeOf(nodes[..|nodes| - 1]) + Size(nodes[|nodes| - 1])
  }

  lemma SizeOfOne(n: Node)
    ensures SizeOf([n]) == Size(n)
  {
    assert [n][..0] == [];
  }

  /** Two lists whose members have the same sizes, position by position, have the same total size. */
  lemma {:induction false} SizeOfPointwise(a: seq<Node>, b: seq<Node>)
    requires |a| == |b|
    requires forall i :: 0 <= i < |a| ==> Size(a[i]) == Size(b[i])
    ensures SizeOf(a) == SizeOf(b)
  {
    if a != [] {
      SizeOfPointwise(a[..|a| - 1], b[..|b| - 1]);
    }
  }

  /** Replacing a subtree by one of the same size keeps the size of the tree. */
  lemma {:induction false} SetAtSize(t: Node, path: Path, n: Node)
    requires ValidPath(t, path) && Size(n) == Size(Get(t, path))
    ensures Size(SetAt(t, path, n)) == Size(t)
  {
    if path != [] {
      var r := SetAt(t, path, n);
      SetAtSize(t.children[path[0]], path[1..], n);
      SizeOfPointwise(r.children, t.children);
    }
  }

  // ---------------------------------------------------------------------
  // jQuery operations on a single node (values; `clone()` is the value itself)
  // ---------------------------------------------------------------------

  /** `removeAttr(name)`: that attribute is gone, every other attribute and the content are as they were. */
  function RemoveAttr(n: Node, name: string): (r: Node)
    requires n.Elem?
    ensures !HasAttr(r, name)
    ensures r.Elem? && r.tag == n.tag && r.children == n.children
    ensures forall a :: a != name ==> (HasAttr(r, a) <==> HasAttr(n, a))
    ensures forall a :: a in r.attrs ==> a in n.attrs && r.attrs[a] == n.attrs[a]
    ensures name != "class" ==> r.classes == n.classes
    ensures WellFormed(n) ==> WellFormed(r)
  {
    if name == "class" then n.(classes := []) else n.(attrs := n.attrs - {name})
  }

  /**
    jQuery's `addClass`: each token not yet present is appended, in order.
    The result holds exactly the old tokens and the new ones and starts with
    the old list; what is appended is drawn from `tokens`, repeats nothing
    and holds no token already present.
  */
  function AddClasses(current: seq<string>, tokens: seq<string>): (r: seq<string>)
    ensures forall x :: x in r <==> x in current || x in tokens
    ensures current <= r
    ensures Fresh(current, r[|current|..]) && forall x :: x in r[|current|..] ==> x in tokens
    ensures NoDuplicates(current) ==> NoDuplicates(r)
    decreases tokens
  {
    if tokens == [] then current
    else AddClasses(if tokens[0] in current then current else current + [tokens[0]], tokens[1..])
  }

  /** `addClass(tokens)` on one element. */
  function AddClass(n: Node, tokens: seq<string>): (r: Node)
    requires n.Elem?
    ensures SameHead(r, n) && r.children == n.children
    ensures forall x :: x in r.classes <==> x in n.classes || x in tokens
    ensures n.classes <= r.classes && Fresh(n.classes, r.classes[|n.classes|..])
  {
    n.(classes := AddClasses(n.classes, tokens))
  }

  /** `append(child)`: `child` becomes the last child. */
  function Append(n: Node, child: Node): (r: Node)
    requires n.Elem?
    ensures SameHead(r, n) && r.classes == n.classes
    ensures |r.children| == |n.children| + 1 && r.children[|n.children|] == child
    ensures forall i :: 0 <= i < |n.children| ==> r.children[i] == n.children[i]
  {
    n.(children := n.children + [child])
  }

  /** `html(node)` with a node: the element's content becomes that one node. */
  function SetHtml(n: Node, content: Node): (r: Node)
    requires n.Elem?
    ensures SameHead(r, n) && r.classes == n.classes
    ensures |r.children| == 1 && Get(r, [0]) == content
  {
    n.(children := [content])
  }

  /** `text(s)`: the element's content becomes one text node holding `s`, never parsed as markup. */
  function SetText(n: Node, s: string): (r: Node)
    requires n.Elem?
    ensures SameHead(r, n) && r.classes == n.classes
    ensures |r.children| == 1 && r.children[0].Text? && r.children[0].text == s
  {
    n.(children := [Text(s)])
  }

  /** Every `img` element in the subtree of `n` (including `n`) has no `class` attribute. */
  predicate NoImgClass(n: Node)
  {
    match n
    case Text(_) => true
    case Elem(tag, _, _, children) =>
      && (tag == "img" ==> !HasAttr(n, "class"))
      && forall i :: 0 <= i < |children| ==> NoImgClass(children[i])
  }

  /**
    `removeAttr('class')` on every `img` in the subtree of `n`, `n` included.
    Afterwards no `img` there has a class; every node keeps its kind, tag,
    number of children and every other attribute, and a node that is not an
    `img` keeps its classes too.
  */
  function RemoveImgClass(n: Node): (r: Node)
    ensures NoImgClass(r)
    ensures n.Text? ==> r == n
    ensures n.Elem? ==> r.Elem? && r.tag == n.tag && r.attrs == n.attrs && |r.children| == |n.children|
    ensures n.Elem? && n.tag != "img" ==> r.classes == n.classes
    ensures n.Elem? ==> forall i :: 0 <= i < |n.children| ==> r.children[i] == RemoveImgClass(n.children[i])
    ensures WellFormed(n) ==> WellFormed(r)
  {
    match n
    case Text(_) => n
    case Elem(tag, attrs, classes, children) =>
      var kids := seq(|children|, i requires 0 <= i < |children| => RemoveImgClass(children[i]));
      if tag == "img" then Elem(tag, attrs, [], kids)
      else Elem(tag, attrs, classes, kids)
  }

  /** A subtree with no classed `img` is left exactly as it is. */
  lemma {:induction false} RemoveImgClassFixes(n: Node)
    requires NoImgClass(n)
    ensures RemoveImgClass(n) == n
  {
    if n.Elem? {
      var r := RemoveImgClass(n);
      forall i | 0 <= i < |n.children|
        ensures r.children[i] == n.children[i]
      {
        RemoveImgClassFixes(n.children[i]);
      }
      assert r.children == n.children;
    }
  }

  /** Removing classes changes no node count. */
  lemma {:induction false} RemoveImgClassSize(n: Node)
    ensures Size(RemoveImgClass(n)) == Size(n)
  {
    if n.Elem? {
      var r := RemoveImgClass(n);
      forall i | 0 <= i < |n.children|
        ensures Size(r.children[i]) == Size(n.children[i])
      {
        RemoveImgClassSize(n.children[i]);
      }
      SizeOfPointwise(r.children, n.children);
    }
  }

  /** `find('img').removeAttr('class')`: the same on every descendant of `n`, but not on `n` itself. */
  function FindImgRemoveClass(n: Node): (r: Node)
    requires n.Elem?
    ensures SameShell(r, n)
    ensures forall i :: 0 <= i < |r.children| ==> r.children[i] == RemoveImgClass(n.children[i])
    ensures forall i :: 0 <= i < |r.children| ==> NoImgClass(r.children[i])
    ensures WellFormed(n) ==> WellFormed(r)
  {
    n.(children := seq(|n.children|, i requires 0 <= i < |n.children| => RemoveImgClass(n.children[i])))
  }

  // ---------------------------------------------------------------------
  // The live document
  // ---------------------------------------------------------------------

  /** The live document tree, changed in place by the jQuery calls the plugin makes. */
  class Document {
    var root: Node

    /** The root stands for the document node itself, so every element has a parent; the tree is well formed. */
    ghost predicate Valid()
      reads this
    {
      root.Elem? && root.tag == DocumentTag && WellFormed(root)
    }

    constructor (children: seq<Node>)
      requires forall i :: 0 <= i < |children| ==> WellFormed(children[i])
      ensures Valid() && root == Elem(DocumentTag, map[], [], children)
    {
      root := Elem(DocumentTag, map[], [], children);
    }

    /** `$(e).removeAttr(name)` on the element at `path`. */
    method RemoveAttrAt(path: Path, name: string)
      requires Valid() && path != [] && ValidPath(root, path) && Get(root, path).Elem?
      modifies this
      ensures Valid()
      ensures root == SetAt(old(root), path, RemoveAttr(Get(old(root), path), name))
    {
      WellFormedGet(root, path);
      WellFormedSetAt(root, path, RemoveAttr(Get(root, path), name));
      root := SetAt(root, path, RemoveAttr(Get(root, path), name));
    }

    /** `replaceWith(n)` on the node at `path`: `n` takes its place among its siblings. */
    method ReplaceWith(path: Path, n: Node)
      requires Valid() && path != [] && ValidPath(root, path) && WellFormed(n)
      modifies this
      ensures Valid()
      ensures root == SetAt(old(root), path, n)
    {
      WellFormedSetAt(root, path, n);
      root := SetAt(root, path, n);
    }
  }
}
