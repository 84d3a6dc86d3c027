/**
  The image-caption rewrite. For a selected element with a non-empty
  `title`, the element's presentation attributes are removed, and the
  element (or the link around it, when its parent is an `a`) is replaced
  in the document by a new container holding a clone of it in an image
  wrapper, followed by a caption wrapper whose text is the title.

  `Rewrite` states the outcome of one such step on the whole tree;
  `CaptionOne` performs it the way the plugin does, step by step on the
  live document, and is proved to reach that outcome; `ImageCaption`
  runs it over a selection.
*/
module ImageCaptionPlugin {
  import opened Dom
  import opened Config

  /** A selected element the plugin can work on: it is an element, it has a parent, and it carries a `title`. */
  predicate Selectable(t: Node, p: Path)
  {
    p != [] && ValidPath(t, p) && Get(t, p).Elem? && "title" in Get(t, p).attrs
  }

  function Title(t: Node, p: Path): string
    requires Selectable(t, p)
  {
    Get(t, p).attrs["title"]
  }

  /** The image's parent is a link. */
  predicate InLink(t: Node, p: Path)
    requires Selectable(t, p)
  {
    PrefixValid(t, p, Parent(p));
    Is(Get(t, Parent(p)), "a")
  }

  /** The replacement unit: the link around the image when its parent is an `a`, otherwise the image itself. */
  function UnitPath(t: Node, p: Path): (u: Path)
    requires Selectable(t, p)
    ensures u <= p && ValidPath(t, u)
  {
    PrefixValid(t, p, Parent(p));
    if InLink(t, p) then Parent(p) else p
  }

  /** The image without its `align`, `border` and `style` attributes. */
  function StripPresentation(img: Node): (r: Node)
    requires img.Elem?
    ensures !HasAttr(r, "align") && !HasAttr(r, "border") && !HasAttr(r, "style")
    ensures r.Elem? && r.tag == img.tag && r.classes == img.classes && r.children == img.children
    ensures r.attrs == img.attrs - {"align", "border", "style"}
    ensures WellFormed(img) ==> WellFormed(r)
  {
    RemoveAttr(RemoveAttr(RemoveAttr(img, "align"), "border"), "style")
  }

  /** The replacement unit as it is cloned: its image has already lost its presentation attributes. */
  function UnitClone(t: Node, p: Path): Node
    requires Selectable(t, p)
  {
    var u := UnitPath(t, p);
    PrefixValid(t, p, u);
    SetAt(Get(t, u), p[|u|..], StripPresentation(Get(t, p)))
  }

  /**
    The new container for image `img` (which supplies the classes and the
    title) and the cloned replacement unit: the container recipe's element
    with the image's classes added, holding the image wrapper around the
    clone and then the caption wrapper around the title text, with `class`
    removed from every `img` below the container.
  */
  function Caption(s: Settings, img: Node, unit: Node): Node
    requires img.Elem? && "title" in img.attrs
  {
    var cc, iw, cw := s.captionContainer, s.imageWrapper, s.captionWrapper;
    FindImgRemoveClass(
      Elem(cc.tag, map[], AddClasses(cc.classes, img.classes),
        [ Elem(iw.tag, map[], iw.classes, [unit]),
          Elem(cw.tag, map[], cw.classes, [Text(img.attrs["title"])]) ]))
  }

  /** The caption container that the plugin builds for the element at `p`. */
  function Container(t: Node, p: Path, s: Settings): Node
    requires Selectable(t, p)
  {
    Caption(s, Get(t, p), UnitClone(t, p))
  }

  /**
    The document after the plugin has processed the element at `p`: with
    an empty title it is the same document, otherwise the replacement unit
    is replaced by the caption container.
  */
  function Rewrite(t: Node, p: Path, s: Settings): Node
    requires Selectable(t, p)
  {
    if Title(t, p) == "" then t else SetAt(t, UnitPath(t, p), Container(t, p, s))
  }

  // ---------------------------------------------------------------------
  // What one rewrite does
  // ---------------------------------------------------------------------

  /** The container has four nodes more than the unit it holds: itself, the two wrappers and the text. */
  lemma {:induction false} CaptionSize(s: Settings, img: Node, unit: Node)
    requires img.Elem? && "title" in img.attrs
    ensures Size(Caption(s, img, unit)) == Size(unit) + 4
  {
    var iw, cw := s.imageWrapper, s.captionWrapper;
    var w0 := Elem(iw.tag, map[], iw.classes, [unit]);
    var w1 := Elem(cw.tag, map[], cw.classes, [Text(img.attrs["title"])]);
    SizeOfOne(unit);
    SizeOfOne(Text(img.attrs["title"]));
    RemoveImgClassSize(w0);
    RemoveImgClassSize(w1);
    var c := Caption(s, img, unit);
    assert c.children == [RemoveImgClass(w0), RemoveImgClass(w1)];
    assert c.children[..1] == [c.children[0]];
    SizeOfOne(c.children[0]);
  }

  /** The document is left exactly as it was if and only if the title is the empty string. */
  lemma UnchangedIffEmptyTitle(t: Node, p: Path, s: Settings)
    requires Selectable(t, p)
    ensures Rewrite(t, p, s) == t <==> Title(t, p) == ""
  {
    if Title(t, p) != "" {
      var u, img := UnitPath(t, p), Get(t, p);
      PrefixValid(t, p, u);
      SetAtSize(Get(t, u), p[|u|..], StripPresentation(img));
      CaptionSize(s, img, UnitClone(t, p));
      assert Get(Rewrite(t, p, s), u) != Get(t, u);
    }
  }

  /**
    With a non-empty title the container takes the replacement unit's
    place: every node outside the unit is unchanged, and every ancestor of
    the unit keeps its tag, attributes, classes, number of children and all
    its other children.
  */
  lemma ReplacedInPlace(t: Node, p: Path, s: Settings, q: Path)
    requires Selectable(t, p) && Title(t, p) != ""
    requires ValidPath(t, q) && !(UnitPath(t, p) <= q)
    ensures ValidPath(Rewrite(t, p, s), UnitPath(t, p))
    ensures Get(Rewrite(t, p, s), UnitPath(t, p)) == Container(t, p, s)
    ensures ValidPath(Rewrite(t, p, s), q)
    ensures !(q <= UnitPath(t, p)) ==> Get(Rewrite(t, p, s), q) == Get(t, q)
    ensures q <= UnitPath(t, p) ==>
      var u, before, after := UnitPath(t, p), Get(t, q), Get(Rewrite(t, p, s), q);
      && SameShell(after, before)
      && forall k :: 0 <= k < |before.children| && k != u[|q|] ==> after.children[k] == before.children[k]
  {
    var u := UnitPath(t, p);
    if q <= u {
      SetAtAbove(t, u, Container(t, p, s), q);
    } else {
      SetAtElsewhere(t, u, Container(t, p, s), q);
    }
  }

  /**
    The container is made from the container recipe, with no attribute of
    its own, and its classes are the recipe's followed by the image's own
    classes not already there.
  */
  lemma ContainerClasses(t: Node, p: Path, s: Settings)
    requires Selectable(t, p)
    ensures var c, cc, img := Container(t, p, s), s.captionContainer, Get(t, p);
      && c.Elem? && c.tag == cc.tag && c.attrs == map[]
      && cc.classes <= c.classes
      && (forall x :: x in c.classes <==> x in cc.classes || x in img.classes)
      && Fresh(cc.classes, c.classes[|cc.classes|..])
      && (forall x :: x in c.classes[|cc.classes|..] ==> x in img.classes)
      && (NoDuplicates(cc.classes) ==> NoDuplicates(c.classes))
  {
  }

  /**
    The container holds exactly two children: first the image wrapper,
    whose only child is the cleaned clone of the replacement unit, then the
    caption wrapper, whose only child is a text node holding the title as
    it is. No `img` inside the container has a class.
  */
  lemma ContainerLayout(t: Node, p: Path, s: Settings)
    requires Selectable(t, p)
    ensures var c, iw, cw := Container(t, p, s), s.imageWrapper, s.captionWrapper;
      && c.Elem? && |c.children| == 2
      && c.children[0].Elem? && c.children[0].tag == iw.tag && c.children[0].attrs == map[]
      && c.children[0].classes == (if iw.tag == "img" then [] else iw.classes)
      && c.children[0].children == [RemoveImgClass(UnitClone(t, p))]
      && c.children[1] == Elem(cw.tag, map[], if cw.tag == "img" then [] else cw.classes, [Text(Title(t, p))])
      && NoImgClass(c.children[0]) && NoImgClass(c.children[1])
  {
  }

  /** Built from a well-formed document, the container is well formed: no element in it holds `class` outside its class list. */
  lemma ContainerWellFormed(t: Node, p: Path, s: Settings)
    requires Selectable(t, p) && WellFormed(t)
    ensures WellFormed(Container(t, p, s))
  {
    var u, img := UnitPath(t, p), Get(t, p);
    PrefixValid(t, p, u);
    WellFormedGet(t, u);
    WellFormedGet(t, p);
    WellFormedSetAt(Get(t, u), p[|u|..], StripPresentation(img));
    var unit := UnitClone(t, p);
    var iw, cw, cc := s.imageWrapper, s.captionWrapper, s.captionContainer;
    var w0 := Elem(iw.tag, map[], iw.classes, [unit]);
    var w1 := Elem(cw.tag, map[], cw.classes, [Text(img.attrs["title"])]);
    assert WellFormed(w0) && WellFormed(w1);
    var bare := Elem(cc.tag, map[], AddClasses(cc.classes, img.classes), [w0, w1]);
    assert WellFormed(bare);
    assert Container(t, p, s) == FindImgRemoveClass(bare);
  }

  /** Where the image sits inside the unit: nowhere below it, or at its own index in the link. */
  function ImageOffset(t: Node, p: Path): (k: Path)
    requires Selectable(t, p)
    ensures |k| <= 1 && (k == [] <==> !InLink(t, p))
  {
    p[|UnitPath(t, p)|..]
  }

  /** The cleaned clone of the unit holds the cleaned, stripped image where the unit held the image. */
  lemma ImageInClone(t: Node, p: Path)
    requires Selectable(t, p)
    ensures ValidPath(RemoveImgClass(UnitClone(t, p)), ImageOffset(t, p))
    ensures Get(RemoveImgClass(UnitClone(t, p)), ImageOffset(t, p)) == RemoveImgClass(StripPresentation(Get(t, p)))
  {
  }

  /**
    The image's clone sits in the image wrapper (inside the link when there
    is one). It keeps its tag and every attribute except `align`, `border`
    and `style`, which are gone; an `img` clone has lost `class` too.
  */
  lemma CleanImage(t: Node, p: Path, s: Settings)
    requires Selectable(t, p)
    ensures var c, at := Container(t, p, s), [0, 0] + ImageOffset(t, p);
      && ValidPath(c, at)
      && var clone, img := Get(c, at), Get(t, p);
      && clone.Elem? && clone.tag == img.tag && |clone.children| == |img.children|
      && !HasAttr(clone, "align") && !HasAttr(clone, "border") && !HasAttr(clone, "style")
      && clone.attrs == img.attrs - {"align", "border", "style"}
      && (img.tag == "img" ==> !HasAttr(clone, "class"))
      && (img.tag != "img" ==> clone.classes == img.classes)
  {
    var c, k := Container(t, p, s), ImageOffset(t, p);
    ContainerLayout(t, p, s);
    ImageInClone(t, p);
    var cleaned := RemoveImgClass(UnitClone(t, p));
    var at: Path := [0, 0] + k;
    assert at[0] == 0 && at[1..][0] == 0 && at[1..][1..] == k;
    assert c.children[0].children[0] == cleaned;
    assert Get(c.children[0], at[1..]) == Get(cleaned, k);
    assert Get(c, at) == Get(c.children[at[0]], at[1..]);
    var img := Get(t, p);
    assert Get(c, at) == RemoveImgClass(StripPresentation(img));
  }

  /** The node at the image wrapper's only position is the cleaned unit clone. */
  lemma CaptionHoldsUnit(s: Settings, img: Node, unit: Node)
    requires img.Elem? && "title" in img.attrs
    ensures ValidPath(Caption(s, img, unit), [0, 0])
    ensures Get(Caption(s, img, unit), [0, 0]) == RemoveImgClass(unit)
  {
    var c := Caption(s, img, unit);
    var iw := s.imageWrapper;
    var w0 := Elem(iw.tag, map[], iw.classes, [unit]);
    assert c.children[0] == RemoveImgClass(w0);
    assert RemoveImgClass(w0).children[0] == RemoveImgClass(unit);
    assert [0, 0][1..] == [0] && [0][1..] == [];
    assert Get(c, [0, 0]) == Get(c.children[0], [0]) == Get(c.children[0].children[0], []);
  }

  /** When the image is in a link, the unit clone is that link with only the image's slot changed. */
  lemma UnitCloneInLink(t: Node, p: Path)
    requires Selectable(t, p) && InLink(t, p)
    ensures UnitPath(t, p) == Parent(p) && ValidPath(t, Parent(p))
    ensures var link, unit := Get(t, Parent(p)), UnitClone(t, p);
      && SameShell(unit, link)
      && forall i :: 0 <= i < |link.children| && i != p[|p| - 1] ==> unit.children[i] == link.children[i]
  {
  }

  /**
    When the image's parent is a link, the link is the unit: its clone in
    the image wrapper keeps the link's tag, attributes (its `href`) and
    classes, and its other children lose only the classes of their images.
    Otherwise the image itself is the unit.
  */
  lemma LinkTravels(t: Node, p: Path, s: Settings)
    requires Selectable(t, p)
    ensures InLink(t, p) <==> UnitPath(t, p) == Parent(p)
    ensures !InLink(t, p) <==> UnitPath(t, p) == p
    ensures InLink(t, p) ==>
      var c, link := Container(t, p, s), Get(t, Parent(p));
      && ValidPath(c, [0, 0]) && var clone := Get(c, [0, 0]);
      && clone.Elem? && clone.tag == "a" && clone.attrs == link.attrs && clone.classes == link.classes
      && |clone.children| == |link.children|
      && forall i :: 0 <= i < |link.children| && i != p[|p| - 1] ==> clone.children[i] == RemoveImgClass(link.children[i])
  {
    assert Parent(p) != p;
    if InLink(t, p) {
      UnitCloneInLink(t, p);
      CaptionHoldsUnit(s, Get(t, p), UnitClone(t, p));
    }
  }

  // ---------------------------------------------------------------------
  // The per-element body, on the live document
  // ---------------------------------------------------------------------

  /**
    The jQuery calls that build the container (create the container,
    `addClass`, `append` the image wrapper with the clone as its `html`,
    `append` the caption wrapper with the title as its `text`, then clean
    the `img` elements inside) make exactly `Caption`.
  */
  lemma CaptionSteps(s: Settings, img: Node, unit: Node)
    requires img.Elem? && "title" in img.attrs
    ensures
      var built := Append(AddClass(Instantiate(s.captionContainer), img.classes),
                          SetHtml(Instantiate(s.imageWrapper), unit));
      FindImgRemoveClass(Append(built, SetText(Instantiate(s.captionWrapper), img.attrs["title"])))
        == Caption(s, img, unit)
  {
  }

  /**
    The body of the plugin's loop for one selected element, in the
    plugin's own order: strip the live image, choose the unit, build the
    container off the tree, clean its images, then replace the unit.
  */
  method CaptionOne(doc: Document, p: Path, s: Settings)
    requires doc.Valid() && Selectable(doc.root, p)
    modifies doc
    ensures doc.Valid()
    ensures doc.root == Rewrite(old(doc.root), p, s)
  {
    ghost var t := doc.root;
    var image := Get(doc.root, p);
    if image.attrs["title"] != "" {
      doc.RemoveAttrAt(p, "align");
      doc.RemoveAttrAt(p, "border");
      doc.RemoveAttrAt(p, "style");
      ghost var stripped := StripPresentation(image);
      SetAtAbsorbs(t, p, RemoveAttr(image, "align"), p, RemoveAttr(RemoveAttr(image, "align"), "border"));
      SetAtAbsorbs(t, p, RemoveAttr(RemoveAttr(image, "align"), "border"), p, stripped);
      assert doc.root == SetAt(t, p, stripped);

      var current := Get(doc.root, p);
      var parent := Parent(p);
      SetAtAbove(t, p, stripped, parent);
      var replace := if Is(Get(doc.root, parent), "a") then parent else p;
      assert replace == UnitPath(t, p);
      SetAtAbove(t, p, stripped, replace);
      assert replace != [];

      var caption := Instantiate(s.captionContainer);
      caption := AddClass(caption, current.classes);
      caption := Append(caption, SetHtml(Instantiate(s.imageWrapper), Get(doc.root, replace)));
      caption := Append(caption, SetText(Instantiate(s.captionWrapper), current.attrs["title"]));
      caption := FindImgRemoveClass(caption);
      CaptionSteps(s, current, Get(doc.root, replace));
      assert Get(doc.root, replace) == UnitClone(t, p);
      assert caption == Container(t, p, s);

      SetAtAbsorbs(t, p, stripped, replace, caption);
      ContainerWellFormed(t, p, s);
      doc.ReplaceWith(replace, caption);
    }
  }

  // ---------------------------------------------------------------------
  // The loop over the selection
  // ---------------------------------------------------------------------

  /**
    A selection whose elements can be processed one after the other
    without one step disturbing another: every element is selectable, and
    no selected element lies in (or is) another one's replacement unit.
  */
  predicate Independent(t: Node, sel: seq<Path>)
  {
    && (forall i :: 0 <= i < |sel| ==> Selectable(t, sel[i]))
    && (forall i, j :: 0 <= i < |sel| && 0 <= j < |sel| && i != j ==> !(UnitPath(t, sel[i]) <= sel[j]))
  }

  /** The replacement units of two independent elements are disjoint subtrees. */
  lemma UnitsApart(t: Node, p: Path, q: Path)
    requires Selectable(t, p) && Selectable(t, q)
    requires !(UnitPath(t, p) <= q) && !(UnitPath(t, q) <= p)
    ensures !(UnitPath(t, p) <= UnitPath(t, q)) && !(UnitPath(t, q) <= UnitPath(t, p))
  {
  }

  /**
    Processing `p` leaves an element `q` independent of it as it was: the
    same element at the same path, with the same replacement unit and so
    the same container to come.
  */
  lemma RewriteKeeps(t: Node, p: Path, q: Path, s: Settings)
    requires Selectable(t, p) && Selectable(t, q)
    requires !(UnitPath(t, p) <= q) && !(UnitPath(t, q) <= p)
    ensures var r := Rewrite(t, p, s);
      && Selectable(r, q) && Get(r, q) == Get(t, q)
      && UnitPath(r, q) == UnitPath(t, q)
      && Get(r, UnitPath(t, q)) == Get(t, UnitPath(t, q))
      && Container(r, q, s) == Container(t, q, s)
  {
    if Title(t, p) != "" {
      var up, uq := UnitPath(t, p), UnitPath(t, q);
      var c := Container(t, p, s);
      UnitsApart(t, p, q);
      SetAtElsewhere(t, up, c, uq);
      if q <= up {
        PrefixTransitive(uq, q, up);
      }
      SetAtElsewhere(t, up, c, q);
      var pq := Parent(q);
      PrefixValid(t, q, pq);
      if pq <= up {
        SetAtAbove(t, up, c, pq);
        assert up[|pq|..] != [];
      } else {
        if up <= pq {
          PrefixTransitive(up, pq, q);
        }
        SetAtElsewhere(t, up, c, pq);
      }
    }
  }

  /** After the first element is processed, the rest of an independent selection is still independent and unchanged. */
  lemma RestStaysIndependent(t: Node, sel: seq<Path>, s: Settings)
    requires Independent(t, sel) && sel != []
    ensures var r := Rewrite(t, sel[0], s);
      && Independent(r, sel[1..])
      && forall j :: 1 <= j < |sel| ==>
           && Get(r, sel[j]) == Get(t, sel[j])
           && UnitPath(r, sel[j]) == UnitPath(t, sel[j])
           && Get(r, UnitPath(t, sel[j])) == Get(t, UnitPath(t, sel[j]))
           && Container(r, sel[j], s) == Container(t, sel[j], s)
  {
    var r := Rewrite(t, sel[0], s);
    forall j | 1 <= j < |sel|
      ensures && Selectable(r, sel[j]) && Get(r, sel[j]) == Get(t, sel[j])
              && UnitPath(r, sel[j]) == UnitPath(t, sel[j])
              && Get(r, UnitPath(t, sel[j])) == Get(t, UnitPath(t, sel[j]))
              && Container(r, sel[j], s) == Container(t, sel[j], s)
    {
      RewriteKeeps(t, sel[0], sel[j], s);
    }
  }

  /** The document after the plugin has processed an independent selection, in order. */
  function RewriteAll(t: Node, sel: seq<Path>, s: Settings): Node
    requires Independent(t, sel)
    decreases |sel|
  {
    if sel == [] then t
    else
      RestStaysIndependent(t, sel, s);
      RewriteAll(Rewrite(t, sel[0], s), sel[1..], s)
  }

  /** Nodes outside every selected element's replacement unit (and not above one) are left as they were. */
  lemma {:induction false} OutsideUnitsUnchanged(t: Node, sel: seq<Path>, s: Settings, q: Path)
    requires Independent(t, sel) && ValidPath(t, q)
    requires forall j :: 0 <= j < |sel| ==> !(UnitPath(t, sel[j]) <= q) && !(q <= UnitPath(t, sel[j]))
    ensures ValidPath(RewriteAll(t, sel, s), q) && Get(RewriteAll(t, sel, s), q) == Get(t, q)
    decreases |sel|
  {
    if sel != [] {
      var r := Rewrite(t, sel[0], s);
      if Title(t, sel[0]) != "" {
        ReplacedInPlace(t, sel[0], s, q);
      }
      RestStaysIndependent(t, sel, s);
      OutsideUnitsUnchanged(r, sel[1..], s, q);
    }
  }

  /** What processing `p` alone puts at its replacement unit. */
  function Outcome(t: Node, p: Path, s: Settings): Node
    requires Selectable(t, p)
  {
    if Title(t, p) == "" then Get(t, UnitPath(t, p)) else Container(t, p, s)
  }

  /** The first element's outcome survives the processing of the rest of the selection. */
  lemma FirstOutcomeSurvives(t: Node, sel: seq<Path>, s: Settings)
    requires Independent(t, sel) && sel != []
    ensures ValidPath(RewriteAll(t, sel, s), UnitPath(t, sel[0]))
    ensures Get(RewriteAll(t, sel, s), UnitPath(t, sel[0])) == Outcome(t, sel[0], s)
  {
    var r := Rewrite(t, sel[0], s);
    var u := UnitPath(t, sel[0]);
    RestStaysIndependent(t, sel, s);
    assert ValidPath(r, u) && Get(r, u) == Outcome(t, sel[0], s);
    forall k | 0 <= k < |sel[1..]|
      ensures !(UnitPath(r, sel[1..][k]) <= u) && !(u <= UnitPath(r, sel[1..][k]))
    {
      UnitsApart(t, sel[0], sel[k + 1]);
    }
    OutsideUnitsUnchanged(r, sel[1..], s, u);
  }

  /**
    In the processed document, each selected element's replacement unit
    holds exactly what processing that element alone would put there: the
    unit itself when the title is empty, its caption container otherwise.
  */
  lemma {:induction false} EachCaptionedAsAlone(t: Node, sel: seq<Path>, s: Settings, j: nat)
    requires Independent(t, sel) && j < |sel|
    ensures ValidPath(RewriteAll(t, sel, s), UnitPath(t, sel[j]))
    ensures Get(RewriteAll(t, sel, s), UnitPath(t, sel[j])) == Outcome(t, sel[j], s)
    decreases |sel|
  {
    if j == 0 {
      FirstOutcomeSurvives(t, sel, s);
    } else {
      var r := Rewrite(t, sel[0], s);
      RestStaysIndependent(t, sel, s);
      assert sel[1..][j - 1] == sel[j];
      EachCaptionedAsAlone(r, sel[1..], s, j - 1);
      assert Outcome(r, sel[j], s) == Outcome(t, sel[j], s);
    }
  }

  /**
    `imageCaption(options)` on a selection: the settings are the defaults
    extended with the options, then each selected element is processed in
    order.
  */
  method ImageCaption(doc: Document, selection: seq<Path>, options: Overrides)
    requires doc.Valid() && Independent(doc.root, selection)
    modifies doc
    ensures doc.Valid()
    ensures doc.root == RewriteAll(old(doc.root), selection, Extend(Defaults, options))
  {
    var settings := Extend(Defaults, options);
    var i := 0;
    assert selection[i..] == selection;
    while i < |selection|
      invariant 0 <= i <= |selection|
      invariant doc.Valid() && Independent(doc.root, selection[i..])
      invariant RewriteAll(doc.root, selection[i..], settings) == RewriteAll(old(doc.root), selection, settings)
    {
      RestStaysIndependent(doc.root, selection[i..], settings);
      assert selection[i..][1..] == selection[i + 1..];
      CaptionOne(doc, selection[i], settings);
      i := i + 1;
    }
  }
}
