/**
  The worked example of the plugin's documentation: a linked image inside
  a paragraph inside a `div`, processed with the default settings.
*/
module DocumentedExample {
  import opened Dom
  import opened Config
  import opened ImageCaptionPlugin

  const ExampleTitle := "This is a picture of foo"

  /** The image's attributes other than `class` before the plugin runs. */
  const ImageAttrs := map[
    "alt" := "Image of foo", "align" := "left", "border" := "2", "height" := "100",
    "src" := "/foo/img/foo.jpg", "style" := "padding: 10px 5px;", "title" := ExampleTitle, "width" := "100"]

  const Image := Elem("img", ImageAttrs, ["image-foo"], [])
  const Link := Elem("a", map["href" := "/foo/"], [], [Image])
  const Paragraph := Elem("p", map[], ["p-foo"], [Link])
  const Before := Elem(DocumentTag, map[], [], [Elem("div", map[], ["foobar"], [Paragraph])])

  /** Where the image sits: document, div, paragraph, link, image. */
  const ImagePath: Path := [0, 0, 0, 0]

  /** The image as cloned and cleaned: no `align`, `border`, `style` or `class`. */
  const CleanedImage := Elem("img", map["alt" := "Image of foo", "height" := "100", "src" := "/foo/img/foo.jpg",
                                      "title" := ExampleTitle, "width" := "100"], [], [])

  const CaptionContainer := Elem("span", map[], ["re-imagecaption-wrapper", "image-foo"], [
    Elem("span", map[], ["re-imagecaption-image"], [Elem("a", map["href" := "/foo/"], [], [CleanedImage])]),
    Elem("span", map[], ["re-imagecaption-caption"], [Text(ExampleTitle)])])

  const After := Elem(DocumentTag, map[], [], [
    Elem("div", map[], ["foobar"], [Elem("p", map[], ["p-foo"], [CaptionContainer])])])

  const Division := Elem("div", map[], ["foobar"], [Paragraph])

  /** The paths of the documented input: the image and its link. */
  lemma ExamplePaths()
    ensures Selectable(Before, ImagePath) && Get(Before, ImagePath) == Image
    ensures ValidPath(Before, [0, 0, 0]) && Get(Before, [0, 0, 0]) == Link
    ensures InLink(Before, ImagePath) && UnitPath(Before, ImagePath) == [0, 0, 0]
  {
    assert Before.children[0] == Division;
    var p0, p1, p2, p3: Path := [], [0], [0, 0], [0, 0, 0];
    assert ImagePath[1..] == p3 && p3[1..] == p2 && p2[1..] == p1 && p1[1..] == p0;
    assert Link.children[0] == Image && Paragraph.children[0] == Link && Division.children[0] == Paragraph;
    assert Get(Link, p1) == Get(Link.children[p1[0]], p1[1..]) == Image;
    assert Get(Paragraph, p1) == Get(Paragraph.children[p1[0]], p1[1..]) == Link;
    assert Get(Paragraph, p2) == Get(Paragraph.children[p2[0]], p2[1..]) == Image;
    assert Get(Division, p2) == Get(Division.children[p2[0]], p2[1..]) == Link;
    assert p3[0] == 0 && |Division.children| == 1 && ValidPath(Division.children[p3[0]], p3[1..]);
    assert ValidPath(Division, p3);
    assert Get(Division, p3) == Get(Division.children[p3[0]], p3[1..]) == Image;
    assert ImagePath[0] == 0 && |Before.children| == 1 && ValidPath(Before.children[ImagePath[0]], ImagePath[1..]);
    assert ValidPath(Before, ImagePath);
    assert Get(Before, ImagePath) == Get(Before.children[ImagePath[0]], ImagePath[1..]) == Image;
    assert p3[0] == 0 && ValidPath(Before.children[p3[0]], p3[1..]);
    assert ValidPath(Before, p3);
    assert Get(Before, p3) == Get(Before.children[p3[0]], p3[1..]) == Link;
    assert Parent(ImagePath) == p3;
  }

  /** The image once `align`, `border` and `style` are gone. */
  lemma ExampleStripped()
    ensures StripPresentation(Image) == Elem("img", CleanedImage.attrs, ["image-foo"], [])
  {
    var kept := ImageAttrs - {"align", "border", "style"};
    assert kept.Keys == CleanedImage.attrs.Keys;
    assert kept == CleanedImage.attrs;
  }

  /** The clone of the link, holding the stripped image. */
  lemma ExampleClone()
    ensures Selectable(Before, ImagePath)
    ensures UnitClone(Before, ImagePath) == Elem("a", map["href" := "/foo/"], [], [StripPresentation(Image)])
  {
    ExamplePaths();
    var u: Path := [0, 0, 0];
    var p0, p1: Path := [], [0];
    assert ImagePath[|u|..] == p1 && p1[1..] == p0;
    var stripped := StripPresentation(Get(Before, ImagePath));
    assert SetAt(Link, p1, stripped) == Link.(children := Link.children[p1[0] := SetAt(Link.children[p1[0]], p0, stripped)]);
  }

  /** The cloned link once `class` is removed from the images inside it. */
  lemma ExampleCleanLink()
    ensures RemoveImgClass(Elem("a", map["href" := "/foo/"], [], [StripPresentation(Image)]))
         == Elem("a", map["href" := "/foo/"], [], [CleanedImage])
  {
    ExampleStripped();
    var clone := Elem("a", map["href" := "/foo/"], [], [StripPresentation(Image)]);
    assert RemoveImgClass(clone.children[0]) == CleanedImage;
  }

  /** `addClass('image-foo')` on the default container. */
  lemma ExampleClasses()
    ensures AddClasses(["re-imagecaption-wrapper"], ["image-foo"]) == ["re-imagecaption-wrapper", "image-foo"]
  {
    var once := AddClasses(["re-imagecaption-wrapper", "image-foo"], []);
    assert once == ["re-imagecaption-wrapper", "image-foo"];
  }

  /** The caption wrapper, cleaned, as it appears in the documented output. */
  lemma ExampleCaptionWrapper()
    ensures RemoveImgClass(Elem("span", map[], ["re-imagecaption-caption"], [Text(ExampleTitle)]))
         == CaptionContainer.children[1]
  {
    var w := Elem("span", map[], ["re-imagecaption-caption"], [Text(ExampleTitle)]);
    assert RemoveImgClass(w).children[0] == Text(ExampleTitle);
  }

  /** With the default settings, the documented image and a unit that cleans to the documented link make the documented container. */
  lemma ExampleCaption(unit: Node)
    requires RemoveImgClass(unit) == CaptionContainer.children[0].children[0]
    ensures Caption(Defaults, Image, unit) == CaptionContainer
  {
    ExampleCaptionWrapper();
    ExampleClasses();
    var w1 := Elem("span", map[], ["re-imagecaption-image"], [unit]);
    var w2 := Elem("span", map[], ["re-imagecaption-caption"], [Text(ExampleTitle)]);
    assert RemoveImgClass(w1).children[0] == RemoveImgClass(unit);
    assert RemoveImgClass(w1) == CaptionContainer.children[0];
    var c := Caption(Defaults, Image, unit);
    var bare := Elem("span", map[], CaptionContainer.classes, [w1, w2]);
    assert c == FindImgRemoveClass(bare);
    assert c.children[0] == RemoveImgClass(w1) && c.children[1] == RemoveImgClass(w2);
    assert c.children == CaptionContainer.children;
  }

  /** The container built for the documented image. */
  lemma ExampleContainer()
    ensures Selectable(Before, ImagePath)
    ensures Container(Before, ImagePath, Extend(Defaults, NoOverrides)) == CaptionContainer
  {
    ExamplePaths();
    ExampleClone();
    ExampleCleanLink();
    ExampleCaption(UnitClone(Before, ImagePath));
    assert Extend(Defaults, NoOverrides) == Defaults;
  }

  /** Putting the documented container at the link's place gives the documented output. */
  lemma ExampleReplace()
    ensures ValidPath(Before, [0, 0, 0]) && SetAt(Before, [0, 0, 0], CaptionContainer) == After
  {
    ExamplePaths();
    var p0, p1, p2, p3: Path := [], [0], [0, 0], [0, 0, 0];
    assert p3[1..] == p2 && p2[1..] == p1 && p1[1..] == p0;
    assert Before.children[0] == Division;
    var paragraph := SetAt(Paragraph, p1, CaptionContainer);
    assert paragraph == Paragraph.(children := Paragraph.children[p1[0] := SetAt(Paragraph.children[p1[0]], p1[1..], CaptionContainer)]);
    assert paragraph == Elem("p", map[], ["p-foo"], [CaptionContainer]);
    var division := SetAt(Division, p2, CaptionContainer);
    assert division == Division.(children := Division.children[p2[0] := SetAt(Division.children[p2[0]], p2[1..], CaptionContainer)]);
    assert division == Elem("div", map[], ["foobar"], [paragraph]);
    assert SetAt(Before, p3, CaptionContainer) == Before.(children := Before.children[p3[0] := SetAt(Before.children[p3[0]], p3[1..], CaptionContainer)]);
  }

  /** The documented input becomes the documented output. */
  lemma ExampleRewrite()
    ensures Selectable(Before, ImagePath)
    ensures Rewrite(Before, ImagePath, Extend(Defaults, NoOverrides)) == After
  {
    ExamplePaths();
    ExampleContainer();
    ExampleReplace();
    assert Title(Before, ImagePath) == ExampleTitle;
  }
}
