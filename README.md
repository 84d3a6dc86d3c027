# imageCaption, modelled in Dafny

`$.fn.imageCaption(options)` is a jQuery plugin
(`scripts/jquery.imageCaption.js`). It replaces each selected image that
has a non-empty `title` with a caption container. The container holds
two things:

- an image wrapper around a clone of the image, or of the link around it
  when the image's parent is an `a`;
- a caption wrapper whose text is the title.

Before the clone is taken, the plugin removes `align`, `border` and
`style` from the image. The container receives the image's classes.
Every `img` inside the container then loses its `class` attribute. The
three elements are built from settings: the plugin's defaults (three
`span`s, each with its own class), extended with the caller's options.

The project has four files:

- `dom.dfy` (module `Dom`) holds the document and the jQuery calls the
  plugin makes on it.
  - A node is an element (tag, attributes, class tokens, children) or a
    text node, and a node is addressed by a path of child indices. The
    `class` attribute lives only in the class-token list; `WellFormed`
    states this, and the live document keeps it as an invariant.
  - `SetAt` is in-place replacement and `Get` is lookup by path.
  - `RemoveAttr`, `AddClasses` and `RemoveImgClass` / `FindImgRemoveClass`
    model `removeAttr`, `addClass` and `find('img').removeAttr('class')`.
  - The class `Document` holds the live tree. Its methods change the tree
    in place: `removeAttr` on the live image and `replaceWith`.
- `config.dfy` (module `Config`) holds the settings, their defaults and
  `$.extend`.
- `caption.dfy` (module `ImageCaptionPlugin`) holds the rewrite.
  - `Rewrite` is the declarative outcome of processing one element.
  - `CaptionOne` performs the plugin's per-element body step by step on a
    `Document` and is proved to reach `Rewrite`.
  - `ImageCaption` runs the plugin's loop over a selection and is proved
    to reach `RewriteAll`.
  - Lemmas state what the outcome is: the guard, where the container
    goes, what it holds, and what stays untouched.
- `example.dfy` (module `DocumentedExample`) proves the worked example
  in the plugin's doc comment. The input HTML, run with the default
  settings, becomes exactly the documented output.

Where the doc comment and the code disagree, the model follows the code:

- The doc comment says the replacement is a `div`. The code builds the
  container from `captionContainer`, which is a `span` by default.
- The doc comment swaps the descriptions of `captionContainer` and
  `captionWrapper`. In the code, `captionContainer` is the outer element
  and `captionWrapper` holds the title.
- The doc comment says `class` is removed from the image itself. The code
  removes it only from the `img` elements inside the new container. The
  live image keeps its class until the unit is replaced.
- The guard only compares the title with the empty string.

## Model

| member | source | states |
|---|---|---|
| Dom.SetAt | scripts/jquery.imageCaption.js:107 | the new node is at the path, and the root keeps its tag, attributes, classes, child count and its other children |
| Dom.Parent | scripts/jquery.imageCaption.js:98 | `parent()`: the parent's path is the node's path without its last index |
| Dom.Is | scripts/jquery.imageCaption.js:99 | `is(tag)`: a predicate, used by `InLink`; its meaning in the plugin is stated by `LinkTravels` |
| Dom.SetAtElsewhere | scripts/jquery.imageCaption.js:107 | replacing a node leaves every node that is neither above nor below it unchanged |
| Dom.SetAtAbove | scripts/jquery.imageCaption.js:107 | a node above the replaced one becomes itself with the replacement made below it |
| Dom.SetAtAbsorbs | scripts/jquery.imageCaption.js:94-107 | a change to the live image is lost once the node holding it (the image or its link) is replaced |
| Dom.PrefixValid | scripts/jquery.imageCaption.js:98 | every ancestor of a node exists, and the node is reached from it by the rest of the path |
| Dom.RemoveAttr | scripts/jquery.imageCaption.js:95-97 | the named attribute is absent afterwards; every other attribute keeps its presence and value; tag and content are kept; well-formedness is kept |
| Dom.AddClasses | scripts/jquery.imageCaption.js:101 | the result holds exactly the old and new tokens and starts with the old list; the appended part is drawn from the new tokens, repeats no token and holds none already present |
| Dom.AddClass | scripts/jquery.imageCaption.js:101 | `addClass` on one element keeps its tag, attributes and content; its classes are the old ones followed by a fresh part, together exactly the old and new tokens |
| Dom.RemoveImgClass | scripts/jquery.imageCaption.js:105 | no `img` in the result has a class; tags, attributes and shape are kept; other elements keep their classes |
| Dom.RemoveImgClassFixes | scripts/jquery.imageCaption.js:105 | a subtree with no classed `img` is left exactly as it is |
| Dom.FindImgRemoveClass | scripts/jquery.imageCaption.js:105 | the node itself is unchanged, every child is cleaned by `RemoveImgClass`, and a well-formed node stays well formed |
| Dom.Append | scripts/jquery.imageCaption.js:102-103 | `append(child)`: tag, attributes and classes are kept, every earlier child stays in place, and `child` is the new last child |
| Dom.SetHtml | scripts/jquery.imageCaption.js:102 | `html(node)`: tag, attributes and classes are kept, and the only child is the given node |
| Dom.SetText | scripts/jquery.imageCaption.js:103 | `text(s)`: tag, attributes and classes are kept, and the only child is one text node holding `s` |
| Dom.WellFormedGet | scripts/jquery.imageCaption.js:94-99 | every subtree of a well-formed document is well formed |
| Dom.WellFormedSetAt | scripts/jquery.imageCaption.js:107 | replacing a node of a well-formed document by a well-formed node keeps it well formed |
| Dom.Document.Valid | scripts/jquery.imageCaption.js:89-107 | the live document: its root is the document node, so every element has a parent, and no element keeps `class` outside its class list |
| Dom.Document.constructor | scripts/jquery.imageCaption.js:89 | a document built from well-formed top-level nodes is valid and holds exactly those nodes |
| Dom.Document.RemoveAttrAt | scripts/jquery.imageCaption.js:94-97 | the live element at the path loses the attribute; the rest of the document is `SetAt` of the old one |
| Dom.Document.ReplaceWith | scripts/jquery.imageCaption.js:107 | the node at the path is replaced in the live document by a well-formed node, and the document stays valid |
| Config.Extend | scripts/jquery.imageCaption.js:83-87 | each key takes the caller's value when given and the default otherwise, independently of the other keys |
| Config.ExtendDefaults | scripts/jquery.imageCaption.js:83-87 | with no options the defaults are used unchanged; extending twice with the same options changes nothing more |
| Config.Defaults | scripts/jquery.imageCaption.js:84-86 | the default recipes: three `span`s with the classes `re-imagecaption-wrapper`, `re-imagecaption-image` and `re-imagecaption-caption`; `ExtendDefaults` and `ExampleContainer` state what they produce |
| Config.Instantiate | scripts/jquery.imageCaption.js:100-103 | `$(recipe)`: a new, empty, well-formed element with the recipe's tag and classes and no other attribute |
| ImageCaptionPlugin.InLink | scripts/jquery.imageCaption.js:98-99 | `$parent.is('a')`: a predicate; `LinkTravels` states that it decides the unit |
| ImageCaptionPlugin.UnitPath | scripts/jquery.imageCaption.js:98-99 | the replacement unit is an ancestor-or-self of the image and exists in the document |
| ImageCaptionPlugin.StripPresentation | scripts/jquery.imageCaption.js:94-97 | `align`, `border` and `style` are absent; the other attributes, the tag, the classes and the content are kept; well-formedness is kept |
| ImageCaptionPlugin.UnitClone | scripts/jquery.imageCaption.js:102 | `$replace.clone()` after the strip: its meaning is stated by `UnitCloneInLink` and `ImageInClone` |
| ImageCaptionPlugin.Caption | scripts/jquery.imageCaption.js:100-105 | the container built around a unit: its meaning is stated by `CaptionSize`, `CaptionHoldsUnit` and `CaptionSteps` |
| ImageCaptionPlugin.Container | scripts/jquery.imageCaption.js:100-105 | the container for the selected element: its meaning is stated by `ContainerClasses`, `ContainerLayout`, `CleanImage` and `ContainerWellFormed` |
| ImageCaptionPlugin.Rewrite | scripts/jquery.imageCaption.js:92-107 | the document after one element is processed: its meaning is stated by `UnchangedIffEmptyTitle` and `ReplacedInPlace`, and `CaptionOne` is proved to reach it |
| ImageCaptionPlugin.CaptionSize | scripts/jquery.imageCaption.js:100-103 | the container has four nodes more than the unit it holds |
| ImageCaptionPlugin.UnchangedIffEmptyTitle | scripts/jquery.imageCaption.js:92 | the document is unchanged if and only if the title is the empty string |
| ImageCaptionPlugin.ReplacedInPlace | scripts/jquery.imageCaption.js:107 | with a title, the container sits at the unit's place; nodes beside the unit are unchanged; its ancestors keep their own attributes and their other children |
| ImageCaptionPlugin.ContainerClasses | scripts/jquery.imageCaption.js:100-101 | the container comes from the container recipe with no attribute of its own; its classes start with the recipe's, and what follows is drawn from the image's classes, repeats nothing and holds no recipe class |
| ImageCaptionPlugin.ContainerLayout | scripts/jquery.imageCaption.js:102-105 | the container has two children: the image wrapper holding only the cleaned unit clone, then the caption wrapper holding only the title text; no `img` in it has a class |
| ImageCaptionPlugin.ContainerWellFormed | scripts/jquery.imageCaption.js:100-105 | the container built from a well-formed document is well formed, so the live document stays well formed after `replaceWith` |
| ImageCaptionPlugin.ImageOffset | scripts/jquery.imageCaption.js:98-99 | the image is the unit itself exactly when its parent is not a link, and otherwise lies one level below it |
| ImageCaptionPlugin.ImageInClone | scripts/jquery.imageCaption.js:94-105 | the cleaned clone holds the stripped, class-less image where the unit held the image |
| ImageCaptionPlugin.CleanImage | scripts/jquery.imageCaption.js:94-105 | the image's clone in the container keeps its tag and every attribute except `align`, `border` and `style`; an `img` clone has no class |
| ImageCaptionPlugin.CaptionHoldsUnit | scripts/jquery.imageCaption.js:102-105 | the image wrapper's only child is the unit clone with its images' classes removed |
| ImageCaptionPlugin.UnitCloneInLink | scripts/jquery.imageCaption.js:98-102 | when the parent is a link, the clone is that link with only the image's slot changed |
| ImageCaptionPlugin.LinkTravels | scripts/jquery.imageCaption.js:98-102 | the unit is the parent if and only if the parent is an `a`, otherwise the image; the link's clone keeps its `href`, other attributes and classes |
| ImageCaptionPlugin.CaptionSteps | scripts/jquery.imageCaption.js:100-105 | the jQuery calls in the plugin's order (create, `addClass`, `append` with `html`, `append` with `text`, clean the `img`s) build exactly `Caption` |
| ImageCaptionPlugin.CaptionOne | scripts/jquery.imageCaption.js:92-107 | the plugin's per-element steps on the live document (strip, choose the unit, build and clean the container, replace) reach exactly `Rewrite` |
| ImageCaptionPlugin.RewriteAll | scripts/jquery.imageCaption.js:89 | `this.each` as a fold of `Rewrite` over an independent selection: its meaning is stated by `OutsideUnitsUnchanged` and `EachCaptionedAsAlone` |
| ImageCaptionPlugin.UnitsApart | scripts/jquery.imageCaption.js:89 | the replacement units of two independent selected elements are disjoint subtrees |
| ImageCaptionPlugin.RewriteKeeps | scripts/jquery.imageCaption.js:89-107 | processing one element leaves an independent element, its unit and its future container unchanged |
| ImageCaptionPlugin.RestStaysIndependent | scripts/jquery.imageCaption.js:89 | after the first element is processed, the rest of the selection is still independent and unchanged |
| ImageCaptionPlugin.OutsideUnitsUnchanged | scripts/jquery.imageCaption.js:89-107 | after the whole selection, a node neither inside nor above any replacement unit is unchanged |
| ImageCaptionPlugin.FirstOutcomeSurvives | scripts/jquery.imageCaption.js:89-107 | the first element's outcome is still in place after the rest of the selection is processed |
| ImageCaptionPlugin.EachCaptionedAsAlone | scripts/jquery.imageCaption.js:89-107 | after the whole selection, each element's unit holds what processing that element alone would put there |
| ImageCaptionPlugin.ImageCaption | scripts/jquery.imageCaption.js:81-110 | the defaults are extended with the options, and the loop over the selection reaches `RewriteAll`, the in-order fold of `Rewrite` |
| DocumentedExample.ExamplePaths | scripts/jquery.imageCaption.js:38-52 | in the documented input, the image has a title and sits in a link, so the link is its unit |
| DocumentedExample.ExampleStripped | scripts/jquery.imageCaption.js:41-69 | the documented image without `align`, `border` and `style` has the documented output's attributes |
| DocumentedExample.ExampleClone | scripts/jquery.imageCaption.js:64-70 | the cloned unit is the link holding the stripped image |
| DocumentedExample.ExampleCleanLink | scripts/jquery.imageCaption.js:64-70 | the cleaned link clone holds the documented output image, with no class |
| DocumentedExample.ExampleCaptionWrapper | scripts/jquery.imageCaption.js:72-74 | the cleaned caption wrapper is the documented `span.re-imagecaption-caption` around the title |
| DocumentedExample.ExampleClasses | scripts/jquery.imageCaption.js:62 | `addClass('image-foo')` on the default container gives the documented class list |
| DocumentedExample.ExampleCaption | scripts/jquery.imageCaption.js:62-75 | with the default settings, the documented image and a unit cleaning to the documented link make the documented container |
| DocumentedExample.ExampleContainer | scripts/jquery.imageCaption.js:62-75 | with the default settings, the container is the documented `span.re-imagecaption-wrapper.image-foo` |
| DocumentedExample.ExampleReplace | scripts/jquery.imageCaption.js:60-77 | putting the documented container at the link's place gives the documented output tree |
| DocumentedExample.ExampleRewrite | scripts/jquery.imageCaption.js:36-77 | the documented input becomes the documented output |

## Left out

- Plugin plumbing is not modelled: the closure over `jQuery`, the registration on `$.fn`, and `this.each` returning the jQuery set (lines 1, 81, 89, 110-111). The selection is a sequence of paths, and the method returns nothing.
- Settings are element recipes (a tag and class tokens), not HTML strings parsed by `$()`. `$.extend` is modelled for the three known keys only. Extra keys in `options` and `undefined` values are not modelled.
- An element with no `title` attribute is excluded by `Selectable`. In jQuery, `attr('title')` is then `undefined`, which passes the `!= ''` guard. The model does not follow that path.
- ImageCaptionPlugin.ImageCaption: requires an independent selection, where no selected element lies in another one's replacement unit. Two images in one link, and selections of nested elements, are not modelled.
- Node identity is not modelled, because a clone is a value. Data and event handlers attached to the image are therefore not modelled, and neither is which node is "the same" before and after the replacement.
- Tag names are compared as stored; the model assumes lower case. jQuery's case-insensitive `is('a')` on HTML is not modelled.
- The `class` attribute is a list of tokens. Splitting the attribute string on white space is not modelled.
- `text()` is modelled as a single text node holding the title. Escaping and the differences between jQuery versions are not modelled.
- `replaceWith` on a node with no parent is not modelled. The tree's root stands for the document node, so every element has a parent.
