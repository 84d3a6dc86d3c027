/**
  The plugin's settings: three element recipes (the outer caption
  container, the wrapper around the image or its link, and the wrapper
  around the caption text), with defaults that the caller may override
  one key at a time.
*/
module Config {
  import opened Dom

  datatype Option<T> = None | Some(value: T)

  /** An element to create: a tag name and the class tokens it is created with. */
  datatype Recipe = Recipe(tag: string, classes: seq<string>)

  datatype Settings = Settings(captionContainer: Recipe, imageWrapper: Recipe, captionWrapper: Recipe)

  /** The caller's options: a key left out keeps its default. */
  datatype Overrides = Overrides(
    captionContainer: Option<Recipe>,
    imageWrapper: Option<Recipe>,
    captionWrapper: Option<Recipe>)

  /** The defaults: three `span` elements, each with its own class. */
  const Defaults := Settings(
    Recipe("span", ["re-imagecaption-wrapper"]),
    Recipe("span", ["re-imagecaption-image"]),
    Recipe("span", ["re-imagecaption-caption"]))

  const NoOverrides := Overrides(None, None, None)

  /** The caller's value for a key when there is one, otherwise the default. */
  function Pick(default: Recipe, given: Option<Recipe>): Recipe
  {
    match given
    case Some(v) => v
    case None => default
  }

  /** `$.extend(defaults, options)` over the three keys: each key is overridden independently. */
  function Extend(defaults: Settings, options: Overrides): (s: Settings)
    ensures options.captionContainer.Some? ==> s.captionContainer == options.captionContainer.value
    ensures options.captionContainer.None? ==> s.captionContainer == defaults.captionContainer
    ensures options.imageWrapper.Some? ==> s.imageWrapper == options.imageWrapper.value
    ensures options.imageWrapper.None? ==> s.imageWrapper == defaults.imageWrapper
    ensures options.captionWrapper.Some? ==> s.captionWrapper == options.captionWrapper.value
    ensures options.captionWrapper.None? ==> s.captionWrapper == defaults.captionWrapper
  {
    Settings(
      Pick(defaults.captionContainer, options.captionContainer),
      Pick(defaults.imageWrapper, options.imageWrapper),
      Pick(defaults.captionWrapper, options.captionWrapper))
  }

  /** Without options the defaults are used unchanged, and extending twice with the same options changes nothing more. */
  lemma ExtendDefaults(options: Overrides)
    ensures Extend(Defaults, NoOverrides) == Defaults
    ensures Extend(Extend(Defaults, options), options) == Extend(Defaults, options)
  {
  }

  /** `$(recipe)`: a new, detached element with the recipe's tag and classes, no other attribute and no content. */
  function Instantiate(r: Recipe): (n: Node)
    ensures Is(n, r.tag) && n.classes == r.classes
    ensures n.attrs == map[] && n.children == [] && WellFormed(n)
  {
    Elem(r.tag, map[], r.classes, [])
  }
}
