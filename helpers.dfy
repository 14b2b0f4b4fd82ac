/** The older link and asset resolvers of `src/services/storyblok/helpers.ts`. */
module Helpers {
  import opened Wrappers
  import opened JsText
  import opened StoryblokTypes
  import Current = ParseAsset

  /** The older resolver passes `url` and `full_slug` through, so `href` may be absent. */
  datatype LegacyParsedLink = LegacyParsedLink(href: Option<string>, target: LinkTarget)

  datatype LegacyError =
    | InvalidLinkObjectState  // thrown by parseLink
    | NoFilenameFound         // thrown by parseAsset
    | PropertyOfNull          // the TypeError of reading `asset.filename` on a null asset

  /** A template literal `${v}`: an absent value is written as `undefined`. */
  function TemplateString(o: Option<string>): (s: string)
    ensures o.Some? ==> s == o.value
    ensures o.None? ==> s == "undefined"
  {
    OrElse(o, "undefined")
  }

  function ParseLink(link: MultilinkStoryblok): (r: Result<LegacyParsedLink, LegacyError>)
    ensures r.Failure? <==> !(link.linktype in {Some(UrlLink), Some(AssetLink), Some(EmailLink)}
                              || (link.linktype == Some(StoryLink) && link.story.Some?))
    ensures r.Failure? ==> r.error == InvalidLinkObjectState
  {
    if link.linktype == Some(UrlLink) || link.linktype == Some(AssetLink) then
      Success(LegacyParsedLink(link.url, OrElse(link.target, Self)))
    else if link.linktype == Some(EmailLink) then
      Success(LegacyParsedLink(Some("mailto:" + TemplateString(link.url)), Blank))
    else if link.linktype == Some(StoryLink) && link.story.Some? then
      Success(LegacyParsedLink(link.story.value.fullSlug, OrElse(link.target, Self)))
    else
      Failure(InvalidLinkObjectState)
  }

  /** url and asset links pass `url` through verbatim, with no `#` fallback, and
      keep their own target (default `_self`). */
  lemma UrlAndAssetLinks(link: MultilinkStoryblok)
    requires link.linktype == Some(UrlLink) || link.linktype == Some(AssetLink)
    ensures ParseLink(link) == Success(LegacyParsedLink(link.url, OrElse(link.target, Self)))
  {
  }

  /** email links read `url` only, never `email`, and always open in a new tab;
      a missing url gives `mailto:undefined`. */
  lemma EmailLinks(link: MultilinkStoryblok, e: Option<string>)
    requires link.linktype == Some(EmailLink)
    ensures ParseLink(link).Success? && ParseLink(link).value.target == Blank
    ensures ParseLink(link).value.href == Some("mailto:" + TemplateString(link.url))
    ensures link.url.None? ==> ParseLink(link).value.href == Some("mailto:undefined")
    ensures ParseLink(link.(email := e)) == ParseLink(link)
  {
    assert "mailto:" + "undefined" == "mailto:undefined";
  }

  /** A story link needs a resolved story and returns its `full_slug` verbatim:
      no slash normalisation, no anchor, no `cached_url`. */
  lemma StoryLinks(link: MultilinkStoryblok, anchor: Option<string>, cached: Option<string>)
    requires link.linktype == Some(StoryLink)
    ensures link.story.None? ==> ParseLink(link) == Failure(InvalidLinkObjectState)
    ensures link.story.Some? ==> ParseLink(link) == Success(LegacyParsedLink(link.story.value.fullSlug, OrElse(link.target, Self)))
    ensures ParseLink(link.(anchor := anchor, cachedUrl := cached)) == ParseLink(link)
  {
  }

  function ParseAsset(asset: Option<AssetStoryblok>): (r: Result<Current.ParsedAsset, LegacyError>)
    ensures asset.None? ==> r == Failure(PropertyOfNull)
    ensures asset.Some? ==> (r.Failure? <==> !Truthy(asset.value.filename) && !Truthy(asset.value.src))
    ensures asset.Some? && r.Failure? ==> r.error == NoFilenameFound
    ensures r.Success? ==> r.value.src == (if asset.value.filename.Some? then asset.value.filename.value
                                           else asset.value.src.value)
                           && r.value.alt == asset.value.alt
    ensures r.Success? ==> (r.value.src == "" <==> asset.value.filename == Some(""))
  {
    match asset
    case None => Failure(PropertyOfNull)
    case Some(a) =>
      if !Truthy(a.filename) && !Truthy(a.src) then Failure(NoFilenameFound)
      else
        var src := match a.filename case Some(f) => f case None => a.src.value;
        Success(Current.ParsedAsset(src, a.alt))
  }
}
