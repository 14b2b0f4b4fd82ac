/** How the current resolvers (`utils/parse-link.ts`, `utils/parse-asset.ts`)
    and the older ones (`helpers.ts`) agree and where they differ. */
module LinkVariants {
  import opened Wrappers
  import opened JsText
  import opened StoryblokTypes
  import NewLink = ParseLink
  import NewAsset = ParseAsset
  import Old = Helpers

  /** url links: the same href when the url is non-empty, otherwise `#` against
      the url passed through; the older resolver honours `link.target`, the
      current one always opens a new tab. */
  lemma UrlLinkVariants(link: MultilinkStoryblok)
    requires link.linktype == Some(UrlLink)
    ensures NewLink.ParseLink(link).Success? && Old.ParseLink(link).Success?
    ensures Truthy(link.url) ==> Old.ParseLink(link).value.href == Some(NewLink.ParseLink(link).value.href)
    ensures !Truthy(link.url) ==> NewLink.ParseLink(link).value.href == "#" && Old.ParseLink(link).value.href == link.url
    ensures NewLink.ParseLink(link).value.target == Blank
    ensures Old.ParseLink(link).value.target == OrElse(link.target, Self)
  {
  }

  /** email links agree when only `url` holds the address; an address in `email`
      alone is read by the current resolver only. */
  lemma EmailLinkVariants(link: MultilinkStoryblok)
    requires link.linktype == Some(EmailLink)
    ensures link.email.None? && Truthy(link.url) ==>
              NewLink.ParseLink(link).Success?
              && Old.ParseLink(link).value == Old.LegacyParsedLink(Some(NewLink.ParseLink(link).value.href), Blank)
    ensures Truthy(link.email) && link.url.None? ==>
              NewLink.ParseLink(link) == Success(NewLink.ParsedLink("mailto:" + link.email.value, Blank))
              && Old.ParseLink(link).value.href == Some("mailto:undefined")
  {
    assert "mailto:" + "undefined" == "mailto:undefined";
  }

  /** A path that normalizePath leaves as it is. */
  predicate IsNormalisedPath(s: string) {
    |s| > 0 && s[0] == '/' && NewLink.NoDoubleSlash(s)
  }

  /** An unresolved story is an error for the older resolver only; a resolved
      story whose slug is already a normalised path gives the same href in both
      when there is no anchor. */
  lemma StoryLinkVariants(link: MultilinkStoryblok)
    requires link.linktype == Some(StoryLink)
    ensures NewLink.ParseLink(link).Success?
    ensures link.story.None? ==> Old.ParseLink(link).Failure?
    ensures (link.story.Some? && link.story.value.fullSlug.Some? && !Truthy(link.anchor)
             && IsNormalisedPath(link.story.value.fullSlug.value)) ==>
              Old.ParseLink(link).value
              == Old.LegacyParsedLink(Some(NewLink.ParseLink(link).value.href), NewLink.ParseLink(link).value.target)
  {
    if link.story.Some? && link.story.value.fullSlug.Some? && !Truthy(link.anchor) {
      var s := link.story.value.fullSlug.value;
      if IsNormalisedPath(s) {
        assert !NewLink.IsAbsoluteUrl(s);
        NewLink.NormalizePathFixedPoints(s);
      }
    }
  }

  /** The asset resolvers accept the same assets and pick the same src, except
      for an empty `filename` next to a usable `src`: the current one rejects it,
      the older one returns the empty src. */
  lemma AssetVariants(asset: AssetStoryblok)
    ensures var n := NewAsset.ParseAsset(Some(asset)); var o := Old.ParseAsset(Some(asset));
            (n.Success? == o.Success?) <==> !(asset.filename == Some("") && Truthy(asset.src))
    ensures var n := NewAsset.ParseAsset(Some(asset)); var o := Old.ParseAsset(Some(asset));
            n.Success? && o.Success? ==> n.value == o.value
    ensures asset.filename == Some("") && Truthy(asset.src) ==>
              NewAsset.ParseAsset(Some(asset)).Failure? && Old.ParseAsset(Some(asset)).value.src == ""
  {
  }
}
