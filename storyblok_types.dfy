/** The CMS field records that the link and asset parsers read: Storyblok's
    multilink field and asset field. Every optional property is an `Option`. */
module StoryblokTypes {
  import opened Wrappers

  /** The `linktype` discriminator of a multilink field. `OtherLinkType` stands for
      any value outside the declared four that may reach the parser at run time. */
  datatype LinkType = UrlLink | AssetLink | EmailLink | StoryLink | OtherLinkType(name: string)

  /** The two values of a link's `target` attribute. */
  datatype LinkTarget = Blank | Self

  /** A resolved story reference: only its `full_slug` is read. */
  datatype StoryRef = StoryRef(fullSlug: Option<string>)

  /** A multilink field: `linktype`, `url`, `email`, `target`, `anchor`, the
      resolved `story` and the `cached_url`. */
  datatype MultilinkStoryblok = MultilinkStoryblok(
    linktype: Option<LinkType>,
    url: Option<string>,
    email: Option<string>,
    target: Option<LinkTarget>,
    anchor: Option<string>,
    story: Option<StoryRef>,
    cachedUrl: Option<string>)

  /** An asset field: the `filename`, a `src` and the `alt` text. */
  datatype AssetStoryblok = AssetStoryblok(
    filename: Option<string>,
    src: Option<string>,
    alt: Option<string>)
}
