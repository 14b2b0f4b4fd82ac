/** The unvalidated redirect loader (`src/services/storyblok/get-redirects.ts`):
    it reads `data?.story?.content` from the raw response with optional
    chaining, so each level may be missing. */
module GetRedirects {
  import opened Wrappers
  import opened RedirectTransform
  import Validated = Redirects

  datatype StoryObject = StoryObject(content: Option<RedirectsList>)
  datatype ResponseData = ResponseData(story: Option<StoryObject>)
  datatype Response = Response(data: Option<ResponseData>)

  /** `data?.story?.content`. */
  function ContentOf(response: Response): (c: Option<RedirectsList>)
    ensures response.data.None? || response.data.value.story.None? ==> c.None?
    ensures response.data.Some? && response.data.value.story.Some? ==> c == response.data.value.story.value.content
  {
    match response.data
    case None => None
    case Some(d) =>
      match d.story
      case None => None
      case Some(s) => s.content
  }

  /** A failed request is caught and degrades to the empty map. */
  function GetRedirects(response: Result<Response, FetchFailure>): (m: map<string, RedirectConfig>)
    ensures response.Failure? ==> m == map[]
    ensures response.Success? ==> m == RedirectsOf(ContentOf(response.value))
  {
    match response
    case Failure(_) => map[]
    case Success(r) => RedirectsOf(ContentOf(r))
  }

  /** Missing `data`, `story`, `content` or `redirects`, and an empty list, give `{}`. */
  lemma MissingLevelsGiveEmpty(response: Response)
    requires ContentOf(response).None? || ContentOf(response).value.redirects.None?
             || ContentOf(response).value.redirects.value == []
    ensures GetRedirects(Success(response)) == map[]
  {
  }

  /** What the loader returns for a redirect list it can reach: the `old` paths
      are the keys, each with the status and destination of its last entry. */
  lemma GetRedirectsOfList(rs: seq<RedirectEntry>, i: nat)
    requires i < |rs|
    requires forall j :: i < j < |rs| ==> rs[j].oldPath != rs[i].oldPath
    ensures var response := Response(Some(ResponseData(Some(StoryObject(Some(RedirectsList(Some(rs))))))));
            var m := GetRedirects(Success(response));
            m.Keys == OldPaths(rs) && |m| <= |rs|
            && m[rs[i].oldPath] == RedirectConfig(StatusOf(rs[i].status), rs[i].newPath)
  {
    LastEntryWins(rs, i);
    KeyCountBound(rs);
  }

  /** On a response that passed validation, both loaders return the same map. */
  lemma AgreesWithValidatingLoader(response: Response)
    ensures GetRedirects(Success(response)) == Validated.GetRedirects(Success(ContentOf(response)))
  {
  }
}
