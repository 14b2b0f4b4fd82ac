/** The validating redirect loader (`src/services/storyblok/redirects.ts`). The
    request and the schema check are one input: either the validated story
    content, or the failure that was thrown. */
module Redirects {
  import opened Wrappers
  import opened RedirectTransform

  /** Every failure is caught and degrades to the empty map. */
  function GetRedirects(response: Result<Option<RedirectsList>, FetchFailure>): (m: map<string, RedirectConfig>)
    ensures response.Failure? ==> m == map[]
    ensures response.Success? ==> m == RedirectsOf(response.value)
  {
    match response
    case Failure(_) => map[]
    case Success(content) => RedirectsOf(content)
  }

  /** What the loader returns for a validated redirect list: the `old` paths are
      the keys, each with the status and destination of its last entry, and
      there are no more keys than entries. */
  lemma GetRedirectsOfList(rs: seq<RedirectEntry>, i: nat)
    requires i < |rs|
    requires forall j :: i < j < |rs| ==> rs[j].oldPath != rs[i].oldPath
    ensures var m := GetRedirects(Success(Some(RedirectsList(Some(rs)))));
            m.Keys == OldPaths(rs) && |m| <= |rs|
            && m[rs[i].oldPath] == RedirectConfig(StatusOf(rs[i].status), rs[i].newPath)
  {
    LastEntryWins(rs, i);
    KeyCountBound(rs);
  }

  /** The loader as the file is written. It imports `getStoryResponseSchema`
      from `./helpers`, which has no such export (the schema lives in
      `schemas.ts`). When the module loads at all, the binding is undefined, so
      calling `parse` on it throws inside the `try`. A failed request is caught
      in the same way. Either way the catch returns `{}`. */
  function GetRedirectsAsWritten(response: Result<Option<RedirectsList>, FetchFailure>): (m: map<string, RedirectConfig>)
    ensures m == map[]
  {
    match response
    case Failure(_) => map[]
    case Success(_) => map[]
  }

  /** The discrepancy: for any non-empty list of redirects, the loader with the
      schema imported from where it is defined keeps the last entry's old path,
      but the loader as written returns no redirects at all. */
  lemma AsWrittenLosesRedirects(rs: seq<RedirectEntry>)
    requires |rs| > 0
    ensures var response := Success(Some(RedirectsList(Some(rs))));
            rs[|rs| - 1].oldPath in GetRedirects(response)
            && GetRedirectsAsWritten(response) != GetRedirects(response)
  {
    GetRedirectsOfList(rs, |rs| - 1);
  }

  /** Missing content, a missing list, an empty list and a failure all give `{}`. */
  lemma EmptyCases(failure: FetchFailure)
    ensures GetRedirects(Failure(failure)) == map[]
    ensures GetRedirects(Success(None)) == map[]
    ensures GetRedirects(Success(Some(RedirectsList(None)))) == map[]
    ensures GetRedirects(Success(Some(RedirectsList(Some([]))))) == map[]
  {
  }
}
