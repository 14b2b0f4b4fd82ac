/** The transform shared by both redirect loaders: the CMS redirect list
    `{old, new, status?}[]` becomes the host's redirect map
    `old -> {status, destination}`, via `map` then `Object.fromEntries`. */
module RedirectTransform {
  import opened Wrappers
  import opened JsText
  import opened JsParseInt

  /** One row of the redirect list; `old` and `new` are `oldPath` and `newPath`. */
  datatype RedirectEntry = RedirectEntry(oldPath: string, newPath: string, status: Option<string>)

  /** A status as parseInt leaves it: an integer or NaN. */
  datatype StatusCode = Code(code: int) | NaN

  datatype RedirectConfig = RedirectConfig(status: StatusCode, destination: string)

  /** The content of the redirect-list story; `redirects` may be missing. */
  datatype RedirectsList = RedirectsList(redirects: Option<seq<RedirectEntry>>)

  /** Why no content reached the transform: the request threw, or (for the
      validating loader) the response did not match the schema. */
  datatype FetchFailure = RequestFailed | SchemaRejected

  /** 301 Moved Permanently (section 15.4.2 of RFC 9110). */
  const DefaultStatus: int := 301

  /** A truthy status string goes through parseInt; an absent or empty one
      gives the default. */
  function StatusOf(status: Option<string>): (c: StatusCode)
    ensures !Truthy(status) ==> c == Code(DefaultStatus)
    ensures Truthy(status) ==> (c.Code? <==> ParseInt(status.value).Some?)
    ensures Truthy(status) && c.Code? ==> c.code == ParseInt(status.value).value
  {
    if !Truthy(status) then Code(DefaultStatus)
    else match ParseInt(status.value)
      case Some(n) => Code(n)
      case None => NaN
  }

  /** A status written as a decimal number is that number. */
  lemma StatusOfDecimal(n: nat)
    ensures StatusOf(Some(DecimalString(n))) == Code(n)
  {
    ParseIntOfDecimalString(n);
  }

  /** The callback given to `map`. */
  function ToConfig(e: RedirectEntry): (c: RedirectConfig)
    ensures c.destination == e.newPath
    ensures !Truthy(e.status) ==> c.status == Code(DefaultStatus)
    ensures Truthy(e.status) ==> (c.status.Code? <==> ParseInt(e.status.value).Some?)
  {
    RedirectConfig(StatusOf(e.status), e.newPath)
  }

  function OldPaths(rs: seq<RedirectEntry>): set<string> {
    set i | 0 <= i < |rs| :: rs[i].oldPath
  }

  /** Building an object from the mapped entries: a left fold that defines each entry's
      key in turn, so a later duplicate overwrites an earlier one. */
  function FromEntries(rs: seq<RedirectEntry>): (m: map<string, RedirectConfig>)
    ensures m.Keys == OldPaths(rs)
  {
    if rs == [] then map[]
    else
      var init := rs[..|rs| - 1];
      var last := rs[|rs| - 1];
      assert OldPaths(rs) == OldPaths(init) + {last.oldPath} by {
        assert forall i :: 0 <= i < |init| ==> init[i] == rs[i];
      }
      FromEntries(init)[last.oldPath := ToConfig(last)]
  }

  /** Each key holds the config of the last entry with that `old` path. */
  lemma {:induction false} LastEntryWins(rs: seq<RedirectEntry>, i: nat)
    requires i < |rs|
    requires forall j :: i < j < |rs| ==> rs[j].oldPath != rs[i].oldPath
    ensures rs[i].oldPath in FromEntries(rs)
    ensures FromEntries(rs)[rs[i].oldPath] == RedirectConfig(StatusOf(rs[i].status), rs[i].newPath)
  {
    if i < |rs| - 1 {
      var init := rs[..|rs| - 1];
      LastEntryWins(init, i);
    }
  }

  /** There are never more keys than entries. */
  lemma {:induction false} KeyCountBound(rs: seq<RedirectEntry>)
    ensures |FromEntries(rs)| <= |rs|
  {
    if rs != [] {
      KeyCountBound(rs[..|rs| - 1]);
    }
  }

  /** With no duplicate `old` path, every entry gets its own key. */
  lemma {:induction false} DistinctKeysAreKept(rs: seq<RedirectEntry>)
    requires forall i, j :: 0 <= i < j < |rs| ==> rs[i].oldPath != rs[j].oldPath
    ensures |FromEntries(rs)| == |rs|
  {
    if rs != [] {
      var init := rs[..|rs| - 1];
      DistinctKeysAreKept(init);
      assert rs[|rs| - 1].oldPath !in FromEntries(init);
    }
  }

  /** Missing content, a missing list or an empty list give the empty map;
      otherwise the transform. */
  function RedirectsOf(content: Option<RedirectsList>): (m: map<string, RedirectConfig>)
    ensures content.None? || content.value.redirects.None? ==> m == map[]
    ensures content.Some? && content.value.redirects.Some? ==> m == FromEntries(content.value.redirects.value)
  {
    if content.None? || content.value.redirects.None? || |content.value.redirects.value| == 0 then map[]
    else FromEntries(content.value.redirects.value)
  }
}
