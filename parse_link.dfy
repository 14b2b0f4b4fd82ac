/** The current link resolver (`src/services/storyblok/utils/parse-link.ts`):
    a multilink field becomes an `href` and a `target`, or an error. */
module ParseLink {
  import opened Wrappers
  import opened JsText
  import opened StoryblokTypes

  datatype ParsedLink = ParsedLink(href: string, target: LinkTarget)

  /** The optional `part` argument. */
  datatype LinkPart = HrefPart | TargetPart

  /** What `parseLink(link, part)` returns: the whole record, or one field of it. */
  datatype PartValue = WholeLink(link: ParsedLink) | HrefValue(href: string) | TargetValue(target: LinkTarget)

  /** The two exceptions the resolver throws. */
  datatype LinkError = MissingEmailAddress | UnhandledLinkType

  // ---------------------------------------------------------------------------
  // isAbsoluteUrl: /^[a-z][a-z0-9+.-]*:\/\//i
  // ---------------------------------------------------------------------------

  /** A character of a URI scheme after its first letter (case-insensitive ASCII). */
  predicate IsSchemeChar(c: char) {
    IsAsciiLetter(c) || IsDecimalDigit(c) || c == '+' || c == '.' || c == '-'
  }

  /** The first index at or after `i` that does not hold a scheme character. */
  function SchemeEnd(s: string, i: nat): (j: nat)
    requires i <= |s|
    ensures i <= j <= |s|
    ensures forall k :: i <= k < j ==> IsSchemeChar(s[k])
    ensures j < |s| ==> !IsSchemeChar(s[j])
    decreases |s| - i
  {
    if i == |s| || !IsSchemeChar(s[i]) then i else SchemeEnd(s, i + 1)
  }

  /** An absolute url starts with a letter and has a `:` after it. */
  predicate IsAbsoluteUrl(url: string)
    ensures IsAbsoluteUrl(url) ==> |url| >= 4 && IsAsciiLetter(url[0]) && ':' in url[1..]
  {
    |url| > 0 && IsAsciiLetter(url[0]) &&
    var j := SchemeEnd(url, 1);
    j + 3 <= |url| && url[j..j + 3] == "://"
  }

  /** The pattern read as a split of `url`: a letter, scheme characters up to
      index `k`, then `://` at `k`. */
  ghost predicate SchemeAt(url: string, k: nat) {
    1 <= k && k + 3 <= |url| && IsAsciiLetter(url[0])
    && (forall i :: 1 <= i < k ==> IsSchemeChar(url[i]))
    && url[k..k + 3] == "://"
  }

  /** Only one split can match, because `:` is not a scheme character. */
  lemma SchemeAtIsUnique(url: string, k: nat)
    requires SchemeAt(url, k)
    ensures SchemeEnd(url, 1) == k
  {
    assert url[k] == url[k..k + 3][0] == ':';
  }

  /** isAbsoluteUrl holds exactly when the scheme pattern matches. */
  lemma IsAbsoluteUrlIsSchemePattern(url: string)
    ensures IsAbsoluteUrl(url) <==> exists k :: SchemeAt(url, k)
  {
    if |url| > 0 {
      if IsAbsoluteUrl(url) {
        assert SchemeAt(url, SchemeEnd(url, 1));
      }
      forall k | SchemeAt(url, k) ensures IsAbsoluteUrl(url) {
        SchemeAtIsUnique(url, k);
      }
    }
  }

  /** A `mailto:` address has a scheme but no `//`, so it is not absolute. */
  lemma MailtoIsNotAbsolute(address: string)
    requires |address| == 0 || address[0] != '/'
    ensures !IsAbsoluteUrl("mailto:" + address)
  {
    var m := "mailto:" + address;
    assert m[6] == ':';
    assert SchemeEnd(m, 6) == 6;
    assert SchemeEnd(m, 5) == 6;
    assert SchemeEnd(m, 4) == 6;
    assert SchemeEnd(m, 3) == 6;
    assert SchemeEnd(m, 2) == 6;
    assert SchemeEnd(m, 1) == 6;
    if 9 <= |m| {
      assert m[6..9][1] == address[0];
    }
  }

  /** The scheme is matched without regard to case. */
  lemma UpperCaseSchemeIsAbsolute()
    ensures IsAbsoluteUrl("HTTPS://example.com")
  {
    var h := "HTTPS://example.com";
    assert h[5] == ':';
    assert SchemeEnd(h, 5) == 5;
    assert SchemeEnd(h, 4) == 5;
    assert SchemeEnd(h, 3) == 5;
    assert SchemeEnd(h, 2) == 5;
    assert SchemeEnd(h, 1) == 5;
    assert h[5..8] == "://";
  }

  // ---------------------------------------------------------------------------
  // normalizePath: `/${path}`.replace(/\/+/g, "/")
  // ---------------------------------------------------------------------------

  /** The length of the run of `/` that `s` starts with. */
  function LeadingSlashes(s: string): (n: nat)
    ensures n <= |s|
    ensures forall k :: 0 <= k < n ==> s[k] == '/'
    ensures n < |s| ==> s[n] != '/'
  {
    if s == [] || s[0] != '/' then 0 else 1 + LeadingSlashes(s[1..])
  }

  /** `s.replace(/\/+/g, "/")`: scanning left to right, each maximal run of
      slashes is replaced by a single slash. */
  function CollapseSlashRuns(s: string): (r: string)
    ensures |r| == 0 <==> |s| == 0
    ensures |r| > 0 ==> (r[0] == '/' <==> s[0] == '/')
    decreases |s|
  {
    if s == [] then []
    else if s[0] == '/' then "/" + CollapseSlashRuns(s[LeadingSlashes(s)..])
    else [s[0]] + CollapseSlashRuns(s[1..])
  }

  predicate NoDoubleSlash(s: string) {
    forall k :: 0 <= k < |s| - 1 ==> !(s[k] == '/' && s[k + 1] == '/')
  }

  lemma {:induction false} WithoutLeadingSlashes(s: string, n: nat)
    requires n <= |s|
    requires forall k :: 0 <= k < n ==> s[k] == '/'
    ensures Without(s, '/') == Without(s[n..], '/')
  {
    if n > 0 {
      WithoutLeadingSlashes(s[1..], n - 1);
      assert s[1..][n - 1..] == s[n..];
    }
  }

  lemma {:induction false} CollapseHasNoDoubleSlash(s: string)
    ensures NoDoubleSlash(CollapseSlashRuns(s))
    decreases |s|
  {
    if s != [] {
      var n := if s[0] == '/' then LeadingSlashes(s) else 1;
      CollapseHasNoDoubleSlash(s[n..]);
      var t := CollapseSlashRuns(s[n..]);
      assert CollapseSlashRuns(s) == [s[0]] + t;
      assert s[0] == '/' && |t| > 0 ==> t[0] != '/';
    }
  }

  lemma {:induction false} CollapseKeepsOtherChars(s: string)
    ensures Without(CollapseSlashRuns(s), '/') == Without(s, '/')
    decreases |s|
  {
    if s != [] {
      if s[0] == '/' {
        var n := LeadingSlashes(s);
        CollapseKeepsOtherChars(s[n..]);
        WithoutAppend("/", CollapseSlashRuns(s[n..]), '/');
        WithoutLeadingSlashes(s, n);
      } else {
        CollapseKeepsOtherChars(s[1..]);
        WithoutAppend([s[0]], CollapseSlashRuns(s[1..]), '/');
      }
    }
  }

  /** A string without doubled slashes is left alone. */
  lemma {:induction false} CollapseFixesSingleSlashes(s: string)
    requires NoDoubleSlash(s)
    ensures CollapseSlashRuns(s) == s
    decreases |s|
  {
    if s != [] {
      assert NoDoubleSlash(s[1..]);
      CollapseFixesSingleSlashes(s[1..]);
      if s[0] == '/' {
        assert LeadingSlashes(s) == 1;
      }
    }
  }

  /** One more leading slash in front of a slash changes nothing. */
  lemma CollapseExtraSlash(t: string)
    requires |t| > 0 && t[0] == '/'
    ensures CollapseSlashRuns("/" + t) == CollapseSlashRuns(t)
  {
    assert ("/" + t)[1..] == t;
    assert LeadingSlashes("/" + t) == 1 + LeadingSlashes(t);
    assert ("/" + t)[1 + LeadingSlashes(t)..] == t[LeadingSlashes(t)..];
  }

  /** The leading run is exactly `n` long when `n` slashes are followed by a
      non-slash or by the end. */
  lemma {:induction false} LeadingSlashesIs(s: string, n: nat)
    requires n <= |s| && forall k :: 0 <= k < n ==> s[k] == '/'
    requires n < |s| ==> s[n] != '/'
    ensures LeadingSlashes(s) == n
  {
    if n > 0 {
      assert forall k :: 0 <= k < n - 1 ==> s[1..][k] == s[k + 1];
      LeadingSlashesIs(s[1..], n - 1);
    }
  }

  /** A run of slashes followed by a non-slash (or by nothing) collapses to one slash. */
  lemma CollapseRunThen(run: string, t: string)
    requires |run| >= 1 && forall k :: 0 <= k < |run| ==> run[k] == '/'
    requires |t| == 0 || t[0] != '/'
    ensures CollapseSlashRuns(run + t) == "/" + CollapseSlashRuns(t)
  {
    var s := run + t;
    LeadingSlashesIs(s, |run|);
    assert s[|run|..] == t;
  }

  /** `s.replace(/\/+/g, "/")` turns a string that is one run of slashes into a single slash. */
  lemma CollapseSlashRunIsOne(run: string)
    requires |run| >= 1 && forall k :: 0 <= k < |run| ==> run[k] == '/'
    ensures CollapseSlashRuns(run) == "/"
  {
    CollapseRunThen(run, []);
    assert run + [] == run;
  }

  /** No run of slashes straddles a boundary after a non-slash, so the
      replacement can be done on each side separately. */
  lemma {:induction false} CollapseAppend(a: string, b: string)
    requires |a| == 0 || a[|a| - 1] != '/'
    ensures CollapseSlashRuns(a + b) == CollapseSlashRuns(a) + CollapseSlashRuns(b)
    decreases |a|
  {
    if a == [] {
      assert a + b == b;
    } else if a[0] == '/' {
      var n := LeadingSlashes(a);
      var ab := a + b;
      assert n < |a| && ab[n] == a[n];
      LeadingSlashesIs(ab, n);
      assert ab[n..] == a[n..] + b;
      CollapseAppend(a[n..], b);
    } else {
      var ab := a + b;
      assert ab[0] == a[0] && ab[1..] == a[1..] + b;
      CollapseAppend(a[1..], b);
    }
  }

  /** normalizePath: one leading slash, no doubled slash, and every other
      character of `path` kept in order. */
  function NormalizePath(path: string): (r: string)
    ensures |r| > 0 && r[0] == '/'
    ensures NoDoubleSlash(r)
    ensures Without(r, '/') == Without(path, '/')
  {
    CollapseHasNoDoubleSlash("/" + path);
    CollapseKeepsOtherChars("/" + path);
    WithoutAppend("/", path, '/');
    CollapseSlashRuns("/" + path)
  }

  lemma NormalizePathIdempotent(path: string)
    ensures NormalizePath(NormalizePath(path)) == NormalizePath(path)
  {
    var n := NormalizePath(path);
    CollapseExtraSlash(n);
    CollapseFixesSingleSlashes(n);
  }

  /** The paths normalizePath leaves unchanged are exactly those that already
      start with `/` and have no doubled slash. */
  lemma NormalizePathFixedPoints(path: string)
    ensures NormalizePath(path) == path <==> (|path| > 0 && path[0] == '/' && NoDoubleSlash(path))
  {
    if |path| > 0 && path[0] == '/' && NoDoubleSlash(path) {
      CollapseExtraSlash(path);
      CollapseFixesSingleSlashes(path);
    }
  }

  /** Two slash-free segments joined by any run of slashes come out joined by
      exactly one, behind the one leading slash. */
  lemma NormalizePathJoinsSegments(x: string, run: string, y: string)
    requires |x| >= 1 && '/' !in x && '/' !in y
    requires |run| >= 1 && forall k :: 0 <= k < |run| ==> run[k] == '/'
    ensures NormalizePath(x + run + y) == "/" + x + "/" + y
  {
    var head: string := ['/'];
    var hx := head + x;
    assert "/" + (x + run + y) == hx + (run + y);
    assert hx[|hx| - 1] == x[|x| - 1];
    CollapseAppend(hx, run + y);
    assert NoDoubleSlash(hx) by {
      forall k | 0 <= k < |hx| - 1 ensures !(hx[k] == '/' && hx[k + 1] == '/') {
        assert hx[k + 1] == x[k];
      }
    }
    CollapseFixesSingleSlashes(hx);
    assert |y| == 0 || y[0] != '/' by {
      if |y| > 0 {
        assert y[0] in y;
      }
    }
    CollapseRunThen(run, y);
    assert NoDoubleSlash(y) by {
      forall k | 0 <= k < |y| - 1 ensures !(y[k] == '/' && y[k + 1] == '/') {
        assert y[k] in y;
      }
    }
    CollapseFixesSingleSlashes(y);
  }

  // ---------------------------------------------------------------------------
  // appendAnchor: with a truthy anchor, drop the fragment and add `#anchor`
  // ---------------------------------------------------------------------------

  /** The index of the first line terminator at or after `i`, or `|s|`. */
  function LineEnd(s: string, i: nat): (j: nat)
    requires i <= |s|
    ensures i <= j <= |s|
    ensures forall k :: i <= k < j ==> !IsLineTerminator(s[k])
    ensures j < |s| ==> IsLineTerminator(s[j])
    decreases |s| - i
  {
    if i == |s| || IsLineTerminator(s[i]) then i else LineEnd(s, i + 1)
  }

  /** Removing the first match of the pattern "#.*" (a `#` and the rest of its line). */
  function RemoveFragment(url: string): (r: string)
    ensures IndexOf(url, '#') == |url| ==> r == url
    ensures var i := IndexOf(url, '#'); i < |url| ==> i <= |r| < |url| && r[..i] == url[..i]
  {
    var i := IndexOf(url, '#');
    if i == |url| then url else url[..i] + url[LineEnd(url, i)..]
  }

  function AppendAnchor(url: string, anchor: Option<string>): (r: string)
    ensures !Truthy(anchor) ==> r == url
    ensures Truthy(anchor) ==> |r| > |anchor.value| && r[|r| - |anchor.value| - 1..] == "#" + anchor.value
  {
    if Truthy(anchor) then
      var base, tail := RemoveFragment(url), "#" + anchor.value;
      assert (base + tail)[|base|..] == tail;
      base + tail
    else url
  }

  predicate NoLineTerminator(s: string) {
    forall k :: 0 <= k < |s| ==> !IsLineTerminator(s[k])
  }

  /** On a one-line url, the text in front of the new `#anchor` is the url up to,
      not including, its first `#`. */
  lemma AppendAnchorOnOneLine(url: string, a: string)
    requires |a| > 0 && NoLineTerminator(url)
    ensures var r := AppendAnchor(url, Some(a));
            var base := r[..|r| - |a| - 1];
            r == base + "#" + a && base <= url && '#' !in base
            && (|base| < |url| ==> url[|base|] == '#')
  {
    var i := IndexOf(url, '#');
    assert i < |url| ==> LineEnd(url, i) == |url|;
    assert RemoveFragment(url) == url[..i];
  }

  /** On a one-line url, the fragment removed is everything from the first `#`. */
  lemma RemoveFragmentOnOneLine(url: string)
    requires NoLineTerminator(url)
    ensures RemoveFragment(url) == url[..IndexOf(url, '#')]
  {
    var i := IndexOf(url, '#');
    assert i < |url| ==> LineEnd(url, i) == |url|;
  }

  /** Removing the fragment from `base#a` leaves `base` when `base` has no `#`
      and `a` is on one line. */
  lemma RemoveFragmentOfAnchored(base: string, a: string)
    requires '#' !in base && NoLineTerminator(a)
    ensures RemoveFragment(base + ("#" + a)) == base
  {
    var i := |base|;
    var r := base + ("#" + a);
    assert IndexOf(r, '#') == i by {
      assert r[i] == '#';
      assert forall k :: 0 <= k < i ==> r[k] == base[k];
    }
    assert LineEnd(r, i) == |r| by {
      assert forall k :: i < k < |r| ==> r[k] == a[k - i - 1];
    }
    assert r[..i] == base;
  }

  /** Appending the same one-line anchor twice is the same as appending it once. */
  lemma AppendAnchorIdempotent(url: string, a: string)
    requires |a| > 0 && NoLineTerminator(url) && NoLineTerminator(a)
    ensures AppendAnchor(AppendAnchor(url, Some(a)), Some(a)) == AppendAnchor(url, Some(a))
  {
    RemoveFragmentOnOneLine(url);
    var base := url[..IndexOf(url, '#')];
    assert '#' !in base;
    RemoveFragmentOfAnchored(base, a);
  }

  // ---------------------------------------------------------------------------
  // parseLink
  // ---------------------------------------------------------------------------

  /** `link.email ?? link.url`. */
  function EmailAddress(link: MultilinkStoryblok): (a: Option<string>)
    ensures link.email.Some? ==> a == link.email
    ensures link.email.None? ==> a == link.url
  {
    if link.email.Some? then link.email else link.url
  }

  /** The resolved story's full slug, else the cached url, else the empty string
      (each step a nullish fallback). */
  function StorySlug(link: MultilinkStoryblok): (slug: string)
    ensures link.story.Some? && link.story.value.fullSlug.Some? ==> slug == link.story.value.fullSlug.value
    ensures link.story.None? || link.story.value.fullSlug.None? ==> slug == OrElse(link.cachedUrl, "")
  {
    var fullSlug := if link.story.Some? then link.story.value.fullSlug else None;
    OrElse(fullSlug, OrElse(link.cachedUrl, ""))
  }

  /** The href of a story link: `#` for an empty slug, an absolute slug kept as it
      is, any other slug normalised, then the anchor appended. */
  function StoryHref(slug: string, anchor: Option<string>): (href: string)
    ensures |href| > 0
  {
    if slug == "" then "#"
    else AppendAnchor(if IsAbsoluteUrl(slug) then slug else NormalizePath(slug), anchor)
  }

  function ParseLink(link: MultilinkStoryblok): (r: Result<ParsedLink, LinkError>)
    ensures r.Success? ==> |r.value.href| > 0
    ensures r.Failure? <==> link.linktype.None? || link.linktype.value.OtherLinkType?
                            || (link.linktype == Some(EmailLink) && !Truthy(EmailAddress(link)))
    ensures r.Failure? ==> r.error == if link.linktype == Some(EmailLink) then MissingEmailAddress else UnhandledLinkType
  {
    var targetDefault := OrElse(link.target, Self);
    match link.linktype
    case Some(UrlLink) => Success(ParsedLink(OrIfFalsy(link.url, "#"), Blank))
    case Some(AssetLink) => Success(ParsedLink(OrIfFalsy(link.url, "#"), targetDefault))
    case Some(EmailLink) =>
      var email := EmailAddress(link);
      if !Truthy(email) then Failure(MissingEmailAddress)
      else Success(ParsedLink("mailto:" + email.value, Blank))
    case Some(StoryLink) => Success(ParsedLink(StoryHref(StorySlug(link), link.anchor), targetDefault))
    case _ => Failure(UnhandledLinkType)
  }

  /** `parseLink(link, part)`: the same checks and errors, then the requested field. */
  function ParseLinkPart(link: MultilinkStoryblok, part: Option<LinkPart>): (r: Result<PartValue, LinkError>)
    ensures r.Failure? <==> ParseLink(link).Failure?
    ensures r.Failure? ==> r.error == ParseLink(link).error
    ensures r.Success? && part.None? ==> r.value == WholeLink(ParseLink(link).value)
    ensures r.Success? && part == Some(HrefPart) ==> r.value == HrefValue(ParseLink(link).value.href)
    ensures r.Success? && part == Some(TargetPart) ==> r.value == TargetValue(ParseLink(link).value.target)
  {
    match ParseLink(link)
    case Failure(e) => Failure(e)
    case Success(p) =>
      match part
      case None => Success(WholeLink(p))
      case Some(HrefPart) => Success(HrefValue(p.href))
      case Some(TargetPart) => Success(TargetValue(p.target))
  }

  // ---------------------------------------------------------------------------
  // Properties of the link types
  // ---------------------------------------------------------------------------

  /** A url link opens in a new tab whatever its own target says, and falls back
      to `#` when its url is empty or missing. */
  lemma UrlLinkResolution(link: MultilinkStoryblok, t: Option<LinkTarget>)
    requires link.linktype == Some(UrlLink)
    ensures ParseLink(link) == Success(ParsedLink(if Truthy(link.url) then link.url.value else "#", Blank))
    ensures ParseLink(link.(target := t)) == ParseLink(link)
  {
  }

  /** An asset link keeps its target (default `_self`) and falls back to `#`. */
  lemma AssetLinkResolution(link: MultilinkStoryblok)
    requires link.linktype == Some(AssetLink)
    ensures ParseLink(link).Success?
    ensures ParseLink(link).value.href == if Truthy(link.url) then link.url.value else "#"
    ensures ParseLink(link).value.target == if link.target.Some? then link.target.value else Self
  {
  }

  /** An email link resolves `email ?? url`: a present but empty `email` throws
      even when `url` is set. */
  lemma EmailLinkResolution(link: MultilinkStoryblok, t: Option<LinkTarget>)
    requires link.linktype == Some(EmailLink)
    ensures ParseLink(link).Success? <==> Truthy(EmailAddress(link))
    ensures ParseLink(link).Success? ==> ParseLink(link).value == ParsedLink("mailto:" + EmailAddress(link).value, Blank)
    ensures link.email == Some("") ==> ParseLink(link) == Failure(MissingEmailAddress)
    ensures ParseLink(link.(target := t)) == ParseLink(link)
  {
  }

  /** A story link never throws. Its href is `#` for an empty slug.
      A non-absolute slug gives a root-relative href with no doubled slash and
      the slug's other characters in order. An absolute slug is kept verbatim
      when there is no anchor. */
  lemma StoryLinkResolution(link: MultilinkStoryblok)
    requires link.linktype == Some(StoryLink)
    ensures var r := ParseLink(link); var slug := StorySlug(link);
            r.Success?
            && r.value.target == OrElse(link.target, Self)
            && (slug == "" ==> r.value.href == "#")
            && (slug != "" && IsAbsoluteUrl(slug) && !Truthy(link.anchor) ==> r.value.href == slug)
            && (slug != "" && !IsAbsoluteUrl(slug) ==> r.value.href[0] == '/')
            && (slug != "" && !IsAbsoluteUrl(slug) && !Truthy(link.anchor) ==>
                  NoDoubleSlash(r.value.href) && Without(r.value.href, '/') == Without(slug, '/'))
            && (slug != "" && Truthy(link.anchor) ==>
                  r.value.href[|r.value.href| - |link.anchor.value| - 1..] == "#" + link.anchor.value)
  {
    var slug := StorySlug(link);
    if slug != "" && !IsAbsoluteUrl(slug) && Truthy(link.anchor) {
      var n := NormalizePath(slug);
      assert IndexOf(n, '#') > 0;
      assert RemoveFragment(n)[0] == '/';
    }
  }
}
