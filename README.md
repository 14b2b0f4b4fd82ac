# Content-shaping core of the symbe website, in Dafny

This project models the small, pure routines that the website's content
layer uses to turn records from the Storyblok CMS into values for its pages,
and proves properties of them:

- **Link resolution.** A multilink field becomes `{href, target}` or an
  error. There are two resolvers:
  - the current one: `isAbsoluteUrl`, `normalizePath`, `appendAnchor`,
    `parseLink` and its `part` selector;
  - the older `parseLink` in `helpers.ts`.
- **Asset resolution.** An asset field becomes `{src, alt}` or an error:
  - the current `parseAsset` with `coalesce` and its `part` selector;
  - the older `parseAsset`.
- **Redirects.** The CMS redirect list `{old, new, status?}[]` becomes the
  host's redirect map `old -> {status, destination}`. The default status is
  301 Moved Permanently, as section 15.4.2 of RFC 9110 defines it. A given
  status goes through ECMAScript `parseInt`. The two loaders are modelled:
  `redirects.ts` validates the response, and `get-redirects.ts` reads
  `data?.story?.content` directly.
- **Stat numbers.** The stat counters' `parseNumber` splits a text such as
  `$2.3K` into a prefix, a numeral and a suffix. The suffix picks a k/m/b
  multiplier. `formatNumber` renders an intermediate value back.

Modules:
- `Wrappers`: `Option` stands for `null`/`undefined`, `Result` for a thrown
  exception, and `??` is `OrElse`.
- `JsText`: ECMAScript string conventions, namely truthiness, `||`, `\s`,
  `\d`, digit strings and the decimal numeral of a whole number (what
  `String(n)` gives for `n < 10^21`).
- `StoryblokTypes`: the CMS records.
- `ParseLink`, `ParseAsset`, `Helpers` (the older resolvers), `LinkVariants`
  (how the old and new resolvers compare).
- `JsParseInt`, `RedirectTransform`, `Redirects`, `GetRedirects`.
- `StatNumbers`.

Every core routine is pure, so the model is datatypes, functions and lemmas.
There are no classes or loops.

## Model

| member | source | states |
|---|---|---|
| Wrappers.OrElse | src/services/storyblok/utils/parse-link.ts:53 | `o ?? d` is the value when present and `d` otherwise |
| JsText.OrIfFalsy | src/services/storyblok/utils/parse-link.ts:59 | `o \|\| d` on a string is the value when truthy and `d` otherwise |
| ParseLink.IsAbsoluteUrl | src/services/storyblok/utils/parse-link.ts:20-21 | an absolute url starts with an ASCII letter, is at least four characters long and has a `:` after the letter; the exact pattern is stated by `ParseLink.IsAbsoluteUrlIsSchemePattern` |
| ParseLink.SchemeEnd | src/services/storyblok/utils/parse-link.ts:20-21 | the scheme characters `[a-z0-9+.-]` (either case) run from `i` up to the result, and the character there is not one |
| ParseLink.IsAbsoluteUrlIsSchemePattern | src/services/storyblok/utils/parse-link.ts:17-21 | `isAbsoluteUrl` holds exactly when the url splits as a letter, scheme characters, then `://` |
| ParseLink.SchemeAtIsUnique | src/services/storyblok/utils/parse-link.ts:20-21 | at most one such split exists, because `:` is not a scheme character |
| ParseLink.MailtoIsNotAbsolute | src/services/storyblok/utils/parse-link.ts:17-21 | `mailto:` followed by anything not starting with `/` is not absolute, although the doc comment claims it is |
| ParseLink.UpperCaseSchemeIsAbsolute | src/services/storyblok/utils/parse-link.ts:20-21 | the test ignores case: `HTTPS://example.com` is absolute |
| ParseLink.LeadingSlashes | src/services/storyblok/utils/parse-link.ts:27 | the length of the leading run of `/` |
| ParseLink.CollapseSlashRuns | src/services/storyblok/utils/parse-link.ts:27 | replacing each run of `/` by one `/` keeps emptiness and whether the text starts with `/` (what it does to each run is stated by the four lemmas below) |
| ParseLink.LeadingSlashesIs | src/services/storyblok/utils/parse-link.ts:27 | the leading run is exactly `n` long when `n` slashes are followed by a non-slash or by the end |
| ParseLink.CollapseRunThen | src/services/storyblok/utils/parse-link.ts:27 | a run of one or more slashes followed by a non-slash or the end becomes exactly one `/` in front of the rest |
| ParseLink.CollapseSlashRunIsOne | src/services/storyblok/utils/parse-link.ts:27 | a text made only of one or more slashes becomes `/` |
| ParseLink.CollapseAppend | src/services/storyblok/utils/parse-link.ts:27 | the replacement is global: when `a` is empty or ends in a non-slash, `a + b` is collapsed as `a` and `b` separately |
| ParseLink.CollapseHasNoDoubleSlash | src/services/storyblok/utils/parse-link.ts:27 | after collapsing there is no `//` |
| ParseLink.CollapseKeepsOtherChars | src/services/storyblok/utils/parse-link.ts:27 | collapsing keeps every non-slash character, in order |
| ParseLink.CollapseFixesSingleSlashes | src/services/storyblok/utils/parse-link.ts:27 | text without `//` is left unchanged |
| ParseLink.NormalizePath | src/services/storyblok/utils/parse-link.ts:23-27 | the result starts with `/`, has no `//`, and keeps the path's non-slash characters in order |
| ParseLink.NormalizePathJoinsSegments | src/services/storyblok/utils/parse-link.ts:23-27 | two slash-free segments joined by any run of slashes come out as `/` + first + `/` + second |
| ParseLink.NormalizePathIdempotent | src/services/storyblok/utils/parse-link.ts:27 | normalising twice equals normalising once |
| ParseLink.NormalizePathFixedPoints | src/services/storyblok/utils/parse-link.ts:23-27 | a path is left unchanged exactly when it starts with `/` and has no `//` |
| ParseLink.RemoveFragment | src/services/storyblok/utils/parse-link.ts:33 | without a `#` the url is unchanged; with one, the text before the first `#` is kept and the result is shorter than the url |
| ParseLink.LineEnd | src/services/storyblok/utils/parse-link.ts:33 | the first line terminator at or after `i`, which is where `.*` stops |
| ParseLink.AppendAnchor | src/services/storyblok/utils/parse-link.ts:29-33 | a falsy anchor returns the url unchanged; otherwise the result ends in `#` + anchor |
| ParseLink.AppendAnchorOnOneLine | src/services/storyblok/utils/parse-link.ts:29-33 | on a url without line terminators, the text before the new `#anchor` is the longest prefix of the url that has no `#` |
| ParseLink.RemoveFragmentOnOneLine | src/services/storyblok/utils/parse-link.ts:33 | on one line, removing the fragment cuts the url at its first `#` |
| ParseLink.RemoveFragmentOfAnchored | src/services/storyblok/utils/parse-link.ts:33 | removing the fragment from `base#a` gives back `base` when `base` has no `#` |
| ParseLink.AppendAnchorIdempotent | src/services/storyblok/utils/parse-link.ts:29-33 | appending the same one-line anchor twice equals appending it once |
| ParseLink.EmailAddress | src/services/storyblok/utils/parse-link.ts:68 | `email` when it is present, `url` otherwise |
| ParseLink.StorySlug | src/services/storyblok/utils/parse-link.ts:76 | the story's `full_slug`, else `cached_url`, else `""` |
| ParseLink.StoryHref | src/services/storyblok/utils/parse-link.ts:77-82 | a story href is never empty |
| ParseLink.ParseLink | src/services/storyblok/utils/parse-link.ts:45-88 | it throws exactly for a missing or unknown linktype (unhandled) or an email link with a falsy address (missing address); every href it returns is non-empty |
| ParseLink.ParseLinkPart | src/services/storyblok/utils/parse-link.ts:90-91 | with a `part` it throws the same errors and returns exactly that field of the full result |
| ParseLink.UrlLinkResolution | src/services/storyblok/utils/parse-link.ts:58-61 | a url link gives href = url, or `#` for an empty or missing url; the target is `_blank` whatever `link.target` says |
| ParseLink.AssetLinkResolution | src/services/storyblok/utils/parse-link.ts:53-65 | an asset link gives href = url or `#`, and target `link.target ?? "_self"` |
| ParseLink.EmailLinkResolution | src/services/storyblok/utils/parse-link.ts:67-73 | an email link succeeds exactly when `email ?? url` is truthy, giving `mailto:` + address and `_blank`; a present empty `email` throws even when `url` is set |
| ParseLink.StoryLinkResolution | src/services/storyblok/utils/parse-link.ts:53-84 | a story link never throws, with target `link.target ?? "_self"`; an empty slug gives `#`; an absolute slug with no anchor is kept verbatim; a non-absolute slug gives an href starting with `/`, and without an anchor that href also has no `//` and keeps the slug's non-slash characters in order; with an anchor the href ends in `#anchor` |
| ParseAsset.Coalesce | src/services/storyblok/utils/parse-asset.ts:9-10 | the result is present exactly when some argument is, and then it is the first present argument |
| ParseAsset.CoalesceTwo | src/services/storyblok/utils/parse-asset.ts:22 | with two arguments: the first unless it is nullish, otherwise the second |
| ParseAsset.ParseAsset | src/services/storyblok/utils/parse-asset.ts:12-28 | a null asset throws; it succeeds exactly when `filename` is present and non-empty, or is nullish and `src` is truthy; then `src = filename ?? src` (never empty), and `alt` is passed on with missing kept as null |
| ParseAsset.EmptyFilenameIsRejected | src/services/storyblok/utils/parse-asset.ts:22-23 | an empty `filename` hides `src`, and the asset throws |
| ParseAsset.ParseAssetPart | src/services/storyblok/utils/parse-asset.ts:26-28 | with a `part` it throws the same errors and returns exactly that field |
| Helpers.TemplateString | src/services/storyblok/helpers.ts:71 | an interpolated missing value is written as `undefined` |
| Helpers.ParseLink | src/services/storyblok/helpers.ts:63-81 | it throws exactly when the linktype is not url, asset or email, and is not a story link with a resolved story |
| Helpers.UrlAndAssetLinks | src/services/storyblok/helpers.ts:64-68 | url and asset links pass `url` through verbatim, with no `#` fallback, and get target `link.target ?? "_self"` |
| Helpers.EmailLinks | src/services/storyblok/helpers.ts:69-73 | email links give `mailto:` + url and `_blank`; a missing url gives `mailto:undefined`; the `email` field is never read |
| Helpers.StoryLinks | src/services/storyblok/helpers.ts:74-80 | an unresolved story throws; a resolved one gives `full_slug` verbatim with target `link.target ?? "_self"`, ignoring anchor and `cached_url` |
| Helpers.ParseAsset | src/services/storyblok/helpers.ts:83-89 | it throws only when `filename` and `src` are both falsy; `src = filename ?? src`, which is `""` exactly when `filename` is `""`; `alt` is passed through unchanged |
| LinkVariants.UrlLinkVariants | src/services/storyblok/utils/parse-link.ts:58-61 | the two resolvers agree on a non-empty url; for an empty one the current resolver gives `#` and the older one the url itself; only the older one honours `link.target` |
| LinkVariants.EmailLinkVariants | src/services/storyblok/helpers.ts:69-73 | the two resolvers agree when only `url` holds the address; an address held in `email` alone is read by the current resolver only |
| LinkVariants.StoryLinkVariants | src/services/storyblok/helpers.ts:74-80 | an unresolved story is an error only for the older resolver; a resolved, already-normalised slug with no anchor gives the same link in both |
| LinkVariants.AssetVariants | src/services/storyblok/utils/parse-asset.ts:22-23 | the two asset resolvers accept the same assets and agree on the result, except for an empty `filename` with a truthy `src`: the current one throws and the older one returns `src = ""`; a missing `alt` is `None` in both, though it is `null` in one and `undefined` in the other |
| JsParseInt.LeadingWhiteSpace | src/services/storyblok/redirects.ts:28 | the length of the leading white-space run that parseInt skips |
| JsParseInt.DigitRun | src/services/storyblok/redirects.ts:28 | the length of the leading run of digits in the radix |
| JsParseInt.ReadMagnitude | src/services/storyblok/redirects.ts:28 | a magnitude is read only from text that starts with a decimal digit |
| JsParseInt.ParseSigned | src/services/storyblok/redirects.ts:28 | text without a decimal digit is NaN |
| JsParseInt.ParseInt | src/services/storyblok/redirects.ts:28 | text without a decimal digit is NaN |
| JsParseInt.ReadMagnitudeOfDecimal | src/services/storyblok/redirects.ts:28 | a decimal numeral followed by a non-digit (and after a lone `0`, no `x`) reads back as its number |
| JsParseInt.ParseIntSkipsSpaceAndSign | src/services/storyblok/redirects.ts:28 | leading white space is skipped and a `-` negates the magnitude |
| JsParseInt.ParseIntReadsDecimal | src/services/storyblok/redirects.ts:28 | white space, an optional `-`, the decimal numeral of `n` and trailing text such as ` Permanent` read back as `n` or `-n` |
| JsParseInt.ParseIntOfDecimalString | src/services/storyblok/redirects.ts:28 | parseInt of the decimal numeral of `n` is `n` |
| JsParseInt.ParseIntNaN | src/services/storyblok/redirects.ts:28 | `""` and `permanent` are NaN |
| RedirectTransform.StatusOf | src/services/storyblok/redirects.ts:28 | an absent or empty status gives 301; otherwise the status is parseInt of the string, and NaN when parseInt gives NaN |
| RedirectTransform.ToConfig | src/services/storyblok/redirects.ts:28-35 | the destination is the entry's `new`; an absent or empty status gives 301; a given status is a number exactly when parseInt reads one |
| RedirectTransform.StatusOfDecimal | src/services/storyblok/redirects.ts:28 | a status written as a decimal number is that number |
| RedirectTransform.FromEntries | src/services/storyblok/redirects.ts:27-38 | the keys are exactly the `old` paths of the entries |
| RedirectTransform.LastEntryWins | src/services/storyblok/redirects.ts:27-38 | each key holds the status and the `new` destination of the last entry with that `old` path |
| RedirectTransform.KeyCountBound | src/services/storyblok/redirects.ts:27-38 | there are never more keys than entries |
| RedirectTransform.DistinctKeysAreKept | src/services/storyblok/redirects.ts:27-38 | with distinct `old` paths there is one key per entry |
| RedirectTransform.RedirectsOf | src/services/storyblok/redirects.ts:20-38 | missing content or a missing list gives the empty map; otherwise the fold over the list (empty for an empty list) |
| Redirects.GetRedirects | src/services/storyblok/redirects.ts:12-43 | a failed request or schema check is caught and gives the empty map; validated content goes through the transform |
| Redirects.GetRedirectsOfList | src/services/storyblok/redirects.ts:27-39 | for a validated list, the keys are the `old` paths, there are no more keys than entries, and each key holds its last entry's status and destination |
| Redirects.GetRedirectsAsWritten | src/services/storyblok/redirects.ts:4-43 | as written, with the schema imported from a module that does not export it: every call returns `{}` |
| Redirects.AsWrittenLosesRedirects | src/services/storyblok/redirects.ts:4-43 | for every non-empty redirect list, the loader with the schema from its defining module has the last entry's old path as a key, and the loader as written differs from it |
| Redirects.EmptyCases | src/services/storyblok/redirects.ts:20-43 | a failure, missing content, a missing list and an empty list all give `{}` |
| GetRedirects.ContentOf | src/services/storyblok/get-redirects.ts:17 | a missing `data` or `story` gives no content; otherwise it is the story's content |
| GetRedirects.GetRedirects | src/services/storyblok/get-redirects.ts:12-44 | a failed request gives the empty map; otherwise the transform of `data?.story?.content` |
| GetRedirects.MissingLevelsGiveEmpty | src/services/storyblok/get-redirects.ts:17-26 | a missing `data`, `story`, `content` or `redirects`, or an empty list, gives `{}` |
| GetRedirects.GetRedirectsOfList | src/services/storyblok/get-redirects.ts:28-39 | each key is an `old` path holding its last entry's status and destination, and there are no more keys than entries |
| GetRedirects.AgreesWithValidatingLoader | src/services/storyblok/get-redirects.ts:17-40 | on content that validated, both loaders return the same map |
| StatNumbers.RemoveWhiteSpace | src/components/stats/animations.ts:24 | the cleaned text has no white space (what it keeps is stated by the next two lemmas) |
| StatNumbers.RemoveWhiteSpaceOfChar | src/components/stats/animations.ts:24 | one character is dropped exactly when it is white space |
| StatNumbers.RemoveWhiteSpaceAppend | src/components/stats/animations.ts:24 | the replacement is global: a concatenation is cleaned part by part |
| StatNumbers.RemoveAllWhiteSpace | src/components/stats/animations.ts:24 | text made only of white space becomes empty |
| StatNumbers.RemoveWhiteSpaceKeepsClean | src/components/stats/animations.ts:24 | text without white space is left unchanged |
| StatNumbers.RunEnd | src/components/stats/animations.ts:27 | the end of the run of characters that are (or are not) digits and dots |
| StatNumbers.IsNumeral | src/components/stats/animations.ts:27 | `\d*\.?\d+`: a numeral with a dot has at least one digit after it |
| StatNumbers.SplitStat | src/components/stats/animations.ts:27 | a found split re-assembles the text, and its middle group is a numeral |
| StatNumbers.SplitIsUnique | src/components/stats/animations.ts:27 | every way the pattern can match is the split found: a longest non-digit prefix, then the numeral, then the suffix |
| StatNumbers.SplitStatIsPattern | src/components/stats/animations.ts:27 | a split is found exactly when the anchored pattern matches |
| StatNumbers.Decimals | src/components/stats/animations.ts:47 | `split(".")[1].length`: 0 without a dot; otherwise the length of the dot-free text from the first dot to the next dot or the end |
| StatNumbers.NumeralDigits | src/components/stats/animations.ts:46-47 | both sides of the dot are digit strings, and `decimals` is the number of digits after the dot |
| StatNumbers.NumeralJoin | src/components/stats/animations.ts:34 | a numeral without its dot is its integer digits followed by its fraction digits |
| StatNumbers.NumeralValue | src/components/stats/animations.ts:34 | the exact value of the numeral is non-negative |
| StatNumbers.WithoutOnlyDot | src/components/stats/animations.ts:34 | removing the only dot joins the text on either side of it |
| StatNumbers.ScaledJoin | src/components/stats/animations.ts:34 | integer digits `a` and fraction digits `f`, read as one integer over `10^|f|`, equal `a + f / 10^|f|` |
| StatNumbers.NumeralValueIsScaledDigits | src/components/stats/animations.ts:34-47 | a numeral's value is its digits read as one integer and divided by `10^decimals` |
| StatNumbers.Multiplier | src/components/stats/animations.ts:37-44 | ×1000 if the lower-cased suffix contains `k`; otherwise ×10^6 for `m`; otherwise ×10^9 for `b`; otherwise ×1 |
| StatNumbers.Scaled | src/components/stats/animations.ts:37-44 | scaling never makes a non-negative value smaller |
| StatNumbers.ParseNumber | src/components/stats/animations.ts:22-50 | the value is never negative; with no match the result is value 0, prefix `""`, decimals 0, and the original uncleaned text as suffix |
| StatNumbers.ParseNumberOfMatch | src/components/stats/animations.ts:24-49 | when the cleaned text matches with the numeral at `[p, m)`, the result is the numeral's value times the suffix's multiplier, the groups before and after, and the numeral's decimals |
| StatNumbers.ParseNumberOfNoMatch | src/components/stats/animations.ts:29-31 | when no split of the cleaned text matches, the result is value 0, prefix `""`, decimals 0, and the original text as suffix |
| StatNumbers.ParsedFieldsAreClean | src/components/stats/animations.ts:24-33 | a parsed prefix and suffix contain no white space, digit or dot |
| StatNumbers.DigitRunIsNumeral | src/components/stats/animations.ts:27-47 | a run of digits is a numeral with no decimals, worth the run read as an integer |
| StatNumbers.ParseJoined | src/components/stats/animations.ts:22-50 | prefix + numeral + suffix, with a clean prefix and suffix, parses back into exactly those parts, with the scaled value and the numeral's decimals |
| StatNumbers.ParseRendered | src/components/stats/animations.ts:22-50 | prefix + the decimal numeral of `n` + suffix parses back to `n` times the multiplier, with no decimals |
| StatNumbers.ParseThousands | src/components/stats/animations.ts:20-50 | `$2.3K` parses to 2300 with prefix `$`, suffix `K` and one decimal |
| StatNumbers.ParseCleanedText | src/components/stats/animations.ts:24-33 | once the pattern matches, the text parses as the text with its white space removed does |
| StatNumbers.CleanSpacedParts | src/components/stats/animations.ts:24 | removing white space from prefix + spaces + numeral + spaces + suffix, all three clean, leaves prefix + numeral + suffix |
| StatNumbers.ParseSpaced | src/components/stats/animations.ts:22-50 | white space between the prefix, the numeral and the suffix is ignored: the parts, the scaled value and the decimals are those of the text without it |
| StatNumbers.ParseSpacedThousands | src/components/stats/animations.ts:20-50 | `$ 2.3 K` parses to 2300 with prefix `$`, suffix `K` and one decimal |
| StatNumbers.DisplayValue | src/components/stats/animations.ts:56-67 | below the suffix's multiplier the value is shown as it is, and a non-negative value is never shown larger |
| StatNumbers.DisplayValueScalesDown | src/components/stats/animations.ts:56-67 | the three guarded divisions amount to one division by the suffix's multiplier, once the value has reached it |
| StatNumbers.FormatNumber | src/components/stats/animations.ts:55-73 | the output is prefix + the formatted shown value + suffix; the shown value is divided by the multiplier parseNumber used for the suffix, but only once it has reached that multiplier |
| StatNumbers.ShownValue | src/components/stats/animations.ts:37-67 | at `n` times the multiplier, the shown value is `n` exactly when `n >= 1`, `n = 0`, or the multiplier is 1 |
| StatNumbers.FinalValueShowsNumeral | src/components/stats/animations.ts:37-67 | at the parsed target value, the counter shows the parsed numeral exactly when it is at least 1, or 0, or the suffix has no multiplier (so `0.5K` ends at `500.0K`) |

## Left out

- I/O: the Storyblok client, the `cdn/stories/...` request, the draft/published version switch, and the `console` calls. Each loader's input is the outcome of that request: the response, or the failure it threw.
- Validation by the zod schema in `redirects.ts` is an opaque pass/fail input (`SchemaRejected`); the schema itself is not part of this model. `redirects.ts` imports `getStoryResponseSchema` from `./helpers`, which does not export it (see "## Findings"). `Redirects.GetRedirects` models the loader with that schema taken from `schemas.ts`, where it is defined.
- `getStory` and `storyblokBaseSchema` in `helpers.ts`, the other CMS fetch wrappers, all GSAP/DOM animation code (including `animateNumber`, `animateNumberOnScroll` and `animateStatsStaggered`), and config files. None of these is part of this model.
- `null` and `undefined` are both `None`. In the older email resolver a `null` url therefore gives `mailto:undefined` instead of `mailto:null`. For a missing `alt`, the current `parseAsset` returns `alt: null` (`parse-asset.ts:25`) and the older one returns `alt: undefined` (`helpers.ts:87`). The model gives `None` for both, so `LinkVariants.AssetVariants` shows agreement only up to that difference.
- Strings are sequences of Unicode code points, not UTF-16 code units. Lower-casing is modelled only as far as `includes("k"/"m"/"b")` needs it; the KELVIN SIGN U+212A counts as a `k`.
- Thrown errors are constructors. Their message texts, including the link `id` in the email error, are not modelled.
- The conditional TypeScript return types of `parseLink` and `parseAsset` are not modelled; `PartValue` and `AssetValue` tag the runtime field instead.
- `isAbsoluteUrl`'s doc comment says `mailto:` counts as absolute. The model follows the regular expression, which needs `://` (see `ParseLink.MailtoIsNotAbsolute`).
- `appendAnchor` is modelled for all inputs, including the way `.` stops at line terminators. Its idempotence is proved only for text on one line.
- JsParseInt.ParseInt: integers are exact. Float rounding of very long digit runs, and `-0`, are not modelled. All of ECMAScript's radix-10/16 rules are modelled, including the `0x` prefix, the sign and the white space.
- JsText.DecimalString: it is the plain decimal numeral of `n`. `String(n)` gives that text only for `n < 10^21`; from `10^21` on it writes exponent notation such as `1e+21`. Then `parseInt` reads `1`, and parseNumber's pattern does not match. So the lemmas that read a numeral back (`JsParseInt.ParseIntReadsDecimal`, `JsParseInt.ParseIntOfDecimalString`, `RedirectTransform.StatusOfDecimal`, `StatNumbers.ParseRendered`) describe `String(n)` only below `10^21`.
- StatNumbers.NumeralValue: `Number.parseFloat` is modelled as the exact real value of the numeral, not as a rounded double. The same holds for the products in `ParseNumber` and the quotients in `FormatNumber`.
- StatNumbers.FormatNumber: `toFixed` is a parameter. Nothing is stated about how a number is rendered beyond "prefix + rendered value + suffix".
- RedirectTransform.FromEntries: `Object.fromEntries` builds an object whose keys keep their insertion order, and a duplicate key stays at its first position. The model is a `map`, which has no order. Nothing in the modelled code reads that order.
- RedirectTransform.RedirectEntry: `old` and `new` are modelled as present strings. Other shapes of content, which the loaders cast to the redirect-list type without checking, are not modelled.

## Findings

| source | as written | input that shows it | evidently intended | confidence | as-written member | corrected member |
|---|---|---|---|---|---|---|
| src/services/storyblok/redirects.ts:4 | `getStoryResponseSchema` is imported from `./helpers`, which has no such export; it is defined in `schemas.ts`. The module either fails to link, or the binding is undefined, so `.parse` at line 16 throws inside the `try` and the catch returns `{}` | any redirect list with at least one entry, such as `[{old: "/a", new: "/b"}]` | import the schema from `./schemas`, so that a validated list becomes the redirect map | not executed; the import and the missing export are plain in the text | Redirects.GetRedirectsAsWritten | Redirects.GetRedirects |
