# emojicdn resolver, modelled in Dafny

This project models the request handler of the emojicdn service (`index.js`).
The service answers a request for an emoji with the image of that emoji on the
jsDelivr mirror of `iamcal/emoji-data`. The handler works in these steps:

- At start-up it flattens the emoji dataset into one table. The table holds
  every base record; each base is followed by its skin-tone variations, and
  each variation's fields are merged over the base's fields.
- It trims the slashes off the URL's pathname. It answers the three fixed
  routes (`/`, `/favicon.ico`, `/random`) first. Only then does it validate
  the `style` query parameter (default `apple`).
- It turns the percent-decoded path into a lookup key. The key is every code
  point in lower-case hex, left-padded with zeros to four digits, joined with
  `-`.
- It searches the table for the first record that matches one of four rules:
  1. the `unified` field equals the key;
  2. `unified` equals the key with one trailing `-fe0f` removed;
  3. `unified` equals the key with `-fe0f` appended;
  4. the name slug equals the lower-cased decoded text.
- On a match it fetches
  `https://cdn.jsdelivr.net/gh/iamcal/emoji-data/<folder>/<image>`, where the
  folder comes from a fixed four-entry table. Otherwise it answers 404
  `Emoji not found`.

Modules, one per part of the handler:

- `Wrappers` (`wrappers.dfy`): `Option`, which stands for `undefined`/`null`
  and for `??`.
- `Text` (`text.dfy`): `leftPad`, `join`, ASCII `toLowerCase`, `replace(/ /g, "-")`
  and the slash trimming. `Split` is the inverse of `Join`.
- `Hex` (`hex.dfy`): `toString(16)` as `ToHex`, with its inverse `ParseHex`.
- `CodeKey` (`codekey.dfy`): the lookup key and `DecodeKey`, the function
  that reads a key back.
- `Dataset` (`dataset.dfy`): the records, the merge, and the flattening loop.
  The loop is a method (`Flatten`) proved against a function (`Flattened`).
- `Matcher` (`matcher.dfy`): the four-rule predicate and the first-match search.
- `Router` (`router.dfy`): the style tables, `buildRedirectUrl`, and the whole
  handler as one function `Handle`. `Handle` returns a `Response`:
  - `Usage`, `Empty` and `Redirect(url)`;
  - `BadStyle(400, …)` and `NotFound(404, …)`;
  - `Thrown(…)` for the two exceptions the handler can raise.

Inputs that come from the host are parameters of `Handle`:

- the pathname;
- the `style` parameter, as an `Option`;
- `decodeURIComponent`, as a function from the path to `Option<string>`
  (`None` when it throws);
- the index that `Math.floor(Math.random() * emoji.length)` picks.

Behaviour of the handler worth noting:

- The handler does not answer with a 3xx redirect. It fetches the CDN URL and
  returns that response. `Redirect(url)` records the URL fetched.
- A skin variation is merged as a whole object (`{ ...e, ...v }`): every
  field the variation sets overrides the base's. The model's `Variation` sets
  only `unified`, `name` and `image`, so the merged record keeps the base's
  `skin_variations`.
- `random` is answered before the style is checked, so `?style=bogus` is not
  rejected there. `STYLE_TO_FOLDER[style]` is then `undefined`, and the URL
  contains the folder `undefined` (`HandleRandomUnknownStyle`).
- Asking for a record by its own `unified` does not always return that record:
  an earlier record can match first, by a `-fe0f` rule or by its name. The
  model proves that the answer is that record or an earlier matching one
  (`HandleByUnified`).

## Model

| member | source | states |
|---|---|---|
| `Text.LeftPad` | index.js:23-27 | a string at least `length` long is returned unchanged; otherwise the result is `length - |s|` copies of the pad character followed by `s`; so the length is `max(|s|, length)` and `s` is always its suffix |
| `Text.TrimLeadingSuffix` | index.js:45 | the `^\/+` half of the pattern: the result is a suffix of the input, everything removed was `/`, and the result does not start with `/` |
| `Text.TrimTrailingPrefix` | index.js:45 | the `\/+$` half of the pattern: the result is a prefix of the input, everything removed was `/`, and the result does not end with `/` |
| `Text.TrimSlashesInner` | index.js:45 | the trimmed path is the pathname with a run of leading slashes and a run of trailing slashes removed, and it neither starts nor ends with `/` |
| `Text.TrimSlashesIdempotent` | index.js:45 | trimming an already trimmed path leaves it unchanged |
| `Text.TrimSlashesFixed` | index.js:45 | a path trims to itself exactly when it neither starts nor ends with `/` |
| `Text.TrimSlashesEmpty` | index.js:45-48 | the trimmed path is empty exactly when the pathname is made of slashes only |
| `Text.LowerIsLower` | index.js:97-101 | the lower-cased string holds no ASCII capital, and lower-casing it again changes nothing |
| `Text.LowerOfNoUpper` | index.js:97-101 | a string is its own lower case exactly when it holds no ASCII capital |
| `Text.ReplaceAllRemoves` | index.js:101 | replacing a character by a different one leaves none of it, and changes the string exactly when the character occurs in it |
| `Matcher.SlugShape` | index.js:101 | the name slug has the name's length and holds no space and no ASCII capital |
| `Text.JoinKeeps` | index.js:93 | every character of a joined string comes from one of the parts or from the separator |
| `Text.SplitJoin` | index.js:93 | joining parts that hold no `-` with `-` can be undone: splitting on `-` gives the parts back |
| `Text.SplitAtSeparator` | index.js:30 | in `a + "/" + b` with no `/` in `a`, the whole string determines both `a` and `b` |
| `Hex.ToHex` | index.js:92 | `toString(16)` gives at least one lower-case hex digit: exactly `0` for zero, and no leading zero for a non-zero number |
| `Hex.ParseToHex` | index.js:92 | parsing the rendered digits gives the number back |
| `Hex.ParseLeadingZeros` | index.js:23-27 | the zeros that `leftPad` adds do not change the value the digits denote |
| `CodeKey.Segment` | index.js:92 | one code point becomes lower-case hex of at least four digits, has a leading zero only when it is exactly four long, and parses back to the code point |
| `CodeKey.KeyAlphabet` | index.js:91-93 | a key holds only lower-case hex digits and `-` |
| `CodeKey.KeyIsLowerCase` | index.js:97-100 | so `code.toLowerCase()` is the key itself |
| `CodeKey.KeyStructure` | index.js:91-93 | the key of a non-empty text splits on `-` into exactly one segment per code point; each segment is lower-case hex of at least four digits and parses back to its code point |
| `CodeKey.KeyRoundTrip` | index.js:91-93 | decoding the key recovers the sequence of code points of the text |
| `CodeKey.KeyInjective` | index.js:91-93 | two texts with the same key are the same text |
| `CodeKey.KeyThumbsUp` | index.js:91-93 | U+1F44D gives the key `1f44d`, with no padding |
| `CodeKey.KeyDigitNine` | index.js:91-93 | U+0039 gives the key `0039`, padded to four digits |
| `Dataset.Flatten` | index.js:3-12 | the start-up loop builds exactly the flattened table of the dataset |
| `Dataset.FlattenedAppend` | index.js:5-12 | flattening two datasets one after the other gives the two tables one after the other |
| `Dataset.FlattenedLength` | index.js:5-12 | the table holds, summed over the bases, one record plus one per variation |
| `Dataset.FlattenedSplit` | index.js:5-12 | the table is: the table of the bases before base `k`, then base `k` and its variants, then the table of the bases after it |
| `Dataset.FlattenedLayout` | index.js:5-12 | base `k` sits at its offset, immediately followed by its own variants in order, and base `k + 1` starts right after them |
| `Dataset.FlattenedOrigin` | index.js:5-12 | every record in the table is some base or that base merged with one of its own variations |
| `Dataset.MergeEmpty` | index.js:9 | a variation that sets no field leaves the base unchanged |
| `Dataset.MergeFull` | index.js:9 | a variation that sets `unified`, `name` and `image` decides all three fields; `skin_variations` stays the base's |
| `Dataset.MergeIdempotent` | index.js:9 | merging the same variation again changes nothing |
| `Matcher.StripSelector` | index.js:99 | a key ending in `-fe0f` loses exactly that one suffix; any other key is unchanged |
| `Matcher.Find` | index.js:95-102 | a result is an index whose record matches, and no earlier record matches; there is no result exactly when no record of the table matches |
| `Matcher.FindNoLater` | index.js:95-102 | when record `i` matches, the search finds a record at `i` or earlier |
| `Matcher.FindFirst` | index.js:95-102 | the first matching record is the one found |
| `Matcher.MatchesSelectorAppended` | index.js:100 | a record stored as `key-fe0f` matches the key |
| `Matcher.MatchesSelectorStripped` | index.js:99 | a record stored as the key without its trailing `-fe0f` matches the key |
| `Matcher.StripSelectorOnce` | index.js:99 | the anchored pattern strips one `-fe0f`: with two trailing selectors, one is left |
| `Matcher.DoubleSelectorNotStripped` | index.js:97-101 | a key that has two `-fe0f` more than a record's `unified` matches that record only by the name rule |
| `Matcher.MatchesBySlug` | index.js:101 | a record whose name slug equals the lower-cased decoded text matches whatever the key is; the name rule reads the text, not the key |
| `Matcher.MatchesIgnoresCase` | index.js:97-101 | matching depends on the key and the text only through their lower-case forms |
| `Router.StyleTablesAgree` | index.js:14-21 | the allowed styles are exactly the styles that have a folder |
| `Router.FolderHasNoSlash` | index.js:16-21 | no folder name contains `/` |
| `Router.FolderInjective` | index.js:16-21 | different allowed styles have different folders |
| `Router.RedirectUrlInjective` | index.js:29-31 | for allowed styles, the redirect URL determines both the style and the image path |
| `Router.InvalidStyleBodyText` | index.js:85 | the 400 body is `Invalid style. Valid styles are: apple, google, facebook, twitter` |
| `Router.HandleUsage` | index.js:45-48 | the usage response is given exactly when the pathname is made of slashes only |
| `Router.HandleFavicon` | index.js:74-76 | the empty response is given exactly when the trimmed path is `favicon.ico`, whatever the style |
| `Router.RandomResponse` | index.js:78-81 | `random` either redirects or raises |
| `Router.HandleRandom` | index.js:78-81 | `random` comes before style validation; with any style it redirects to the picked record's image in that style's folder, and every record can be picked; an empty table raises a TypeError |
| `Router.HandleRandomUnknownStyle` | index.js:78-81 | `random` with a style outside the table fetches from the folder `undefined` |
| `Router.HandleDefaultStyle` | index.js:46 | a missing style behaves exactly as `apple` |
| `Router.HandleBadStyle` | index.js:83-88 | any other path gets the 400 response exactly when the style is not allowed; it lists the four styles, and neither decoding nor lookup happens first |
| `Router.LookupResponse` | index.js:90-108 | after the style check a lookup either redirects, answers 404 or raises |
| `Router.HandleMalformedPath` | index.js:90 | with a valid style, a path that `decodeURIComponent` rejects raises a URIError |
| `Router.HandleNotFound` | index.js:104-106 | a lookup gets 404 `Emoji not found` exactly when no record of the table matches the key or the text |
| `Router.HandleFirstMatch` | index.js:95-108 | a lookup redirects to `https://cdn.jsdelivr.net/gh/iamcal/emoji-data/` + the style's folder + `/` + the image of the first matching record |
| `Router.HandleByUnified` | index.js:95-108 | a text whose key is a record's `unified` in any case, that `unified` without its final `-fe0f`, or that `unified` with `-fe0f` added, is redirected to that record or to an earlier matching one |

## Left out

- The CDN fetch, its headers and cache-control, and the construction of `Response` objects (index.js:33-40, 68-71) are I/O. `Redirect(url)` records only the URL fetched.
- `new URL(request.url)` and `searchParams.get` (index.js:44, 46) are host library code. The pathname and the optional style are inputs.
- `decodeURIComponent` (index.js:90) is host library code. It is a parameter that gives `None` when it would throw. The decoded text is a Dafny `string`, a sequence of Unicode scalar values. This matches the host: the pathname is percent-encoded ASCII, and a decoding that would produce a lone surrogate throws.
- `Math.random()` (index.js:79) is floating-point randomness. The picked index is a parameter: any index of a non-empty table, and 0 for an empty one.
- `Text.Lower`: lower-cases ASCII letters only, not the full Unicode `toLowerCase` of names and texts (index.js:101). Keys and `unified` values are ASCII, so they are unaffected.
- `Text.LeftPad`: the pad is a single character. In the source it can be any string, but it is only ever called with `"0"`.
- `Router.FolderText`: renders every style missing from the table as `undefined`. A JavaScript object also inherits keys such as `toString` or `constructor`, whose rendering differs. Such a style only reaches the URL through `random`.
- The usage text (index.js:49-67) is a constant. `Usage` does not carry it.
- The contents of `emoji.json` (index.js:1) are not modelled. The dataset is a parameter of `Flatten`, and the table is a parameter of `Handle`.
- Records carry only `unified`, `name`, `image` and `skin_variations`. Other fields of the dataset are not modelled, and neither is a `null` name, which would make `e.name.toLowerCase()` throw.
- Variations are an ordered sequence. `Object.values` would list integer-like keys first, but skin-tone keys are not integer-like.
- The `async` wrapper of the handler is left out.
