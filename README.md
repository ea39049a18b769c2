# openGraphScraperLite core, modelled in Dafny

This project models the helpers of `lib/utils.ts` and the entry gate of
`lib/openGraphScraper.ts` of openGraphScraperLite, a library that reads Open Graph and related
meta data out of an HTML string. It also proves what those helpers and the gate promise.

- `js_runtime.dfy` (module `JsRuntime`) holds the part of the JavaScript runtime that the code
  relies on:
  - values, and truthiness and `typeof` over them;
  - heap objects as the class `JsObject`, whose own properties are a `map` that methods update
    in place;
  - `String.prototype.split` for a one-character separator, with its inverse `Join`;
  - `Object.entries`.
- `utils.dfy` (module `Utils`) holds the four helpers:
  - `FindImageTypeFromUrl` reads the image type off a URL.
  - `IsImageTypeValid` checks a type against the whitelist of fifteen extensions.
  - `RemoveNestedUndefinedValues` prunes `undefined` properties, in place, from a whole object
    graph.
  - `OptionSetup` applies the default `onlyGetOpenGraphInfo: false` with object-spread
    semantics.
- `open_graph_scraper.dfy` (module `OpenGraphScraper`) holds `SetOptionsAndReturnOpenGraphResults`.
  It defaults the options, then refuses a missing html and then invalid custom meta tags. Each
  refusal is an `Outcome.Failure` carrying the exact error message. On success it runs the
  extraction, stamps `success: true` on the result and echoes the html back. The extraction
  engine and the custom-tag validator come in as function parameters, so every property proved
  about the gate holds for any extraction and any validator.

The caller's options are a record of `Prop<T>` fields: `Omitted | GivenUndefined | GivenNull |
Given(value)`. With it, the model tells apart a property that is left out from one explicitly
set to `undefined`. That difference matters: object spread copies an explicit `undefined` over
the default, while `??` treats `undefined` and `null` alike.

Two behaviours of the code worth noting:
- The image type is not lower-cased. `'image.PNG'` gives `'PNG'`, which the case-sensitive
  whitelist then refuses.
- A nested object that pruning empties is kept as `{}`.

## Model

| member | source | states |
|---|---|---|
| JsRuntime.TruthyObjectIsRef | lib/utils.ts:65 | `value && typeof value === 'object'` holds exactly for object references, so `null` and every primitive are not entered |
| JsRuntime.Split | lib/utils.ts:39-40 | `split` with a one-character separator gives at least one piece, none holding the separator, and joining the pieces with the separator gives back the input |
| JsRuntime.FirstPieceIsHead | lib/utils.ts:40 | the first piece of a split (the destructured `[type]`) is the text before the first separator |
| JsRuntime.LastPieceIsTail | lib/utils.ts:39 | the last piece of a split (`pop()`) is the text after the last separator |
| JsRuntime.Entries | lib/utils.ts:64 | `Object.entries` lists every own property exactly once, with its value, and nothing else |
| Utils.FindImageTypeFromUrl | lib/utils.ts:38-42 | the image type never contains a '.' or a '?' |
| Utils.FindImageTypeFromUrlIsSlice | lib/utils.ts:38-42 | the result is the text after the last '.' of the URL, cut at the first '?' after that point |
| Utils.FindImageTypeFromUrlHasSlice | lib/utils.ts:39-41 | the result is always such a slice of the URL, so it is never longer than the URL and keeps its letter case |
| Utils.FindImageTypeFromUrlWithQuery | tests/unit/utils.spec.ts:14-17 | a URL ending in `.ext?query`, with no '.' in the query, has type `ext`: `'foobar.com/image.png?test=true'` gives `'png'` |
| Utils.FindImageTypeFromUrlWithoutQuery | tests/unit/utils.spec.ts:19-27 | a URL ending in `.ext` has type `ext`: `'foobar.com/image.png'` and `'image.png'` give `'png'` |
| Utils.FindImageTypeFromUrlWithoutDot | lib/utils.ts:39-41 | a URL without a '.' gives its text up to the first '?', or the whole URL when it has no '?' |
| Utils.FindImageTypeFromUrlDotInQueryWins | lib/utils.ts:39-40 | a '.' inside the query string wins over the extension: the text after it is the type |
| Utils.FindImageTypeFromUrlExamples | tests/unit/utils.spec.ts:29-37 | `'image'` gives `'image'` and `''` gives `''` |
| Utils.IsImageTypeValid | lib/utils.ts:51-54 | every accepted type is three to five lower-case letters, so any spelling with an upper-case letter is refused |
| Utils.ValidImageTypesAreFifteen | lib/utils.ts:52 | the whitelist holds fifteen pairwise different extensions |
| Utils.IsImageTypeValidExamples | tests/unit/utils.spec.ts:40-50 | `'png'` is accepted; `'foo'` and `'PNG'` are refused |
| Utils.StripUndefined | lib/utils.ts:64-66 | the pruned property map keeps exactly the properties whose value is not `undefined`, each with its value unchanged, and adds none |
| Utils.StripUndefinedIsIdempotent | lib/utils.ts:63-68 | pruning an already pruned property map changes nothing |
| Utils.StripUndefinedKeepsCleanMaps | lib/utils.ts:63-68 | a property map without `undefined` values is left as it is |
| Utils.RemoveNestedUndefinedValues | lib/utils.ts:63-69 | returns the object it was given; afterwards every object reachable from it holds its old properties minus the `undefined` ones, no `undefined` value is left at any depth, and the graph's references are intact |
| Utils.PruneEntry | lib/utils.ts:64-67 | the `forEach` callback: a truthy object value is pruned in full, an `undefined` value's key is deleted, and `null`, `0`, `''` and `false` stay; nothing outside the entry's own reach changes |
| Utils.RemoveNestedUndefinedValuesFlatExample | tests/unit/utils.spec.ts:58-61 | `{ one: 1, two: undefined }` becomes `{ one: 1 }` |
| Utils.RemoveNestedUndefinedValuesNestedExample | tests/unit/utils.spec.ts:63-66 | `{ one: 1, two: { three: undefined } }` becomes `{ one: 1, two: {} }`: the emptied nested object is kept, and is the same object |
| Utils.RemoveNestedUndefinedValuesTwice | lib/utils.ts:63-68 | two calls in a row have the effect of one: the second call changes nothing |
| Utils.OptionSetup | lib/utils.ts:78-85 | `onlyGetOpenGraphInfo` becomes `false` when the caller leaves it out and is the caller's own otherwise, an explicit `undefined` included; html, custom meta tags and every other option are copied unchanged; when `others` holds none of the three named keys, neither does the result |
| Utils.OptionSetupIsIdempotent | lib/utils.ts:78-85 | defaulting twice is defaulting once, and afterwards the flag is always present |
| Utils.OptionSetupExamples | tests/unit/utils.spec.ts:70-78 | `{}` becomes `{ onlyGetOpenGraphInfo: false }` and `{ onlyGetOpenGraphInfo: true }` stays as it is |
| OpenGraphScraper.StampSuccess | lib/openGraphScraper.ts:23 | `ogObject.success = true` adds or overwrites `success` with `true` and leaves every other field as it was |
| OpenGraphScraper.SetOptionsAndReturnOpenGraphResults | lib/openGraphScraper.ts:15-25 | a missing or empty html fails with "Must pass in \`html\` option."; otherwise tags the validator refuses fail with "Invalid Custom Meta Tags"; the call succeeds exactly when neither holds, and then returns the extraction of the html under the defaulted options, stamped a success, with the html as both `html` and `response.body` |
| OpenGraphScraper.EmptyHtmlIsRefusedFirst | lib/openGraphScraper.ts:18-20 | `html: ''` fails with the html message whatever the validator says about the tags |
| OpenGraphScraper.FailureNeverReachesExtraction | lib/openGraphScraper.ts:18-22 | a refused call gives the same error for every extraction, so extraction is never reached |
| OpenGraphScraper.AbsentCustomMetaTagsValidateAsEmpty | lib/openGraphScraper.ts:20 | `customMetaTags ?? []`: left-out, `undefined` and `null` custom tags succeed or fail exactly as an explicit `[]` does, and a failure is the same error |
| OpenGraphScraper.ExtractionSeesDefaultedFlag | lib/openGraphScraper.ts:16-22 | extraction runs with `onlyGetOpenGraphInfo: false` when the caller left it out, and with the caller's value otherwise |
| OpenGraphScraper.SuccessIsStampedAndEchoesHtml | lib/openGraphScraper.ts:22-24 | on success `ogObject.success` is `true` whatever extraction returned, and `html` and `response.body` both equal the html passed in |

## Left out

- `isUrlValid` and `defaultUrlValidatorSettings` (lib/utils.ts:4-29) are a thin wrapper over the
  external `validator` package's `isURL`, which is not part of this model.
- `extractMetaTags` (lib/extract) is not part of this model. The gate takes it as a parameter,
  and the tests that depend on its output are not modelled.
- `isCustomMetaTagsValid` is not part of this model. Its definition is not in lib/utils.ts, so
  the gate takes it as a parameter, and the shape of a custom tag is the type parameter `Tag`.
- `async`, the returned promise, thrown exceptions and the error envelope of `index.ts` are left
  out. A thrown error is an `Outcome.Failure` carrying its message.
- The compiled `dist/` files and the type declarations are not modelled.
- Options: only `html`, `onlyGetOpenGraphInfo` and `customMetaTags` are named. Every other option
  is an entry of `others`, which passes through unchanged.
- JsRuntime.Entries: the insertion order of `Object.entries` is not modelled, because a `map`
  keeps no order. The pruning result does not depend on the order.
- JsRuntime.Value: numbers are `real`, so NaN, infinities and negative zero are not modelled.
  Functions, symbols and bigints are not modelled either. Arrays are objects whose keys are
  indices; array length and holes are not modelled.
- JsRuntime.Split: only one-character separators are modelled, which is all the code uses.
- Utils.RemoveNestedUndefinedValues: requires an acyclic object graph (sharing is allowed). On a
  cycle the code recurses until the stack overflows, and that is not modelled. The method also
  requires every reachable object to be allocated, which holds of every object a caller can name.
- OpenGraphScraper.SetOptionsAndReturnOpenGraphResults: the extracted object is a property map
  value rather than a heap object, so `ogObject.success = true` is a map update. Any aliasing of
  the extracted object elsewhere is not modelled.
