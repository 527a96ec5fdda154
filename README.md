# Teams app manifest builder, in Dafny

This project models the logic of a one-page form that packages a Microsoft Teams
app (manifest schema version 1.16) for a single link tab. The user enters a name,
a description, a target URL and two icons. The page derives the manifest from
those fields and, on `create`, writes `manifest.json`, `color.png` and
`outline.png` into a zip archive for download.

Modules, one per concern of `build.js`:

- `JsStrings` (`js_strings.dfy`): JavaScript strings as sequences of UTF-16 code
  units. Unpaired surrogates can be represented, and ECMA-262's
  UTF16EncodeCodePoint is defined here. `Lit` gives the code units of the model's
  ASCII literals.
- `Uri` (`uri.dfy`): `encodeURIComponent` as section 19.2.6 of ECMA-262 defines
  it, over code units. Unreserved characters (section 2.3 of RFC 2396) are kept.
  Every other code point is written as `%XX` triplets of its UTF-8 bytes, with
  upper-case hex. An unpaired surrogate throws `URIError`. `decodeURIComponent`
  is modelled too, as the partner the round trip is proved against.
- `DataUrl` (`data_url.dfy`): `s.replace(/^data:.+;base64,/, '')`, following
  greedy matching with backtracking. The match ends after the last `;base64,` on
  the first line that leaves at least one character for `.+`.
- `Manifests` (`manifest.dfy`): the `manifest` computed property as a function
  from the form fields to a `Manifest` record, or to the `URIError` it throws.
- `ImageInputs` (`image_input.dfy`): the `image-input` component as a class with
  its `preview` field and the log of `update:modelValue` events it emits.
- `Apps` (`app.dfy`): the app's `data()` fields as a class, with `create`
  building the archive through successive `zip.file` calls on a `Zip` object.
  The entry list is specified by `ArchiveEntries`.

The `Wrappers` module (`wrappers.dfy`) holds `Option`, which stands for `null`,
and `Result`, which stands for a thrown error.

Where the specification and the code differ, the model follows the code:

- A `null` icon makes `create` throw a `TypeError`. This happens when the image
  input reports "no file". The exception is thrown synchronously by
  `this.colorIcon.replace`, before any archive is generated; it is not a rejected
  promise.
- The manifest itself throws a `URIError` when the URL holds an unpaired
  surrogate.

## Model

| member | source | states |
|---|---|---|
| `Uri.EncodeSucceedsIff` | build.js:109 | `encodeURIComponent(url)` succeeds exactly when the URL holds no unpaired surrogate; otherwise it throws `URIError` |
| `Uri.EncodedForm` | build.js:109 | the encoded URL consists only of unreserved characters and `%XX` triplets with upper-case hex digits |
| `Uri.DecodeEncode` | build.js:109 | percent-decoding the encoded URL (`decodeURIComponent`) gives back the URL exactly |
| `Uri.EncodeInjective` | build.js:109 | two URLs with the same encoding are equal |
| `Uri.EncodeUnreserved` | build.js:109 | a string made only of unreserved characters is its own encoding |
| `Uri.EncodePrefixUnreserved` | build.js:109 | unreserved characters in front of any text are copied through unchanged |
| `Uri.EncodeAsciiReserved` | build.js:109 | an ASCII character outside the unreserved set becomes exactly one `%XX` triplet of its value |
| `DataUrl.MatchEnd` | build.js:78-79 | finds where `/^data:.+;base64,/` matches: a match exists exactly when some position qualifies, and the one found is the last qualifying `;base64,` (greedy `.+`) |
| `DataUrl.StripBase64Header` | build.js:78-79 | with no match the string is returned unchanged; otherwise what follows the last qualifying `;base64,` is returned |
| `DataUrl.StripDataUrl` | build.js:78-79 | `data:` + m + `;base64,` + p becomes p, when m is non-empty and on one line and p holds no further `;base64,` |
| `DataUrl.StripNonDataUrl` | build.js:78-79 | a string that does not start with `data:` is returned unchanged |
| `DataUrl.StripIdempotent` | build.js:78-79 | stripping an already stripped payload changes nothing, for every string |
| `Manifests.ManifestDefinedIff` | build.js:87-117 | the manifest can be computed exactly when the URL holds no unpaired surrogate |
| `Manifests.ManifestId` | build.js:92 | `manifest.id` is the session id |
| `Manifests.NameFallback` | build.js:94 | `name.short` is the name; `name.full` is the full name when that is non-empty and the name otherwise; it is empty only when both are |
| `Manifests.DescriptionFallback` | build.js:102 | the same fallback for `description.short` and `description.full` |
| `Manifests.LinkTab` | build.js:105-113 | exactly two tabs. The first has the fixed entity id, the name `name + " - Link"`, scope `personal`, and a `contentUrl` that is the redirect prefix followed by a percent-encoded string decoding to the URL. The second is the fixed `about` tab |
| `Manifests.LinkDeterminesUrl` | build.js:109 | equal tab links mean equal URLs |
| `Manifests.ConstantFields` | build.js:88-116 | the schema, versions, package name, developer, icons, accent colour, `about` tab, valid domains and full-screen flag are the fixed values for every form |
| `Manifests.ExampleLink` | build.js:108-109 | name `Test` and URL `https://example.com` give short name `Test` and the link `…index.html?url=https%3A%2F%2Fexample.com` |
| `ImageInputs.Shown` | build.js:19 | the watcher shows the incoming value when it is a non-empty string, and `null` otherwise |
| `ImageInputs.ShownIdempotent` | build.js:19 | passing the shown value through the watcher again changes nothing |
| `ImageInputs.ImageInput.constructor` | build.js:11-15 | `preview` starts as the empty string, and nothing has been emitted |
| `ImageInputs.ImageInput.UpdateImage` | build.js:26-42 | with no file, `preview` becomes `null` and `null` is emitted. After a successful read, `preview` becomes the result and the same result is emitted. A failed read changes nothing |
| `ImageInputs.ImageInput.ModelValueChanged` | build.js:18-20 | `preview` becomes the new value when it is truthy and `null` otherwise; nothing is emitted |
| `ImageInputs.SelectThroughModel` | build.js:18-41 | when the emitted value returns as the new model value, a read non-empty data URL stays previewed and "no file" stays cleared |
| `Apps.WithField` | build.js:61-72 | editing a text field never touches the id |
| `Apps.EditKeepsId` | build.js:63 | editing a text field never changes `manifest.id` |
| `Apps.ArchiveLayout` | build.js:77-79 | exactly three entries, in order: `manifest.json` holding the manifest with the session id, then `color.png` and `outline.png` holding the stripped icons |
| `Apps.ArchiveFailsIff` | build.js:74-79 | `create` throws exactly when the URL holds an unpaired surrogate (`URIError`) or an icon is `null` (`TypeError`) |
| `Apps.ArchiveStoresPayloads` | build.js:78-79 | icons given as `data:<type>;base64,<payload>` are stored as exactly their payloads |
| `Apps.Zip.constructor` | build.js:75 | a new archive has no entries |
| `Apps.Zip.File` | build.js:77-79 | `zip.file` appends one entry with the given name and content |
| `Apps.App.constructor` | build.js:61-72 | the session id is fixed, every text field is empty and both icons are the empty string |
| `Apps.App.Input` | build.js:64-68 | a text input changes exactly its own field; the id and the icons stay as they were |
| `Apps.App.SetIcon` | build.js:69-70 | an icon binding changes exactly that icon; the form fields stay as they were |
| `Apps.App.Create` | build.js:74-84 | the successive `zip.file` calls produce exactly the entries of `ArchiveEntries` for the current fields, or its error |

## Left out

- `utils/getBase64FromBlob.js` (FileReader) is browser I/O. Its outcome is an input to `UpdateImage`: no file, the data URL it produced, or a failed read.
- The default-icon `fetch` calls in `mounted` are network I/O. Their effect is one `SetIcon` call each.
- `crypto.randomUUID()` is a parameter of the `App` constructor. `id` is a `const` field, so nothing can reassign it.
- `JSON.stringify` of the manifest is left out. The `manifest.json` entry holds the `Manifest` record itself.
- JSZip is not part of this model. Compression, the base64 decoding of icon payloads (`{ base64: true }`) and its asynchronous errors on invalid base64 are not modelled.
- `generateAsync` and the `location.href` download are left out. `Create` returns the entry list instead.
- `Apps.Zip.File`: JSZip replaces an existing entry of the same name. The model only appends, because `create` always uses three distinct names.
- `ImageInputs.ImageInput.UpdateImage`: treats the file read as complete when the call returns. Interleavings of overlapping reads on the event loop are not modelled.
- Vue wiring is left out: templates, `selectFileButtonClick` (`$refs.input.click()`), `v-model` plumbing and `app.mount`. `SelectThroughModel` shows one `v-model` round trip.
- `JsStrings.Lit` reads a character beyond the Basic Multilingual Plane as U+FFFD. It is only applied to the ASCII literals of the source.
