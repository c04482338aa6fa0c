# Tooltipper: a Dafny model of the annotation core

Tooltipper is a small React app. An author uploads a photo, clicks on it to place
text tooltips, and shares a read-only view of the annotated photo through a
six-character short id (`<origin>/view/<shortId>`). This project models the
logic of that app in Dafny and proves properties of the model:

- the author-side state machine of `PhotoAnnotator` (`Annotator.PhotoAnnotator`,
  a class with the component's state fields and one method per event handler);
- the short-id generator (`ShortId.GenerateShortId`, a loop);
- the click-to-percentage formula (`Coordinates`);
- the viewer's load by short id (`ViewMode.Viewer.FetchPhoto`) and the
  row-to-tooltip mapping (`Types.FromRows`);
- the image-file validator of `storage.ts` (`Storage`) and its copy in
  `supabase.ts` `uploadImage`, with the bucket decision of `ensureStorageBucket`
  and the upload path (`Supabase`);
- the share link of `ShareButton` and `App`'s `isViewMode` test (`Share`).

The storage and database services are not modelled. Each call the code makes to
them is recorded, in order, as a `Backend.Request` value that the handler
returns. Each answer the services give is an argument of the handler:
`Backend.Reply<T>` for a query that returns a row (`Ok(row)` or `Failed`), or a
`bool` for a call whose data the code ignores. `Math.random()` is an argument
too: reals in [0, 1) for the short id, and a string token for the random file
name. Numbers are exact `real`s. Each handler is one atomic step.

Modules: `Types` (the records of `src/types/index.ts`, the database rows and the
row mapping), `Decimal` (`toString` of a numeric row id), `Backend`, `Text` (the
string operations used), `ShortId`, `Coordinates`, `Storage`, `Supabase`,
`Share`, `Annotator` and `ViewMode`.

Behaviour of the code that a reader might not expect, and that the model keeps:

- `HandleImageClick` does no bounds check and stores the unclamped percentage.
  `Coordinates.ClickInRange` shows that the value lies in [0, 100] exactly when
  the click is inside the image.
- A click is refused only while `isEditOpen` is set. Otherwise a second click
  silently replaces the pending position.
- A failed insert in `HandleTooltipSubmit` keeps `newTooltip` and `tooltipText`
  and only clears `isEditOpen`.
- The tooltip text is sent as typed, with no check that it is non-empty.
- Delete sends the request as it is, and on success filters the list. An id no
  tooltip has leaves the list unchanged (`Annotator.WithoutAbsentId`).
- `PhotoAnnotator.handleUpload` does not validate the file. Its file name also
  keeps the extension's case (`Annotator.UploadFileNameKeepsCase`), while
  `uploadImage` lowercases it (`Annotator.UploadNamesDifferInCase`).

## Model

| member | source | states |
|---|---|---|
| `Decimal.DecimalString` | src/components/ViewMode.tsx:51 | `id.toString()` of a row id is a non-empty string of digits with no leading zero (it starts with `0` only for id 0), one digit long exactly for ids below ten |
| `Decimal.ParseDecimalString` | src/components/ViewMode.tsx:51 | reading the decimal text of an id back gives the id (round trip) |
| `Decimal.DecimalStringInjective` | src/components/PhotoAnnotator.tsx:90 | two row ids have the same text exactly when they are equal |
| `Types.FromRow` | src/components/ViewMode.tsx:50-55 | the converted tooltip's id is all digits and reads back as the row id |
| `Types.FromRows` | src/components/ViewMode.tsx:50-55 | the row mapping keeps the length and the order: element i is the conversion of row i |
| `Types.FromRowFields` | src/components/ViewMode.tsx:50-55 | a converted tooltip's id reads back as the row id, and x, y, text are `x_position`, `y_position`, `text` |
| `Types.FromRowsUnique` | src/components/ViewMode.tsx:50-55 | the mapped tooltips have distinct ids exactly when the rows do |
| `Text.AfterLastDot` | src/lib/storage.ts:24 | `split('.').pop()` is the dot-free suffix that is the whole name or follows a dot |
| `Text.AfterLastDotUnique` | src/lib/storage.ts:24 | any suffix with those properties is that value, so the ensures pin down `split('.').pop()` |
| `Text.AfterLastDotOfJoin` | src/lib/supabase.ts:51 | `token + "." + ext` with a dot-free `ext` starts with `token.`, ends with `.ext`, and `split('.').pop()` of it is `ext` |
| `Text.ToLower` | src/lib/storage.ts:24 | `toLowerCase` keeps the length and lowers each letter A to Z in place |
| `Text.ToLowerKeepsDots` | src/lib/storage.ts:24 | lowercasing neither adds nor removes a dot |
| `Text.IncludesAfter` | src/App.tsx:8 | text put in front of a string keeps every substring it `includes` |
| `Text.IncludesBefore` | src/App.tsx:8 | text appended behind a string keeps every substring it `includes` |
| `Text.IncludesIffOccurs` | src/App.tsx:8 | `includes` holds exactly when the substring occurs at some index |
| `Storage.ValidateImageFile` | src/lib/storage.ts:15-28 | a file passes exactly when its type starts with `image/`, its size is at most 5242880 and its extension is whitelisted |
| `Storage.MessagesDistinct` | src/lib/storage.ts:16-27 | the three rejection messages are distinct, so a message names its reason |
| `Storage.Message` | src/lib/storage.ts:16-27 | each reason has a non-empty `StorageError` message (the three texts of lines 17, 21 and 26) |
| `Storage.IsImageType` | src/lib/storage.ts:16 | `type.startsWith('image/')` holds exactly when the type is `image/` followed by some subtype |
| `Storage.Extension` | src/lib/storage.ts:24 | the extension holds no dot and is no longer than the name |
| `Storage.ExtensionAllowed` | src/lib/storage.ts:6 | an extension is accepted exactly when it is one of jpg, jpeg, png, gif, webp |
| `Storage.FirstFailureDecides` | src/lib/storage.ts:15-28 | when several checks fail, the first in the order type, size, extension gives the error |
| `Storage.TypeCheckFirst` | src/lib/storage.ts:16-18 | a non-image mime type gets "Please upload an image file" whatever the size and name |
| `Storage.SizeBoundary` | src/lib/storage.ts:20-22 | size 5242880 passes the size check, 5242881 fails it |
| `Storage.ExtensionOfDottedName` | src/lib/storage.ts:24 | the extension is the lowercased text after the last dot |
| `Storage.ExtensionOfDotlessName` | src/lib/storage.ts:24 | a name without a dot is its own extension, lowercased |
| `Storage.MultiDotUppercaseAccepted` | src/lib/storage.ts:24-27 | `a.b.JPG` has extension `jpg` and an image of that name is accepted |
| `Storage.TrailingDotRejected` | src/lib/storage.ts:24-27 | a name ending in `.` has an empty extension and is refused as an invalid type |
| `Storage.DotlessNamePasses` | src/lib/storage.ts:24-27 | a file named `PNG` of an image type passes |
| `Supabase.AnyNamed` | src/lib/supabase.ts:12 | `some(bucket => bucket.name === name)` holds exactly when some listed bucket has that name |
| `Supabase.BucketExists` | src/lib/supabase.ts:12 | the bucket exists exactly when the list is not null and one of its entries is named `photos` |
| `Supabase.EnsureStorageBucket` | src/lib/supabase.ts:10-27 | the calls made are exactly `listBuckets`, then `createBucket("photos")` only when no bucket `photos` is listed (or the list is null); the result is false exactly when creation was asked for and failed |
| `Supabase.UploadFileCheck` | src/lib/supabase.ts:36-49 | a file passes exactly when its type starts with `image/`, its size is at most 5242880 and its lowercased extension is one of the five |
| `Supabase.UploadCheckMatchesValidator` | src/lib/supabase.ts:36-49 | the checks written out again in `uploadImage` give the same verdict and the same first error as `validateImageFile` on every file |
| `Supabase.UploadPath` | src/lib/supabase.ts:44-52 | the path starts with the token and a dot, ends with a dot and the lowercased extension, is exactly as long as those three together (so it is `<token>.<ext>` and nothing more), and `split('.').pop()` of it gives back the lowercased extension |
| `Supabase.UploadPathExtension` | src/lib/supabase.ts:44-52 | the path of a file that passed the checks ends in a dot and one of the five extensions |
| `Supabase.UploadImage` | src/lib/supabase.ts:29-74 | a URL comes back exactly when the bucket is ready, the file passes and the store succeeds, and it is the public URL; the store is asked for exactly when the bucket is ready and the file passes; every failure gives null |
| `Supabase.BucketNotReadyIgnoresFile` | src/lib/supabase.ts:31-34 | when the bucket is not ready, the outcome is null and is the same whatever the file |
| `Share.ShareUrl` | src/components/ShareButton.tsx:10 | the share link starts with the origin, ends with the short id, and has their lengths plus that of `/view/` |
| `Share.IsViewMode` | src/App.tsx:8 | `pathname.includes('/view/')` holds exactly when `/view/` occurs at some index of the path |
| `Share.ShareUrlIsOriginAndPath` | src/components/ShareButton.tsx:10 | the share link is the origin followed by the viewer path `/view/<shortId>` |
| `Share.ShareUrlRoundTrip` | src/components/ShareButton.tsx:10 | stripping `origin + "/view/"` from the link gives back the short id, and only the share link of that id strips to it |
| `Share.ShareUrlInjective` | src/components/ShareButton.tsx:10 | two short ids give the same link exactly when they are equal |
| `Share.SharedLinkIsViewMode` | src/App.tsx:8 | `isViewMode` holds for the viewer path `/view/<shortId>` of any short id, and every share link contains `/view/` |
| `Share.IsViewModeExamples` | src/App.tsx:8 | `/view/abc123` and `/gallery/view/` are view mode, `/` and `/view` are not: any path holding `/view/` counts |
| `ShortId.CharIndex` | src/components/PhotoAnnotator.tsx:19 | `floor(random * 36)` is a valid index into the alphabet |
| `ShortId.CharsAt` | src/components/PhotoAnnotator.tsx:16 | the alphabet string holds the letters a to z, then the digits 0 to 9 |
| `ShortId.CharsAreIdChars` | src/components/PhotoAnnotator.tsx:16 | a character is in the alphabet exactly when it is a lower-case letter or a digit |
| `ShortId.CharIndexInterval` | src/components/PhotoAnnotator.tsx:19 | character k is chosen exactly when the random value lies in [k/36, (k+1)/36), so each has an equal share |
| `ShortId.GenerateShortId` | src/components/PhotoAnnotator.tsx:15-22 | the id has six characters, each a lower-case letter or digit, character i being `chars[floor(random_i * 36)]` |
| `ShortId.EveryShortIdReachable` | src/components/PhotoAnnotator.tsx:15-22 | every six-character id over the alphabet comes out for some choice of random values |
| `Coordinates.ToPercent` | src/components/PhotoAnnotator.tsx:64-65 | a marker drawn at the computed percentage sits under the clicked position |
| `Coordinates.FromPercent` | src/components/PhotoAnnotator.tsx:172-173 | a marker is drawn inside the image exactly when its percentage is in [0, 100] |
| `Coordinates.ToRelative` | src/components/PhotoAnnotator.tsx:63-66 | both coordinates of the click point, drawn as markers, land on the clicked position |
| `Coordinates.EdgesMapToBounds` | src/components/PhotoAnnotator.tsx:64-65 | the left/top edge maps to 0 and the right/bottom edge to 100 |
| `Coordinates.InRangeIffInside` | src/components/PhotoAnnotator.tsx:64 | one axis is in [0, 100] exactly when the click position is within the image; outside it the value is below 0 or above 100, unclamped |
| `Coordinates.ClickInRange` | src/components/PhotoAnnotator.tsx:63-65 | a click yields a point in [0, 100] x [0, 100] exactly when it is inside the image rectangle |
| `Coordinates.PercentRoundTrip` | src/components/PhotoAnnotator.tsx:172-173 | clicking where a marker is drawn recovers its percentage |
| `Coordinates.ScaleInvariant` | src/components/PhotoAnnotator.tsx:64-65 | scaling the image and the click by one factor leaves the percentage unchanged |
| `Coordinates.ExampleClick` | src/components/PhotoAnnotator.tsx:63-65 | a click at (50, 25) on a 200 x 100 image gives (25, 25) |
| `Annotator.UploadFileName` | src/components/PhotoAnnotator.tsx:30 | the file name starts with the random token and a dot |
| `Annotator.UploadFileNameExtension` | src/components/PhotoAnnotator.tsx:30 | `split('.').pop()` of the stored name is that of the original name, and the stored name is exactly as long as the token, one dot and that extension: it is `<token>.<ext>` and nothing more |
| `Annotator.UploadFileNameKeepsCase` | src/components/PhotoAnnotator.tsx:30 | for `stem.ext` the file name is `<token>.ext`, with ext's case kept |
| `Annotator.UploadNamesDifferInCase` | src/components/PhotoAnnotator.tsx:30 | for `a.JPG` the author view stores `t.JPG`, while `uploadImage` (src/lib/supabase.ts:44-51) would store `t.jpg` |
| `Annotator.WithoutId` | src/components/PhotoAnnotator.tsx:125 | the filter never makes the list longer |
| `Annotator.WithoutIdMembers` | src/components/PhotoAnnotator.tsx:125 | the filter keeps a tooltip exactly when it was listed and its id differs from the deleted one |
| `Annotator.WithoutIdAppend` | src/components/PhotoAnnotator.tsx:125 | the filter works piece by piece, so the kept tooltips stay in their order |
| `Annotator.WithoutAbsentId` | src/components/PhotoAnnotator.tsx:125 | filtering an id no tooltip has leaves the list as it was |
| `Annotator.WithoutSplit` | src/components/PhotoAnnotator.tsx:125 | when only the middle tooltip has the id, the filter leaves the pieces before and after it, joined |
| `Annotator.WithoutListedId` | src/components/PhotoAnnotator.tsx:125 | with unique ids, filtering the id of tooltip k removes exactly tooltip k and the list is one shorter |
| `Annotator.PhotoAnnotator.constructor` | src/components/PhotoAnnotator.tsx:7-13 | the initial state: no photo, image not loaded, no tooltips, nothing pending, empty text, not loading, editor closed |
| `Annotator.PhotoAnnotator.HandleUpload` | src/components/PhotoAnnotator.tsx:24-59 | no file: no call and no change; otherwise the file is stored under `<random>.<ext>`, on success a photo is inserted with the public URL and a generated short id, `photo` is set to the returned row with `url` the public URL only when both calls succeed, otherwise stays as it was, and `loading` ends false |
| `Annotator.PhotoAnnotator.HandleImageClick` | src/components/PhotoAnnotator.tsx:61-67 | while the editor is open nothing changes; otherwise the unclamped click point replaces any pending position, and nothing else changes |
| `Annotator.PhotoAnnotator.EditText` | src/components/PhotoAnnotator.tsx:202 | typing sets `tooltipText` and nothing else |
| `Annotator.PhotoAnnotator.HandleTooltipSubmit` | src/components/PhotoAnnotator.tsx:69-102 | with no pending position or no photo nothing happens, not even to `isEditOpen`; otherwise the insert is sent with the photo id, position and text; success appends exactly the converted row and clears the pending state; failure changes only `isEditOpen`, to false |
| `Annotator.PhotoAnnotator.HandleTooltipClick` | src/components/PhotoAnnotator.tsx:104-129 | whatever the delete outcome the editor opens with the tooltip's text and position and the delete is sent; success filters out that id, failure leaves the list as it was |
| `Annotator.PhotoAnnotator.HandleImageLoad` | src/components/PhotoAnnotator.tsx:132-134 | sets `imageLoaded` and nothing else |
| `Annotator.PhotoAnnotator.Cancel` | src/components/PhotoAnnotator.tsx:215-219 | clears the pending position and text and closes the editor; the list is untouched |
| `Annotator.EditThenCancel` | src/components/PhotoAnnotator.tsx:104-129 | opening a tooltip to edit (delete succeeds) and then pressing Delete leaves the list one shorter, without that tooltip, the rest in order |
| `ViewMode.Viewer.constructor` | src/components/ViewMode.tsx:16-17 | the viewer starts with no photo and no tooltips |
| `ViewMode.Viewer.FetchPhoto` | src/components/ViewMode.tsx:20-61 | nothing runs without a non-empty short id; a failed photo lookup changes nothing and no tooltip lookup follows; otherwise `photo.url` is the row's `image_url`, the tooltip lookup is made for that photo, and the tooltips become the mapped rows, or stay as they were if that lookup fails |
| `ViewMode.FailedPhotoLookup` | src/components/ViewMode.tsx:28-31 | a fresh viewer whose photo lookup fails keeps no photo, no tooltips, and asks for no tooltips |
| `ViewMode.FailedTooltipLookup` | src/components/ViewMode.tsx:45-48 | a fresh viewer whose tooltip lookup fails shows the photo and an empty list |

`Annotator.PhotoAnnotator` keeps the invariant `Valid()` across every handler:
between handlers `loading` is false, and the editor is open only over a pending
position. `ViewMode.Viewer` has no method that changes its state other than
`FetchPhoto`, which matches the viewer's markers having no click handler
(src/components/ViewMode.tsx:89-96).

## Left out

- Storage and database calls (`upload`, `insert`, `select`, `delete`, `listBuckets`, `createBucket`, `createClient`) are foreign I/O. They appear only as recorded requests, with their answers as inputs.
- The options of `createBucket` (`public: true`, `fileSizeLimit: 5242880`, src/lib/supabase.ts:15-18) and of `upload` (`cacheControl: '3600'`, `upsert: false`, src/lib/supabase.ts:56-59) are settings of the storage service, which is not modelled. `Backend.CreateBucket` and `Backend.StoreObject` record only the bucket and the path.
- `getPublicUrl` builds a URL inside the client library. Its result is the input `publicUrl`.
- `Math.random()` cannot be modelled as random. Its values are inputs: reals in [0, 1) for the short id (`ShortId.IsRandom`) and a string token for the file name. Whether the distribution is actually uniform is not provable.
- Floating point: JavaScript numbers are modelled as exact reals, so rounding in the percentage formula is not captured.
- A zero-width or zero-height image receives no clicks, so `HandleImageClick` requires a positive size (`Coordinates.HasArea`). The `Infinity`/`NaN` of a division by zero is not modelled.
- `Text.ToLower`: does not model Unicode case mapping beyond A to Z. The five allowed extensions are ASCII, so the accept/reject verdict is affected only by the few non-ASCII characters that lowercase to ASCII letters; none of those letters occurs in an allowed extension.
- React specifics: JSX rendering, styling and the pulse animation; `useParams`; `stopPropagation` and `preventDefault`. Also left out: batched and asynchronous state updates, and the stale `tooltips` captured by a handler's closure. Each handler is one atomic step, so the transient `loading = true` during an upload is not observable.
- Presentation routing: the upload input is shown only while there is no photo, and the form only while a position is pending. The model lets every handler run in any state and states what the code does then.
- `ShareButton.handleShare` (clipboard and toast) and all `console.error` logging.
- The messages `uploadImage` throws are caught there and replaced by `null`, so `Supabase.UploadFileCheck` keeps only the reason, not the text.
- `src/App.tsx` except the `isViewMode` test: the rest is routing and layout.
- `src/lib/photo-service.ts` is not part of this model. It calls `validateImageFile`, modelled in `Storage`, and then storage and database I/O.
- `PhotoWithTooltips` in `src/types/index.ts` is used by none of the modelled code. `Photo.createdAt` is carried but never read.
- Tooltip row ids are modelled as non-negative integers (`id.toString()` of a number). Photo ids are modelled as opaque strings.
- Decimal.DecimalString: does not model JavaScript's exponent form for numbers of 1e21 and above, or the loss of precision above 2^53; row ids are taken to stay below both.
- `ViewMode.Viewer.FetchPhoto`: does not model the effect running again when the route parameter changes. A second run starts from the current state, which the contract covers through `old(...)`.
