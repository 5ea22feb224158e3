# Sanctuary: a verified model of the church CMS core

Sanctuary is a church website with an admin area. It has two halves:

- `sanctuary-api` is a Laravel API. It keeps events, posts, news and
  ministries, each with an optional picture on the public disk, and one
  live-stream settings row.
- `sanctuary` is a React client. Its admin managers edit those tables
  through Zod-validated forms and multipart requests. Its public pages
  embed the live stream.

This project models that core in Dafny and proves what each piece promises.
The modules follow the program's own parts:

| module | models |
|---|---|
| `Wrappers`, `Text`, `Calendar` | `Option`; digit strings, `String(n)`, `padStart`, `split`, `trim`, UTF-16 length, ASCII case; month lengths |
| `Storage`, `Images` | the public disk as a set of blob keys; the relation between a table's `image` column and the disk |
| `Validation` | the Laravel rules the controllers use (`required`, `sometimes`, `date_format:Y-m-d`, the month and time patterns, `numeric|min|max`, image type and size); controller responses; `latest()` order |
| `EventApi`, `PostApi`, `NewsApi`, `MinistryApi` | one class per content controller: a table (`map<nat, Row>`) and the shared disk, with `index`, `store`, `update` and `destroy` |
| `Site` | two controllers over one disk: a posts request leaves the events table consistent |
| `LiveStreamApi` | `LiveStreamRequest` (boolean coercion, rules, authorisation) and the singleton `LiveStreamController` |
| `ClientDates` | `toISODate`, the two `toDisplayDate`s, `cleanIsoDate` and the keystroke date mask |
| `EventTime` | the event day filter and time normaliser, against the server's rules |
| `YouTube` | `extractYouTubeId` as a leftmost regex match; the embed decisions of both live-stream pages |
| `Schemas` | every Zod schema of the core, plus the contact form |
| `FormPayload` | `FormData` as a class; the four `buildFormData`s, the create/update requests with their `_method` override, and how Laravel reads a multipart body back |
| `ListSync` | the admin list updates (replace by id, prepend, filter out) |
| `Managers`, `StreamManager` | the five admin managers as classes over their React state |
| `Auth` | the token store of `auth.ts` as a class over `localStorage` and the axios header; the admin route guard |

Each content controller keeps one invariant in every state. Every image
a row references is on the disk under the controller's own prefix, and
no two rows share a key. `store`, `update` and `destroy` each preserve
it. So no row ever references a deleted key. Blob keys are
`(prefix, serial)` pairs handed out by the disk. This stands in for
Laravel's random file names and makes every stored key provably new.

Effects that the core leaves to the outside world become parameters:

- a server reply or a fetched list becomes an `Option`: `None` for a failed call;
- the user's confirmation becomes a `bool`;
- Zod's `.email()` and `.url()` and `JSON.parse` become opaque function parameters;
- the browser's UTC offset becomes an `int` in minutes.

## Model

| member | source | states |
|---|---|---|
| EventApi.StoreErrors | sanctuary-api/app/Http/Controllers/EventController.php:18-25 | no field fails exactly when title and location are non-blank with at least 3 characters, the day is a PHP numeric string (surrounding whitespace, a sign, a fraction or an exponent allowed) whose value lies in 1..31, the month is Jan..Dec in any case, the time matches `h.mm am` case-insensitively, and any upload is jpeg/png/webp of at most 2048 KB |
| EventApi.UpdateErrors | sanctuary-api/app/Http/Controllers/EventController.php:36-43 | the same rules checked only on the fields that were sent, with webp no longer accepted for the image |
| EventApi.Patch | sanctuary-api/app/Http/Controllers/EventController.php:52 | sent fields overwrite the row, absent fields keep their value, and the image is the one the update decided |
| EventApi.EventController.constructor | sanctuary-api/app/Http/Controllers/EventController.php:9-14 | an empty table over a given valid disk satisfies the invariant |
| EventApi.EventController.Index | sanctuary-api/app/Http/Controllers/EventController.php:11-14 | every row appears, only rows appear, and ids strictly decrease (newest first) |
| EventApi.EventController.Store | sanctuary-api/app/Http/Controllers/EventController.php:16-32 | invalid input answers 422 with the failing fields and changes nothing; otherwise a new id holds the sent fields, answered with 201; an upload adds exactly one fresh `events/` key, which the row references; no upload leaves the image null and the disk unchanged; the invariant holds afterwards |
| EventApi.EventController.StoreImage | sanctuary-api/app/Http/Controllers/EventController.php:27-29 | an upload adds exactly one fresh key under `events/`; otherwise the disk is unchanged |
| EventApi.EventController.Add | sanctuary-api/app/Http/Controllers/EventController.php:31 | the row is inserted under the next unused id and the invariant is restored |
| EventApi.EventController.Update | sanctuary-api/app/Http/Controllers/EventController.php:34-54 | a missing event answers 404 and a failing rule answers 422, both changing nothing; otherwise only that row changes, to the patched row, answered with 200; an upload deletes the old key and stores a fresh one; an explicit null clears the column; no image keeps both the image and the disk |
| EventApi.EventController.ReplaceImage | sanctuary-api/app/Http/Controllers/EventController.php:45-50 | the disk after the delete-then-store keeps the column consistent once the row takes the returned image |
| EventApi.EventController.Set | sanctuary-api/app/Http/Controllers/EventController.php:52 | overwriting an existing row keeps the invariant and ids |
| EventApi.EventController.Destroy | sanctuary-api/app/Http/Controllers/EventController.php:56-64 | 404 for a missing event; otherwise exactly that row and exactly its own key (if any) are removed, and the answer is 204 |
| PostApi.StoreErrors | sanctuary-api/app/Http/Controllers/PostController.php:20-27 | no field fails exactly when title and category are non-blank and at most 255 characters, the date is a real `Y-m-d` day, an author that is sent and not blank is at most 255 (a blank author of any length skips `string|max`), the description is non-blank and at most 1000, and any upload is jpeg/png/webp of at most 2048 KB |
| PostApi.UpdateErrors | sanctuary-api/app/Http/Controllers/PostController.php:40-52 | the rules apply only to sent fields; an author that trims to blank passes whatever its length; the image rule (jpeg/png only) exists only when a file is sent |
| PostApi.AuthorRule | sanctuary-api/app/Http/Controllers/PostController.php:24 | `author` fails exactly when it was sent, does not trim to blank and is longer than 255, on store and on update alike |
| PostApi.Patch | sanctuary-api/app/Http/Controllers/PostController.php:59 | sent fields overwrite the row and absent fields keep their value |
| PostApi.PostController.constructor | sanctuary-api/app/Http/Controllers/PostController.php:10-15 | an empty table over a valid disk satisfies the invariant |
| PostApi.PostController.Index | sanctuary-api/app/Http/Controllers/PostController.php:12-15 | every row appears, only rows appear, newest first |
| PostApi.PostController.Store | sanctuary-api/app/Http/Controllers/PostController.php:17-35 | 422 with nothing changed, or 201 with a new row of the sent fields whose image is a fresh `posts/` key exactly when a file was sent |
| PostApi.PostController.StoreImage | sanctuary-api/app/Http/Controllers/PostController.php:29-31 | an upload adds exactly one fresh key under `posts/`; otherwise the disk is unchanged |
| PostApi.PostController.Add | sanctuary-api/app/Http/Controllers/PostController.php:33 | the row is inserted under the next unused id and the invariant is restored |
| PostApi.PostController.Update | sanctuary-api/app/Http/Controllers/PostController.php:37-61 | 404 or 422 change nothing; otherwise only that row changes, to the patched row, answered with 200 and the reloaded row; an upload replaces the old key by a fresh one; without a file the image and the disk are unchanged |
| PostApi.PostController.ReplaceImage | sanctuary-api/app/Http/Controllers/PostController.php:54-57 | an upload deletes the old key and stores a fresh one; anything else keeps the image and the disk |
| PostApi.PostController.Set | sanctuary-api/app/Http/Controllers/PostController.php:59-60 | overwriting an existing row keeps the invariant and ids |
| PostApi.PostController.Destroy | sanctuary-api/app/Http/Controllers/PostController.php:63-71 | 404, or exactly that row and its own key removed and 204 |
| NewsApi.StoreErrors | sanctuary-api/app/Http/Controllers/NewsController.php:18-24 | no field fails exactly when title and category are non-blank and at most 255, the date is a real `Y-m-d` day, the description is non-blank and at most 500, and any upload is jpeg/png of at most 2048 KB |
| NewsApi.UpdateErrors | sanctuary-api/app/Http/Controllers/NewsController.php:35-46 | the rules apply only to sent fields; the description is never required, and is bounded to 500 only when sent and not blank; the image rule exists only with a file |
| NewsApi.UpdateDescriptionRule | sanctuary-api/app/Http/Controllers/NewsController.php:39 | on update `description` fails exactly when it was sent, does not trim to blank and is longer than 500 |
| NewsApi.Patch | sanctuary-api/app/Http/Controllers/NewsController.php:55 | sent fields overwrite the row and absent fields keep their value |
| NewsApi.NewsController.constructor | sanctuary-api/app/Http/Controllers/NewsController.php:9-14 | an empty table over a valid disk satisfies the invariant |
| NewsApi.NewsController.Index | sanctuary-api/app/Http/Controllers/NewsController.php:11-14 | every row appears, only rows appear, newest first |
| NewsApi.NewsController.Store | sanctuary-api/app/Http/Controllers/NewsController.php:16-31 | 422 with nothing changed, or the created row (201) whose image is a fresh `news/` key exactly when a file was sent |
| NewsApi.NewsController.StoreImage | sanctuary-api/app/Http/Controllers/NewsController.php:26-28 | an upload adds exactly one fresh key under `news/`; otherwise the disk is unchanged |
| NewsApi.NewsController.Add | sanctuary-api/app/Http/Controllers/NewsController.php:30 | the row is inserted under the next unused id and the invariant is restored |
| NewsApi.NewsController.Update | sanctuary-api/app/Http/Controllers/NewsController.php:33-57 | 404 or 422 change nothing; otherwise only that row changes, to the patched row; an upload replaces the old key; without a file the image and the disk are unchanged |
| NewsApi.NewsController.ReplaceImage | sanctuary-api/app/Http/Controllers/NewsController.php:48-53 | an upload deletes the old key and stores a fresh one; anything else keeps the image and the disk |
| NewsApi.NewsController.Set | sanctuary-api/app/Http/Controllers/NewsController.php:55-56 | overwriting an existing row keeps the invariant and ids |
| NewsApi.NewsController.Destroy | sanctuary-api/app/Http/Controllers/NewsController.php:59-67 | 404, or exactly that row and its own key removed and 204 |
| MinistryApi.StoreErrors | sanctuary-api/app/Http/Controllers/MinistryController.php:24-29 | no field fails exactly when title and description are non-blank within their bounds and a jpeg/png upload of at most 6144 KB is present; a create without a file fails on `image` |
| MinistryApi.UpdateErrors | sanctuary-api/app/Http/Controllers/MinistryController.php:44-51 | title and description are checked only when sent; the image may be absent or null |
| MinistryApi.Patch | sanctuary-api/app/Http/Controllers/MinistryController.php:61 | sent fields overwrite the row and absent fields keep their value |
| MinistryApi.MinistryController.constructor | sanctuary-api/app/Http/Controllers/MinistryController.php:9-17 | an empty table over a valid disk satisfies the invariant |
| MinistryApi.MinistryController.Index | sanctuary-api/app/Http/Controllers/MinistryController.php:14-17 | every row appears, only rows appear, newest first |
| MinistryApi.MinistryController.Store | sanctuary-api/app/Http/Controllers/MinistryController.php:22-37 | 422 with nothing changed, or 201 with a new row whose image is one fresh `ministries/` key, the only key added |
| MinistryApi.MinistryController.Add | sanctuary-api/app/Http/Controllers/MinistryController.php:35-36 | the row is inserted under the next unused id and the invariant is restored |
| MinistryApi.MinistryController.Update | sanctuary-api/app/Http/Controllers/MinistryController.php:42-63 | 404 or 422 change nothing; otherwise only that row changes; an upload replaces the old key by a fresh one; a null image clears the column; no image keeps it |
| MinistryApi.MinistryController.ReplaceImage | sanctuary-api/app/Http/Controllers/MinistryController.php:54-59 | an upload deletes the old key and stores a fresh one; null clears the column; otherwise nothing changes |
| MinistryApi.MinistryController.Set | sanctuary-api/app/Http/Controllers/MinistryController.php:61-62 | overwriting an existing row keeps the invariant and ids |
| MinistryApi.MinistryController.Destroy | sanctuary-api/app/Http/Controllers/MinistryController.php:68-77 | 404, or exactly that row and its own key removed and 204 |
| Images.Column | sanctuary-api/app/Http/Controllers/EventController.php:52 | a table's image column has exactly the table's ids |
| Images.ColumnSet | sanctuary-api/app/Http/Controllers/EventController.php:52 | overwriting a row changes the column at that id only |
| Images.ColumnRemove | sanctuary-api/app/Http/Controllers/EventController.php:61 | deleting a row removes that id from the column |
| Images.KeyOf | sanctuary-api/app/Http/Controllers/EventController.php:58-60 | a null image owns no key; an image owns exactly its one key |
| Images.Insert | sanctuary-api/app/Http/Controllers/EventController.php:27-31 | inserting a row with a fresh key (or none) keeps the column consistent with the disk |
| Images.Replace | sanctuary-api/app/Http/Controllers/EventController.php:45-52 | deleting a row's key and pointing it at a fresh one keeps the column consistent |
| Images.Clear | sanctuary-api/app/Http/Controllers/EventController.php:42 | nulling a row's image keeps the column consistent |
| Images.Remove | sanctuary-api/app/Http/Controllers/EventController.php:56-64 | deleting a row together with its own key keeps the rest consistent, so no other row loses its image |
| Site.StorePostBesideEvents | sanctuary-api/app/Http/Controllers/PostController.php:29-31 | creating a post on the disk the events share keeps both tables consistent |
| Site.UpdatePostBesideEvents | sanctuary-api/app/Http/Controllers/PostController.php:54-57 | updating a post's image keeps the events table consistent |
| Site.DestroyPostBesideEvents | sanctuary-api/app/Http/Controllers/PostController.php:63-71 | deleting a post and its image keeps the events table consistent |
| Images.OtherPrefix | sanctuary-api/app/Http/Controllers/PostController.php:30 | keys stored under another table's prefix do not disturb this table's consistency |
| Storage.PublicDisk.constructor | sanctuary-api/app/Http/Controllers/EventController.php:28 | an empty disk is valid |
| Storage.PublicDisk.Store | sanctuary-api/app/Http/Controllers/EventController.php:28 | storing an upload adds exactly one key, new to the disk, under the given prefix |
| Storage.PublicDisk.Delete | sanctuary-api/app/Http/Controllers/EventController.php:47 | deleting removes exactly that key |
| Validation.Failing | sanctuary-api/app/Http/Controllers/EventController.php:18 | the error bag holds at most the field itself, and holds it exactly when its rule fails |
| Validation.NumericOfDigits | sanctuary-api/app/Http/Controllers/EventController.php:20 | a digit string is numeric with its decimal value, so the day rule holds exactly for values 1..31 |
| Validation.NumericWithPoint | sanctuary-api/app/Http/Controllers/EventController.php:20 | digits, a point and digits read as all the digits scaled down by the count after the point |
| Validation.SignedDigits | sanctuary-api/app/Http/Controllers/EventController.php:20 | "+" before digits keeps their value and "-" negates it |
| Validation.SignedDay | sanctuary-api/app/Http/Controllers/EventController.php:20 | a day with "+" passes exactly when its value is 1..31; one with "-" never passes |
| Validation.SurroundingSpace | sanctuary-api/app/Http/Controllers/EventController.php:20 | whitespace before and after a numeric string changes neither its value nor the day rule |
| Validation.ExponentDigits | sanctuary-api/app/Http/Controllers/EventController.php:20 | digits, `e` or `E`, and digits read as the first value times ten to the second |
| Validation.DayExponentForm | sanctuary-api/app/Http/Controllers/EventController.php:20 | "1e1" passes the day rule |
| Validation.DaySignForms | sanctuary-api/app/Http/Controllers/EventController.php:20 | "+7" passes the day rule and "-7" fails it |
| Validation.DaySpaceForm | sanctuary-api/app/Http/Controllers/EventController.php:20 | " 7 " passes the day rule |
| Validation.DayFractionAboveRange | sanctuary-api/app/Http/Controllers/EventController.php:20 | "31.5" is numeric but fails `max:31` |
| Validation.NewestFirst | sanctuary-api/app/Http/Controllers/EventController.php:13 | exactly the ids below the bound, in strictly decreasing order |
| Validation.Latest | sanctuary-api/app/Http/Controllers/PostController.php:14 | every row of the table once each, with its own contents, newest first |
| Calendar.DaysInMonth | sanctuary-api/app/Http/Controllers/PostController.php:23 | month lengths of the Gregorian calendar, 29 for February exactly in leap years |
| LiveStreamApi.FilterTrimStart | sanctuary-api/app/Http/Requests/LiveStreamRequest.php:17 | the leading whitespace `filter_var` ignores is dropped, and nothing more |
| LiveStreamApi.FilterTrimEnd | sanctuary-api/app/Http/Requests/LiveStreamRequest.php:17 | the trailing whitespace `filter_var` ignores is dropped, and nothing more |
| LiveStreamApi.FilterBool | sanctuary-api/app/Http/Requests/LiveStreamRequest.php:14-19 | absent and null read as false, booleans as themselves, strings as true exactly for "1", "true", "on", "yes" in any case and surrounding whitespace |
| LiveStreamApi.PrepareForValidation | sanctuary-api/app/Http/Requests/LiveStreamRequest.php:14-19 | `isLive` is replaced by its coerced boolean and the other fields are untouched |
| LiveStreamApi.Authorize | sanctuary-api/app/Http/Requests/LiveStreamRequest.php:9-12 | every request is authorised |
| LiveStreamApi.RuleErrors | sanctuary-api/app/Http/Requests/LiveStreamRequest.php:21-28 | no field fails exactly when `isLive` passes Laravel's `boolean` rule (a boolean, 0, 1, "0" or "1"), and title and videoUrl are non-blank strings of at most 255 characters; there is no URL check |
| LiveStreamApi.CoercedIsLivePasses | sanctuary-api/app/Http/Requests/LiveStreamRequest.php:14-24 | after coercion `isLive` never fails, so only title and URL decide |
| LiveStreamApi.TrueWordIgnoresCase | sanctuary-api/app/Http/Requests/LiveStreamRequest.php:17 | lower-casing the input never changes the coerced value |
| LiveStreamApi.LowerTwice | sanctuary-api/app/Http/Requests/LiveStreamRequest.php:17 | lower-casing is idempotent |
| LiveStreamApi.LowerTrimStart | sanctuary-api/app/Http/Requests/LiveStreamRequest.php:17 | trimming and lower-casing commute (leading side) |
| LiveStreamApi.LowerTrimEnd | sanctuary-api/app/Http/Requests/LiveStreamRequest.php:17 | trimming and lower-casing commute (trailing side) |
| LiveStreamApi.ToJson | sanctuary-api/app/Http/Controllers/LiveStreamController.php:21-26 | the answer carries id 1, `is_live` as `isLive`, `video_url` as `videoUrl` and the title unchanged |
| LiveStreamApi.FromJson | sanctuary-api/app/Http/Controllers/LiveStreamController.php:34-38 | the request's three fields land in the matching columns |
| LiveStreamApi.RenameRoundTrip | sanctuary-api/app/Http/Controllers/LiveStreamController.php:21-38 | the renaming is lossless both ways |
| LiveStreamApi.LiveStreamController.constructor | sanctuary-api/app/Http/Controllers/LiveStreamController.php:10 | the singleton row starts absent |
| LiveStreamApi.LiveStreamController.Show | sanctuary-api/app/Http/Controllers/LiveStreamController.php:12-27 | an absent row is created as offline, "Offline Stream", ""; a present row is unchanged (so `show` is idempotent); the answer is the row renamed |
| LiveStreamApi.LiveStreamController.Update | sanctuary-api/app/Http/Controllers/LiveStreamController.php:29-47 | a failing rule answers with the failing fields and creates nothing; otherwise the row exists and holds exactly the coerced `isLive`, the title and the URL, and the answer is that row renamed |
| LiveStreamApi.UpdateThenShow | sanctuary-api/app/Http/Controllers/LiveStreamController.php:41-46 | a successful update answers exactly what the next `show` answers, with `isLive` the coerced value |
| ClientDates.ToIsoDate | sanctuary/src/lib/posts.ts:16-20 | "" converts to ""; any other input fails (throws) exactly when it has no second "/"-part; otherwise the result is the third part verbatim (or "undefined" when there is none), then the first and second parts padded to two characters |
| ClientDates.ToIsoDateOfParts | sanctuary/src/lib/news.ts:13-17 | `m/d/y` with slash-free parts becomes `y-mm-dd`, the year copied verbatim and month and day padded to two |
| ClientDates.ToIsoDateWithoutYear | sanctuary/src/lib/posts.ts:16-20 | `m/d` becomes `undefined-mm-dd` |
| ClientDates.ToIsoDateWithoutSlash | sanctuary/src/lib/posts.ts:16-20 | a non-empty value without "/" throws |
| ClientDates.SlashDateToIso | sanctuary/src/lib/news.ts:13-17 | an `MM/DD/YYYY` value converts to `YYYY-MM-DD`, which the server's `date_format` accepts exactly when it names a real day |
| ClientDates.JsNumber | sanctuary/src/components/admin/PostsManager.tsx:72 | `Number` reads a blank string as 0 and a digit string as its value |
| ClientDates.FullYear | sanctuary/src/components/admin/PostsManager.tsx:74 | years 0..99 are read as 1900..1999 by the `Date` constructor |
| ClientDates.PostsDisplayDate | sanctuary/src/components/admin/PostsManager.tsx:70-81 | "" for "", and otherwise a three-part slashed date when the model follows it |
| ClientDates.DateOfParts | sanctuary/src/components/admin/PostsManager.tsx:71-80 | "" when year, month or day is 0 or NaN |
| ClientDates.CleanIsoDate | sanctuary/src/components/admin/NewsManager.tsx:25-29 | the leading `YYYY-MM-DD` if the value starts with one, else the value itself |
| ClientDates.CleanIsoDateIdempotent | sanctuary/src/components/admin/NewsManager.tsx:25-29 | cleaning twice is cleaning once |
| ClientDates.NewsDisplayDate | sanctuary/src/components/admin/NewsManager.tsx:70-86 | "" for "", and "Invalid Date" when the cleaned value is not `YYYY-MM-DD` |
| ClientDates.PadBack | sanctuary/src/components/admin/PostsManager.tsx:77-78 | a two-digit non-zero field prints back as itself through `String` and `padStart(2, "0")` |
| ClientDates.DisplayBack | sanctuary/src/lib/posts.ts:16-20 | a stored date shown as `MM/DD/YYYY` converts back to itself |
| ClientDates.PostsRoundTrip | sanctuary/src/components/admin/PostsManager.tsx:70-81 | for every real day of the years 1000..9999 (a stored year not starting with "0"), the posts display is `MM/DD/YYYY` and `toISODate` of it gives the stored date back |
| ClientDates.PostsDisplayOfIso | sanctuary/src/components/admin/PostsManager.tsx:72-80 | a valid stored date is displayed through its own year, month and day |
| ClientDates.PostsDisplayOfYear | sanctuary/src/components/admin/PostsManager.tsx:72-80 | the same for any stored year from 100 on |
| ClientDates.PostsRoundTripBelow1000 | sanctuary/src/components/admin/PostsManager.tsx:72-80 | a year 100..999 is shown without its leading zero ("0999-01-01" displays as "01/01/999"), so `toISODate` gives back the stored date minus its first character, never the stored date |
| ClientDates.DateOfValid | sanctuary/src/components/admin/PostsManager.tsx:74-80 | a real day of years 100..9999 is shown with its zero-padded month and day and its year |
| ClientDates.NewsRoundTrip | sanctuary/src/components/admin/NewsManager.tsx:70-86 | for a stored date starting with a real day of the years 1000..9999 (a year not starting with "0") and any UTC offset within ±12 h, the news display converts back to the cleaned date |
| ClientDates.FirstEight | sanctuary/src/components/admin/PostsManager.tsx:216 | the first eight characters, or all of them when there are fewer |
| ClientDates.DateMask | sanctuary/src/components/admin/PostsManager.tsx:214-226 | at most 10 characters, whose digits are exactly the first eight digits typed; up to two digits stand alone, three or four get "/" after the second, five or more get "/" after the second and after the fourth |
| ClientDates.MaskIdempotent | sanctuary/src/components/admin/NewsManager.tsx:180-187 | masking a masked value changes nothing |
| ClientDates.MaskShape | sanctuary/src/components/admin/PostsManager.tsx:214-226 | the mask's output has the schema's `MM/DD/YYYY` shape exactly when at least eight digits were typed |
| EventTime.DayFilterIdempotent | sanctuary/src/components/admin/EventsManager.tsx:177-180 | the day filter leaves digits only and filtering again changes nothing |
| EventTime.ClientDayOnServer | sanctuary/src/schemas/event.ts:6-8 | for a day the schema accepts, the server accepts it exactly when its value is in 1..31 |
| EventTime.DayMismatch | sanctuary-api/app/Http/Controllers/EventController.php:20 | "0" and "32" pass the client schema but fail the server rule |
| EventTime.ServerTimeIsClientTime | sanctuary/src/schemas/event.ts:15-17 | every time without a final newline that the server accepts, the schema accepts too |
| EventTime.TimeMismatch | sanctuary-api/app/Http/Controllers/EventController.php:22 | "8:00pm" and "8.00" + no-break space (U+00A0) + "pm" pass the schema but not the server; "8.00 pm" followed by a newline passes the server but not the schema |
| EventTime.RemoveSpaces | sanctuary/src/components/admin/EventsManager.tsx:206 | the result holds no space |
| EventTime.FirstColonToDot | sanctuary/src/components/admin/EventsManager.tsx:208 | the length is kept |
| EventTime.NormalisedIsServerTime | sanctuary-api/app/Http/Controllers/EventController.php:22 | `h.mm am`/`hh.mm pm` satisfies the server's time rule |
| EventTime.NormaliseTimeForServer | sanctuary/src/components/admin/EventsManager.tsx:201-211 | any typed time of 1-2 hour digits, ':' or '.', two minute digits, any spaces and am/pm in any case normalises to `h.mm am`, which the server accepts |
| EventTime.NormaliseUpperCase | sanctuary/src/components/admin/EventsManager.tsx:201-211 | "8:00PM" becomes "8.00 pm" |
| EventTime.NormaliseNoSpace | sanctuary/src/components/admin/EventsManager.tsx:201-211 | "8.00pm" and "8:00 pm" both become "8.00 pm" |
| YouTube.PrefixesExclusive | sanctuary/src/components/admin/LiveStreamManager.tsx:43 | no two of the five prefixes match at the same place, so the order of the alternatives does not matter |
| YouTube.MatchedPrefix | sanctuary/src/components/admin/LiveStreamManager.tsx:43 | the alternative returned is one of the five and matches there |
| YouTube.FirstMatchFrom | sanctuary/src/components/admin/LiveStreamManager.tsx:43-45 | the regex engine's scan: the first place at or after the start where the pattern matches, or none |
| YouTube.GroupAt | sanctuary/src/components/admin/LiveStreamManager.tsx:43 | the captured group has 11 characters, none of them '?', '&', '/' or whitespace |
| YouTube.Extract | sanctuary/src/components/admin/LiveStreamManager.tsx:41-46 | null exactly when the pattern matches nowhere; otherwise the 11-character group of the leftmost match |
| YouTube.ExtractFromLink | sanctuary/src/components/LiveStreamSection.tsx:10-14 | a link of the form `<text without y><prefix><id><anything>` yields exactly that id |
| YouTube.EmbedSrc | sanctuary/src/components/admin/LiveStreamManager.tsx:174-185 | the player's source is the embed address of the id |
| YouTube.EmbedSrcRoundTrip | sanctuary/src/components/LiveStreamSection.tsx:45 | the id is recovered from the player's own source |
| YouTube.ShortUrlHasNoId | sanctuary/src/components/LiveStreamSection.tsx:29 | a URL shorter than 20 characters, the empty one included, has no id |
| YouTube.AdminEmbed | sanctuary/src/components/admin/LiveStreamManager.tsx:174-185 | the admin page embeds a player exactly when the stream is live and its URL has an id, and then the player shows that id |
| YouTube.SectionVideoId | sanctuary/src/components/LiveStreamSection.tsx:29 | no id before the settings load; afterwards the extractor's result, null for an empty URL |
| YouTube.SectionPlayer | sanctuary/src/components/LiveStreamSection.tsx:42-61 | the player is shown exactly when the settings are loaded, live and have an id; otherwise the offline placeholder |
| YouTube.PagesAgree | sanctuary/src/components/LiveStreamSection.tsx:10-14 | the public section and the admin page embed the same player, or none |
| YouTube.SectionTitle | sanctuary/src/components/LiveStreamSection.tsx:66-70 | the title line appears exactly when the title is non-empty, and shows it |
| YouTube.PlayerTitle | sanctuary/src/components/LiveStreamSection.tsx:46 | the player's title is never empty and is the stream's title when there is one |
| YouTube.StatusCard | sanctuary/src/components/admin/LiveStreamManager.tsx:162-169 | LIVE or OFFLINE by `isLive`, and "Not set" for an empty title or URL |
| Schemas.EventSchemaErrors | sanctuary/src/schemas/event.ts:4-24 | the form passes exactly when title and location have at least 3 characters, the day is 1-2 digits, the month is an abbreviation in any case and the time has the client's shape; the image never fails |
| Schemas.EventTitleGap | sanctuary/src/schemas/event.ts:5 | every title the server accepts the schema accepts, but "   " passes the schema and is refused by the server |
| Schemas.EventMonthAgrees | sanctuary/src/schemas/event.ts:9-14 | the schema's month and the server's month agree, except that the server also accepts a trailing newline |
| Schemas.PostSchemaErrors | sanctuary/src/schemas/post.ts:4-11 | passes exactly when title and category have at least 3 characters, the date has the shape `dd/dd/dddd`, the author at least 4, the description at least 10, and the image is absent or a File |
| Schemas.NewsSchemaErrors | sanctuary/src/schemas/new.ts:3-9 | passes exactly when title and category have at least 3 characters, the date has the slashed shape, the description at least 4, and the image is absent or a File |
| Schemas.SlashDateIsShapeOnly | sanctuary/src/schemas/post.ts:7 | "13/45/2024" has the schema's shape although no such day exists |
| Schemas.MinistrySchemaErrors | sanctuary/src/schemas/ministry.ts:4-9 | passes exactly when the title has at least 3 characters, the description at least 10, and the image is absent or a File |
| Schemas.MinistryImageOptional | sanctuary/src/schemas/ministry.ts:8 | a ministry with no image passes the schema |
| Schemas.StreamSchemaErrors | sanctuary/src/schemas/livestream.ts:4-8 | passes exactly when the title has at least 3 characters and the URL passes the URL check with at least 5; `isLive` never fails |
| Schemas.LoginSchemaErrors | sanctuary/src/schemas/validation.ts:3-6 | passes exactly when the email passes the email check and the password has at least 6 characters |
| Schemas.RegisterSchemaErrors | sanctuary/src/schemas/validation.ts:8-16 | passes exactly when the login rules, a name of at least 2 and equal passwords hold; the mismatch is reported on `password_confirmation` exactly when the passwords differ |
| Schemas.RegisterExtendsLogin | sanctuary/src/schemas/validation.ts:8-16 | a registration passes exactly when its login part passes, the name is long enough and the passwords match |
| Schemas.ContactParsed | sanctuary/src/pages/Contact.tsx:20-25 | every field of the parsed form is the trimmed input |
| Schemas.ContactSchemaErrors | sanctuary/src/pages/Contact.tsx:20-25 | passes exactly when the trimmed name has 1..100 characters, the trimmed email at most 255 and passes the email check, the trimmed phone 1..20, and the trimmed message 1..1000 |
| Schemas.JsTrimIdempotent | sanctuary/src/pages/Contact.tsx:21-24 | trimming twice is trimming once |
| Schemas.BlankFieldRefused | sanctuary/src/pages/Contact.tsx:21 | a whitespace-only field is refused whatever its length |
| Schemas.BlankTrimsToEmpty | sanctuary/src/pages/Contact.tsx:21-24 | a whitespace-only value trims to "" |
| Schemas.ContactParsedPasses | sanctuary/src/pages/Contact.tsx:20-25 | the values handed to `onSubmit` are already trimmed and pass the schema again |
| Schemas.ContactSubmit | sanctuary/src/pages/Contact.tsx:40-44 | a failing form is kept and nothing is submitted; a passing one submits its trimmed values and resets all four fields to "" |
| FormPayload.FormData.constructor | sanctuary/src/lib/posts.ts:24 | a new `FormData` is empty |
| FormPayload.FormData.Append | sanctuary/src/lib/posts.ts:29 | `append` adds one part at the end and changes nothing before it |
| FormPayload.FieldOf | sanctuary-api/app/Http/Controllers/PostController.php:52 | a field read from the body is a text part of that name, and an absent field means there is no such part |
| FormPayload.ImageOf | sanctuary-api/app/Http/Controllers/PostController.php:54 | the file read as `image` is a file part of that name; a multipart body never yields a null image |
| FormPayload.EffectiveMethod | sanctuary-api/app/Http/Controllers/PostController.php:37 | a body without `_method` is routed as the POST it was sent with |
| FormPayload.FieldOfAppend | sanctuary-api/app/Http/Controllers/PostController.php:52 | in a concatenated body the later part of a name wins |
| FormPayload.ImageOfAppend | sanctuary-api/app/Http/Controllers/PostController.php:54 | in a concatenated body the later file wins |
| FormPayload.FieldOfUnique | sanctuary-api/app/Http/Controllers/PostController.php:52 | a name sent once is read back as its value |
| FormPayload.ImageParts | sanctuary/src/lib/posts.ts:35-37 | a picked File is the only thing that yields an image part |
| FormPayload.Received | sanctuary/src/lib/events.ts:22 | the server receives a file exactly when one was picked, and never a null image |
| FormPayload.BuildPostForm | sanctuary/src/lib/posts.ts:23-39 | fails exactly when `toISODate` throws; otherwise title, category, converted date, author and description in that order, then the image only if it is a File |
| FormPayload.BuildNewsForm | sanctuary/src/lib/news.ts:19-33 | fails exactly when `toISODate` throws; otherwise title, category, converted date and description in that order (no author), then the image only if it is a File |
| FormPayload.BuildEventForm | sanctuary/src/lib/events.ts:15-24 | title, date, month, time and location verbatim and in that order, then the image only if one was picked |
| FormPayload.BuildMinistryForm | sanctuary/src/lib/ministries.ts:17-28 | title then description, then the image only if it is a File |
| FormPayload.CreatePost | sanctuary/src/lib/posts.ts:41-44 | a POST to `/posts` of the built pairs, with no `_method` |
| FormPayload.UpdatePost | sanctuary/src/lib/posts.ts:46-52 | a POST to `/posts/<id>` of the same pairs followed by `_method=PUT` |
| FormPayload.CreateNews | sanctuary/src/lib/news.ts:35-38 | a POST to `/news` of the built pairs, with no `_method` |
| FormPayload.UpdateNews | sanctuary/src/lib/news.ts:40-46 | a POST to `/news/<id>` of the same pairs followed by `_method=PUT` |
| FormPayload.CreateEvent | sanctuary/src/lib/events.ts:26-32 | a POST to `/events` of the built pairs, with no `_method` |
| FormPayload.UpdateEvent | sanctuary/src/lib/events.ts:34-43 | a POST to `/events/<id>` of the same pairs followed by `_method=PUT` |
| FormPayload.CreateMinistry | sanctuary/src/lib/ministries.ts:35-38 | a POST to `/ministries` of the built pairs, with no `_method` |
| FormPayload.UpdateMinistry | sanctuary/src/lib/ministries.ts:40-46 | a POST to `/ministries/<id>` of the same pairs followed by `_method=PUT` |
| FormPayload.Override | sanctuary/src/lib/posts.ts:48 | appending `_method=PUT` changes no field or file the server reads and makes the request a PUT |
| FormPayload.ReadBack | sanctuary/src/lib/posts.ts:29-37 | every text part of a built body is read back by the server as sent |
| FormPayload.NoFileInTexts | sanctuary/src/lib/posts.ts:29-33 | text parts alone carry no file |
| FormPayload.PostTextsDistinct | sanctuary/src/lib/posts.ts:29-33 | the post parts have distinct names, none `_method` |
| FormPayload.PostCreateDecodes | sanctuary/src/lib/posts.ts:23-44 | the server reads a created post's body as exactly the form's fields with the converted date, and a file exactly when one was picked |
| FormPayload.PostUpdateDecodes | sanctuary/src/lib/posts.ts:46-52 | an update is read as a PUT with the same fields, and without a picked file no image reaches the server |
| FormPayload.NewsTextsDistinct | sanctuary/src/lib/news.ts:22-26 | the news parts have distinct names, none `_method` |
| FormPayload.NewsCreateDecodes | sanctuary/src/lib/news.ts:19-38 | the server reads a created news body as exactly the form's fields with no author |
| FormPayload.NewsUpdateDecodes | sanctuary/src/lib/news.ts:40-46 | an update is read as a PUT with the same fields |
| FormPayload.EventTextsDistinct | sanctuary/src/lib/events.ts:15-21 | the event parts have distinct names, none `_method` |
| FormPayload.EventCreateDecodes | sanctuary/src/lib/events.ts:15-32 | the server reads a created event body as exactly the form's five fields, and a file exactly when one was picked |
| FormPayload.EventUpdateDecodes | sanctuary/src/lib/events.ts:34-43 | an event update is read as a PUT with the same fields and never carries a null image, so the server keeps or replaces the image but never clears it |
| FormPayload.MinistryTextsDistinct | sanctuary/src/lib/ministries.ts:20-21 | the ministry parts have distinct names, none `_method` |
| FormPayload.MinistryCreateDecodes | sanctuary/src/lib/ministries.ts:17-38 | the server reads a created ministry body as exactly title and description, and a file exactly when one was picked |
| FormPayload.MinistryUpdateDecodes | sanctuary/src/lib/ministries.ts:40-46 | an update is read as a PUT with the same fields |
| FormPayload.MinistryCreateWithoutFile | sanctuary-api/app/Http/Controllers/MinistryController.php:28 | a ministry form that passes the client schema without a file is refused by the server on `image` |
| FormPayload.PostDateReachesServer | sanctuary/src/lib/posts.ts:27-31 | a schema-valid post form always converts its date, and the server accepts it exactly when it names a real day |
| FormPayload.ConvertedDateOk | sanctuary-api/app/Http/Controllers/PostController.php:23 | a converted slashed date is never blank, so only `date_format` decides |
| ListSync.ReplaceById | sanctuary/src/components/admin/PostsManager.tsx:104-109 | same length; entries with the id become the updated entry; all others stay in place |
| ListSync.Prepend | sanctuary/src/components/admin/EventsManager.tsx:88-91 | the created entry first, then the old list |
| ListSync.RemoveById | sanctuary/src/components/admin/PostsManager.tsx:158-172 | no entry with the id is left, nothing new appears, and every entry with another id is kept |
| ListSync.ReplaceAbsent | sanctuary/src/components/admin/NewsManager.tsx:107-110 | replacing an id the list does not hold changes nothing |
| ListSync.ReplaceKeepsIds | sanctuary/src/components/admin/PostsManager.tsx:104-109 | replacing with an entry of the same id keeps every id in place, so unique ids stay unique |
| ListSync.ReplaceIdempotent | sanctuary/src/components/admin/MinistriesManager.tsx:85-93 | replacing twice is replacing once |
| ListSync.RemoveChangesOnlyWithId | sanctuary/src/components/admin/NewsManager.tsx:145-153 | removal changes the list exactly when some entry has the id |
| ListSync.RemoveIdempotent | sanctuary/src/components/admin/MinistriesManager.tsx:116-125 | removing twice is removing once |
| ListSync.RemoveUndoesPrepend | sanctuary/src/components/admin/EventsManager.tsx:88-116 | deleting a just-created entry gives back the list before the create |
| ListSync.PrependUnique | sanctuary/src/components/admin/MinistriesManager.tsx:95-99 | prepending an entry with a new id keeps ids unique |
| ListSync.RemoveUnique | sanctuary/src/components/admin/EventsManager.tsx:107-116 | removal keeps ids unique |
| Managers.PostsManager.constructor | sanctuary/src/components/admin/PostsManager.tsx:27-38 | no posts, nothing being edited, the blank form with author "ADMIN", dialog closed |
| Managers.PostsManager.Load | sanctuary/src/components/admin/PostsManager.tsx:42-49 | a successful fetch replaces the list; a failed one changes nothing |
| Managers.PostsManager.ResetForm | sanctuary/src/components/admin/PostsManager.tsx:57-67 | the blank form and nothing being edited; the list is kept |
| Managers.PostsManager.OnDateInput | sanctuary/src/components/admin/PostsManager.tsx:214-226 | the date field becomes the masked input and nothing else changes |
| Managers.PostsManager.HandleEdit | sanctuary/src/components/admin/PostsManager.tsx:139-151 | the post is being edited, the dialog is open, and the form holds its fields, its display date and no image |
| Managers.PostsManager.HandleSubmit | sanctuary/src/components/admin/PostsManager.tsx:84-136 | a form failing the schema sends nothing and changes nothing; otherwise the update or create request of the form is sent; a failed call changes nothing; a successful update replaces the entry with that id; a successful create prepends the reply when it has an id and otherwise reloads; then the dialog closes and the form resets |
| Managers.PostsManager.HandleDelete | sanctuary/src/components/admin/PostsManager.tsx:158-173 | the call is made exactly when confirmed; the list loses the id only when the call succeeds |
| Managers.PostsManager.EditAndSave | sanctuary/src/components/admin/PostsManager.tsx:148 | editing a post and saving without picking a file sends a PUT with no image, so the server keeps its image |
| Managers.NewsManager.constructor | sanctuary/src/components/admin/NewsManager.tsx:36-42 | no news, nothing being edited, the blank form, dialog closed |
| Managers.NewsManager.Load | sanctuary/src/components/admin/NewsManager.tsx:45-52 | a successful fetch replaces the list; a failed one changes nothing |
| Managers.NewsManager.ResetForm | sanctuary/src/components/admin/NewsManager.tsx:58-67 | the blank form and nothing being edited |
| Managers.NewsManager.OnDateInput | sanctuary/src/components/admin/NewsManager.tsx:180-187 | the date field becomes the masked input |
| Managers.NewsManager.HandleEdit | sanctuary/src/components/admin/NewsManager.tsx:132-143 | the item is being edited, the dialog is open, and the form holds its fields and the display of its cleaned date |
| Managers.NewsManager.HandleSubmit | sanctuary/src/components/admin/NewsManager.tsx:88-130 | as for posts: nothing sent on a schema failure; the request of the form otherwise; replace, prepend or reload on success; unchanged on a failed call |
| Managers.NewsManager.HandleDelete | sanctuary/src/components/admin/NewsManager.tsx:145-154 | the call is made exactly when confirmed; the list loses the id only on success |
| Managers.EventsManager.constructor | sanctuary/src/components/admin/EventsManager.tsx:30-37 | no events, the blank form with location "EVENT LOCATION", dialog closed |
| Managers.EventsManager.Load | sanctuary/src/components/admin/EventsManager.tsx:42-51 | a successful fetch replaces the list; a failed one changes nothing |
| Managers.EventsManager.ResetForm | sanctuary/src/components/admin/EventsManager.tsx:54-64 | the blank form and nothing being edited |
| Managers.EventsManager.OnDateInput | sanctuary/src/components/admin/EventsManager.tsx:177-180 | the day field keeps the typed digits only |
| Managers.EventsManager.OnTimeInput | sanctuary/src/components/admin/EventsManager.tsx:201-211 | the time field becomes the normalised input |
| Managers.EventsManager.HandleEdit | sanctuary/src/components/admin/EventsManager.tsx:119-130 | the event's fields verbatim and no image |
| Managers.EventsManager.HandleSubmit | sanctuary/src/components/admin/EventsManager.tsx:67-104 | nothing sent on a schema failure; otherwise the update or create request; on success the entry with the id is replaced, or the reply is always prepended |
| Managers.EventsManager.HandleDelete | sanctuary/src/components/admin/EventsManager.tsx:107-116 | the call is made exactly when confirmed; the list loses the id only on success |
| Managers.EventsManager.EditAndSave | sanctuary/src/components/admin/EventsManager.tsx:127 | editing and saving without a file sends a PUT with no image part, so the server keeps its image |
| Managers.MinistriesManager.constructor | sanctuary/src/components/admin/MinistriesManager.tsx:33-37 | no ministries, the blank form, dialog closed |
| Managers.MinistriesManager.Load | sanctuary/src/components/admin/MinistriesManager.tsx:43-50 | a successful fetch replaces the list; a failed one changes nothing |
| Managers.MinistriesManager.ResetForm | sanctuary/src/components/admin/MinistriesManager.tsx:59-63 | title, description and image cleared, nothing being edited |
| Managers.MinistriesManager.HandleEdit | sanctuary/src/components/admin/MinistriesManager.tsx:129-138 | title and description copied, no image |
| Managers.MinistriesManager.HandleSubmit | sanctuary/src/components/admin/MinistriesManager.tsx:66-113 | nothing sent on a schema failure; otherwise the update or create request; on success replace by id or prepend, then close and reset |
| Managers.MinistriesManager.HandleDelete | sanctuary/src/components/admin/MinistriesManager.tsx:116-126 | the call is made exactly when confirmed; the list loses the id only on success |
| StreamManager.RequestOf | sanctuary/src/lib/livestream.ts:14-17 | the JSON body carries the form's boolean, title and URL |
| StreamManager.ServerReadsForm | sanctuary-api/app/Http/Requests/LiveStreamRequest.php:14-28 | the switch's value survives the coercion, and the server refuses only a blank or overlong title or URL |
| StreamManager.BlankTitlePassesClientOnly | sanctuary/src/schemas/livestream.ts:6 | a title of three spaces passes the dialog's schema and is refused by the server on `title` |
| StreamManager.LiveStreamManager.constructor | sanctuary/src/components/admin/LiveStreamManager.tsx:24-38 | offline settings with empty title and URL, dialog closed, empty form |
| StreamManager.LiveStreamManager.LoadSettings | sanctuary/src/components/admin/LiveStreamManager.tsx:50-63 | fetched settings are shown and copied into the form; a failed fetch changes nothing |
| StreamManager.LiveStreamManager.HandleDialogOpen | sanctuary/src/components/admin/LiveStreamManager.tsx:98-107 | opening the dialog refills the form from the settings on screen |
| StreamManager.LiveStreamManager.HandleSave | sanctuary/src/components/admin/LiveStreamManager.tsx:70-96 | a form failing the schema sends nothing and changes nothing; otherwise the form is sent; on success the settings become the reply and the dialog closes |
| StreamManager.LiveStreamManager.SaveThrough | sanctuary/src/components/admin/LiveStreamManager.tsx:70-96 | a save through the server's `update` leaves the row untouched when the schema fails, and shows exactly the stored settings when the server accepts |
| Auth.AuthStore.constructor | sanctuary/src/lib/auth.ts:16 | a page load sees whatever storage holds and no header yet |
| Auth.AuthStore.SetAuthToken | sanctuary/src/lib/auth.ts:21-29 | a non-empty token is stored under "auth_token" and sent as "Bearer <token>"; anything else removes both |
| Auth.AuthStore.InitAuth | sanctuary/src/lib/auth.ts:34-39 | a stored token is put on the header; storage never changes |
| Auth.AuthStore.Login | sanctuary/src/lib/auth.ts:60-69 | the token state changes only when the call answers with a non-empty token |
| Auth.AuthStore.Register | sanctuary/src/lib/auth.ts:45-55 | the token state changes only when the call answers with a non-empty token |
| Auth.AuthStore.Logout | sanctuary/src/lib/auth.ts:74-84 | the token and the header are cleared whether or not the call succeeded |
| Auth.AuthStore.IsAuthenticated | sanctuary/src/lib/auth.ts:97-99 | true exactly when a non-empty token is stored, and then exactly when the header is set |
| Auth.StoredUser | sanctuary/src/components/ProtectedAdminRoute.tsx:5 | a missing or empty user entry is read as `{}` |
| Auth.Guard | sanctuary/src/components/ProtectedAdminRoute.tsx:3-12 | the outlet is shown exactly when a "token" entry is stored and the user is an admin; unparsable user text throws; otherwise it redirects |
| Auth.TokenKeyIgnoredByGuard | sanctuary/src/components/ProtectedAdminRoute.tsx:4 | writing or removing "auth_token" never changes the guard's verdict |
| Auth.LoginKeepsGuard | sanctuary/src/lib/auth.ts:60-69 | a login leaves the guard's verdict as it was, so it never grants access by itself |
| Text.Decimal | sanctuary/src/components/admin/PostsManager.tsx:77-78 | `String(n)`: digits only, no leading zero, reading back as `n` |
| Text.DecimalOfValue | sanctuary/src/components/admin/PostsManager.tsx:77-78 | a digit string without a leading zero is the decimal spelling of its value |
| Text.DigitsOf | sanctuary/src/components/admin/EventsManager.tsx:178 | `replace(/\D/g, "")` keeps digits only and never lengthens (which digits, and their order, are the next three rows) |
| Text.DigitsOfCounts | sanctuary/src/components/admin/EventsManager.tsx:178 | every digit of the input is kept as often as it occurs, and no other character |
| Text.DigitsOfDrops | sanctuary/src/components/admin/PostsManager.tsx:215 | a non-digit is dropped wherever it stands, and the digits around it keep their order |
| Text.DigitsOfAppend | sanctuary/src/components/admin/PostsManager.tsx:215 | the digit filter distributes over concatenation |
| Text.JsLength | sanctuary/src/schemas/event.ts:5 | a JavaScript length lies between the character count and twice it |
| Text.PadStart2 | sanctuary/src/lib/posts.ts:19 | a value of length 2 or more is unchanged; a shorter one is zero-padded to 2 |
| Text.TrimStart | sanctuary/src/pages/Contact.tsx:21 | the leading whitespace is dropped and nothing more |
| Text.TrimEnd | sanctuary/src/pages/Contact.tsx:21 | the trailing whitespace is dropped and nothing more |
| Text.Split | sanctuary/src/lib/posts.ts:18 | `split` with one separator gives at least one part |
| Text.SplitThree | sanctuary/src/lib/posts.ts:18 | three separator-free parts joined by the separator split back into exactly those parts |
| Text.LowerAll | sanctuary/src/components/admin/EventsManager.tsx:202 | `toLowerCase` maps each character and keeps the length |

## Left out

- Routing, middleware and Sanctum token issuance are not modelled. Controllers are called directly with a parsed request. `auth:sanctum`, CSRF and route-model binding (a missing id answers 404) are stated only through each method's missing-id case.
- EventApi.StoreErrors: `numeric` follows PHP 8's `is_numeric` (whitespace on either side, a sign, a decimal point, an exponent), and `min`/`max` compare the exact value. Framework-internal failures on such values, such as an error raised for an exponent far outside ±1000 instead of a 422, are not modelled.
- Laravel's global `TrimStrings` and `ConvertEmptyStringsToNull` middleware are not modelled. Controllers see each value as sent. An explicit null image (`NullImage`) stands for what the second middleware makes of an empty `image` text part.
- Eloquent, SQL and timestamps: tables are maps from ids to rows. `latest()` and `orderBy('created_at', 'desc')` are modelled as descending id order, which is the same order when rows are created one at a time. Ties between rows created in the same second are not modelled.
- Uploaded files are abstracted to a detected type and a size in bytes. MIME sniffing and the `image` check's inspection are left out. Laravel's random 40-character file names are replaced by serial numbers.
- Network failures are a reply parameter (`None`). Toasts, `isLoading` flags and `console` output are not modelled. `getMe` and the `/user` call are not modelled.
- Zod's `.email()` and `.url()` and `JSON.parse` are function parameters, not implementations.
- JavaScript's `Date` rollover of out-of-range parts (month 13, 30 February) is not modelled. The browser's time zone appears only as a UTC offset within ±12 hours.
- Managers.PostsManager.HandleEdit: requires a stored date whose display the model follows (not a rolled-over `Date`), because the display is `Unmodelled` otherwise.
- Managers.NewsManager.HandleEdit: requires a stored date and offset whose display the model follows, for the same reason.
- ClientDates.PostsDisplayDate: returns `Unmodelled` instead of a value for parts that `Date` would roll over.
- ClientDates.NewsDisplayDate: returns `Unmodelled` for a day past its month's end or an offset beyond ±12 hours.
- ListSync.RemoveById: does not state that the kept entries keep their relative order, only which entries are kept.
- Case folding is ASCII only, for PHP's `filter_var`, the `/i` patterns on both sides and `toLowerCase`. Non-ASCII letters are compared as they are.
- YouTube.Extract: the id characters are limited to one UTF-16 unit each. A JavaScript regex without the `u` flag would also take half of a surrogate pair, which a Dafny `char` cannot express.
- StreamManager.LiveStreamManager.LoadSettings: the settings always carry a title and a URL (the server always sends both), so the `|| ""` fallback for a missing one is not modelled.
- Presentational JSX (`toLocaleDateString`, cards, carousels, truncation), the static pages, the older in-memory admin managers outside `sanctuary/src`, `src/pages/Auth.tsx` and the thin HTTP wrappers (`api.ts`, the vite configs, the Eloquent model declarations) are not part of this model.
- Concurrency is not modelled: every operation runs to completion before the next one starts.
