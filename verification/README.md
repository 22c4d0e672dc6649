# arda-fe client logic in Dafny

This project models the pure logic of the arda-fe photo-album web client, a
React application that talks to an album server. Every handler is written as
a function. It takes the component state and the server's replies as inputs
and returns the next state and the requests sent, in order. The server's
replies are parameters:
- an `Option` for a request that may fail;
- a function from id to result for a batch of downloads.

The modules follow the source files:

- `JsString` and `JsNumber` hold the JavaScript semantics the client relies
  on:
  - `split`, proved equal to the leftmost-match reading of the ECMAScript
    algorithm;
  - `join` and `trim`;
  - `parseInt(s, 10)`, with NaN as a value of its own;
  - the decimal text of a number.
- `IdList` is the photo-id list decoder, `text.replace(/List\(|\)/g, '')`,
  `split(',')`, an optional blank filter, then `parseInt(id.trim(), 10)`. It
  also holds its inverse, the comma-join sent in the link request.
  `IdListExamples` works through concrete server texts.
- `Batch` is the order-preserving, all-or-nothing result of `Promise.all`.
- `Entities` holds the records (users, albums, photos, files) and the
  requests the client issues. Paths are relative to the API base URL.
- `AlbumList` is `handleAlbumClick`, in both of its branches.
- `AdminPanel` covers:
  - the photo library;
  - the selection toggle;
  - the link-photos workflow and its button guard;
  - album add and remove;
  - user add and delete, and the password-reset check;
  - both upload paths.
- `App` is the session state machine and the choice of the view to render.
- `PhotoGrid` is the zoom carousel. It uses JavaScript's truncating `%`, and
  a NaN index when the grid is empty. `Zoom(i)` and `Close()` are the zoom-state
  constructors: the states `handleZoom` and `closeZoom` set. They carry no
  contract of their own, and the carousel lemmas start from them.
- `Auth` is the token extraction and the headers of `getAuthHeaders`.
  `UserSettings` is the page's own copy of `getAuthHeaders` and the
  password-change guard. `Login` is the login outcome, the cookie it writes
  and the role mapping.

A few behaviours of the code are worth stating up front:
- The id decoder never fails. A token without digits decodes to NaN in its
  place.
- A failed refetch after linking keeps the selection and the selector open.
  Only `isLoading` is reset.
- The client never revokes the object URLs it creates.
- The token is the text after the first `token=`, cut at the next `token=`
  as well as at the next `;`. This is what `split('token=')[1]` gives.

## Model

| member | source | states |
|---|---|---|
| JsString.SplitOnIsSplitRef | arda-fe/arda-fe/src/components/AdminPanel.tsx:220 | `split` computed character by character equals the ECMAScript reading: the text before the leftmost match, then the split of the text after it |
| JsString.SplitHead | arda-fe/arda-fe/src/utils/auth.ts:2 | the first piece of a split is the text before the leftmost match; the rest is the split of what follows it |
| JsString.JoinSplit | arda-fe/arda-fe/src/components/AdminPanel.tsx:294 | joining the pieces of a split with the same separator gives back the original text |
| JsString.SplitCharCount | arda-fe/arda-fe/src/components/AlbumList.tsx:42 | splitting on one character yields exactly one more piece than that character has occurrences |
| JsString.SplitCharPieces | arda-fe/arda-fe/src/components/AdminPanel.tsx:294 | no piece of a split on a character contains that character |
| JsString.SplitCharConcat | arda-fe/arda-fe/src/components/AlbumList.tsx:42 | splitting `x,y` gives the pieces of `x` followed by the pieces of `y` |
| JsString.SplitJoinChar | arda-fe/arda-fe/src/components/AdminPanel.tsx:268 | splitting a join on a character that occurs in no part gives the parts back |
| JsString.BlankIffAllSpace | arda-fe/arda-fe/src/components/AlbumList.tsx:75 | `id.trim() !== ''` fails exactly when every character is whitespace |
| JsString.TrimIsInnerSlice | arda-fe/arda-fe/src/components/AlbumList.tsx:43 | `trim` returns a contiguous slice of its input, removing only whitespace in front of and behind it, and the result neither starts nor ends with whitespace |
| JsString.TrimIdempotent | arda-fe/arda-fe/src/components/AlbumList.tsx:43 | trimming twice is trimming once |
| JsNumber.DigitPrefix | arda-fe/arda-fe/src/components/AlbumList.tsx:43 | the digits `parseInt` reads are the longest all-digit prefix: the next character, if any, is not a digit |
| JsNumber.ParseIntNaN | arda-fe/arda-fe/src/components/AlbumList.tsx:43 | `parseInt` gives NaN exactly when no digit follows the leading whitespace and optional sign |
| JsNumber.ParseIntIgnoresTail | arda-fe/arda-fe/src/components/AlbumList.tsx:43 | `parseInt` of digits followed by a non-digit is the value of the digits |
| JsNumber.DigitsRoundTrip | arda-fe/arda-fe/src/components/AdminPanel.tsx:268 | reading back the decimal digits of `n` gives `n` |
| JsNumber.NumRoundTrip | arda-fe/arda-fe/src/components/AdminPanel.tsx:268 | `parseInt(String(x), 10)` is `x` for every integer and for NaN |
| IdList.Strip | arda-fe/arda-fe/src/components/AdminPanel.tsx:219 | the stripped text contains no `)` and is no longer than the input |
| IdList.StripConcat | arda-fe/arda-fe/src/components/AlbumList.tsx:41 | stripping works piece by piece across any boundary that no `List(` can straddle |
| IdList.StripRemovesEveryWrapper | arda-fe/arda-fe/src/components/AlbumList.tsx:41 | every `List(` anywhere in the text is removed, not only a leading one |
| IdList.StripRemovesEveryParen | arda-fe/arda-fe/src/components/AlbumList.tsx:73 | every `)` anywhere in the text is removed |
| IdList.StripIdentity | arda-fe/arda-fe/src/components/AdminPanel.tsx:219 | text without `L` and `)` passes through unchanged |
| IdList.StripIsSinglePass | arda-fe/arda-fe/src/components/AlbumList.tsx:41 | the replacement is one left-to-right pass: `LiList(st(1` strips to `List(1`, which a second pass would reduce to `1` |
| IdList.Decode | arda-fe/arda-fe/src/components/AdminPanel.tsx:218-221 | without the blank filter there is exactly one id per comma plus one; with it, at most that many |
| IdList.TokensComma | arda-fe/arda-fe/src/components/AdminPanel.tsx:219-220 | the tokens of `a,b` are the tokens of `a` followed by those of `b` |
| IdList.DecodeComma | arda-fe/arda-fe/src/components/AlbumList.tsx:72-76 | the ids of `a,b` are the ids of `a` followed by those of `b`, in both variants |
| IdList.DecodeSingleToken | arda-fe/arda-fe/src/components/AlbumList.tsx:72-76 | a comma-free text yields its one parsed token, or nothing when it is blank and blanks are dropped |
| IdList.BlankIsNaN | arda-fe/arda-fe/src/components/AlbumList.tsx:43 | a blank token parses to NaN |
| IdList.DecodeBlankText | arda-fe/arda-fe/src/components/AlbumList.tsx:40-76 | blank text decodes to one NaN without the filter and to nothing with it |
| IdList.IdTextDecodes | arda-fe/arda-fe/src/components/AdminPanel.tsx:268 | the printed text of an id has no `L`, `)` or `,`, is trimmed, non-blank, and parses back to the id |
| IdList.DecodeJoinIds | arda-fe/arda-fe/src/components/AdminPanel.tsx:268 | decoding the comma-join of any non-empty id list gives the list back, NaN included, in both variants |
| IdListExamples.DecodeDigitsToken | arda-fe/arda-fe/src/components/AlbumList.tsx:76 | a token that strips to digits, with or without one leading blank, decodes to their value |
| IdListExamples.DecodeWordToken | arda-fe/arda-fe/src/components/AlbumList.tsx:76 | a token that strips to one blank and a word starting with neither sign nor digit decodes to NaN, and the blank filter keeps it |
| IdListExamples.DecodeEmpty | arda-fe/arda-fe/src/components/AdminPanel.tsx:218-221 | the empty text decodes to `[NaN]` without the filter and to `[]` with it |
| IdListExamples.DecodeEmptyList | arda-fe/arda-fe/src/components/AlbumList.tsx:72-76 | `List()` decodes to `[]` with the blank filter and to `[NaN]` without it |
| IdListExamples.DecodeThreeTokens | arda-fe/arda-fe/src/components/AlbumList.tsx:72-76 | three pieces, each decoding to one id, decode when joined by commas to the three ids in order |
| IdListExamples.DecodeThreeIds | arda-fe/arda-fe/src/components/AlbumList.tsx:72-76 | `List(3, 7,9)` decodes to 3, 7, 9 in both variants |
| IdListExamples.DecodeKeepsBadTokenAsNaN | arda-fe/arda-fe/src/components/AlbumList.tsx:76 | `List(3, a, 9)` decodes to 3, NaN, 9: the bad token becomes NaN in place and the others still parse |
| Batch.All | arda-fe/arda-fe/src/components/AlbumList.tsx:54-60 | the batch succeeds iff every member does, and then yields every value in input order |
| Batch.MapAll | arda-fe/arda-fe/src/components/AlbumList.tsx:45-56 | mapping an action over the inputs succeeds iff it succeeds on each, with one result per input, in order |
| Batch.AllAppend | arda-fe/arda-fe/src/components/AdminPanel.tsx:223-235 | a batch of two batches succeeds iff both do, and its values are theirs concatenated |
| Entities.PhotoRequests | arda-fe/arda-fe/src/components/AlbumList.tsx:45-52 | one `/photos/<id>` request per id, in id order |
| AlbumList.HandleAlbumClick | arda-fe/arda-fe/src/components/AlbumList.tsx:32-99 | The list request goes first. If it fails, nothing else is sent and the application is not called. Otherwise one download per decoded id follows, in order. The application is called iff every download succeeds, with the branch's label and one URL per id in order |
| AlbumList.EmptyListBranches | arda-fe/arda-fe/src/components/AlbumList.tsx:33-98 | on `List()` the album opens at once with no photos; All Photos asks for `/photos/NaN` and opens only if that download succeeds |
| AlbumList.EmptyAlbumOpens | arda-fe/arda-fe/src/components/AlbumList.tsx:72-89 | an album list that decodes to nothing calls the application with the album's name and no URLs |
| AlbumList.ClickIds | arda-fe/arda-fe/src/components/AlbumList.tsx:45-60 | once the ids are known: the list request, then one download per id in order; the application is called iff every download succeeds, with the label and each id's URL at its position |
| AlbumList.OneIdClick | arda-fe/arda-fe/src/components/AlbumList.tsx:45-60 | one id means exactly two requests, the list and that download, and the application opens iff the download succeeds |
| AlbumList.BlankLibraryAsksNaN | arda-fe/arda-fe/src/components/AlbumList.tsx:40-56 | a library list that decodes to one NaN asks for `/photos/NaN` alone |
| AdminPanel.FetchAvailablePhotos | arda-fe/arda-fe/src/components/AdminPanel.tsx:209-242 | only the library changes. It becomes one `{id, url}` per decoded id in order, and only when the list was ok and every download succeeded |
| AdminPanel.EmptyLibraryOffersNaN | arda-fe/arda-fe/src/components/AdminPanel.tsx:218-237 | an empty `/photos` text offers exactly one photo, with id NaN |
| AdminPanel.LibraryOfOne | arda-fe/arda-fe/src/components/AdminPanel.tsx:223-237 | a list naming one id whose download succeeds offers exactly that photo |
| AdminPanel.Toggle | arda-fe/arda-fe/src/components/AdminPanel.tsx:244-248 | the intended toggle, the corrected half of the first Findings row: an absent id is appended at the end; a present id leaves with every occurrence while the other ids stay; nothing new appears |
| AdminPanel.ToggleAsWritten | arda-fe/arda-fe/src/components/AdminPanel.tsx:244-248 | the toggle as written appends an absent id and agrees with the intended toggle on every integer id, but leaves the selection unchanged when a selected NaN is clicked |
| AdminPanel.ToggleAsWrittenOnIntegers | arda-fe/arda-fe/src/components/AdminPanel.tsx:244-248 | on integer ids the code as written is the toggle above |
| AdminPanel.NaNCannotBeDeselected | arda-fe/arda-fe/src/components/AdminPanel.tsx:246 | as written, toggling a selected NaN changes nothing, so two clicks from `[]` leave `[NaN]` |
| AdminPanel.ToggleTwiceAbsent | arda-fe/arda-fe/src/components/AdminPanel.tsx:246 | toggling an absent id twice restores the selection exactly |
| AdminPanel.ToggleTwicePresent | arda-fe/arda-fe/src/components/AdminPanel.tsx:246 | toggling a present id twice keeps the same set of ids, with that id moved to the end |
| AdminPanel.ToggleKeepsNoDuplicates | arda-fe/arda-fe/src/components/AdminPanel.tsx:246 | a selection without repeats has none after a toggle |
| AdminPanel.SelectPhoto | arda-fe/arda-fe/src/components/AdminPanel.tsx:244-248 | the handler with the intended toggle: only the selection changes, and the clicked id is in it afterwards iff it was not before |
| AdminPanel.SelectPhotoAsWritten | arda-fe/arda-fe/src/components/AdminPanel.tsx:244-248 | the handler as written changes only the selection. On an integer id it agrees with the intended handler. A click on NaN always leaves NaN selected, and changes nothing when NaN was selected already |
| AdminPanel.OpenSelector | arda-fe/arda-fe/src/components/AdminPanel.tsx:250-254 | the selector opens for the album, and the library and the requests are exactly those of `fetchAvailablePhotos` on the same replies; every other field, the old selection included, is kept |
| AdminPanel.CancelSelector | arda-fe/arda-fe/src/components/AdminPanel.tsx:841 | Cancel hides the selector and changes nothing else |
| AdminPanel.LinkBodyRoundTrip | arda-fe/arda-fe/src/components/AdminPanel.tsx:268 | the link body is `photoIds=` followed by text that the id decoder reads back as the selection |
| AdminPanel.FindAlbum | arda-fe/arda-fe/src/components/AdminPanel.tsx:279 | `find` returns the first album with the id, or none when no album has it |
| AdminPanel.Listing | arda-fe/arda-fe/src/components/AdminPanel.tsx:294 | the refetched entries are non-blank and comma-free |
| AdminPanel.ListingJoin | arda-fe/arda-fe/src/components/AdminPanel.tsx:294 | listing a comma-join of non-blank, comma-free entries gives the entries back |
| AdminPanel.LinkPhotos | arda-fe/arda-fe/src/components/AdminPanel.tsx:256-307 | Nothing is sent without a non-zero album id and a non-empty selection. Otherwise the link request goes first. A failed link or refetch resets only `isLoading`. An album missing from the list clears the selection, selector and target without a refetch. A successful refetch also rewrites that album's photo entry with the fetched listing |
| AdminPanel.LinkOnlyTouchesAlbumKey | arda-fe/arda-fe/src/components/AdminPanel.tsx:279-296 | every photo-map key other than the target album's keeps its presence and its list |
| AdminPanel.PressLink | arda-fe/arda-fe/src/components/AdminPanel.tsx:853-855 | the Link button does nothing while loading or with an empty selection |
| AdminPanel.SecondLinkBlockedOnlyByButton | arda-fe/arda-fe/src/components/AdminPanel.tsx:256-259 | while a link is loading the handler itself would still send, and only the button stops it |
| AdminPanel.SelectionSurvivesCancel | arda-fe/arda-fe/src/components/AdminPanel.tsx:250-268 | after Cancel and reopening for another album, a link sends the old selection to the new album |
| AdminPanel.AddAlbum | arda-fe/arda-fe/src/components/AdminPanel.tsx:175-191 | An empty or taken name is a no-op. Otherwise the returned album is appended and gets an empty photo list, no other key changes, and the name field is cleared |
| AdminPanel.RemoveAlbum | arda-fe/arda-fe/src/components/AdminPanel.tsx:193-207 | no album with the id remains, every other album stays, and only that album's photo key is deleted |
| AdminPanel.RemoveAlbumKeepsOrder | arda-fe/arda-fe/src/components/AdminPanel.tsx:200 | removal distributes over concatenation, so the remaining albums keep their order |
| AdminPanel.RemoveAlbumOne | arda-fe/arda-fe/src/components/AdminPanel.tsx:200 | a one-album list loses its album exactly when the ids match and is otherwise kept as it is |
| AdminPanel.AddUser | arda-fe/arda-fe/src/components/AdminPanel.tsx:89-129 | an empty or taken name sends nothing; an ok reply appends the created user and resets the form; a failure changes nothing |
| AdminPanel.DeleteUser | arda-fe/arda-fe/src/components/AdminPanel.tsx:131-146 | on an ok reply exactly the users with other ids remain; otherwise nothing changes |
| AdminPanel.DeleteUserKeepsOrder | arda-fe/arda-fe/src/components/AdminPanel.tsx:143 | deletion distributes over concatenation, so the remaining users keep their order |
| AdminPanel.DeleteUserOne | arda-fe/arda-fe/src/components/AdminPanel.tsx:143 | a one-user list loses its user exactly when the ids match and is otherwise kept as it is |
| AdminPanel.ResetPassword | arda-fe/arda-fe/src/components/AdminPanel.tsx:148-173 | a reset to `password` is sent iff the caller is an admin or names themself |
| AdminPanel.UploadRequests | arda-fe/arda-fe/src/components/AdminPanel.tsx:639-648 | one upload request per file, in order |
| AdminPanel.DropUploadRequestAsWritten | arda-fe/arda-fe/src/components/AdminPanel.tsx:548-570 | the dropped file travels as the body of `/photos/upload` |
| AdminPanel.DropUploadDeclaresJson | arda-fe/arda-fe/src/components/AdminPanel.tsx:548-570 | as written, a dropped file's request declares JSON for a multipart body; the corrected request declares no type |
| AdminPanel.DropUpload | arda-fe/arda-fe/src/components/AdminPanel.tsx:532-586 | The drop handler with the corrected request of the second Findings row. Only dropped images within 5 MiB are sent, every one of them. The drop succeeds iff there is an image and every image fits and uploads. A drop with no image changes nothing |
| AdminPanel.DropUploadAppend | arda-fe/arda-fe/src/components/AdminPanel.tsx:536-552 | the requests of a drop of `a + b` are those of `a` followed by those of `b`, so each accepted image is sent exactly once, in drop order |
| AdminPanel.DropUploadOne | arda-fe/arda-fe/src/components/AdminPanel.tsx:536-562 | a drop of one file sends one upload for it iff it is an image of at most 5 MiB, and nothing otherwise |
| AdminPanel.DropUploadAsWritten | arda-fe/arda-fe/src/components/AdminPanel.tsx:532-586 | in the drop handler as written, no request declares a content type that fits its multipart body |
| AdminPanel.DropUploadDiffersOnlyInType | arda-fe/arda-fe/src/components/AdminPanel.tsx:548-570 | the drop handler as written and `DropUpload` send the same files and end in the same panel and outcome; each request differs only in declaring JSON |
| AdminPanel.DropUploadFits | arda-fe/arda-fe/src/components/AdminPanel.tsx:562-570 | every request of a drop declares a content type that fits its body |
| AdminPanel.PickerUpload | arda-fe/arda-fe/src/components/AdminPanel.tsx:629-670 | the picker uploads every chosen file without checks and succeeds iff each upload does |
| AdminPanel.PickerIsUncheckedDrop | arda-fe/arda-fe/src/components/AdminPanel.tsx:629-670 | on files that are all images within the size limit, the picker and the drop handler send the same requests and reach the same panel and outcome: the picker differs only by skipping the checks |
| App.Initial | arda-fe/arda-fe/src/App.tsx:22-39 | logged out with nothing selected, two non-admin placeholder users, three albums and no photo lists |
| App.Login | arda-fe/arda-fe/src/App.tsx:41-45 | sets the login flag, role and username, and nothing else |
| App.Logout | arda-fe/arda-fe/src/App.tsx:47-52 | clears the login, role, album and settings; keeps the username, users, albums and photos |
| App.AlbumClick | arda-fe/arda-fe/src/App.tsx:54-60 | selects the album and overwrites only its photo list |
| App.Back | arda-fe/arda-fe/src/App.tsx:62-64 | clears only the selected album |
| App.ToggleSettings | arda-fe/arda-fe/src/App.tsx:66-68 | flips only the settings flag |
| App.ToggleSettingsTwice | arda-fe/arda-fe/src/App.tsx:66-68 | toggling the settings twice is the identity |
| App.Render | arda-fe/arda-fe/src/App.tsx:123-151 | Login iff logged out. With settings shown: the admin view iff the role is admin and the username non-empty, else the settings alone. With settings hidden: the grid iff the album is non-empty, else the album list |
| App.AdminViewShape | arda-fe/arda-fe/src/App.tsx:126-138 | the admin panel always gets `isAdmin = true`, the non-empty current username and the application's own lists |
| App.ResetAlwaysAllowedInPanel | arda-fe/arda-fe/src/App.tsx:136 | since the panel is rendered only for admins, its reset-password check always passes |
| App.GridShowsStoredPhotos | arda-fe/arda-fe/src/App.tsx:143-148 | the grid shows the stored list of the selected album, or `[]` when the key is absent |
| App.LogoutShowsLogin | arda-fe/arda-fe/src/App.tsx:123-124 | after a logout the login view shows, whatever else the state holds |
| App.AlbumClickShowsGrid | arda-fe/arda-fe/src/App.tsx:143-148 | a click on a non-empty album while browsing shows exactly the photos handed over |
| App.BackShowsAlbums | arda-fe/arda-fe/src/App.tsx:149-150 | back from an album shows the album list |
| App.ReloginShowsAlbums | arda-fe/arda-fe/src/App.tsx:41-52 | signing in again after a logout starts at the album list |
| PhotoGrid.JsRem | arda-fe/arda-fe/src/components/PhotoGrid.tsx:22 | JavaScript's `%`: the remainder stays strictly inside the divisor's magnitude, takes the sign of the dividend (never negative for a non-negative dividend, never positive for a negative one) and differs from the dividend by a multiple of the divisor; a NaN dividend or a zero divisor gives NaN |
| PhotoGrid.Next | arda-fe/arda-fe/src/components/PhotoGrid.tsx:20-24 | next keeps null as null and a valid index valid |
| PhotoGrid.Prev | arda-fe/arda-fe/src/components/PhotoGrid.tsx:26-30 | prev keeps null as null and a valid index valid |
| PhotoGrid.NextIsModular | arda-fe/arda-fe/src/components/PhotoGrid.tsx:22 | on a valid index next is one step on, wrapping from `n - 1` to 0 |
| PhotoGrid.PrevIsModular | arda-fe/arda-fe/src/components/PhotoGrid.tsx:28 | on a valid index prev is one step back, wrapping from 0 to `n - 1` |
| PhotoGrid.PrevUndoesNext | arda-fe/arda-fe/src/components/PhotoGrid.tsx:20-30 | prev after next is the identity on a valid index |
| PhotoGrid.NextUndoesPrev | arda-fe/arda-fe/src/components/PhotoGrid.tsx:20-30 | next after prev is the identity on a valid index |
| PhotoGrid.NextTimesIsModular | arda-fe/arda-fe/src/components/PhotoGrid.tsx:22 | `k` presses of next from `i` land on `(i + k) % n` |
| PhotoGrid.NextCycles | arda-fe/arda-fe/src/components/PhotoGrid.tsx:22 | `n` presses of next return to the start |
| PhotoGrid.SinglePhotoStays | arda-fe/arda-fe/src/components/PhotoGrid.tsx:20-30 | with one photo, next and prev both stay on it |
| PhotoGrid.NotZoomedUnchanged | arda-fe/arda-fe/src/components/PhotoGrid.tsx:21-27 | not zoomed, next and prev do nothing |
| PhotoGrid.EmptyGridGivesNaN | arda-fe/arda-fe/src/components/PhotoGrid.tsx:22-28 | over zero photos, next and prev give the index NaN |
| Auth.TokenIsTokenRef | arda-fe/arda-fe/src/utils/auth.ts:2 | the split-based extraction is the text after the leftmost `token=`, cut at the next `token=` and then at the next `;` |
| Auth.TokenShape | arda-fe/arda-fe/src/utils/auth.ts:2 | there is a token iff `token=` occurs; it starts right after the leftmost occurrence and never contains `;` |
| Auth.TokenOfCookie | arda-fe/arda-fe/src/utils/auth.ts:2 | `pre + "token=" + t + tail` yields `t` when no match starts in `pre`, `t` holds neither `;` nor `token=`, and `tail` is empty or starts with `;` |
| Auth.AuthHeaders | arda-fe/arda-fe/src/utils/auth.ts:1-7 | the content type is always JSON and the authorization always starts with `Bearer ` |
| Auth.NoTokenBearerUndefined | arda-fe/arda-fe/src/utils/auth.ts:2-4 | without `token=` the header is `Bearer undefined` |
| Auth.BearerCarriesToken | arda-fe/arda-fe/src/utils/auth.ts:2-4 | with `token=` present the header is `Bearer ` followed by the token, which holds no `;` |
| Auth.CsrfCookieShadows | arda-fe/arda-fe/src/utils/auth.ts:2 | in `csrftoken=abc; token=xyz` the substring match inside `csrftoken=` wins, so the token is `abc` |
| UserSettings.LocalAuthHeaders | arda-fe/arda-fe/src/components/UserSettings.tsx:8-14 | the page's copy always declares JSON |
| UserSettings.LocalHeadersAgree | arda-fe/arda-fe/src/components/UserSettings.tsx:8-14 | the page's copy returns the same headers as the shared one for every cookie |
| UserSettings.ChangePassword | arda-fe/arda-fe/src/components/UserSettings.tsx:20-53 | A request for the user's new password is sent iff the username is non-empty and the two fields are equal. The fields are cleared only on success |
| UserSettings.EmptyPasswordsPass | arda-fe/arda-fe/src/components/UserSettings.tsx:26-38 | two empty fields pass the check and request an empty password |
| Login.RoleFor | arda-fe/src/components/Login.tsx:60 | the role is admin iff the record says `isAdmin` |
| Login.HandleLogin | arda-fe/src/components/Login.tsx:25-67 | `loading` ends false on every path. A rejected login writes no cookie and signs nobody in. An accepted one writes the cookie, looks the user up with the new token, and signs in iff the lookup succeeds, with the server's name and mapped role |
| Login.CookieOutlivesFailedLookup | arda-fe/src/components/Login.tsx:44-57 | a failed lookup leaves the cookie written and signs nobody in |
| Login.SignInUsesServerName | arda-fe/src/components/Login.tsx:59-60 | the application gets the name from the server's record |
| Login.LoginCookieReadsBack | arda-fe/src/components/Login.tsx:44 | the cookie written at login reads back as the token, so later requests carry the same bearer, provided the token holds neither `;` nor `token=` |
| Login.KeyPress | arda-fe/src/components/Login.tsx:69-73 | only the Enter key submits |

## Left out

- Network I/O, HTTP status handling beyond ok or failed, and JSON and blob
  bodies. Each reply is an input. Malformed JSON shapes, such as a login
  reply without a token, are not modelled.
- `URL.createObjectURL`: object URLs are opaque strings that the download
  replies supply.
- `alert`, `console`, styles, JSX, hover effects and the greeting text.
- React scheduling. `useEffect` triggers and setState batching are not
  modelled, and neither are the renders in between, such as `loading` or
  `isLoading` being true while a request is pending. Each handler is one
  step from its start state to its end state.
- Concurrency and timing of `Promise.all`. Only its order-preserving,
  all-or-nothing result is modelled. The handlers read closure state as it
  was when they started.
- `document.cookie` as storage. Only the parsing of its text is modelled.
  Headers appear in a request only as its `Authorization` kind and its
  declared content type.
- The API base URL from `utils/api.ts`: paths are relative to it.
- The `credentials` option of `fetch`. A `Request` does not carry it on any
  request, whether the source sets `'include'` or leaves it out. The
  authorization header is modelled; the browser's cookie policy is not.
- Separate download outcomes for repeated ids. The download replies are a
  function of the id, so an id listed twice (as in `1,1`) gets one outcome
  and one object URL in both places. In the source each `fetch` and each
  `URL.createObjectURL` is separate.
- The library reload after an upload. An upload reports through `succeeded`
  whether it happens, and the reload itself is `FetchAvailablePhotos`. The
  picker's clearing of its file input is not modelled.
- Full Unicode `trim` and `parseInt` whitespace. Whitespace is the ASCII
  whitespace, the no-break space, the byte-order mark and the line and
  paragraph separators. The other Unicode space separators are left out. Numbers are unbounded integers, with no rounding beyond
  2^53 and no exponent notation.
- JavaScript object-prototype keys (`photos["constructor"]`, for example):
  the photo map is a plain map.
- The photo deletion in the library and the album and user listings fetched
  on mount. These are plain fetch-and-store steps outside the handlers
  above.
- URL encoding of names in paths. The source does none, and the model
  concatenates them as the source does.
- AdminPanel.Toggle and AdminPanel.SelectPhoto: these model the intended
  toggle of the first Findings row, which the rest of the model uses. The
  code as written, which keeps a selected NaN, is `ToggleAsWritten` and
  `SelectPhotoAsWritten`.
- AdminPanel.DropUpload: sends the corrected request of the second Findings
  row, with no declared content type. The code as written, which declares
  JSON, is `DropUploadAsWritten`.
- IdList.Decode: does not state the count of the filtered variant exactly
  (only an upper bound). `DecodeComma`, `DecodeSingleToken` and the examples
  pin the filtered result down token by token.

## Findings

| source | as written | input that shows it | evidently intended | confidence | as-written member | corrected member |
|---|---|---|---|---|---|---|
| arda-fe/arda-fe/src/components/AdminPanel.tsx:244-248 | `prev.includes(photoId)` finds a selected NaN, since it compares with SameValueZero, but `filter((id) => id !== photoId)` keeps every NaN, since `NaN !== NaN` | the library offers the id NaN (an empty `/photos` list); clicking it twice from the empty selection leaves `[NaN]` | the second click deselects it, giving `[]` | not executed | AdminPanel.NaNCannotBeDeselected | AdminPanel.ToggleTwiceAbsent |
| arda-fe/arda-fe/src/components/AdminPanel.tsx:548-570 | the drop handler sends each `FormData` body with the headers of `getAuthHeaders()`, which declare `Content-Type: application/json` | any dropped image of at most 5 MiB | no declared type, so that `fetch` sets the multipart type with its boundary, as the file picker does by removing `Content-Type` at line 637 | not executed | AdminPanel.DropUploadDeclaresJson | AdminPanel.DropUploadFits |
