# Share AI Platform — a Dafny model of the service layer

This project models the business rules of the Share AI Platform backend: an
image catalogue where users register and log in, publish container images
with labels and a readme, favourite ("collect") images, and look up deployment
configurations per (image, provider). It also models two small pieces of the
web client: the gallery page's filter and the user-state subscriber list.

The database and the cache are one immutable `Store` (module `Store`):
- users, images, labels and providers are keyed tables with a scan order, one admissible choice for the order PostgreSQL leaves unspecified;
- the `image_labels` join table is a set of (image, label) pairs;
- favourites are a sequence of rows, because the table declares no unique key;
- deployment configurations are a sequence of rows;
- the Redis cache is a map holding listings and `blacklist:` entries.

Every service operation is a pure function from the store and the request to
a `Reply(store', result)`. A failed call leaves the store as it was, modelling
the rolled-back transaction, with one exception: `Register` inserts the user
before it issues the token, so when the token cannot be issued the new user
stays (backend/internal/services/user_service.go:90-97). Everything outside
the process is a parameter:
- bcrypt hashing and comparison, as `hash` and `verify`;
- JWT minting and validation, as `mint` (which may fail) and `parse`;
- the database's UUID generator, as `gen` indexed by a counter in the store;
- the clock and upload UUIDs, as `now`, `date` and `uuid`;
- whether Redis answers, as `cacheUp`.

`Store.Valid` collects the integrity conditions the operations keep:
- usernames, emails and label names are unique;
- stored passwords are hashed;
- links and favourites point at existing rows, and no favourite is stored twice;
- every image's star counter equals its number of favourites;
- there is at most one deployment configuration per (image, provider).

Modules:
- `Results`, `Seqs`, `Strings`, `Tables`, `Paging`: generic helpers.
- `Models`: the records.
- `Store`: the state and its invariants.
- `Auth`: the middleware.
- `Upload`: path and URL helpers.
- `Catalog`: listing queries.
- `ImageService`, `UserService`, `DeployService`: the services.
- `ImagesPage`, `UserState`: the frontend pieces.

Where the code and its documentation disagree, the model follows the code:
- `UpdateUserRole` accepts any role string and lets an admin change their own role.
- `ListImages` returns empty label lists.
- `UpdateImage` ignores the namespace, visibility and platform it is sent.

## Model

| member | source | states |
|---|---|---|
| Models.BeforeCreate | backend/internal/models/user.go:31-49 | the stored password becomes `Hashed(hash(plaintext))`, the digest of the plaintext; an empty role becomes `user` and an empty nickname the username; non-empty values and all other fields are kept; a hashing error aborts the insert |
| Models.WithColumnDefaults | backend/internal/models/image.go:19-22 | an empty visibility becomes `public`; stars and size keep their (zero) values; no other column changes |
| Models.Respond | backend/internal/services/image_service.go:218-242 | an image response shows exactly the row's columns, its id, the given label names and the favourite flag |
| Store.EmptyStore | backend/internal/models/image.go:19-43 | the empty database satisfies every integrity condition |
| Store.DropImage | backend/internal/services/image_service.go:465-469 | deleting an image's favourites removes exactly the rows of that image and keeps the rest duplicate-free |
| Store.StarCountWithout | backend/internal/services/image_service.go:288-298 | removing one favourite lowers that image's favourite count by one and no other image's |
| Store.StarCountDropImage | backend/internal/services/image_service.go:465-469 | after the cascade the deleted image has no favourites and every other image keeps its count |
| Store.LabelNames | backend/internal/services/image_service.go:207 | the preloaded label names are exactly the names of the label rows linked to the image |
| Paging.Window | backend/internal/services/image_service.go:143-145 | OFFSET/LIMIT returns at most `limit` rows, exactly the rows from `offset` on, clipped at the end |
| Paging.Offset | backend/internal/services/image_service.go:143-145 | `(page-1)·pageSize` in Go's 64-bit `int`: the exact product while it fits, otherwise the wrapped value, and no offset at all when that is zero or negative |
| Paging.OffsetZeroIffFirstPage | backend/internal/services/image_service.go:143-145 | without wrap-around only the first page has offset zero |
| Paging.OffsetWraps | backend/internal/services/user_service.go:277 | page 2^62+1 of size 4 wraps to offset 0 and serves the first page; page 2^62+2 serves the second |
| Paging.FirstPagesArePrefix | backend/internal/services/image_service.go:143-145 | while no offset wraps, reading pages 1..n in turn yields the first n·size rows in order, each once |
| Paging.ReadPagesAreFirstPages | backend/internal/services/image_service.go:143-145 | a reader whose page k is the k-th offset window reads exactly those windows in turn |
| Paging.AllPagesCoverList | backend/internal/services/image_service.go:143-145 | while no offset wraps, ceil(total/size) pages return every row exactly once |
| Catalog.Normalize | backend/internal/services/image_service.go:90-95 | a page ≤ 0 becomes 1 and a page size ≤ 0 becomes 10; positive values and the other fields are untouched |
| Catalog.NormalizeIdempotent | backend/internal/services/image_service.go:90-95 | applying the defaults twice is the same as once |
| Catalog.FormatList | backend/internal/services/image_service.go:101 | `%v` of a string slice is bracketed |
| Catalog.FormatListSplits | backend/internal/services/image_service.go:101 | between the brackets stand the labels joined by single spaces: splitting at the spaces gives back a non-empty, space-free label list |
| Catalog.FormatListInjective | backend/internal/services/image_service.go:101 | non-empty space-free label lists print the same exactly when they are equal, so only spaces inside labels make requests share an entry |
| Catalog.FormatListEmptyCollision | backend/internal/services/image_service.go:101 | no labels and one empty label print alike, as `[]` |
| Catalog.CacheKey | backend/internal/services/image_service.go:101 | listing keys live under the `images:` prefix |
| Catalog.CacheKeyNotBlacklist | backend/internal/services/image_service.go:101 | no listing key can coincide with a token's blacklist key |
| Catalog.CacheKeyCollision | backend/internal/services/image_service.go:101 | the key does not delimit label names: labels ["a b"] and ["a", "b"] share a cache entry |
| Catalog.SearchProperties | backend/internal/services/image_service.go:113-115 | the ILIKE search ignores letter case, and every image is found by its own name |
| Catalog.LabelsMatchIff | backend/internal/services/image_service.go:118-123 | with labels requested, an image passes the grouped count exactly when it carries every requested name and no name is requested twice |
| Catalog.RepeatedLabelMatchesNothing | backend/internal/services/image_service.go:118-123 | a request naming one label twice matches no image |
| Catalog.Selected | backend/internal/services/image_service.go:110-123 | the selected rows are exactly the scanned rows that pass the search and the label filter, without duplicates |
| Catalog.InsertDesc | backend/internal/services/image_service.go:132-141 | inserting one row lengthens the list by one; the new row goes first exactly when the list is empty or its key is at least the head's (ties go before), and otherwise lands after the old head |
| Catalog.InsertDescSorted | backend/internal/services/image_service.go:132-141 | inserting into a list in descending order keeps it in descending order |
| Catalog.InsertDescPermutes | backend/internal/services/image_service.go:132-141 | inserting adds exactly that row: the result holds the old rows plus the new one, nothing else |
| Catalog.SortImages | backend/internal/services/image_service.go:132-141 | the result is ordered descending by stars, updated_at or (otherwise) created_at and is a permutation of the input |
| Catalog.SortImagesKeepsSorted | backend/internal/services/image_service.go:132-141 | rows already in order are returned unchanged |
| Catalog.SortImagesSameRows | backend/internal/services/image_service.go:132-141 | sorting neither adds nor drops a row |
| Catalog.WindowSorted | backend/internal/services/image_service.go:143-145 | a page cut from a sorted list is still sorted and contains only rows of that list |
| ImageService.Ranked | backend/internal/services/image_service.go:109-141 | the ordered selection holds exactly the matching rows, each once, in descending sort order |
| ImageService.PageRows | backend/internal/services/image_service.go:109-145 | a page holds at most page-size rows, and its i-th row is row offset+i of the ordered selection |
| ImageService.PageRowsIsWindow | backend/internal/services/image_service.go:143-145 | page n is the OFFSET/LIMIT window of the ordered selection at page n's offset |
| ImageService.EveryMatchOnOnePage | backend/internal/services/image_service.go:143-145 | reading pages 1..ceil(total/size) returns the ordered selection: every matching image exactly once, no page repeating another |
| ImageService.ListItems | backend/internal/services/image_service.go:153-190 | one response per row, in order, with the row's columns, empty labels (none preloaded) and the caller's favourite flag |
| ImageService.FreshListing | backend/internal/services/image_service.go:109-190 | an uncached listing: its i-th item is the image at position offset+i of the ordered selection, showing its stored row; the total counts every selected row before paging |
| ImageService.ListImagesAsWritten | backend/internal/services/image_service.go:88-200 | as written: a cache hit returns the stored items with total 0; a miss with any label filter fails on the missing column; a miss without labels behaves as the corrected listing, caching a non-empty page; only the cache may change |
| ImageService.CachedStarLeaks | backend/internal/services/image_service.go:100-107 | once a listing is cached, the next caller (even anonymous) receives the first caller's favourite flags |
| ImageService.CachedStarLeaksExample | backend/internal/services/image_service.go:192-197 | a concrete store where an anonymous caller is shown a favourite it never made |
| ImageService.Restar | backend/internal/services/image_service.go:156-163 | each item's flag becomes the caller's favourite state and nothing but the flag changes |
| ImageService.RestarOwnListing | backend/internal/services/image_service.go:156-163 | restating the flags of a caller's own fresh listing changes nothing |
| ImageService.MissCachesListing | backend/internal/services/image_service.go:109-200 | a miss answers the fresh listing and stores it under its key when non-empty |
| ImageService.CachedListingRestarred | backend/internal/services/image_service.go:100-107 | a hit answers exactly the stored items, each with its flag restated for the caller |
| ImageService.ListingAgainSameItems | backend/internal/services/image_service.go:100-200 | with Redis up, asking for the same listing twice gives the same items |
| ImageService.ListImages | backend/internal/services/image_service.go:88-200 | corrected listing: it always succeeds and every flag is the caller's; a hit returns the cached page (total 0) with flags restated; a miss returns the fresh listing and caches it only when non-empty and Redis is up |
| ImageService.AnonymousSeesNoStars | backend/internal/services/image_service.go:156-163 | an anonymous caller never sees a favourite flag |
| ImageService.ListTotalCountsMatches | backend/internal/services/image_service.go:125-129 | on a miss, `total` is the number of images that match the filters |
| ImageService.GetImageByID | backend/internal/services/image_service.go:203-245 | found exactly when the row exists (else record-not-found); the response shows the row, exactly its label names, and whether this (non-anonymous) caller favourited it |
| ImageService.CollectImage | backend/internal/services/image_service.go:248-275 | "image not found" for an unknown image, "image already collected" for an existing pair; otherwise appends exactly that pair, raises stars by one and changes nothing else |
| ImageService.UncollectImage | backend/internal/services/image_service.go:278-299 | "image not found", or "image not in collection" when no row is deleted; otherwise removes exactly that pair, lowers stars by one and changes nothing else |
| ImageService.CollectThenUncollect | backend/internal/services/image_service.go:248-299 | collecting then uncollecting restores the favourites and the star count; only the update stamp differs |
| ImageService.CollectTwiceFails | backend/internal/services/image_service.go:257-261 | the service's pre-check makes a second collect of the same pair fail |
| ImageService.CollectPreservesValid | backend/internal/services/image_service.go:248-275 | collect keeps favourites duplicate-free and stars equal to the favourite count |
| ImageService.UncollectPreservesValid | backend/internal/services/image_service.go:278-299 | uncollect keeps stars equal to the favourite count |
| ImageService.AttachOne | backend/internal/services/image_service.go:344-355 | find-or-create one label by name and link it: only labels, links and the key counter change; existing links stay |
| ImageService.AttachLabels | backend/internal/services/image_service.go:343-357 | attaching each name in turn changes only labels, links and the key counter; a key clash fails |
| ImageService.AttachOneFacts | backend/internal/services/image_service.go:344-355 | one attachment keeps label names unique, keeps every label row, and adds exactly that name to the image |
| ImageService.AttachLabelsFacts | backend/internal/services/image_service.go:343-357 | attaching gives the image exactly its old names plus the requested ones, keeps names unique, and leaves other images' labels unchanged |
| ImageService.UnlinkFacts | backend/internal/services/image_service.go:420-425 | clearing leaves the image with no labels and every other image's labels as they were |
| ImageService.OrgKey | backend/internal/services/image_service.go:305-308 | `public` is stored as the zero UUID; any other organisation is stored as given |
| ImageService.ReadmeUpload | backend/internal/services/image_service.go:326-333 | succeeds exactly when there is no readme or its upload succeeds; no readme gives an empty path, an upload gives a path under readme/ named by date and UUID, and a failure carries the upload error after "failed to upload readme file: " |
| ImageService.NewImage | backend/internal/services/image_service.go:310-324 | a new image belongs to the caller and organisation, has 0 stars, copies the request's name, description, registry, namespace, repository, tag, digest, size and platform, gets the default visibility when none is given, and the readme path |
| ImageService.CreateImage | backend/internal/services/image_service.go:302-366 | a readme failure or a key clash fails with nothing stored; on success exactly one new row under the generated key is inserted and the answer is that image as GetImageByID shows it |
| ImageService.CreateImageLabels | backend/internal/services/image_service.go:343-365 | a created image carries exactly the requested label names, no favourite and no stars |
| ImageService.CreateImagePreservesValid | backend/internal/services/image_service.go:302-366 | creation keeps every integrity condition (stars start equal to the zero favourite count) |
| ImageService.Overlay | backend/internal/services/image_service.go:381-396 | name, description, registry, repository and tag are replaced only when non-empty; every other column is kept |
| ImageService.UpdateImage | backend/internal/services/image_service.go:369-450 | only the author may update ("image not found or not authorized"); the row becomes the overlay with the new readme and stamp; nothing outside images, labels and links changes; with no labels requested, labels and links stay |
| ImageService.UpdateImageLabels | backend/internal/services/image_service.go:419-441 | labels are replaced by exactly the requested names when any are given and kept otherwise; other images keep theirs |
| ImageService.UpdateImagePreservesValid | backend/internal/services/image_service.go:369-450 | update keeps every integrity condition |
| ImageService.DeleteImage | backend/internal/services/image_service.go:453-490 | only the author may delete; the row, all its favourites and all its links go; label rows and everything else stay |
| ImageService.DeleteThenGetFails | backend/internal/services/image_service.go:453-490 | after deletion the image is not found for any caller |
| ImageService.DeleteImagePreservesValid | backend/internal/services/image_service.go:453-490 | the cascade keeps favourites pointing at existing images and star counts matching |
| ImageService.ListFavorites | backend/internal/services/image_service.go:493-581 | at most page-size images; the i-th is the image at offset+i of the caller's ordered matching favourites, showing its row and its label names, marked as favourite |
| ImageService.FavouriteItems | backend/internal/services/image_service.go:551-578 | one response per favourite row, in the same sorted order, carrying that row, its label names, and the favourite mark |
| ImageService.Favourites | backend/internal/services/image_service.go:504-507 | the join keeps exactly the scanned images the caller has favourited, in scan order |
| ImageService.FavouritesTotal | backend/internal/services/image_service.go:522-526 | the favourites total is the number of favourited images that match the filters |
| UserService.MatchesEmailIff | backend/internal/services/user_service.go:16 | the deterministic matcher accepts exactly the strings of the email regular expression |
| UserService.MatcherSound | backend/internal/services/user_service.go:16 | every string the matcher accepts is of the email regular expression's form |
| UserService.MatcherComplete | backend/internal/services/user_service.go:16 | every string of the email regular expression's form is accepted by the matcher |
| UserService.EmailExamples | backend/internal/services/user_service.go:16 | "a@b.co" is accepted and "a.b.co" is rejected |
| UserService.PasswordLengthCountsBytes | backend/internal/services/user_service.go:65-67 | the minimum length counts UTF-8 bytes: two CJK characters pass, five ASCII letters do not |
| UserService.Register | backend/internal/services/user_service.go:58-109 | checks in order: email format, password length, taken username, taken email; once those, hashing and the key succeed the user is stored with role `user`, nickname = username and the hashed password, and stays stored even when minting the token then fails with its error; succeeds exactly when the token is minted, returning the same username and email with it |
| UserService.RegisterTwiceFails | backend/internal/services/user_service.go:71-80 | registering again with the same username or email fails |
| UserService.RegisterPreservesValid | backend/internal/models/user.go:20-21 | registration keeps usernames and emails unique and passwords hashed |
| UserService.Login | backend/internal/services/user_service.go:112-139 | "invalid username or password" for an unknown name and a wrong password alike; any other error is the token minting error of a user whose password verified; success exactly when the named user's password verifies and a token is minted |
| UserService.RegisterThenLogin | backend/internal/services/user_service.go:112-122 | a user who just registered can log in with the same password |
| UserService.Logout | backend/internal/services/user_service.go:142-149 | no token: nothing happens; otherwise `blacklist:`+token is written with the user id, or the cache error is returned |
| UserService.LogoutRevokesToken | backend/internal/middleware/auth.go:66-72 | after logout the same bearer header is refused as invalidated |
| UserService.GetUserByID | backend/internal/services/user_service.go:152-168 | found exactly when the user exists; the response carries its id, username, email, nickname and role, the avatar as a URL, and no token |
| UserService.RegisterThenGetUserByID | backend/internal/services/user_service.go:58-168 | a user just registered is found by its id with the registration's answer, minus the token |
| UserService.UpdateProfile | backend/internal/services/user_service.go:171-211 | unknown user: "user not found"; a non-empty nickname replaces the old one; an accepted avatar replaces the path; a rejected avatar fails with nothing stored; no other field changes |
| UserService.UpdateUser | backend/internal/services/user_service.go:214-240 | invalid email is refused; succeeds exactly for an existing user whose new name and email no other user holds; sets both and returns the raw avatar path |
| UserService.UpdateProfilePreservesValid | backend/internal/services/user_service.go:171-211 | profile updates keep the integrity conditions |
| UserService.UpdateUserPreservesValid | backend/internal/models/user.go:20-21 | account updates keep usernames and emails unique |
| UserService.UpdateUserRole | backend/internal/services/user_service.go:243-266 | fails unless the caller exists and is an admin and the target exists; otherwise only the target's role changes |
| UserService.UpdateUserRolePreservesValid | backend/internal/services/user_service.go:243-266 | role changes keep the integrity conditions |
| UserService.RolesStayValid | backend/internal/models/user.go:67-69 | registration, and role changes with a role that passed IsValidRole, keep every stored role valid |
| UserService.ServiceAcceptsUnknownRole | backend/internal/services/user_service.go:255-263 | the service itself stores a role that is neither `user` nor `admin` |
| UserService.SelfDemotionAllowed | backend/internal/services/user_service.go:243-266 | an admin can demote themselves |
| UserService.Responses | backend/internal/services/user_service.go:287-297 | each listed user's response shows the row with its raw avatar path and no token |
| UserService.ListUsers | backend/internal/services/user_service.go:269-306 | total is the number of users; the page holds at most page-size users, exactly the scan rows from the page's offset on (the 64-bit wrapped `(page-1)·pageSize`) |
| UserService.ListUsersIsWindow | backend/internal/services/user_service.go:277-283 | a page of users is the OFFSET/LIMIT window of the whole list at the page's offset |
| UserService.ListUsersPagesCoverAll | backend/internal/services/user_service.go:277-283 | fetching pages 1..ceil(total/size) lists every user exactly once, in scan order, while no offset wraps |
| Auth.BearerTokenIff | backend/internal/middleware/auth.go:57-64 | a header yields token t exactly when it is "Bearer " followed by t, and t contains no space |
| Auth.LowercaseSchemeRejected | backend/internal/middleware/auth.go:57-62 | "bearer x" is rejected |
| Auth.MissingTokenRejected | backend/internal/middleware/auth.go:57-62 | "Bearer" alone is rejected |
| Auth.DoubleSpaceRejected | backend/internal/middleware/auth.go:57-62 | "Bearer  x" is rejected |
| Auth.Authenticate | backend/internal/middleware/auth.go:47-109 | every rejection is 401 with the source's message: empty header, bad format, blacklisted token (a cache error counts as not blacklisted); passes exactly for a well-formed, unrevoked, valid token of an existing user, setting its id, stored role and raw token |
| Auth.AdminGate | backend/internal/middleware/auth.go:112-129 | no role gives 401, a non-admin role 403, and only admin passes, with the context unchanged |
| Auth.AdminRouteNeedsStoredAdmin | backend/internal/middleware/auth.go:103-105 | behind authentication, the admin gate passes exactly when the stored user is an admin |
| Auth.GetTokenFromContext | backend/internal/middleware/auth.go:144-151 | "" for a non-gin context or one without a token; otherwise the stored token |
| Auth.ContextCarriesRawToken | backend/internal/middleware/auth.go:104-106 | the token handed to the services is the raw bearer token of the header |
| DeployService.FindConfig | backend/internal/services/deploy_service.go:37 | the first configuration row of the pair, or none exactly when no row matches |
| DeployService.DecodeParams | backend/internal/services/deploy_service.go:46-52 | an empty column gives nil params, stored JSON decodes to its params, and undecodable text is a "failed to parse provider params" error |
| DeployService.GetDeployInfo | backend/internal/services/deploy_service.go:32-59 | no row: "deployment configuration not found"; no provider: "provider not found"; otherwise the provider's name and URL with the decoded params |
| DeployService.Deploy | backend/internal/services/deploy_service.go:62-115 | "image not found" or "provider not found" with nothing written; otherwise only the configurations change: the pair's row now holds the encoded params, one row is added exactly when the pair had none, other rows keep their place, and (with one row per pair before) the rows afterwards are exactly the new row and the other pairs' rows; the answer carries the provider's name, URL and the request's params |
| DeployService.Upsert | backend/internal/services/deploy_service.go:77-108 | the pair's first row is overwritten, or the row is appended when the pair has none |
| DeployService.UpsertIdempotent | backend/internal/services/deploy_service.go:77-108 | saving the same row twice equals saving it once |
| DeployService.DeployThenGetDeployInfo | backend/internal/services/deploy_service.go:77-114 | what Deploy stores, GetDeployInfo returns unchanged |
| DeployService.DeployIdempotent | backend/internal/services/deploy_service.go:77-108 | deploying the same request twice equals deploying it once |
| DeployService.DeployPreservesValid | backend/internal/services/deploy_service.go:77-108 | Deploy keeps one configuration per pair and the other invariants |
| Upload.Ext | backend/internal/utils/upload.go:44 | the extension is a suffix that starts with '.', holds no other dot and no separator |
| Upload.ExtEmptyMeansDotless | backend/internal/utils/upload.go:44 | no extension means the final path element has no dot |
| Upload.UploadFile | backend/internal/utils/upload.go:26-77 | succeeds exactly for files of at most 5 MiB with a jpeg, png or gif type; too large gives the size message; the path is subDir/date_uuid plus the extension |
| Upload.StoredPathKeepsExtension | backend/internal/utils/upload.go:43-76 | the stored path has the uploaded file's extension |
| Upload.GetFileURL | backend/internal/utils/upload.go:80-90 | "" stays "", absolute http(s) URLs are unchanged, other paths map under http://localhost:8080/uploads/ |
| Upload.GetFileURLIdempotent | backend/internal/utils/upload.go:80-90 | a URL from GetFileURL maps to itself |
| Upload.DeleteTarget | backend/internal/utils/upload.go:93-101 | deletion does nothing for "" and absolute URLs, and otherwise removes uploads/path |
| Upload.DeleteNoOpIffURLUnchanged | backend/internal/utils/upload.go:93-101 | a deletion does nothing exactly for the paths GetFileURL leaves unchanged |
| Upload.JoinClean | backend/internal/utils/upload.go:76 | joining two clean relative paths with '/' gives a clean path, one that `filepath.Join`'s cleaning leaves unchanged |
| Upload.StoredNameIsElement | backend/internal/utils/upload.go:45-49 | the stored name date_uuid.ext is a single path element that is neither empty, `.` nor `..` |
| Upload.StoredPathIsClean | backend/internal/utils/upload.go:43-76 | every path an upload returns under a clean subdirectory is clean |
| Upload.DeleteRemovesStoredFile | backend/internal/utils/upload.go:93-101 | deleting a stored avatar or readme path removes exactly uploads/path, a clean path, so the uncleaned join agrees with Go's |
| Upload.ReadmeMustBeImage | backend/internal/utils/upload.go:32-35 | a Markdown or plain-text readme is refused by the image type guard |
| ImagesPage.FilterImages | frontend/src/pages/Images.tsx:71-77 | an image is shown exactly when its name or description contains the search text ignoring case and it carries every selected tag; the result is an order-preserving subsequence |
| ImagesPage.NoFilterShowsAll | frontend/src/pages/Images.tsx:71-77 | empty search and no tags show every image in order |
| ImagesPage.MoreTagsShowFewer | frontend/src/pages/Images.tsx:74-75 | adding a selected tag never shows more images |
| ImagesPage.LongerSearchShowsFewer | frontend/src/pages/Images.tsx:72-73 | extending the search text never shows more images |
| ImagesPage.TagsMirrorServerLabels | frontend/src/pages/Images.tsx:74-75 | the client tag filter agrees with the server label filter, except that the server matches nothing when a tag is repeated |
| ImagesPage.AllTagOccurrences | frontend/src/pages/Images.tsx:60 | the flattened tags are exactly those of some image |
| ImagesPage.AllTags | frontend/src/pages/Images.tsx:59-61 | each tag of any image appears exactly once |
| UserState.IndexOf | frontend/src/services/userService.ts:10 | the first position of the callback, or -1 exactly when it is absent |
| UserState.Subscribe | frontend/src/services/userService.ts:7-8 | the callback is appended at the end |
| UserState.Unsubscribe | frontend/src/services/userService.ts:9-13 | removes the first registration of the callback only, or leaves the list unchanged when absent |
| UserState.SubscribeThenUnsubscribe | frontend/src/services/userService.ts:7-14 | subscribing a new callback and unsubscribing it restores the list |
| UserState.UnsubscribeDropsFirstOnly | frontend/src/services/userService.ts:9-13 | with a callback registered twice, the later registration survives |
| UserState.Notify | frontend/src/services/userService.ts:17-20 | every registered callback is called once with the user, in registration order |
| UserState.NotifyAfterSubscribe | frontend/src/services/userService.ts:7-20 | a new subscriber is called after all earlier ones |

## Left out

- File contents: UploadFile's directory creation and byte copy, and DeleteFile's removal, are not modelled; only paths are. Deleting the old readme or avatar before an upload is not modelled either.
- `filepath.Join`'s lexical cleaning in `UploadFile`: the subdirectory and the stored name it joins are clean (`Upload.StoredPathIsClean`), so cleaning changes nothing there.
- Upload.DeleteTarget: joins `uploads` and the path without cleaning. For a path that is not clean, such as "a/../b" or "x/", Go removes the cleaned path instead (uploads/b, uploads/x) and the model does not say so. Every path the services store comes from `UploadFile` and is clean, and for those the two agree (`Upload.DeleteRemovesStoredFile`).
- bcrypt and JWT: `hash`, `verify`, `mint` and `parse` are parameters, and token expiry (24 hours) is folded into `parse`. `mint` returns a token or an error, and its error text is passed on unchanged.
- Models.BeforeCreate: that a digest differs from its plaintext is a property of bcrypt, not of the hook, and is not modelled; the contract states only that the stored value is `hash` applied to the plaintext.
- Time-to-live of blacklist entries and cached listings: there is no clock. Timestamps are integers the caller supplies.
- Concurrency, including the non-atomic read-then-write of the star counter: operations run one at a time.
- Database errors other than key clashes (connection loss, statement failures) are not modelled, and neither are the messages of a failed transaction commit.
- JSON: a cached listing is stored as the response values. Deployment parameters are string maps, so nested JSON values are not modelled.
- `DeployService.DecodeParams`: the decoder's own error text is abstracted as "invalid JSON".
- `UserService.Logout`: a failed cache write returns a fixed "cache unavailable" message instead of the Redis client's error.
- `Strings.ToLower` folds ASCII letters only. PostgreSQL ILIKE and JavaScript `toLowerCase` fold all of Unicode.
- `Catalog.SearchMatches`: `%` and `_` in the search text are matched literally, not as LIKE wildcards.
- `Catalog.SortImages`: the database leaves the order of rows with equal sort keys unspecified. The model keeps ties in scan order.
- `Catalog.CacheKey`: label lists whose space-joined text is equal share a cache entry (`Catalog.CacheKeyCollision`). This is a limitation of the key format, and the model keeps the key as written.
- `ImageService.ListImages`: response labels are always empty, because the listing does not preload them.
- `ImageService.ListFavorites`: only the intended label filter is modelled. As written, its label clause names the same missing column as the general listing and would fail the same way. The join with the favourites table is modelled as a filter, which gives the same rows because favourites are never duplicated.
- `UserService.ListUsers`: the request's binding rules (page ≥ 1, size 1..100) are its precondition. Requests outside them never reach the service.
- UserService.ListUsers: the query has no `ORDER BY`, so PostgreSQL fixes neither which users a page holds nor that an update leaves them where they were. The model fixes insertion order, with updates keeping a row's place, so its pages are one admissible answer, not the only one; `UserService.ListUsersPagesCoverAll` is proved for whatever order a table's rows are kept in, so it holds for any order that stays fixed between requests.
- `Tables.Find`: `First` orders by primary key while the model takes the first match in scan order. They agree because the username and label-name lookups match at most one row under `Store.Valid`.
- `Paging.Offset`: a page number of 2^63 or more does not fit Go's `int` and is refused when the request is bound; the model's page numbers are unbounded, and such a page gets the wrapped offset like any other. `Paging.FirstPagesArePrefix`, `Paging.AllPagesCoverList`, `ImageService.EveryMatchOnOnePage` and `UserService.ListUsersPagesCoverAll` assume that no offset of the pages read wraps.
- Handler-level checks are not part of the services: the role check in backend/internal/api/handlers/user_handler.go:197-200, the username minimum of 3 and the email binding.
- A self role change is refused by no layer: neither the handler nor the service compares the admin with the target user, although the service test file expects the call to fail. The model follows the code (`UserService.SelfDemotionAllowed`).
- The test file also expects an unknown role to fail in the service. Only the handler refuses it; the service accepts it (`UserService.ServiceAcceptsUnknownRole`).
- The Provider and ImageProvider record definitions are not part of this model. Their fields follow their use in the deploy service.
- Routing, the HTTP status mapping of service errors, database and cache setup, migrations, and the rest of the web client.

## Findings

| source | as written | input that shows it | evidently intended | confidence | as-written member | corrected member |
|---|---|---|---|---|---|---|
| backend/internal/services/image_service.go:100-107 | the listing cache key leaves out the caller, and a cached page is returned with the `isStarred` flags computed for whoever filled the cache | image "i" favourited by user "u": "u" lists page 1, which gets cached; an anonymous caller then lists page 1 and sees "i" as favourited | every listing reports the current caller's favourite flags | high; not executed | ImageService.CachedStarLeaksExample | ImageService.ListImages |
| backend/internal/services/image_service.go:118-123 | the label filter reads `image_labels.label`, but the many-to-many join table has only `image_id` and `label_id`, so any label filter makes the query fail on a cache miss | a listing request with labels ["AI"] and no cached entry | keep the images linked to label rows with all the requested names | medium; not executed | ImageService.ListImagesAsWritten | Catalog.LabelsMatchIff |
