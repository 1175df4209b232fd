# TRAPIZZINO backend: spots, meshes and resonance in Dafny

TRAPIZZINO is a Go backend for sharing photo spots. Every spot lives in a mesh: a grid cell of
0.01 degree on each axis. The cell is written as an identifier `MSH-lllll-ggggg`. Users post
photos on spots. A user "resonates" with the users who have posted in the same meshes.

This project models the core of the backend:

- the validated value objects and the mesh quantizer;
- the `Spot`, `Post` and `User` entities;
- the PostgreSQL spot repository, read as operations on in-memory tables;
- the placeholder recommendation service;
- three use cases: register a spot with a post, list my spots, distill a recommendation;
- the bearer-header parsing and status mapping of three HTTP controllers.

Go's `(value, error)` pair is modelled in two ways:

- value objects return `Checked<T>`, which keeps the zero value that comes with an error;
- entities, use cases and repositories return `Result<T>`.

Modules, in dependency order:

- `Wrappers`: `Option`, `Result`, `Checked`, `Error`.
- `Text`: the parts of Go's `strings`, `fmt` and `len` that the core relies on:
  - byte length of a string;
  - zero-padded decimals;
  - `Split`, `HasPrefix`, `TrimPrefix`;
  - ASCII `ToLower`.
- `MeshIds`: the mesh quantizer, a decoder for its identifiers, and the cell lemmas.
- `ValueObjects`: every other `New*` validator, with the code's error messages.
- `Emails`: the e-mail validator as a recognizer of the pattern exactly as written, and a corrected one.
- `Entities`: `NewSpot`, `NewPost`, `NewUser`.
- `RecommendationService`: the implemented `RecommendSpot`.
- `SpotTables`: the meaning of each SQL statement of the spot repository, as functions on the `spots` and `posts` tables. This covers the mesh upsert, the update, the delete and the resonance `GROUP BY`, with lemmas about each.
- `SpotRepository`: the class `SpotStore`, whose fields are the tables, the id sequence and a connection fault. Readers loop over rows, and `Create`/`Update`/`Delete` change the tables. Every method is proved against `SpotTables`.
- `RegisterSpotPost`, `ListMySpots`, `DistillRecommendation`: the interactors. Injected repositories and services are functions from a request to its answer. Each `Execute` returns the requests it made, in order.
- `AuthHeader`: the two bearer-token readings used by the controllers, and where they disagree.
- `Controllers`: the distill, register and user-spot controllers, as functions from a request to a status and body.

## Model

| member | source | states |
|---|---|---|
| MeshIds.NewMeshID | app/src/domain/value_objects/mesh_id.go:12-30 | Latitude is checked before longitude. Each failure gives the empty mesh and its own message. An accepted mesh is 15 characters long and decodes to the floor of lat*100 and of lng*100. |
| MeshIds.MeshFormat | app/src/domain/value_objects/mesh_id.go:23-27 | An accepted mesh is "MSH-", five digits, "-", five digits. The fields are the offset keys: in [0, 18000] for latitude and [0, 36000] for longitude. |
| MeshIds.SameCellIffSameMesh | app/src/domain/value_objects/mesh_id.go:21-27 | Two valid coordinates get the same mesh if and only if both axes fall in the same 0.01-degree band. |
| MeshIds.EncodeRoundTrip | app/src/domain/value_objects/mesh_id.go:27 | `%05.0f` rendering of both offset keys is 15 characters long and decodes back to the keys. |
| MeshIds.Encode | app/src/domain/value_objects/mesh_id.go:27 | The `Sprintf` rendering of two offset fields starts with "MSH-" and is at least 15 characters long. Fields wider than five digits are not truncated. |
| MeshIds.Decode | app/src/domain/value_objects/mesh_id.go:27 | Reads an identifier of the rendered shape back into its two cell keys. A key read back lies in [-9000, 91000) for latitude and [-18000, 82000) for longitude. |
| MeshIds.CellKeyBounds | app/src/domain/value_objects/mesh_id.go:23-24 | A coordinate within ±bound has a key within ±100·bound, so the offsets make both fields non-negative. |
| MeshIds.SameCellExample | app/src/domain/value_objects/mesh_id.go:21-27 | Two points a few metres apart in one cell share a mesh. The next cell north gets a different one. |
| Text.ZeroPadRoundTrip | app/src/domain/value_objects/mesh_id.go:27 | Zero-padding a number below 10^width gives exactly width digits, and they parse back to the number. |
| Text.ZeroPad | app/src/domain/value_objects/mesh_id.go:27 | `%05.0f` of a whole non-negative number: at least width digits, which parse back to the number. |
| Text.DecimalRoundTrip | app/src/domain/value_objects/mesh_id.go:27 | The decimal rendering of a number parses back to it. |
| Text.ParseIgnoresLeadingZeros | app/src/domain/value_objects/mesh_id.go:27 | Leading zeros do not change the value parsed from a padded field. |
| Text.Utf8LenAtLeastRunes | app/src/domain/value_objects/hashed_password.go:8 | `len` counts bytes. It is never below the rune count, and it equals the rune count exactly for ASCII text. |
| Text.Split | app/src/adapter/controller/distill_recommendation_controller.go:28 | `strings.Split` gives one more piece than there are separators. No piece contains the separator, and joining the pieces gives back the string. |
| Text.SplitAtOnlySeparator | app/src/adapter/controller/user_spot_controller.go:29 | A string with a single separator splits into exactly the two parts around it. |
| Text.ToLower | app/src/adapter/controller/distill_recommendation_controller.go:29 | Lower-casing keeps the length and maps each rune by the ASCII rule. |
| Text.TrimPrefix | app/src/adapter/controller/register_spot_post_controller.go:26 | With the prefix present, prefix + result is the string. Without it, the string is unchanged. |
| Text.HasPrefix | app/src/adapter/controller/register_spot_post_controller.go:23 | `strings.HasPrefix` holds iff the string is the prefix followed by some rest. |
| ValueObjects.NewID | app/src/domain/value_objects/id.go:7-12 | Accepted iff the value is non-negative, and the value is kept. Otherwise the result is ID 0 with "ID must be non-negative". |
| ValueObjects.NewLatitude | app/src/domain/value_objects/latitude.go:7-12 | Accepted iff the value is in [-90, 90], and the value is kept. Otherwise 0 with "latitude out of range". |
| ValueObjects.NewLongitude | app/src/domain/value_objects/longitude.go:7-12 | Accepted iff the value is in [-180, 180], and the value is kept. Otherwise 0 with "longitude out of range". |
| ValueObjects.NewSpotName | app/src/domain/value_objects/spot_name.go:10-15 | Accepted iff the name has 1 to 64 runes. Otherwise "" with "spot name must be 1-64 chars". |
| ValueObjects.NewUsername | app/src/domain/value_objects/username.go:10-15 | Accepted iff the name has 3 to 32 runes. Otherwise "" with "username must be 3-32 chars". |
| ValueObjects.NewCaption | app/src/domain/value_objects/caption.go:10-15 | Accepted iff the caption has at most 256 runes, so the empty caption is accepted. Otherwise "caption must be <= 256 chars". |
| ValueObjects.NewReason | app/src/domain/value_objects/reason.go:7-12 | Accepted iff the reason is non-empty. Otherwise "reason cannot be empty". |
| ValueObjects.NewHashedPassword | app/src/domain/value_objects/hashed_password.go:7-12 | Accepted iff the UTF-8 byte length is at least 8. Otherwise "hashed password too short". |
| ValueObjects.NewPassword | app/src/domain/value_objects/password.go:11-16 | Accepted iff the UTF-8 byte length is at least 8. Otherwise "password must be at least 8 characters". |
| ValueObjects.SecretLengthInBytes | app/src/domain/value_objects/password.go:12 | Any text of at least 8 runes passes the byte bound. An ASCII text passes iff it has at least 8 runes. |
| ValueObjects.SecretOfThreeKana | app/src/domain/value_objects/hashed_password.go:8 | Three 3-byte runes pass the 8-byte bound although they are three runes, while seven ASCII runes fail it. |
| ValueObjects.NewDensityScore | app/src/domain/value_objects/density_score.go:8-13 | Accepted iff the value is non-negative, 0 included. Otherwise 0 with "density score cannot be negative". |
| ValueObjects.NewResonanceCount | app/src/domain/value_objects/resonance_count.go:7-12 | Accepted iff the value is non-negative. Otherwise 0 with "resonance count cannot be negative". |
| ValueObjects.NewTotalScore | app/src/domain/value_objects/total_score.go:8-17 | Accepted iff the value is non-negative, and `Float64` gives it back. Otherwise 0 with "total score cannot be negative". |
| ValueObjects.NewImageURL | app/src/domain/value_objects/image_url.go:10-16 | Accepted iff the URL parser accepts the text as absolute. Otherwise "" with "invalid image url". |
| Emails.MatchesEmailIff | app/src/domain/value_objects/email.go:10 | The recognizer accepts exactly the language of the pattern as written: local "@" domain, a literal backslash, one rune other than newline, then two or more ASCII letters. |
| Emails.NewEmail | app/src/domain/value_objects/email.go:12-17 | Accepted iff the text is in that language, and the text is kept. Otherwise "" with "invalid email format". |
| Emails.AcceptedHasBackslash | app/src/domain/value_objects/email.go:10 | Every accepted address contains a backslash. |
| Emails.RejectsMissingLocalPart | app/src/domain/value_objects/email.go:10 | A text without '@', or with nothing before its first '@', is rejected. |
| Emails.ConventionalAddressRejected | app/src/domain/value_objects/email.go:10 | "malloy@example.com" is rejected, and the same address with a backslash before the dot is accepted. |
| Emails.NewEmailIntended | app/src/domain/value_objects/email.go:10-17 | The corrected validator, with a literal dot before the top-level domain. It accepts iff the text has the shape local@domain.letters. |
| Emails.IntendedAcceptsConventional | app/src/domain/value_objects/email.go:10 | The corrected validator accepts every local@domain.tld built from the pattern's classes. |
| Emails.WrittenAndIntendedDisjoint | app/src/domain/value_objects/email.go:10 | No text is accepted by both the pattern as written and the corrected one. |
| Emails.IntendedAcceptsSignupAddress | app/src/usecase/user_signup_test.go:85-106 | The corrected validator accepts the address the sign-up tests expect to pass. |
| Entities.NewSpot | app/src/domain/entities/spot.go:15-43 | Checks run in order (id, name, latitude, longitude, mesh) and the first failure's error is returned. The spot is built iff all pass, and then keeps the inputs. Its mesh is the quantizer's cell of its coordinates. |
| Entities.SpotsShareMeshIffSameCell | app/src/domain/entities/spot.go:32-39 | Two spots that were built share a mesh iff their coordinates fall in the same cell. |
| Entities.NewPost | app/src/domain/entities/post.go:17-46 | Checks run in order (id, user id, username, image URL, caption) and the first failure's error is returned. The post is built iff all pass, and then keeps the inputs and the unchecked timestamp. |
| Entities.PostCaptionRule | app/src/domain/entities/post.go:34-37 | A post whose earlier fields pass fails on the caption iff the caption has more than 256 runes. |
| Entities.NewUser | app/src/domain/entities/user.go:14-37 | Checks run in order (id, username, e-mail, hashed password) and the first failure's error is returned. The e-mail check uses the corrected pattern. The user is built iff all pass, and then keeps the inputs. |
| Entities.SignupUserBuilds | app/src/usecase/user_signup_test.go:99 | The sign-up tests' user, with address "malloy@example.com", is built. |
| Entities.EmptyUsernameNeverBuilds | app/src/domain/entities/user.go:19-22 | A user or a post with an empty username is never built. |
| RecommendationService.RecommendSpot | app/src/infrastructure/domain_impl/services/recommendation_service_impl.go:16-21 | Never an error. No spot iff there are no candidates; otherwise the first candidate. |
| RecommendationService.RecommendationIgnoresUser | app/src/infrastructure/domain_impl/services/recommendation_service_impl.go:16 | The user plays no part in the answer. |
| RecommendationService.RecommendationIsHead | app/src/infrastructure/domain_impl/services/recommendation_service_impl.go:20 | Candidates after the first never change the answer. |
| SpotTables.Where | app/src/infrastructure/database/postgres/spot_repository.go:85 | A selection keeps exactly the rows that satisfy the condition, and never grows. |
| SpotTables.FirstWhere | app/src/infrastructure/database/postgres/spot_repository.go:26-36 | None iff no row satisfies the condition; otherwise the index of the first row that does. |
| SpotTables.UniqueMeshCount | app/src/infrastructure/database/postgres/spot_repository.go:50 | Under the unique index on mesh_id a mesh holds at most one row, and exactly one iff some row has it. |
| SpotTables.WhereKeepsUniqueMeshes | app/src/infrastructure/database/postgres/spot_repository.go:215 | Deleting rows keeps meshes unique. |
| SpotTables.WhereKeepsUniqueIDs | app/src/infrastructure/database/postgres/spot_repository.go:215 | Deleting rows keeps ids unique. |
| SpotTables.UpsertCases | app/src/infrastructure/database/postgres/spot_repository.go:48-52 | On a mesh conflict, the row holding the mesh takes the new name and location in place. It keeps its id and registered user, and that id is returned. Otherwise the spot is appended under the sequence's value, which is returned. |
| SpotTables.Merged | app/src/infrastructure/database/postgres/spot_repository.go:50-51 | `DO UPDATE SET name = EXCLUDED.name, location = EXCLUDED.location`: the merged row keeps its id, mesh and registered user, and takes the new name and coordinates. |
| SpotTables.Upserted | app/src/infrastructure/database/postgres/spot_repository.go:47-51 | The `spots` table after the upsert. With an existing row for the mesh, the length is kept. With none, the spot is appended under the sequence value. Rows of other meshes are unchanged. |
| SpotTables.UpsertedID | app/src/infrastructure/database/postgres/spot_repository.go:51 | `RETURNING id`: the id of the row already holding the mesh, or the sequence value when there is none. |
| SpotTables.UpsertKeepsIDs | app/src/infrastructure/database/postgres/spot_repository.go:48-52 | Every existing row keeps its id. The table grows by at most one row, and a new row carries the sequence's value. |
| SpotTables.UpsertKeepsOtherMeshes | app/src/infrastructure/database/postgres/spot_repository.go:50-51 | Rows of other meshes are neither added nor removed. |
| SpotTables.UpsertKeepsUniqueMeshes | app/src/infrastructure/database/postgres/spot_repository.go:48-52 | The upsert keeps the unique index on mesh_id. |
| SpotTables.UpsertMeshRow | app/src/infrastructure/database/postgres/spot_repository.go:50-52 | After the upsert some row holds the spot's mesh. Every such row carries the new name, the new location and the returned id. |
| SpotTables.UpsertLeavesOneRow | app/src/infrastructure/database/postgres/spot_repository.go:48-52 | After the upsert, meshes are still unique and exactly one row has the spot's mesh. That row carries the new name, the new location and the returned id. |
| SpotTables.UpsertKeepsMeshConsistent | app/src/infrastructure/database/postgres/spot_repository.go:48-52 | Suppose every stored mesh is the cell of its row's location, and the spot's mesh is its own cell. Then the same holds after the upsert. |
| SpotTables.RelocateKeepsKeys | app/src/infrastructure/database/postgres/spot_repository.go:208-212 | Update keeps every row's id, mesh and registered user, and so keeps both unique indexes. |
| SpotTables.Relocate | app/src/infrastructure/database/postgres/spot_repository.go:209 | `UPDATE ... WHERE id = $4`: rows with other ids are unchanged. The row with the id takes the new name and coordinates and keeps its mesh_id. |
| SpotTables.RelocateLeavesStaleMesh | app/src/infrastructure/database/postgres/spot_repository.go:209 | Moving a consistent row to another cell with Update leaves a mesh_id that is no longer the cell of its location. |
| SpotTables.GroupRowsSound | app/src/infrastructure/database/postgres/spot_repository.go:107-118 | Each group is a post author other than the requester, not already grouped, and carries its own positive count. |
| SpotTables.PostedMeshes | app/src/infrastructure/database/postgres/spot_repository.go:107-118 | The meshes a user has posted in (posts joined with spots). Each one is the mesh of a stored spot, and a user without posts has none. |
| SpotTables.MatchCount | app/src/infrastructure/database/postgres/spot_repository.go:107-118 | `COUNT(DISTINCT s.mesh_id)` over the requester's meshes. It is 0 when either user has no posts. |
| SpotTables.GroupRows | app/src/infrastructure/database/postgres/spot_repository.go:107-118 | One group per author, in order of first appearance, with no more groups than posts. No group is the requester or an author already seen, and every group has a positive count. |
| SpotTables.ResonantRows | app/src/infrastructure/database/postgres/spot_repository.go:107-118 | The query's result: no more rows than posts, none for the requester, and each with a positive count. |
| SpotTables.GroupRowsComplete | app/src/infrastructure/database/postgres/spot_repository.go:107-118 | Every author other than the requester, with a positive count, gets a group. |
| SpotTables.GroupRowsDistinct | app/src/infrastructure/database/postgres/spot_repository.go:118 | No user gets two groups. |
| SpotTables.ResonantRowsSpec | app/src/infrastructure/database/postgres/spot_repository.go:107-118 | The resonance query returns exactly the other users who share at least one mesh with the requester. Each appears once, with the number of distinct shared meshes. |
| SpotTables.MatchCountBounds | app/src/infrastructure/database/postgres/spot_repository.go:108-116 | A match count is at most the requester's number of meshes and at most the user's, and it is symmetric. |
| SpotTables.SilentUserResonatesWithNoOne | app/src/infrastructure/database/postgres/spot_repository.go:111-116 | A user without posts resonates with no one, and no one resonates with them. |
| SpotRepository.UpsertKeepsValid | app/src/infrastructure/database/postgres/spot_repository.go:47-52 | The upsert keeps unique meshes and ids, and the advanced sequence stays ahead of every id. |
| SpotRepository.ValidTables | app/src/infrastructure/database/postgres/spot_repository.go:47-51 | The table constraints the statements rely on: a unique mesh_id (the `ON CONFLICT` target), unique serial ids below the sequence, and authors with non-negative ids. Under them, the next sequence value is taken by no row. |
| SpotRepository.SpotStore.Valid | app/src/infrastructure/database/postgres/spot_repository.go:47-51 | The store's tables satisfy those constraints, so every stored id is positive and differs from the next sequence value. |
| SpotRepository.SpotStore.constructor | app/src/infrastructure/database/postgres/spot_repository.go:17-19 | `NewSpotRepository`: a repository over a database in the given state, which it keeps as is. |
| SpotRepository.DeleteKeepsValid | app/src/infrastructure/database/postgres/spot_repository.go:214-218 | Delete keeps unique meshes and ids. |
| SpotRepository.CandidateIff | app/src/infrastructure/database/postgres/spot_repository.go:139-140 | A row is selected iff its mesh is among the given meshes and its registered user among the given users. An empty list of either selects nothing. |
| SpotRepository.SpotStore.FindByLocation | app/src/infrastructure/database/postgres/spot_repository.go:22-44 | A fault is an error. No spot iff no row has the coordinate's mesh; otherwise a row of that mesh. An invalid coordinate is looked up under the empty mesh. |
| SpotRepository.SpotStore.FindByID | app/src/infrastructure/database/postgres/spot_repository.go:72-82 | A missing id is the "no rows" error, not an empty answer. Otherwise the row with that id. |
| SpotRepository.SpotStore.FindByMeshID | app/src/infrastructure/database/postgres/spot_repository.go:84-104 | The result is exactly the rows of the mesh, in table order, and at most one under the unique index. |
| SpotRepository.SpotStore.FindResonantUsersWithMatchCount | app/src/infrastructure/database/postgres/spot_repository.go:106-136 | One value per row of the resonance query, in row order, with the row's user id and count. |
| SpotRepository.SpotStore.ResonantUsersMeaning | app/src/infrastructure/database/postgres/spot_repository.go:106-136 | Each returned user is another user sharing at least one mesh, and the count is their number of shared meshes, between 1 and the requester's. Every such user is returned, once. |
| SpotRepository.SpotStore.FindSpotsByMeshAndUsers | app/src/infrastructure/database/postgres/spot_repository.go:138-169 | The mesh texts and user ids are copied into arrays. The result is exactly the rows that match both lists, in table order. |
| SpotRepository.SpotStore.GetDensityScoreByMesh | app/src/infrastructure/database/postgres/spot_repository.go:171-181 | The error is the fault, and the score is 0 on a fault. Otherwise the score is the mesh's row count, which is 0 or 1 under the unique index and 1 iff the mesh is occupied. |
| SpotRepository.SpotStore.FindPostsBySpot | app/src/infrastructure/database/postgres/spot_repository.go:183-206 | The result is exactly the posts on that spot, in table order. |
| SpotRepository.SpotStore.Create | app/src/infrastructure/database/postgres/spot_repository.go:47-68 | The table becomes the upsert of the spot. The sequence advances even on conflict. The spot comes back with the id of the row now holding its mesh, and the schema guarantees are kept. |
| SpotRepository.SpotStore.Update | app/src/infrastructure/database/postgres/spot_repository.go:208-212 | The table becomes the relocation of the row with that id. Nothing else changes. |
| SpotRepository.SpotStore.Delete | app/src/infrastructure/database/postgres/spot_repository.go:214-218 | The table keeps exactly the rows with another id. Nothing else changes. |
| RegisterSpotPost.Execute | app/src/usecase/register_spot_post.go:48-82 | An invalid spot fails before any request. A lookup error stops the run. An occupied mesh without overwrite is "spot already exists" and nothing is written. Otherwise the spot is written, then the user check fails, so the run fails with the spot written and no post. No run succeeds. |
| RegisterSpotPost.Candidate | app/src/usecase/register_spot_post.go:49 | `NewSpot(0, ...)` of the input succeeds iff the name has 1 to 64 runes and both coordinates are in range. The spot built has id 0, the given name, and the mesh of the coordinates' cell. |
| ListMySpots.Execute | app/src/usecase/list_my_spots.go:52-80 | Token, id and lookup errors propagate. The user's id is used as the spot id. No spot gives an empty listing with no post lookup. Otherwise one pair per post, in order, each with that spot. |
| DistillRecommendation.Candidates | app/src/usecase/distill_recommendation.go:51-54 | The candidate list is empty iff no spot was found. Otherwise it holds exactly that spot. |
| DistillRecommendation.Requester | app/src/usecase/distill_recommendation.go:50 | `&entities.User{ID: userID}`: the user carries the id, and no constructor would build it, because its other fields are empty. |
| DistillRecommendation.Execute | app/src/usecase/distill_recommendation.go:41-60 | A negative id fails before any request, and a lookup error stops the run. The service is asked about the found spot, or none, for a user with only the id set. Its answer is the result. |
| DistillRecommendation.WithImplementedService | app/src/usecase/distill_recommendation.go:51-59 | With the implemented service, the answer is exactly the spot stored under the user's id, or none. |
| AuthHeader.SplitBearer | app/src/adapter/controller/distill_recommendation_controller.go:28-32 | An accepted header is a six-letter scheme reading "bearer" in any case, one space, and the returned token, which has no space. |
| AuthHeader.SplitBearerAccepts | app/src/adapter/controller/user_spot_controller.go:29-33 | Conversely, such a header is accepted and the token returned. |
| AuthHeader.SplitBearerNeedsOneSpace | app/src/adapter/controller/distill_recommendation_controller.go:28-29 | `len(tokenParts) != 2`: a header with no space, or with more than one, is rejected whatever its scheme. |
| AuthHeader.PrefixBearer | app/src/adapter/controller/register_spot_post_controller.go:23-26 | Accepted iff the header starts with "Bearer " exactly; the token is the rest. |
| AuthHeader.PrefixBearerRoundTrip | app/src/adapter/controller/register_spot_post_controller.go:26 | Every token comes back from "Bearer " + token. |
| AuthHeader.BearerReadingsAgree | app/src/adapter/controller/register_spot_post_controller.go:23-26 | On "Bearer t" with no space in t, both readings return t. |
| AuthHeader.LowerCaseSchemeDisagrees | app/src/adapter/controller/distill_recommendation_controller.go:29 | "bearer x" passes the split reading but not the prefix reading. |
| AuthHeader.DoubleSpaceDisagrees | app/src/adapter/controller/distill_recommendation_controller.go:28-29 | "Bearer  x" fails the split reading. The prefix reading returns " x". |
| AuthHeader.SpacedTokenDisagrees | app/src/adapter/controller/register_spot_post_controller.go:26 | "Bearer a b" fails the split reading. The prefix reading returns "a b". |
| AuthHeader.EmptyTokenAccepted | app/src/adapter/controller/distill_recommendation_controller.go:32 | Both readings accept "Bearer " with the empty token, and both reject a bare "Bearer". |
| Controllers.DistillController | app/src/adapter/controller/distill_recommendation_controller.go:20-72 | 401 for a missing or malformed header, in that order. 400 for a missing parameter, then for an unparsable latitude, then for an unparsable longitude. After that, a use-case error is 401 with its message. No output is 404 with "No recommendation found in your resonance circle". An output is 200 with the output as the body, and only then is the status 200. |
| Controllers.DistillHeaderFirst | app/src/adapter/controller/distill_recommendation_controller.go:23-40 | A bad header is 401 whatever the query parameters. |
| Controllers.DistillSchemeAnyCase | app/src/adapter/controller/distill_recommendation_controller.go:29 | "BEARER t" and "bearer t" are answered alike. |
| Controllers.DistillAcceptsLowerCaseScheme | app/src/adapter/controller/distill_recommendation_controller.go:29-67 | "bearer t" reaches the use case, so an empty answer gives 404 with the no-recommendation message. |
| Controllers.RegisterController | app/src/adapter/controller/register_spot_post_controller.go:20-60 | 401 without the exact prefix. 400 when the body does not bind. 409 with the message on a use-case error, 200 with the output otherwise. |
| Controllers.RegisterRejectsLowerCaseScheme | app/src/adapter/controller/register_spot_post_controller.go:23-25 | "bearer t" is refused with 401. |
| Controllers.UserSpotController | app/src/adapter/controller/user_spot_controller.go:21-52 | 401 for a missing or malformed header. The second word is the token. 500 with the message on a use-case error, 200 with the output otherwise. |
| Controllers.UserSpotUnauthorizedIffBadHeader | app/src/adapter/controller/user_spot_controller.go:23-31 | 401 iff the header fails the split reading. |

## Left out

- Floating point is not modelled. Coordinates and scores are mathematical reals:
  - IEEE rounding of `lat*100` is left out. Go's float64 can floor into the neighbouring cell at a band edge, e.g. 0.29*100.
  - NaN passing the range checks is left out.
  - `strconv.ParseFloat` is a parameter of the distill controller.
- Text.ToLower: only ASCII upper-case letters are lowered, and every other rune is kept as it is. `strings.ToLower` also lowers non-ASCII letters. No non-ASCII rune lowers to one of b, e, a or r, so the comparison with "bearer" in AuthHeader.SplitBearer gives the same answer either way.
- Strings are sequences of code points, so invalid UTF-8 is not represented.
- Go's `int` is unbounded here. Ids and counts never come near 2^63 in this code.
- `url.ParseRequestURI` is not modelled. `NewImageURL` and `NewPost` take it as the predicate `isAbsoluteURL`.
- `Password.Hash` (SHA-256) is not modelled. Neither are the token service, the login and sign-up use cases, and the presenters.
- Process wiring, configuration and the database driver are not modelled: `sql.DB`, row scanning, `pq.Array`, PostGIS. `SpotStore.fault` stands for a failing connection.
- SpotRepository.SpotStore.FindByID (and the other readers): return table rows rather than entities. The repository calls a 5-argument `NewSpot` and a 7-argument `NewPost`, and those constructors are not part of this model. The entity constructors that are modelled take 4 and 6 arguments, and entities have no registered user.
- SpotRepository.SpotStore.FindResonantUsersWithMatchCount: the order of its rows is one admissible order (first appearance in `posts`). SQL leaves `GROUP BY` order unspecified.
- SpotRepository.SpotStore.Create: does not restate that stored meshes stay consistent with locations. That is the separate lemma `SpotTables.UpsertKeepsMeshConsistent`. The Go code also writes the new id into the caller's own spot value; here the updated spot is returned.
- RegisterSpotPost.Execute: the steps after the user check are not modelled: image URL, `NewPost`, `postRepo.Create` and the presenter. The user is built with an empty username, which `NewUser` always rejects, so those steps cannot run.
- RegisterSpotPost.Execute, ListMySpots.Execute, DistillRecommendation.Execute: repositories and services are functions of the request. Two identical requests therefore get the same answer, and a write does not change later answers.
- The use cases call the repository interface, not `SpotStore`. The interface returns entities, and its `FindByID` returns no spot where the PostgreSQL version returns the "no rows" error.
- Controllers.DistillController, Controllers.RegisterController: the request structs they build are given their own datatypes. Their fields (a token, coordinates) differ from those of the use-case inputs in this code, so the controllers take the use case as a parameter.
- Entities.NewUser: checks the e-mail with the corrected pattern, not the pattern as written (see Findings). Under the pattern as written, no user with a conventional address can be built.
- Request binding (`c.Bind`) is not modelled; its outcome is the optional body given to the register controller.

## Findings

| source | as written | input that shows it | evidently intended | confidence | as-written member | corrected member |
|---|---|---|---|---|---|---|
| app/src/domain/value_objects/email.go:10 | The raw string contains `\\.`. The regexp engine reads it as a literal backslash followed by any rune, so every accepted address needs a backslash. | "malloy@example.com" is rejected; it is the address the sign-up tests expect to pass. | `\.`: a literal dot before a top-level domain of two or more letters | high, not executed | Emails.ConventionalAddressRejected | Emails.IntendedAcceptsConventional |
