# Tourism backend: credentials, tokens and the rules around them

This project models the core of a NestJS tourism backend. The backend stores
tourists (users), their login credentials, regions, legends, myth stories,
event places, hotels, restaurants and reviews. The model covers these parts:

- **Account life cycle.** `AuthService` registers a user together with a
  credential. It also validates a login name and password, and issues and
  rotates access and refresh tokens. It changes passwords, and issues and
  redeems password-reset tokens, with a loop over every credential or with a
  direct lookup by user. `CredentialsRepository` stores the credentials.
- **The rules around the catalogue:**
  - the roles and admin route guards;
  - the rule that an event place is never linked to both a hotel and a restaurant;
  - the query-string page normaliser copied into three services;
  - the nearby-search radius clamp;
  - the rating rankings of hotels and restaurants;
  - the partial updates of every repository;
  - who may edit or delete a review, and a reviewed entity's average rating.

Each table is a sequence of rows in storage order. A lookup finds the first
matching row, as `findOne` does.

Repositories and services that change the store are classes whose methods
modify a `rows` field. Each such method is proved against a function of the
old rows. The auth flows are functions of the user and credential tables
(`RegisterStep`, `LoginStep`, …), and the `AuthService` methods are proved to
implement them. Properties that relate several calls are lemmas over those
functions, for example:

- registration then login succeeds;
- a reset token works only once when the reset is cleared as intended, while
  as written it keeps working until it expires;
- refresh accepts the token it just issued, but bcrypt reads only 72 bytes,
  so it also accepts every other token signed for the same user.

Where the code evidently does not do what it was meant to, the model has the
code as written and the evident intention side by side; "## Findings" lists
them, and the repositories and services use the intended version.

The module layout is:

| module | what it holds |
|---|---|
| `Common` | Optional values, the NestJS exceptions, JavaScript truthiness and the bcrypt model. |
| `Table` | First-match lookup, key uniqueness and row removal. |
| `Tokens` | Signed tokens: the claims JSON, base64url and the compact `header.claims.signature` text. |
| `Credentials` | The credentials table and its repository. |
| `Users` | The users table, its repository and `UsersService`. |
| `Auth` | The auth flows and `AuthService`. |
| `AuthProperties` | Lemmas that relate several auth flows. |
| `Guards` | The roles and admin guards. |
| `Paging` | `normalizePage`, TypeORM `skip`/`take` and the radius clamp. |
| `Ranking` | `ORDER BY` keys and a stable insertion sort. |
| `Queries` | Filter, order and page in one query; the nearby search. |
| `EventPlaces`, `Regions`, `Restaurants`, `Hotels`, `MythStories`, `Reviews` | One module per catalogue entity. |

## Model

| member | source | states |
|---|---|---|
| Common.Hash | backend/src/credentials/credentials.repository.ts:92 | The digest `bcrypt.hash` makes accepts the secret it was made from. |
| Common.MatchesOnlyOwnSecret | backend/src/auth/auth.service.ts:66 | For secrets of at most 72 UTF-8 bytes, `bcrypt.compare` against a stored hash succeeds exactly for the hashed secret. |
| Common.Utf8Injective | backend/src/credentials/credentials.repository.ts:92 | Different strings are sent to bcrypt as different UTF-8 bytes. |
| Common.LongSecretsMatchOnPrefix | backend/src/credentials/credentials.repository.ts:92 | bcrypt reads only 72 bytes: two secrets that share a prefix of at least 72 bytes accept each other's hashes, however they continue. |
| Common.MatchesOnCommonPrefix | backend/src/auth/auth.service.ts:89 | A hash accepts any text that begins with the same prefix as the hashed text, once that prefix is at least 72 bytes long in UTF-8. |
| Table.IndexOf | backend/src/credentials/credentials.repository.ts:49-56 | The position found holds the key. No earlier row holds it. None means no row holds it. This is `findOne`'s first match. |
| Table.Without | backend/src/credentials/credentials.repository.ts:84-87 | `repo.remove` leaves every other row, in order, and one row fewer. |
| Tokens.Sign | backend/src/auth/auth.service.ts:74-76 | A signed token carries exactly the payload. Its expiry is its issue time plus the lifetime. Its signature is the MAC of its header and claims. |
| Tokens.Base64UrlPrefix | backend/src/auth/auth.service.ts:74-76 | base64url encodes every three bytes as four characters, so byte strings that agree on their first 3k bytes are encoded alike up to character 4k. |
| Tokens.SigningInputsAgree | backend/src/auth/auth.service.ts:74-76 | Two tokens whose subject is the same and has at least 19 characters agree on the first 73 characters of their signing input. |
| Tokens.SameSubjectSameBcryptInput | backend/src/auth/auth.service.ts:74-82 | Two tokens whose subject has at least 19 characters (a user id has 36) agree on their first 72 bytes, so each is accepted by a bcrypt hash of the other, whatever their instants, e-mail, role or signature. |
| Credentials.NewCredential | backend/src/credentials/credentials.repository.ts:26-33 | A new credential stores a hash that accepts the given password. `isAdmin` is true only when the DTO says true, so it defaults to false. The credential is linked to the user id. No token field is set. |
| Credentials.WithPassword | backend/src/credentials/credentials.repository.ts:90-95 | Only the password hash changes, to one that accepts the new password. The account fields, refresh hash and reset fields are kept. |
| Credentials.WithResetToken | backend/src/credentials/credentials.repository.ts:98-103 | The reset hash and expiry are set together. Nothing else changes. |
| Credentials.WithoutResetTokenAsWritten | backend/src/credentials/credentials.repository.ts:106-111 | As written: both fields are assigned `undefined`, which `save` leaves out of the UPDATE, so the stored credential does not change. |
| Credentials.WithoutResetToken | backend/src/credentials/credentials.repository.ts:106-111 | As intended (assigning null): the reset hash and expiry are cleared together. Nothing else changes. |
| Credentials.WithRefreshHash | backend/src/credentials/credentials.repository.ts:114-118 | As intended: the stored refresh hash becomes exactly the given one, so null revokes it. Nothing else changes. |
| Credentials.WithRefreshHashAsWritten | backend/src/credentials/credentials.repository.ts:114-118 | As written (`refreshHash ?? undefined`): a given hash is stored; a null hash is not written, so the credential does not change. |
| Credentials.RefreshHashAsWrittenIgnoresNull | backend/src/credentials/credentials.repository.ts:114-118 | The written and intended updates agree exactly when a hash is given or no hash is stored. |
| Credentials.ApplyUpdate | backend/src/credentials/credentials.repository.ts:74-80 | The password is rehashed only when it is truthy. The name and admin flag change only when defined. The owner, reset fields and refresh fields are untouched. |
| Credentials.FindByUsername | backend/src/credentials/credentials.repository.ts:49-51 | The result is a stored credential with that login name. It is null exactly when no credential has that name. |
| Credentials.FindByUserId | backend/src/credentials/credentials.repository.ts:54-56 | The result is a stored credential owned by that user. It is null exactly when the user has no credential. |
| Credentials.UpdateKeepsNamesUnique | backend/src/credentials/credentials.repository.ts:69-78 | A rename that passes the duplicate check keeps login names unique. |
| Credentials.CredentialsRepository.CreateAndSave | backend/src/credentials/credentials.repository.ts:22-34 | A taken login name gives Conflict and saves nothing. A user that already has a credential violates the UNIQUE `id_user` column (backend/src/credentials/entities/credential.entity.ts:45-48), so the INSERT fails and nothing is saved. Otherwise exactly `NewCredential` is appended. Ids, owners and login names stay unique. |
| Credentials.CredentialsRepository.Insert | backend/src/auth/auth.service.ts:50-56 | The registration transaction's plain `save` appends the row, for a new id and a user without a credential; ids and owners stay unique. |
| Credentials.CredentialsRepository.FindAll | backend/src/credentials/credentials.repository.ts:37-39 | Returns every credential, in storage order. |
| Credentials.CredentialsRepository.FindByIdOrThrow | backend/src/credentials/credentials.repository.ts:42-46 | NotFound exactly when no credential has the id. Otherwise the result is that credential. |
| Credentials.CredentialsRepository.FindByUserIdOrThrow | backend/src/credentials/credentials.repository.ts:59-63 | NotFound exactly when `findByUserId` yields null. Otherwise its result. |
| Credentials.CredentialsRepository.UpdatePartial | backend/src/credentials/credentials.repository.ts:66-81 | NotFound for an unknown id comes first. Conflict is raised for a truthy new name held by another row. Otherwise only that row becomes `ApplyUpdate` of it. Login names stay unique. |
| Credentials.CredentialsRepository.RemoveById | backend/src/credentials/credentials.repository.ts:84-87 | NotFound for an unknown id, and nothing is removed. Otherwise exactly that row is removed. |
| Credentials.CredentialsRepository.ChangePassword | backend/src/credentials/credentials.repository.ts:90-95 | NotFound for an unknown id. Otherwise only that row's password hash changes. |
| Credentials.CredentialsRepository.SetResetToken | backend/src/credentials/credentials.repository.ts:98-103 | NotFound for an unknown id. Otherwise that row's reset hash and expiry are set together. |
| Credentials.CredentialsRepository.ClearResetToken | backend/src/credentials/credentials.repository.ts:106-111 | NotFound for an unknown id. Otherwise, with null assigned as intended, that row's reset hash and expiry are cleared together. |
| Credentials.CredentialsRepository.UpdateRefreshToken | backend/src/credentials/credentials.repository.ts:114-118 | NotFound for an unknown id. Otherwise, with null assigned as intended, that row's refresh hash becomes exactly the given one. |
| Users.NewUser | backend/src/users/users.repository.ts:20-32 | The new user carries every DTO field. `cuit` and `phone` are absent when not given. |
| Users.Merge | backend/src/users/users.repository.ts:59-64 | `Object.assign`: each defined DTO field overwrites its field. Every other field, and the id, stay. |
| Users.FindByEmail | backend/src/users/users.repository.ts:53-55 | The result is a stored user with that address. It is null exactly when no user has it. |
| Users.UpdateKeepsEmailsUnique | backend/src/users/users.service.ts:37-45 | An update that passes the e-mail clash check keeps e-mail addresses unique. |
| Users.UsersRepository.CreateAndSave | backend/src/users/users.repository.ts:20-32 | Appends exactly `NewUser`. |
| Users.UsersRepository.FindByIdOrThrow | backend/src/users/users.repository.ts:47-51 | NotFound exactly when no user has the id. |
| Users.UsersRepository.UpdatePartial | backend/src/users/users.repository.ts:57-66 | NotFound for an unknown id. Otherwise only that row becomes its merge with the DTO. |
| Users.UsersService.Create | backend/src/users/users.service.ts:23-27 | Conflict, with nothing created, when the address is in use. Otherwise the new user is appended. E-mail addresses stay unique. |
| Users.UsersService.FindOne | backend/src/users/users.service.ts:33-35 | NotFound exactly when no user has the id. |
| Users.UsersService.Update | backend/src/users/users.service.ts:37-46 | NotFound comes first. Conflict is raised when a truthy new address belongs to another user. Otherwise the merge is saved. E-mail addresses stay unique. |
| Auth.RegisterStep | backend/src/auth/auth.service.ts:21-60 | Conflict for a used e-mail is checked first, then for a taken login name. Success happens exactly when neither holds. It adds one user with the DTO's fields and one linked non-admin credential whose hash accepts the password. |
| Auth.ValidateUserStep | backend/src/auth/auth.service.ts:63-69 | The result is null for an unknown name. For a known name, a principal is returned exactly when the first credential with that name has a hash that accepts the password. The principal is the owner's id and e-mail plus the credential's admin flag. |
| Auth.LoginStep | backend/src/auth/auth.service.ts:72-83 | No user gives Unauthorized. Otherwise it returns 1-hour and 7-day tokens over `{sub, email, isAdmin}`. When the user has a credential, only its refresh hash changes. The new hash accepts the compact refresh token, and exactly the texts that agree with it on bcrypt's first 72 bytes. |
| Auth.StoredRefreshHolds | backend/src/auth/auth.service.ts:80-81 | After the hash of a token is stored on the user's credential, the stored hash accepts exactly the texts bcrypt cannot tell from that token. |
| Auth.RefreshStep | backend/src/auth/auth.service.ts:86-92 | NotFound when the user has no credential. Unauthorized unless the stored refresh hash accepts the presented compact token. Otherwise login is re-run for the credential's owner, so the new token's subject is the user. |
| Auth.ChangePasswordStep | backend/src/auth/auth.service.ts:95-101 | NotFound when the user has no credential. Unauthorized, with nothing changed, exactly when the current password does not match. Otherwise only the password hash changes, to one that accepts the new password. |
| Auth.GenerateResetTokenStep | backend/src/auth/auth.service.ts:104-110 | NotFound when the user has no credential. Otherwise it returns the raw token with `expiresInMinutes = 30`. Only the reset fields change: a hash that accepts the token, and an expiry 30 minutes after now. |
| Auth.ResetOptimizedCheck | backend/src/auth/auth.service.ts:135-144 | The checks before any write: confirmation mismatch first, then NotFound, then an absent or expired reset, then a token mismatch. Success happens exactly for an open reset whose hash accepts the token, and it names the user's credential. |
| Auth.ResetOptimizedAsWritten | backend/src/auth/auth.service.ts:135-146 | As written. The result is exactly the outcome of the checks, and an error changes nothing. On success only the credential's password changes, to one that accepts the new password; its reset hash and expiry stay stored. |
| Auth.ResetOptimizedStep | backend/src/auth/auth.service.ts:135-146 | With the reset cleared as intended. A confirmation mismatch is rejected first, then NotFound. Unauthorized when no reset is pending or its expiry is before now, then when the token does not match. Success happens exactly otherwise: the new password is set and both reset fields are cleared. An error changes nothing. |
| Auth.FirstRedeemable | backend/src/auth/auth.service.ts:118-121 | The first credential with a pending, unexpired reset whose hash accepts the token. None exactly when no credential qualifies. |
| Auth.ResetIterativeAsWritten | backend/src/auth/auth.service.ts:113-129 | As written. The result is that of the intended reset, and an error changes nothing. On success only the first redeemable credential's password changes, to one that accepts the new password; its reset stays stored. |
| Auth.ResetIterativeStep | backend/src/auth/auth.service.ts:113-129 | With the reset cleared as intended. A confirmation mismatch is rejected first. Success happens exactly when some credential's reset accepts the token strictly before its expiry. The first such credential gets the new password and has its reset cleared. Otherwise Unauthorized, and nothing changes. |
| Auth.RegisterKeepsConsistent | backend/src/auth/auth.service.ts:21-60 | Registration keeps the store consistent: keys unique, every credential owned by a stored user, reset fields paired. |
| Auth.LoginKeepsConsistent | backend/src/auth/auth.service.ts:72-83 | Login keeps the store consistent. |
| Auth.RefreshKeepsConsistent | backend/src/auth/auth.service.ts:86-92 | Refresh keeps the store consistent. |
| Auth.ChangePasswordKeepsConsistent | backend/src/auth/auth.service.ts:95-101 | A password change keeps the store consistent. |
| Auth.GenerateResetTokenKeepsConsistent | backend/src/auth/auth.service.ts:104-110 | Issuing a reset token keeps the store consistent. |
| Auth.ResetOptimizedKeepsConsistent | backend/src/auth/auth.service.ts:135-146 | The direct reset keeps the store consistent. |
| Auth.ResetIterativeKeepsConsistent | backend/src/auth/auth.service.ts:113-129 | The iterative reset keeps the store consistent. |
| Auth.AuthService.RegisterWithCredentials | backend/src/auth/auth.service.ts:21-60 | The new tables and the result are those of `RegisterStep`. |
| Auth.AuthService.ValidateUser | backend/src/auth/auth.service.ts:63-69 | The result is `ValidateUserStep` over the current tables. |
| Auth.AuthService.StoreRefreshHash | backend/src/auth/auth.service.ts:80-81 | `findByUserId` then `updateRefreshToken`: without a credential nothing changes. Otherwise only the user's credential gets the given refresh hash. The repository stays valid. |
| Auth.AuthService.Login | backend/src/auth/auth.service.ts:72-83 | The result and the new credentials are those of `LoginStep`. |
| Auth.AuthService.RefreshTokens | backend/src/auth/auth.service.ts:86-92 | The result and the new credentials are those of `RefreshStep`. |
| Auth.AuthService.ChangePassword | backend/src/auth/auth.service.ts:95-101 | The result and the new credentials are those of `ChangePasswordStep`. |
| Auth.AuthService.GenerateResetToken | backend/src/auth/auth.service.ts:104-110 | The result and the new credentials are those of `GenerateResetTokenStep`. |
| Auth.AuthService.Redeem | backend/src/auth/auth.service.ts:122-123 | `changePassword` then `clearResetToken`, with null assigned as intended, on one credential: only that row changes, to the new password with no reset pending. |
| Auth.AuthService.ResetPassword | backend/src/auth/auth.service.ts:113-129 | The loop over all credentials, with its early return, yields the result and the new credentials of `ResetIterativeStep` (the reset cleared as intended). |
| Auth.AuthService.ResetPasswordOptimized | backend/src/auth/auth.service.ts:135-146 | The result and the new credentials are those of `ResetOptimizedStep` (the reset cleared as intended). |
| AuthProperties.ValidateUserExact | backend/src/auth/auth.service.ts:63-69 | With unique login names, a stored credential's name validates with a password exactly when its hash accepts that password. |
| AuthProperties.SecretsUpdateKeepsLookups | backend/src/credentials/credentials.repository.ts:90-118 | Rewriting a credential's secrets changes no lookup by owner or by login name. |
| AuthProperties.RegisterThenValidate | backend/src/auth/auth.service.ts:21-69 | After a registration, the new login name validates with the registered password, as the new non-admin user. |
| AuthProperties.ChangePasswordThenValidate | backend/src/auth/auth.service.ts:63-101 | After a successful change, the login name validates with the new password. It validates with the old one exactly when the two agree on bcrypt's first 72 bytes, so never when they differ and both fit in 72 bytes. |
| AuthProperties.ResetTokenSingleUse | backend/src/auth/auth.service.ts:135-146 | With the reset cleared as intended, once a direct reset succeeds, every later direct reset for that user fails, whatever token it presents. |
| AuthProperties.IterativeResetSingleUse | backend/src/auth/auth.service.ts:113-129 | With the reset cleared as intended, after a successful iterative reset, the same token succeeds again only through another credential that also accepts it. |
| AuthProperties.ResetTokenReusableAsWritten | backend/src/credentials/credentials.repository.ts:106-111 | As written, after a successful direct reset, the same token sets yet another password at any instant up to its expiry. |
| AuthProperties.IterativeResetReusableAsWritten | backend/src/auth/auth.service.ts:113-129 | As written, after a successful iterative reset, the same token succeeds again at any instant before its expiry. |
| AuthProperties.IssuedTokenResetsPassword | backend/src/auth/auth.service.ts:104-146 | An issued token presented no later than its expiry resets the password, and the name then validates with the new one. Presented later, it is rejected. |
| AuthProperties.ExpiryBoundary | backend/src/auth/auth.service.ts:119 | At the exact expiry instant the direct reset accepts a fresh token and the iterative reset rejects it. One millisecond earlier, both accept it. |
| AuthProperties.LoginThenRefresh | backend/src/auth/auth.service.ts:72-92 | Logging in a validated user and then refreshing with the compact refresh token just issued succeeds. |
| AuthProperties.RefreshRotates | backend/src/auth/auth.service.ts:86-92 | The token a refresh issues is accepted next time. Any other text is accepted exactly when it agrees with the new token on bcrypt's first 72 bytes. |
| AuthProperties.RefreshOkIffHolds | backend/src/auth/auth.service.ts:86-92 | A refresh succeeds exactly when the stored hash accepts the presented text. |
| AuthProperties.LoginKeepsLinked | backend/src/auth/auth.service.ts:72-83 | Login changes only a refresh hash, so every credential stays linked to a stored user. |
| AuthProperties.RefreshAcceptsAnyTokenOfTheUser | backend/src/auth/auth.service.ts:72-92 | After a login, a refresh accepts every token ever signed for that user id (of at least 19 characters): older refresh tokens, and the access token issued with the new refresh token. |
| Guards.RolesCanActivate | backend/src/auth/guards/roles.guard.ts:9-28 | Allow when no roles, or an empty list, are required. Deny when roles are required and no user is present. When 'admin' is required, allow exactly administrators. For any other roles, allow any user. |
| Guards.AdminCanActivate | backend/src/auth/guards/admin.guard.ts:5-12 | True exactly for a present administrator. Forbidden otherwise. It never answers false. |
| Guards.AdminGuardMatchesAdminRole | backend/src/auth/guards/admin.guard.ts:8-11 | The admin guard admits exactly what the roles guard admits for `@Roles('admin')`. Where the roles guard denies, the admin guard throws Forbidden. |
| Guards.OnlyAdminRoleMatters | backend/src/auth/guards/roles.guard.ts:22-27 | Roles beside 'admin' change nothing. Without 'admin', only authentication counts. |
| Paging.JsFloor | backend/src/users/users.service.ts:18-19 | `Math.floor` of a finite number is the greatest integer not above it. Infinities and NaN are returned as they are. |
| Paging.JsMin | backend/src/users/users.service.ts:19 | `Math.min(n, 100)`: NaN stays NaN, and a finite result is at most the bound. |
| Paging.NormalizePageAsWritten | backend/src/users/users.service.ts:13-21 | No options give no page. Skip is kept exactly when it is numeric and ≥ 0. Take is kept exactly when it is numeric and > 0. A kept take is finite and lies in [0, 100]. |
| Paging.NormalizePage | backend/src/users/users.service.ts:13-21 | The intended normaliser. Skip is kept exactly for a finite input ≥ 0, as its floor. Take is kept exactly for an input > 0, and is at most 100; an input of at least 1 gives a take of at least 1. |
| Paging.NormalizePageAgreement | backend/src/users/users.service.ts:13-21 | The written and intended normalisers agree exactly when skip is not +Infinity. |
| Paging.InfiniteSkipSurvives | backend/src/users/users.service.ts:18 | `skip=Infinity` survives the written normaliser as an infinite offset. The intended one drops it. |
| Paging.IntegerInputsAgree | backend/src/regions/regions.service.ts:14-22 | On integer inputs the two normalisers coincide. |
| Paging.NormalizePageIdempotent | backend/src/restaurants/restaurants.service.ts:14-22 | Normalising a normalised page selects the same rows. |
| Paging.Start | backend/src/regions/regions.repository.ts:74 | The page starts `skip` rows in, or at the end of the rows. |
| Paging.Paginate | backend/src/regions/regions.repository.ts:74-75 | The page is a contiguous run of the rows starting at the offset. Its length is `min(take, rest)`, and a take of 0 or none sets no limit. |
| Paging.ApplyPage | backend/src/restaurants/restaurants.repository.ts:71-72 | Without options the rows are unchanged. With options, `skip`/`take` are applied. |
| Paging.ConsecutivePages | backend/src/regions/regions.repository.ts:74-75 | A page followed by everything after it is everything from the page's start. |
| Paging.PageBounded | backend/src/users/users.service.ts:19 | A requested page size of at least one yields at most 100 rows. |
| Paging.ClampRadius | backend/src/regions/regions.repository.ts:56 | The radius is always in [1, 500]. An absent radius becomes 50. A radius in range is unchanged, and values below or above the range clamp to its ends. |
| Paging.ClampRadiusIdempotent | backend/src/restaurants/restaurants.repository.ts:54 | Clamping a clamped radius changes nothing. |
| Ranking.StrLeqTotal | backend/src/restaurants/restaurants.repository.ts:103 | `ORDER BY name` compares any two names. |
| Ranking.StrLeqTrans | backend/src/restaurants/restaurants.repository.ts:103 | The name order is transitive. |
| Ranking.KeyLeqTotal | backend/src/restaurants/restaurants.repository.ts:102-103 | The order by rating, then name, compares any two rows. |
| Ranking.KeyLeqTrans | backend/src/restaurants/restaurants.repository.ts:102-103 | The order by rating, then name, is transitive. |
| Ranking.Insert | backend/src/restaurants/restaurants.repository.ts:102-103 | Inserting into an ordered sequence keeps it ordered and adds exactly that row. |
| Ranking.SortBy | backend/src/hotels/hotels.repository.ts:69 | `ORDER BY` yields an ordered permutation of the rows. |
| Ranking.SortByLength | backend/src/hotels/hotels.repository.ts:69 | Ordering keeps the number of rows. |
| Queries.Keep | backend/src/restaurants/restaurants.repository.ts:98-101 | `WHERE` keeps each qualifying row as often as it is stored, and no other row. |
| Queries.PageOfSorted | backend/src/restaurants/restaurants.repository.ts:103-106 | A page of an ordered result is ordered. |
| Queries.Select | backend/src/restaurants/restaurants.repository.ts:97-109 | The query returns only stored rows that satisfy the filter, in key order. Unpaged, it returns all of them. It returns at most `take` rows. |
| Queries.Nearby | backend/src/regions/regions.repository.ts:55-78 | Only stored rows within the clamped radius, so never beyond 500 km, nearest first. Unpaged, all of them. At most `take` rows. |
| EventPlaces.Link | backend/src/event-places/event-places.repository.ts:35-36 | A link exists exactly for a truthy id, and it is that id. |
| EventPlaces.ValidateExclusive | backend/src/event-places/validators/hotel-restaurant-exclusive.validator.ts:5-9 | Invalid exactly when the object exists and both ids are truthy. |
| EventPlaces.ValidateExclusiveCases | backend/src/event-places/validators/hotel-restaurant-exclusive.validator.ts:5-9 | Case by case: both truthy is invalid. One id, neither, an empty id or a missing object is valid. The decorated value is ignored. |
| EventPlaces.NewPlace | backend/src/event-places/event-places.repository.ts:27-37 | The new place carries every DTO field. Region and legend are always linked; hotel and restaurant only for a truthy id. A DTO that passes the validator gives an exclusive place. |
| EventPlaces.MergePlaceAsWritten | backend/src/event-places/event-places.repository.ts:66-75 | As written: the intended merge, except that a given null or empty hotel or restaurant id assigns `undefined`, which `save` does not write, so the old link stays. |
| EventPlaces.MergePlace | backend/src/event-places/event-places.repository.ts:66-75 | As intended. Each defined DTO field overwrites its field. A given hotel or restaurant id links exactly when truthy; a given null or empty id clears the link. The id stays. |
| EventPlaces.MergesDifferOnFalsyIds | backend/src/event-places/event-places.repository.ts:74-75 | The written and intended merges differ exactly when a null or empty id is given for a link the place has. |
| EventPlaces.UpdateAsWritten | backend/src/event-places/event-places.repository.ts:62-75 | BadRequest exactly when both DTO ids are truthy. Otherwise the written merge. |
| EventPlaces.UpdateAsWrittenLinksBoth | backend/src/event-places/event-places.repository.ts:62-75 | A place linked to a hotel, updated with only a restaurant id, passes the check and ends up linked to both. |
| EventPlaces.NullIdKeepsLinkAsWritten | backend/src/event-places/event-places.repository.ts:62-75 | As written, `{ hotelId: null, restaurantId: R }` on a place linked only to a hotel keeps the hotel and adds R, linking both. The intended update unlinks the hotel and links only R. |
| EventPlaces.UpdateChecked | backend/src/event-places/event-places.repository.ts:59-78 | BadRequest exactly when the merged place would link both. Otherwise the merge, which is exclusive. |
| EventPlaces.UpdateCheckedRefinesAsWritten | backend/src/event-places/event-places.repository.ts:62-64 | The corrected update rejects everything the written one rejects. For a DTO without null or empty ids, it differs only where the written one links both. |
| EventPlaces.UpdatesAgreeOnUnlinkedPlace | backend/src/event-places/event-places.repository.ts:62-64 | On a place with neither link, checking the DTO alone is enough: both updates agree. |
| EventPlaces.EventPlacesRepository.CreateAndSave | backend/src/event-places/event-places.repository.ts:22-39 | BadRequest, with nothing saved, when both ids are truthy. Otherwise `NewPlace` is appended, and every place stays exclusive. |
| EventPlaces.EventPlacesRepository.FindByIdOrThrow | backend/src/event-places/event-places.repository.ts:52-56 | NotFound exactly when no place has the id. |
| EventPlaces.EventPlacesRepository.UpdatePartial | backend/src/event-places/event-places.repository.ts:59-78 | As intended (Findings rows 2 and 5): NotFound comes first. Otherwise the result is `UpdateChecked` of the stored place, saved only on success. Every place stays exclusive. |
| EventPlaces.EventPlacesRepository.RemoveById | backend/src/event-places/event-places.repository.ts:81-84 | NotFound for an unknown id. Otherwise exactly that row is removed. |
| Regions.NewRegion | backend/src/regions/regions.repository.ts:21-31 | The new region carries the DTO fields. A legend is linked exactly for a truthy id. |
| Regions.MergeRegion | backend/src/regions/regions.repository.ts:103-111 | Defined fields overwrite and the id stays. An absent legend id keeps the legend. A `null` or empty legend id unlinks it, and a truthy one links exactly that legend. |
| Regions.NullLegendUnlinks | backend/src/regions/regions.repository.ts:107-108 | A `null` legend id, the unlink a validated request can carry, drops a linked legend, and a later update without a legend id keeps it dropped. A truthy id replaces the legend. |
| Regions.LegendLinkAgreesWithCreate | backend/src/regions/regions.repository.ts:28-109 | An empty update leaves a created region as it was. Updating the legend id links what creating with it would link. |
| Regions.RegionsRepository.CreateAndSave | backend/src/regions/regions.repository.ts:21-31 | Appends exactly `NewRegion`. |
| Regions.RegionsRepository.FindByIdOrThrow | backend/src/regions/regions.repository.ts:48-52 | NotFound exactly when no region has the id. |
| Regions.RegionsRepository.FindNearby | backend/src/regions/regions.repository.ts:55-78 | The nearby search: only regions within the clamped radius, nearest first, paged only when options are given. |
| Regions.RegionsRepository.UpdatePartial | backend/src/regions/regions.repository.ts:103-111 | NotFound for an unknown id. Otherwise only that row becomes `MergeRegion` of it. |
| Regions.RegionsRepository.RemoveById | backend/src/regions/regions.repository.ts:114-117 | NotFound for an unknown id. Otherwise exactly that row is removed. |
| Regions.RegionsService.FindByCoordinates | backend/src/regions/regions.service.ts:36-38 | The nearby search with the normalised page. A requested take of at least one yields at most 100 regions. |
| Restaurants.MergeRestaurant | backend/src/restaurants/restaurants.repository.ts:111-115 | Each defined DTO field overwrites its field. The rest, and the id, stay. |
| Restaurants.ByMinRating | backend/src/restaurants/restaurants.repository.ts:97-109 | Only rated restaurants with rating ≥ min, by rating descending, then name ascending. Unpaged, every such restaurant. At most `take` rows. |
| Restaurants.RatingThenNameOrder | backend/src/restaurants/restaurants.repository.ts:102-103 | The sort key orders by rating descending, then name ascending. |
| Restaurants.UnratedNeverRanked | backend/src/restaurants/restaurants.repository.ts:99 | A restaurant without a rating is never ranked. |
| Restaurants.RestaurantsRepository.FindByIdOrThrow | backend/src/restaurants/restaurants.repository.ts:47-51 | NotFound exactly when no restaurant has the id. |
| Restaurants.RestaurantsRepository.FindNearby | backend/src/restaurants/restaurants.repository.ts:53-75 | Only restaurants within the clamped radius, nearest first, paged only when options are given. |
| Restaurants.RestaurantsRepository.FindByMinRating | backend/src/restaurants/restaurants.repository.ts:97-109 | Only rated restaurants at or above the minimum, in ranking order. |
| Restaurants.RestaurantsRepository.UpdatePartial | backend/src/restaurants/restaurants.repository.ts:111-115 | NotFound for an unknown id. Otherwise only that row becomes `MergeRestaurant` of it. |
| Restaurants.RestaurantsRepository.RemoveById | backend/src/restaurants/restaurants.repository.ts:117-120 | NotFound for an unknown id. Otherwise exactly that row is removed. |
| Restaurants.RestaurantsService.FindNearby | backend/src/restaurants/restaurants.service.ts:36-38 | The nearby search with the normalised page. At most 100 rows for a take of at least one. |
| Restaurants.RestaurantsService.FindByMinRating | backend/src/restaurants/restaurants.service.ts:48-50 | The ranking with the normalised page. At most 100 rows for a take of at least one. |
| Hotels.MergeHotel | backend/src/hotels/hotels.repository.ts:44-56 | Each field guarded by `!== undefined` changes exactly when defined. The id stays. |
| Hotels.MergeHotelIdempotent | backend/src/hotels/hotels.service.ts:43-55 | An update with no defined field changes nothing. Applying an update twice is applying it once. |
| Hotels.ByRating | backend/src/hotels/hotels.repository.ts:65-71 | As intended, for any bound `ParseFloatPipe` yields: only hotels rated at least the bound, by non-increasing rating, each as often as it is stored. |
| Hotels.ByRatingAsWritten | backend/src/hotels/hotels.repository.ts:65-71 | As written: the bound is sent as the `int` column's parameter, so the query fails exactly for a bound that is not a whole 32-bit number. Otherwise the intended filter. |
| Hotels.FractionalBoundFailsAsWritten | backend/src/hotels/hotels.repository.ts:65-71 | `minRating=3.5` fails as written, though the intended filter returns a hotel rated 4. |
| Hotels.HotelsRepository.FindByIdOrThrow | backend/src/hotels/hotels.repository.ts:37-41 | NotFound exactly when no hotel has the id. |
| Hotels.HotelsRepository.UpdatePartial | backend/src/hotels/hotels.repository.ts:44-56 | NotFound for an unknown id, with nothing changed. Otherwise only that row becomes `MergeHotel` of it. |
| Hotels.HotelsRepository.RemoveById | backend/src/hotels/hotels.repository.ts:59-62 | NotFound for an unknown id, with nothing removed. Otherwise exactly that row is removed. |
| Hotels.HotelsRepository.FindByRating | backend/src/hotels/hotels.repository.ts:65-71 | As intended (Findings row 6): Returns `ByRating` over the stored hotels, for a bound with or without a fraction. |
| Hotels.HotelsService.FindOne | backend/src/hotels/hotels.service.ts:34-38 | NotFound exactly when no hotel has the id. |
| Hotels.HotelsService.Update | backend/src/hotels/hotels.service.ts:43-55 | NotFound for an unknown id, with nothing changed. Otherwise exactly the defined fields change. |
| Hotels.HotelsService.Remove | backend/src/hotels/hotels.service.ts:60-63 | NotFound for an unknown id, with nothing removed. Otherwise exactly that row is removed. |
| Hotels.HotelsService.FindByRating | backend/src/hotels/hotels.service.ts:69-75 | As intended (Findings row 6): Only hotels rated at least the bound, best first, for a bound with or without a fraction. |
| MythStories.NewStory | backend/src/myth-stories/myth-stories.repository.ts:21-30 | The new story carries the DTO fields. It is linked to the DTO's region and to the calling user. |
| MythStories.MergeStory | backend/src/myth-stories/myth-stories.repository.ts:50-57 | Only title, content, image and region change, each only when defined. The author and the id stay. |
| MythStories.AuthorSurvivesUpdates | backend/src/myth-stories/myth-stories.repository.ts:50-57 | After any run of updates, a story keeps its author and id. |
| MythStories.MythStoriesRepository.CreateAndSave | backend/src/myth-stories/myth-stories.repository.ts:21-30 | Appends exactly `NewStory` for the calling user. |
| MythStories.MythStoriesRepository.FindByIdOrThrow | backend/src/myth-stories/myth-stories.repository.ts:43-47 | NotFound exactly when no story has the id. |
| MythStories.MythStoriesRepository.UpdatePartial | backend/src/myth-stories/myth-stories.repository.ts:50-57 | NotFound for an unknown id. Otherwise only that row becomes `MergeStory` of it. |
| MythStories.MythStoriesRepository.RemoveById | backend/src/myth-stories/myth-stories.repository.ts:60-63 | NotFound for an unknown id. Otherwise exactly that row is removed. |
| Reviews.ParseEntityType | backend/src/reviews/reviews.service.ts:50 | A string is accepted exactly when it is one of the enum's values, as that value. |
| Reviews.EntityTypeRoundTrip | backend/src/reviews/entities/review.entity.ts:10-14 | Every enum value parses back to itself. |
| Reviews.ParseUuid | backend/src/reviews/entities/review.entity.ts:40-41 | PostgreSQL's `uuid` input: an accepted text yields a canonical 36-character lower-case hyphenated uuid. |
| Reviews.HexPairsOfHyphenated | backend/src/reviews/entities/review.entity.ts:40-41 | Reading back hex pairs written with the canonical hyphens gives the same digits. |
| Reviews.CanonicalUuidParsesToItself | backend/src/reviews/entities/review.entity.ts:40-41 | The canonical text of a uuid parses as itself. |
| Reviews.ParseUuidIdempotent | backend/src/reviews/entities/review.entity.ts:40-41 | Parsing the canonical text of a parsed uuid gives the same uuid. |
| Reviews.NameIsNotUuid | backend/src/reviews/entities/review.entity.ts:40-41 | A plain name such as `h1` is not a uuid. |
| Reviews.MergeReview | backend/src/reviews/reviews.service.ts:37 | `Object.assign`: each defined DTO field overwrites its field. The id and the author stay. |
| Reviews.EditImpliesRemove | backend/src/reviews/reviews.service.ts:35-44 | Whoever may edit a review may delete it. An administrator may delete every review. Nobody else may delete. |
| Reviews.SumWithinBounds | backend/src/reviews/reviews.repository.ts:74-83 | With ratings in [0, 5], the rating total lies between 0 and 5 times the count. |
| Reviews.AverageWithinBounds | backend/src/reviews/reviews.repository.ts:74-83 | With ratings in [0, 5], the average lies in [0, 5]. |
| Reviews.AverageIgnoresOthers | backend/src/reviews/reviews.repository.ts:74-83 | Reviews of other entities do not move an entity's average. |
| Reviews.CountSumAppend | backend/src/reviews/reviews.repository.ts:74-83 | A new review adds one to the count, and its rating to the total, exactly when it is about the entity. |
| Reviews.ReviewsRepository.FindByIdOrThrow | backend/src/reviews/reviews.repository.ts:33-37 | NotFound exactly when no review has the id. |
| Reviews.ReviewsRepository.Save | backend/src/reviews/reviews.repository.ts:58-60 | Overwrites the row with the same id, or appends. |
| Reviews.ReviewsRepository.Remove | backend/src/reviews/reviews.repository.ts:63-65 | Removes exactly the row with the review's id. |
| Reviews.ReviewsService.Update | backend/src/reviews/reviews.service.ts:32-39 | NotFound comes first. Forbidden, with nothing saved, for anyone but the author. Otherwise the merge is saved. |
| Reviews.ReviewsService.Remove | backend/src/reviews/reviews.service.ts:41-47 | NotFound comes first. Forbidden, with the review kept, unless the caller is an administrator or the author. Otherwise the review is removed. |
| Reviews.ReviewsService.GetAverageRating | backend/src/reviews/reviews.service.ts:49-54 | BadRequest exactly for a type outside the enum. Otherwise, an entity id that is not valid uuid input makes the query fail (backend/src/reviews/entities/review.entity.ts:40-41). Otherwise the average rating of the reviews about the id's canonical form, and 0 when there are none. |

## Left out

- Password hashing and token signing. bcrypt is a digest of the first 72 UTF-8 bytes of its input: a hash accepts every text with those bytes. Its salt and cost are not modelled. The HMAC-SHA256 of a token is a function parameter `mac`, so the signing secret is not modelled.
- Common.MatchesOnlyOwnSecret: the exact-match promise is stated for secrets of at most 72 UTF-8 bytes only, because longer secrets sharing 72 bytes match (Common.LongSecretsMatchOnPrefix).
- Strings are sequences of Unicode scalar values. JavaScript's UTF-16 code units, and the replacement of a lone surrogate when Node encodes it, are not modelled.
- Credentials.CredentialsRepository.CreateAndSave: the `id_user` foreign key is not checked, so a credential for an unknown user is not refused; only the UNIQUE owner column is modelled.
- Fresh identifiers. `crypto.randomUUID` and the ids the database generates are parameters (`raw`, `freshId`), required to be unused.
- Time. `Date.now()` and `new Date()` are an integer `nowMs` or `iat` parameter.
- Geographic distance. The SQL `acos` distance and the Haversine filter are a `distanceKm` function parameter. Only the radius clamp, the radius filter, the nearest-first order and the paging are modelled.
- Transactions and concurrency. Each operation is one atomic step, so the registration transaction's rollback and the races between load and save are not modelled.
- Framework plumbing. Controllers, pipes, modules, Passport strategies, class-validator DTO decorators and the database seed are not modelled. The query values reach `normalizePage` as the numbers `Number(...)` makes of them, so string parsing is not modelled. The radius always arrives through `ParseFloatPipe` as a finite number, because the pipe refuses a missing value with 400 before the controller's `= 50` default applies. `Paging.ClampRadius` also models the `?? 50` default, which only a direct service call can reach.
- Listing and search order. `findAll`, `searchByName`, `findByLegend`, `findByCategory`, `findByType`, `findByRegion` and `searchByTitle` are not modelled, nor is the users `findAll` beyond `normalizePage`. Their order is the database collation's, which the model cannot state. Where names are ordered (`ByMinRating`), names compare by character code; the database may use another collation. Rows with equal sort keys keep storage order.
- Paging.Paginate: a `take` of 0 (a page size in (0, 1) floored) is read as no limit, since TypeORM ignores a falsy `take`. No row count is promised for it.
- Relations are ids. A linked entity is the `Option` of its id; whether the related row exists is not modelled. A JSON `null` in an update DTO is treated like an absent field, except for an event place's hotel and restaurant ids and a region's legend id, where `null` is modelled.
- Auth.RegisterStep: the Conflict branch at backend/src/auth/auth.service.ts:46, for a user that cannot be read back, cannot be reached once the user was just inserted, so it is left out. The birth date is kept as given, without `new Date(...)`.
- Auth.GenerateResetTokenStep: the Unauthorized branch at backend/src/auth/auth.service.ts:106 cannot be reached after `findByUserIdOrThrow`, so it is left out.
- Auth.ResetOptimizedStep: a confirmation mismatch is Unauthorized, as the code throws it, although a request validation error might be expected.
- Update DTOs. backend/src/users/dto/update-user.dto.ts, backend/src/restaurants/dto/update-restaurant.dto.ts and backend/src/reviews/dto/update-review.dto.ts are not part of this model. Each is modelled as the creation DTO with every field optional.
- Credentials.CredentialsRepository.UpdatePartial: login-name uniqueness is stated only for a DTO name other than the empty string, because the code skips the duplicate check for a falsy name.
- Users.UsersService.Update: e-mail uniqueness is stated only for a DTO address other than the empty string, because the code skips the clash check for a falsy address.
- Hotels.HotelsService: the service repeats the repository's code on the same table, so its methods delegate to the repository model. The hotels `createAndSave` and the service's `create` are not modelled.
- The validator's `defaultMessage` is the constant `EventPlaces.ExclusiveMessage`. Exception messages are otherwise not modelled, only the exception kinds and, for 401 and 409, which rule raised them.
- Reviews.ParseUuid: PostgreSQL's `uuid` input grammar is modelled (optional braces, upper or lower case, a hyphen allowed after any group of four digits); a NUL byte ending the text early is not. Stored entity ids are taken to be in canonical form, as PostgreSQL returns them.
- The reviews repository's `findByEntity`, `findByUser`, `createAndSave` and `removeById` are not modelled; the service's `update`, `remove` and `getAverageRating` use only lookup, save, remove and the average.
- Reviews.AverageRating: the database's `AVG` over an integer column and its `parseFloat` read-back are a real-number quotient, so rounding is not modelled.

## Findings

| source | as written | input that shows it | evidently intended | confidence | as-written member | corrected member |
|---|---|---|---|---|---|---|
| backend/src/users/users.service.ts:18 | `skip` is kept when it is not NaN and `>= 0`, then floored; `Infinity` passes both tests and `Math.floor(Infinity)` is `Infinity` (also at backend/src/regions/regions.service.ts:19 and backend/src/restaurants/restaurants.service.ts:19, which receive integers through `ParseIntPipe`) | `GET /users?skip=Infinity` | Drop a non-finite skip like a negative one, so every offset is a natural number | not executed | Paging.InfiniteSkipSurvives (Paging.NormalizePageAsWritten) | Paging.NormalizePage (Paging.NormalizePageAgreement) |
| backend/src/event-places/event-places.repository.ts:62-75 | `updatePartial` rejects only a DTO that carries both ids, so a place already linked to a hotel, updated with a restaurant id alone, is saved linked to both | place linked to hotel `6a1f4e2b-7c3d-4e8a-b5f9-0d2c6e8a4b1f`, DTO `{ restaurantId: "9c7e2d4a-1b3f-4a6e-8d5c-2f9b0e7a3c61" }` | Check the exclusivity rule on the place the update would produce | not executed | EventPlaces.UpdateAsWrittenLinksBoth (EventPlaces.UpdateAsWritten) | EventPlaces.UpdateChecked (EventPlaces.EventPlacesRepository.UpdatePartial) |
| backend/src/credentials/credentials.repository.ts:106-111 | `clearResetToken` assigns `undefined` to the reset hash and expiry; `save` leaves `undefined` columns out of the UPDATE, so the reset stays stored (also at backend/src/auth/auth.service.ts:122-123 and :145-146) | a reset redeemed with its token, then the same token presented again before it expires | Assign `null`, so a redeemed reset token cannot be used again | not executed | AuthProperties.ResetTokenReusableAsWritten (AuthProperties.IterativeResetReusableAsWritten) | AuthProperties.ResetTokenSingleUse (AuthProperties.IterativeResetSingleUse) |
| backend/src/credentials/credentials.repository.ts:114-118 | `refreshTokenHash = refreshHash ?? undefined`, so a `null` hash is not written and a stored refresh hash cannot be revoked | `updateRefreshToken(id, null)` on a credential with a refresh hash | Write `null`, clearing the refresh hash | not executed | Credentials.WithRefreshHashAsWritten (Credentials.RefreshHashAsWrittenIgnoresNull) | Credentials.WithRefreshHash (Credentials.CredentialsRepository.UpdateRefreshToken) |
| backend/src/event-places/event-places.repository.ts:74-75 | a falsy given hotel or restaurant id assigns `undefined`, which `save` does not write, so the old link stays | place linked to a hotel only, DTO `{ hotelId: null, restaurantId: "9c7e2d4a-1b3f-4a6e-8d5c-2f9b0e7a3c61" }` | A given `null` or empty id unlinks | not executed | EventPlaces.NullIdKeepsLinkAsWritten (EventPlaces.MergePlaceAsWritten) | EventPlaces.MergePlace (EventPlaces.UpdateChecked) |
| backend/src/hotels/hotels.repository.ts:65-71 | `minRating` comes through `ParseFloatPipe` (backend/src/hotels/hotels.controller.ts:58) but is compared with the `int` column, so PostgreSQL refuses a fractional bound (also at backend/src/hotels/hotels.service.ts:69-75) | `GET /hotels/by-rating?minRating=3.5` with a hotel rated 4 | Return the hotels rated at least the bound | not executed | Hotels.FractionalBoundFailsAsWritten (Hotels.ByRatingAsWritten) | Hotels.ByRating (Hotels.HotelsService.FindByRating) |
