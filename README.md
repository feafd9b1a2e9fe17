# BoardAPI accounts, sessions, posts and comments in Dafny

This project models the core of the BoardAPI forum backend, a Spring service:

- **Account directory:** the `User` entity with its persist-time defaults, the `UserDto` projection, and `UserService`'s registration, role, moderator-category, warn, lock and delete operations over the users table.
- **Refresh-token store and session flow:** the `RefreshToken` entity, `RefreshTokenRepository`'s finders and bulk statements, `RefreshTokenService`, and `AuthService`'s register, login, refresh and logout.
- **Posts:** the `Post` and `PostAttachment` entities, `PostDto`, and `PostService`'s read, create, update and delete, including the upload loop, the attachment edits and the permission gate.
- **Comments:** the `Comment` entity, the recursive `CommentDto` mapping of a reply tree, and `CommentService`'s create, edit, soft delete and count, with its own permission rule.
- **Per-request authentication:** `JwtFilter`'s token extraction and authentication decision.
- **Board categories:** `BoardCategoryService` with its unique names and default boards.
- **Pure helpers:**
  - the name rules of `FileStorageService` (extension, stored name, `..` refusal, directory for a type word);
  - `FileController.determineContentType`;
  - `HealthController.calculateUptime`.

Where the source updates objects in place, the model uses classes whose methods carry `modifies` clauses. This covers the post and attachment entities, the refresh-token rows and the services holding a table. Where the source computes values, the model uses datatypes and functions: DTO mappings, permission rules and file-name rules. Tables of value entities (users, categories, comments) are `map` fields that the service methods reassign.

Several things are parameters rather than modelled computations:
- the JWT provider's `createToken`, `validateToken` and `getAuthentication`;
- the password encoder's `encode` and `matches`;
- the current time `now`, in seconds;
- generated UUID strings;
- the logged-in user;
- the ids of the existing posts and categories.

Java's truncating `/` and `%` are written out as `Health.JavaDiv` and `Health.JavaRem`.

Files:
- common.dfy: `Option` and `Result`, plus the `java.lang.String` operations used.
- users.dfy, tokens.dfy, auth.dfy, categories.dfy, security.dfy.
- files.dfy (FileStorageService) and content_type.dfy (FileController).
- post_model.dfy (entities), post_dto.dfy, post_service.dfy.
- comments.dfy and health.dfy.

## Model

| member | source | states |
|---|---|---|
| Common.IsBlank | src/main/java/com/example/board/service/UserService.java:74-75 | `trim().isEmpty()`: every character is at or below U+0020; the empty string is blank |
| Common.ToLower | src/main/java/com/example/board/controller/FileController.java:130 | `toLowerCase` on ASCII letters: same length, each character lowered where it is an upper-case letter |
| Common.LastIndexOf | src/main/java/com/example/board/service/FileStorageService.java:103 | `lastIndexOf`: -1 or an index holding the character, with no occurrence after it |
| Common.IntToString | src/main/java/com/example/board/service/FileStorageService.java:57 | decimal rendering of a `Long` in a string concatenation: non-empty, with a leading '-' exactly for negative numbers |
| Common.NatToStringInjective | src/main/java/com/example/board/service/UserService.java:108 | different counters are printed as different digit strings |
| Common.DigitsValueOfNatToString | src/main/java/com/example/board/service/UserService.java:108 | reading back the printed digits of a counter gives the counter |
| Users.OnCreate | src/main/java/com/example/board/entity/User.java:79-92 | persist hook: a null role becomes USER and a given one is kept; a null or blank nickname becomes the name (even a blank one) or else the username; enabled, unlocked and 0 warnings are forced |
| Users.AdminIsNeitherManagerNorModerator | src/main/java/com/example/board/entity/User.java:95-102 | `isAdmin` holds only for exactly ADMIN, never for MANAGER, and an admin is not a category moderator |
| Users.IsAdmin | src/main/java/com/example/board/entity/User.java:100-102 | exactly the ADMIN role; a MANAGER is not an admin |
| Users.IsModeratorFor | src/main/java/com/example/board/entity/User.java:95-97 | a MODERATOR to whom that category is assigned; never an admin or a manager |
| Users.ToDto | src/main/java/com/example/board/dto/UserDto.java:42-68 | `fromEntity`: id, username, nickname, role, flags and warning count copied; managedCategoryIds is exactly the managed category ids |
| Users.DtoHidesPassword | src/main/java/com/example/board/dto/UserDto.java:42-68 | the projection does not depend on the password hash |
| Users.DtoDeterminesAccountUpToPassword | src/main/java/com/example/board/dto/UserDto.java:42-68 | two accounts with equal projections differ at most in the password: every other column is copied |
| Users.FallbackNickname | src/main/java/com/example/board/service/UserService.java:73-76 | a given nickname with text is kept; otherwise the name when it has text, else the username; a blank result can only be the username |
| Users.CandidateNotBlank | src/main/java/com/example/board/service/UserService.java:106-109 | every candidate after the base ends in a digit and so is not blank |
| Users.CandidateInjective | src/main/java/com/example/board/service/UserService.java:106-109 | base, base1, base2, ... are pairwise different |
| Users.FirstCandidatesSize | src/main/java/com/example/board/service/UserService.java:102-112 | the first k candidates are k distinct strings; this is the termination argument of the nickname loop |
| Users.UniqueAfterUpdate | src/main/java/com/example/board/entity/User.java:26-39 | replacing a row without touching username, email or nickname keeps those columns unique |
| Users.UniqueAfterInsert | src/main/java/com/example/board/entity/User.java:26-39 | inserting a row whose username, email and nickname are all new keeps the columns unique |
| Users.ManagersAfterUpdate | src/main/java/com/example/board/service/UserService.java:120-127 | an update that neither grants nor removes MANAGER leaves the set of managers unchanged |
| Users.ManagersAfterRemoval | src/main/java/com/example/board/service/UserService.java:225-231 | removing a non-manager leaves the set of managers unchanged |
| Users.RegistrationNicknameKept | src/main/java/com/example/board/service/UserService.java:78-91 | the chosen nickname survives the persist hook unless blank; it is replaced only for a blank username with a blank name; the new account is a USER, enabled, unlocked, with 0 warnings and no categories |
| Users.RegisterOutcome | src/main/java/com/example/board/service/UserService.java:62-99 | the username check, then the email check, then the first free nickname candidate, the persist hook and the nickname constraint; a refusal leaves the directory unchanged, a success stores the account under the new id only and returns its DTO |
| Users.WithRole | src/main/java/com/example/board/service/UserService.java:129-135 | the new role is set; a downgrade to USER empties the managed categories and any other role keeps them; nothing else changes |
| Users.ByUsername | src/main/java/com/example/board/repository/UserRepository.java:11 | `findByUsername` on the table: a row with that username |
| Users.UsernameDeterminesUser | src/main/java/com/example/board/entity/User.java:26-27 | with unique usernames, the account found by username is the only one holding it |
| Users.UserService.constructor | src/main/java/com/example/board/service/UserService.java:28-34 | an empty, valid users table |
| Users.UserService.FindByUsername | src/main/java/com/example/board/repository/UserRepository.java:11 | found iff some account has that username, and then it is that stored account |
| Users.UserService.FindById | src/main/java/com/example/board/service/UserService.java:116-117 | found iff the id is stored, and then it is that row |
| Users.UserService.EnsureUniqueNickname | src/main/java/com/example/board/service/UserService.java:102-112 | returns the first candidate (base, then base1, base2, ...) that no account holds; every earlier candidate is taken |
| Users.UserService.RegisterUser | src/main/java/com/example/board/service/UserService.java:63-99 | a duplicate username is refused before a duplicate email, with the table unchanged; otherwise the first free fallback nickname is used and the persist hook runs; the insert is refused only when the hook swapped in a taken nickname; no manager is created |
| Users.UserService.UpdateUserRole | src/main/java/com/example/board/service/UserService.java:115-142 | unknown id, then a MANAGER target, then a current MANAGER are refused with the table unchanged; otherwise only that row changes, per WithRole; managers are unchanged |
| Users.UserService.AssignCategoryToModerator | src/main/java/com/example/board/service/UserService.java:146-168 | refused for an unknown user, a non-moderator, an unknown category or one already assigned, in that order; otherwise the set gains exactly that category |
| Users.UserService.RemoveCategoryFromModerator | src/main/java/com/example/board/service/UserService.java:172-189 | no role check; refused for an unknown user, an unknown category or one not assigned; otherwise exactly that category is removed |
| Users.UserService.WarnUser | src/main/java/com/example/board/service/UserService.java:193-203 | the warning count of that user only goes up by exactly one |
| Users.UserService.LockUser | src/main/java/com/example/board/service/UserService.java:207-217 | locked is set to the argument on that row only |
| Users.UserService.DeleteUser | src/main/java/com/example/board/service/UserService.java:221-234 | an unknown id, then a MANAGER, then an account that refresh_tokens, comments or posts still point at, is refused with nothing changed; otherwise exactly that account is removed |
| RefreshTokens.RefreshToken.constructor | src/main/java/com/example/board/entity/RefreshToken.java:36-37 | a new token is not revoked |
| RefreshTokens.RefreshToken.Revoke | src/main/java/com/example/board/entity/RefreshToken.java:48-50 | sets the revoked flag and nothing else, so a second call changes nothing |
| RefreshTokens.Expired | src/main/java/com/example/board/entity/RefreshToken.java:44-46 | strictly after the expiry instant, so a token is still good at exactly its expiry date |
| RefreshTokens.RefreshToken.IsExpired | src/main/java/com/example/board/entity/RefreshToken.java:44-46 | `Expired` of the token's own columns |
| RefreshTokens.Row | src/main/java/com/example/board/entity/RefreshToken.java:44-46 | the row's expiry test agrees with `isExpired`: strictly after the expiry instant |
| RefreshTokens.FindActive | src/main/java/com/example/board/repository/RefreshTokenRepository.java:18 | a row is found iff it has exactly that token string and is not revoked |
| RefreshTokens.RevokedOne | src/main/java/com/example/board/service/RefreshTokenService.java:54-60 | the named row, if present, is marked revoked; no row is added or removed and the others are unchanged |
| RefreshTokens.RevokedOneIdempotent | src/main/java/com/example/board/service/RefreshTokenService.java:54-60 | revoking twice equals revoking once |
| RefreshTokens.RevokedOneNotActive | src/main/java/com/example/board/service/AuthService.java:139-146 | after logout the token is no longer accepted by the active lookup |
| RefreshTokens.RevokedAll | src/main/java/com/example/board/repository/RefreshTokenRepository.java:21-23 | every row of that user is revoked and every other row is unchanged |
| RefreshTokens.RevokedAllEndsSessions | src/main/java/com/example/board/repository/RefreshTokenRepository.java:21-23 | afterwards none of the user's tokens is active, and other users' tokens are as active as before |
| RefreshTokens.RevokedAllIdempotent | src/main/java/com/example/board/repository/RefreshTokenRepository.java:21-23 | a second bulk revoke changes nothing |
| RefreshTokens.Purged | src/main/java/com/example/board/repository/RefreshTokenRepository.java:26-28 | exactly the rows with expiryDate < now or revoked are deleted; the survivors are unchanged |
| RefreshTokens.PurgedSurvivors | src/main/java/com/example/board/repository/RefreshTokenRepository.java:26-28 | every survivor is unrevoked with expiryDate >= now |
| RefreshTokens.PurgedIdempotent | src/main/java/com/example/board/repository/RefreshTokenRepository.java:26-28 | a second purge at the same instant deletes nothing |
| RefreshTokens.PurgeKeepsUsableTokens | src/main/java/com/example/board/repository/RefreshTokenRepository.java:26-28 | a token that a refresh at the same instant would accept is never purged |
| RefreshTokens.RefreshTokenRepository.constructor | src/main/java/com/example/board/repository/RefreshTokenRepository.java:14 | an empty table |
| RefreshTokens.RefreshTokenRepository.Insert | src/main/java/com/example/board/entity/RefreshToken.java:23-24 | the unique token column refuses a string already stored; otherwise exactly that row is added |
| RefreshTokens.RefreshTokenRepository.FindByToken | src/main/java/com/example/board/repository/RefreshTokenRepository.java:16 | the row with that string, revoked or not |
| RefreshTokens.RefreshTokenRepository.FindByTokenAndIsRevokedFalse | src/main/java/com/example/board/repository/RefreshTokenRepository.java:18 | found iff FindActive finds it; the result is unrevoked and carries that string |
| RefreshTokens.RefreshTokenRepository.Delete | src/main/java/com/example/board/service/RefreshTokenService.java:47 | removes exactly that stored row, and is silent for one not stored |
| RefreshTokens.RefreshTokenRepository.RevokeAllTokensByUser | src/main/java/com/example/board/repository/RefreshTokenRepository.java:21-23 | the table becomes RevokedAll of the old table |
| RefreshTokens.RefreshTokenRepository.DeleteExpiredAndRevokedTokens | src/main/java/com/example/board/repository/RefreshTokenRepository.java:26-28 | the table becomes Purged of the old table |
| RefreshTokens.RefreshTokenService.constructor | src/main/java/com/example/board/service/RefreshTokenService.java:20-26 | the service over its repository with the configured validity |
| RefreshTokens.RefreshTokenService.CreateRefreshToken | src/main/java/com/example/board/service/RefreshTokenService.java:29-37 | adds exactly one unrevoked row for the user, with expiry now + validity, unless the string is already stored |
| RefreshTokens.RefreshTokenService.FindByToken | src/main/java/com/example/board/service/RefreshTokenService.java:40-42 | a token only when it exists and is not revoked |
| RefreshTokens.RefreshTokenService.VerifyExpiration | src/main/java/com/example/board/service/RefreshTokenService.java:44-50 | refused exactly when the token is expired, otherwise the token itself is returned; the table is unchanged either way, the delete being rolled back with the exception |
| RefreshTokens.RefreshTokenService.RevokeToken | src/main/java/com/example/board/service/RefreshTokenService.java:54-60 | the table becomes RevokedOne of the old table: revoked or not, the row is marked revoked, and an unknown token is ignored |
| RefreshTokens.RefreshTokenService.RevokeAllUserTokens | src/main/java/com/example/board/service/RefreshTokenService.java:63-65 | the table becomes RevokedAll of the old table |
| Auth.LoginRefusal | src/main/java/com/example/board/service/AuthService.java:68-86 | accepted iff the account exists, the password matches, and it is enabled and not locked; an unknown user and a wrong password get the same message |
| Auth.UnknownUserLooksLikeWrongPassword | src/main/java/com/example/board/service/AuthService.java:68-75 | the refusal for an unknown username equals the refusal for a wrong password |
| Auth.DisabledBeforeLocked | src/main/java/com/example/board/service/AuthService.java:78-86 | a disabled account with the right password is reported as disabled, even when also locked |
| Auth.AuthService.constructor | src/main/java/com/example/board/service/AuthService.java:34-44 | the service over the given user service, token service and token minting function |
| Auth.AuthService.Register | src/main/java/com/example/board/service/AuthService.java:47-61 | exactly the outcome of registerUser on the same five arguments; the token store is unchanged |
| Auth.AuthService.Login | src/main/java/com/example/board/service/AuthService.java:64-113 | checks existence, password, enabled, locked in that order, with no change on refusal; on success an access token is minted for the current username and role and exactly one new refresh row is added for the user |
| Auth.AuthService.Refresh | src/main/java/com/example/board/service/AuthService.java:116-136 | an unknown or revoked string is refused; an expired row is refused and stays stored; otherwise the same refresh string is returned with an access token for the owner's current username and role; the store is never changed |
| Auth.AuthService.Logout | src/main/java/com/example/board/service/AuthService.java:139-146 | never fails; the store becomes RevokedOne of the old store |
| Categories.Defaults | src/main/java/com/example/board/service/BoardCategoryService.java:91-93 | the three default boards under the next three ids |
| Categories.DefaultsAreThreeBoards | src/main/java/com/example/board/service/BoardCategoryService.java:89-95 | exactly three boards with three distinct names |
| Categories.BoardCategoryService.constructor | src/main/java/com/example/board/service/BoardCategoryService.java:20-22 | an empty, valid table |
| Categories.BoardCategoryService.FindByName | src/main/java/com/example/board/service/BoardCategoryService.java:42 | found iff a row has that name, and then it is that row |
| Categories.BoardCategoryService.CreateCategory | src/main/java/com/example/board/service/BoardCategoryService.java:40-55 | a taken name is refused; otherwise exactly one row is added, so names stay unique |
| Categories.BoardCategoryService.UpdateCategory | src/main/java/com/example/board/service/BoardCategoryService.java:58-75 | an unknown id is refused; then a name held by a different row is refused, while keeping one's own name is allowed; otherwise only that row changes |
| Categories.BoardCategoryService.DeleteCategory | src/main/java/com/example/board/service/BoardCategoryService.java:78-85 | an unknown id, then a board that posts or moderator assignments still point at, is refused with nothing changed; otherwise only that row is removed |
| Categories.BoardCategoryService.InitDefaultCategories | src/main/java/com/example/board/service/BoardCategoryService.java:88-96 | an empty table gets exactly the three defaults, a non-empty one is untouched; afterwards the table is non-empty, so a second call does nothing |
| Categories.BoardCategoryService.CreateDefaultCategory | src/main/java/com/example/board/service/BoardCategoryService.java:98-104 | adds exactly that board under the next id |
| Security.HasText | src/main/java/com/example/board/security/JwtFilter.java:41-52 | `StringUtils.hasText`: present with a character that is not whitespace, so never empty |
| Security.ResolveToken | src/main/java/com/example/board/security/JwtFilter.java:50-56 | a token iff the header has text and starts with the case-sensitive "Bearer "; then the header is "Bearer " + token |
| Security.ResolveTokenOfBearer | src/main/java/com/example/board/security/JwtFilter.java:52-53 | resolving "Bearer " + t gives back t when t has text |
| Security.Authenticated | src/main/java/com/example/board/security/JwtFilter.java:39-44 | an authentication iff the extracted token has text and validates, and then it is the provider's authentication for that token |
| Security.JwtFilter.constructor | src/main/java/com/example/board/security/JwtFilter.java:21-23 | the filter over the given provider functions |
| Security.JwtFilter.DoFilterInternal | src/main/java/com/example/board/security/JwtFilter.java:26-48 | always forwards; under /api/auth/ the context is untouched; elsewhere the authentication is set exactly when Authenticated gives one, and is kept otherwise |
| FileStorage.GetFileExtension | src/main/java/com/example/board/service/FileStorageService.java:102-108 | a suffix of the name; empty iff no '.' after index 0; otherwise it starts with '.' and has no other '.' |
| FileStorage.ExtensionOfAppended | src/main/java/com/example/board/service/FileStorageService.java:81-82 | a dot-free stem followed by an extension has exactly that extension |
| FileStorage.DirectoryName | src/main/java/com/example/board/service/FileStorageService.java:30-44 | the three subdirectories are profiles, posts and temp |
| FileStorage.StoreTarget | src/main/java/com/example/board/service/FileStorageService.java:49-65 | each kind goes to its own subdirectory, with a prefix ending in '_': profile_<id>_, post_<id>_, temp_ |
| FileStorage.DirectoryFor | src/main/java/com/example/board/service/FileStorageService.java:127-145 | "profile", "post" and "temp" pick their subdirectory; any other type picks the root (the same mapping as deleteFile) |
| FileStorage.StoredFilesAreFoundAgain | src/main/java/com/example/board/service/FileStorageService.java:166-183 | a file is loaded and deleted in the directory it was stored in |
| FileStorage.StoredFileName | src/main/java/com/example/board/service/FileStorageService.java:70-97 | a null name is refused; a name is refused iff it contains ".." |
| FileStorage.StoredNameShape | src/main/java/com/example/board/service/FileStorageService.java:81-82 | a stored name is the kind's prefix, then the UUID, ending in the original's extension |
| FileStorage.StoredNameHasNoDotDot | src/main/java/com/example/board/service/FileStorageService.java:76-82 | for a dot-free UUID, a stored name never contains ".." |
| FileStorage.StoredNameKeepsExtension | src/main/java/com/example/board/service/FileStorageService.java:81-82 | for a dot-free UUID, a stored name has the original's extension |
| FileController.DetermineContentType | src/main/java/com/example/board/controller/FileController.java:127-150 | always one of the nine listed types; a null name gives application/octet-stream |
| FileController.TypeOfLowerName | src/main/java/com/example/board/controller/FileController.java:131-149 | the if-chain on the lower-cased name: always one of the nine types |
| FileController.ContentTypeIgnoresCase | src/main/java/com/example/board/controller/FileController.java:130 | the type depends only on the lower-cased name |
| FileController.ListedSuffixDecides | src/main/java/com/example/board/controller/FileController.java:131-146 | a name ending in a listed suffix gets that suffix's type (.jpg and .jpeg both image/jpeg) |
| FileController.StoredNameServedLikeOriginal | src/main/java/com/example/board/controller/FileController.java:127-150 | a stored upload is served with the type of its original name when that had an extension, else as a byte stream |
| Health.JavaDiv | src/main/java/com/example/board/controller/HealthController.java:152 | Java's `/` rounds toward zero |
| Health.JavaRem | src/main/java/com/example/board/controller/HealthController.java:153 | Java's `%`: a = b*q + r with r taking a's sign |
| Health.Formatted | src/main/java/com/example/board/controller/HealthController.java:165 | the "%d일 %d시간 %d분 %d초" text: it starts with the day count and ends with the second count |
| Health.CalculateUptime | src/main/java/com/example/board/controller/HealthController.java:149-168 | the parts add back to the duration; for s >= 0 days = s / 86400 and hours, minutes and seconds are in clock range; totalSeconds is s |
| Health.UptimeSplitIsUnique | src/main/java/com/example/board/controller/HealthController.java:150-157 | the in-range split of a non-negative duration is unique and given by / and % |
| PostModel.FileCategoryFor | src/main/java/com/example/board/entity/PostAttachment.java:58-68 | IMAGE, VIDEO and AUDIO iff the type starts with image/, video/ and audio/; OTHER iff none of them |
| PostModel.MimePrefixesExclusive | src/main/java/com/example/board/entity/PostAttachment.java:58-66 | no type starts with two of the three prefixes |
| PostModel.CategoryAfterCreate | src/main/java/com/example/board/entity/PostAttachment.java:54-69 | a null type leaves the category as it was; any other gives one of the four categories |
| PostModel.PostAttachment.constructor | src/main/java/com/example/board/entity/PostAttachment.java:18-51 | the builder: the given columns and no category yet |
| PostModel.PostAttachment.OnCreate | src/main/java/com/example/board/entity/PostAttachment.java:54-69 | sets the category to CategoryAfterCreate of the type |
| PostModel.AttachmentRows | src/main/java/com/example/board/entity/Post.java:44-46 | the rows of an attachment list, same length and order |
| PostModel.AttachmentRowsAppend | src/main/java/com/example/board/service/PostService.java:215 | the rows of an appended list are the appended rows |
| PostModel.AttachmentRowsSnoc | src/main/java/com/example/board/entity/Post.java:78-81 | appending one attachment appends its row |
| PostModel.Post.constructor | src/main/java/com/example/board/service/PostService.java:116-124 | the builder: the given fields and an empty attachment list |
| PostModel.Post.OnCreate | src/main/java/com/example/board/entity/Post.java:59-65 | a null view count becomes 0 and any other is kept |
| PostModel.Post.IncrementViewCount | src/main/java/com/example/board/entity/Post.java:73-75 | the view count goes up by exactly one and nothing else changes |
| PostModel.Post.AddAttachment | src/main/java/com/example/board/entity/Post.java:78-81 | appends at the end and points the attachment at this post |
| PostModel.Post.RemoveAttachment | src/main/java/com/example/board/entity/Post.java:84-87 | removes the first occurrence, if any, and clears the back-reference either way |
| PostModel.FirstIndex | src/main/java/com/example/board/entity/Post.java:85 | the position of the first occurrence |
| PostModel.RemoveFirst | src/main/java/com/example/board/entity/Post.java:85 | `List.remove(Object)`: no change when absent, else the list without its first occurrence |
| PostModel.RemoveFirstTakesOne | src/main/java/com/example/board/entity/Post.java:85 | exactly one element fewer, as a multiset |
| PostModel.FirstWithId | src/main/java/com/example/board/service/PostService.java:198-200 | `filter(id).findFirst()`: the first attachment with that id, or none when no attachment has it |
| PostModel.FirstWithIdIsFirstIndex | src/main/java/com/example/board/service/PostService.java:198-205 | the attachment found by id is also the first occurrence that `remove` takes out |
| PostModel.RemoveFirstById | src/main/java/com/example/board/service/PostService.java:198-205 | removing the attachment found by id is removing the first attachment with that id |
| PostModel.WithoutFirstId | src/main/java/com/example/board/service/PostService.java:197-209 | one requested id removes exactly the attachment found, or nothing for an unknown id |
| PostModel.WithoutIds | src/main/java/com/example/board/service/PostService.java:196-210 | the list after the removal for each requested id in request order; never longer than before |
| PostModel.WithoutIdsRemovesAtMostOnePerId | src/main/java/com/example/board/service/PostService.java:196-210 | at most one attachment goes per requested id, and none is added |
| PostModel.UnknownIdsIgnored | src/main/java/com/example/board/service/PostService.java:196-210 | ids that name no attachment leave the list unchanged |
| PostDtos.AttachmentFromEntity | src/main/java/com/example/board/dto/PostDto.java:100-113 | columns copied; fileUrl is "/api/files/posts/" + fileName; a thumbnail URL (fileUrl + "?thumbnail=true") exactly for IMAGE |
| PostDtos.FileUrlNamesTheFile | src/main/java/com/example/board/dto/PostDto.java:109 | the URL determines the stored name: equal URLs iff equal names |
| PostDtos.DisplayAuthor | src/main/java/com/example/board/dto/PostDto.java:42-45 | the writer's nickname when the post has a writer, else the stored author |
| PostDtos.AttachmentDtos | src/main/java/com/example/board/dto/PostDto.java:48-50 | each attachment mapped, same length and order |
| PostDtos.FromEntity | src/main/java/com/example/board/dto/PostDto.java:40-67 | writer fields null exactly when there is no writer; category fields null exactly without a category; attachments mapped in order |
| PostDtos.ToEntity | src/main/java/com/example/board/dto/PostDto.java:70-78 | id, title, content and author copied; a null view count becomes 0 |
| PostDtos.ToEntityOfFromEntity | src/main/java/com/example/board/dto/PostDto.java:40-78 | DTO then entity keeps the id, text and view count (0 if none), and shows the displayed author |
| PostServices.IsAllowedToModify | src/main/java/com/example/board/service/PostService.java:254-281 | allowed iff the role is not USER, or the post's writer has the caller's id |
| PostServices.ModeratorIsNotCategoryScoped | src/main/java/com/example/board/service/PostService.java:267-271 | a moderator may change a post of a category not assigned to them |
| PostServices.OwnerlessPostNeedsPrivilege | src/main/java/com/example/board/service/PostService.java:274-280 | a post without a writer may be changed exactly by MANAGER, ADMIN or MODERATOR |
| PostServices.AttachmentName | src/main/java/com/example/board/service/PostService.java:147 | the name `storePostAttachment` gives an upload; a missing name is refused |
| PostServices.UploadEffect | src/main/java/com/example/board/service/PostService.java:144-157 | one upload writes at most one file and inserts at most one row, and a row only for a written file |
| PostServices.Saved | src/main/java/com/example/board/service/PostService.java:141-161 | the uploads in order, each named as storePostAttachment names it, stopping at the first failure |
| PostServices.SavedRowsMatchFiles | src/main/java/com/example/board/service/PostService.java:141-161 | after a complete save there is one row per non-empty upload, in order, with consecutive ids; each row names the file written for it, which starts with post_<id>_, and has a category |
| PostServices.UploadEffectMatchesStored | src/main/java/com/example/board/service/PostService.java:144-157 | an upload that does not fail adds one row per written file (one, unless the upload is empty) with the next id, naming its file, which starts with post_<id>_, and with a category |
| PostServices.ThenMatchesStored | src/main/java/com/example/board/service/PostService.java:141-161 | a saving whose rows match its files, followed by an upload whose rows match its files and continue the ids, still has matching rows and files |
| PostServices.SavedUpToRowsMatchFiles | src/main/java/com/example/board/service/PostService.java:141-161 | the same as SavedRowsMatchFiles for the first k uploads, under any naming outcomes whose every effect matches its files |
| PostServices.MatchesStoredStep | src/main/java/com/example/board/service/PostService.java:144-158 | going through one more upload keeps rows matched to files and one row per non-empty upload |
| PostServices.SavedStopsAtError | src/main/java/com/example/board/service/PostService.java:144-158 | once an upload fails, the later uploads change nothing |
| PostServices.SaveStep | src/main/java/com/example/board/service/PostService.java:144-158 | saving one more upload extends the save of the ones before it by that upload's effect |
| PostServices.SavedAtExit | src/main/java/com/example/board/service/PostService.java:144-158 | a loop that stops after the last upload, or at the first failure, has done the whole saving |
| PostServices.BuildAttachment | src/main/java/com/example/board/service/PostService.java:149-157 | a fresh attachment pointing at the post, whose row has the category its type gives |
| PostServices.Elems | src/main/java/com/example/board/service/PostService.java:147 | exactly the listed names are in the set |
| PostServices.ElemsAppend | src/main/java/com/example/board/service/PostService.java:144-158 | the names of an appended list are the union |
| PostServices.FileNames | src/main/java/com/example/board/service/PostService.java:245-247 | exactly the stored names of the attachments |
| PostServices.RemovalStep | src/main/java/com/example/board/service/PostService.java:197-209 | one more requested id removes the attachment found for it and deletes its file |
| PostServices.PostService.constructor | src/main/java/com/example/board/service/PostService.java:35-45 | no posts and no stored files |
| PostServices.PostService.AuthorName | src/main/java/com/example/board/service/PostService.java:110-114 | "익명" without a writer, else the writer's nickname |
| PostServices.PostService.GetPost | src/main/java/com/example/board/service/PostService.java:70-79 | an unknown id is refused; otherwise that post's view count goes up by exactly one, no other row changes, and the DTO of the new row is returned |
| PostServices.PostService.SaveOne | src/main/java/com/example/board/service/PostService.java:144-157 | one upload as UploadEffect says: skipped when empty; a refused name or a missing content type is the error; otherwise its file is written and a fresh attachment of the post carries the row |
| PostServices.PostService.SaveNext | src/main/java/com/example/board/service/PostService.java:144-158 | one pass of the upload loop carries SaveProgress from k uploads to k + 1 and fresh attachments of the post |
| PostServices.PostService.SaveLoop | src/main/java/com/example/board/service/PostService.java:144-158 | the loop ends after the last upload or at the first failure, with SaveProgress for the uploads it went through |
| PostServices.PostService.SaveAttachments | src/main/java/com/example/board/service/PostService.java:141-161 | the attachments built are exactly the rows of Saved, the error is Saved's, and the files written are added to disk |
| PostServices.PostService.CategoryOf | src/main/java/com/example/board/service/PostService.java:102-107 | no category without an id, else the stored category |
| PostServices.PostService.Insert | src/main/java/com/example/board/service/PostService.java:126 | exactly that post's row is added under the next id |
| PostServices.PostService.Remove | src/main/java/com/example/board/service/PostService.java:250 | exactly that post's row is removed |
| PostServices.PostService.CreatePost | src/main/java/com/example/board/service/PostService.java:83-138 | an unknown category is refused with nothing changed; otherwise the uploads are saved, and a failing upload leaves the rows unchanged (its written files stay); on success exactly one post row is added, with author AuthorName, view count 0 and the saved attachment rows |
| PostServices.PostService.RemoveNext | src/main/java/com/example/board/service/PostService.java:197-209 | one requested id: the first attachment with that id, if any, leaves the list and its file is deleted |
| PostServices.PostService.RemoveRequested | src/main/java/com/example/board/service/PostService.java:196-210 | the list left is WithoutIds of the requests, and exactly the removed attachments' files are deleted |
| PostServices.PostService.Edit | src/main/java/com/example/board/service/PostService.java:185-193 | only that post's title, content, category and attachments change |
| PostServices.PostService.ApplyUpdate | src/main/java/com/example/board/service/PostService.java:185-219 | files of removed attachments are deleted and uploads written; on success the row has the new text and category, and the kept attachments followed by the new ones |
| PostServices.PostService.Commit | src/main/java/com/example/board/service/PostService.java:185-219 | the post's row gets the new title, content and category, and the kept attachment rows followed by the added ones; the attachment id counter moves past the added ones |
| PostServices.PostService.UpdatePost | src/main/java/com/example/board/service/PostService.java:165-220 | refused in order: unknown post, a logged-in caller who may not change it, an unknown category; otherwise title and content are overwritten, the category only when given, at most one attachment per requested id is removed with its file, and the uploads are appended after the kept ones; a failing upload leaves the rows unchanged |
| PostServices.PostService.DeletePost | src/main/java/com/example/board/service/PostService.java:224-251 | an unknown post or a logged-in caller who may not delete it is refused with nothing changed; otherwise every attachment file is deleted, and then a post that comments still point at stays with a refusal, while any other post loses exactly its row |
| Comments.ReplyOrTopLevel | src/main/java/com/example/board/entity/Comment.java:69-76 | a comment is a reply iff it has a parent, and exactly one of reply and top-level holds |
| Comments.FromEntitySimple | src/main/java/com/example/board/dto/CommentDto.java:56-69 | a deleted comment's text is shown as "삭제된 댓글입니다.", else copied; a missing writer gives no id, "탈퇴한 사용자" and "unknown"; post and parent ids copied; no children |
| Comments.Live | src/main/java/com/example/board/dto/CommentDto.java:48-49 | exactly the replies that are not deleted, and never more replies than there were |
| Comments.LiveSingleton | src/main/java/com/example/board/dto/CommentDto.java:49 | one reply is kept exactly when it is not deleted |
| Comments.LiveSnoc | src/main/java/com/example/board/dto/CommentDto.java:48-50 | a reply added at the end is kept at the end when it is not deleted |
| Comments.LiveAppend | src/main/java/com/example/board/dto/CommentDto.java:48-50 | the filter keeps the original order: the live replies of two runs are those of the first followed by those of the second |
| Comments.FromEntity | src/main/java/com/example/board/dto/CommentDto.java:36-53 | the simple mapping plus one child per live reply |
| Comments.ChildrenAreLiveReplies | src/main/java/com/example/board/dto/CommentDto.java:47-51 | the i-th child is the mapping of the i-th live reply, in the original order |
| Comments.FromEntityHidesDeleted | src/main/java/com/example/board/dto/CommentDto.java:47-51 | no node below the root of a mapped tree is deleted |
| Comments.SimpleIsFullWithoutChildren | src/main/java/com/example/board/dto/CommentDto.java:36-69 | fromEntitySimple agrees with fromEntity on every field except the children, which it leaves empty |
| Comments.IsAllowedToModifyComment | src/main/java/com/example/board/service/CommentService.java:161-181 | never for a null user; always for MANAGER, ADMIN and any MODERATOR; otherwise iff the comment's writer has the user's id |
| Comments.CommentRuleMatchesPostRule | src/main/java/com/example/board/service/CommentService.java:161-181 | for a logged-in user the comment rule equals the post rule; an anonymous caller is refused by the comment rule but passes the post gate |
| Comments.SoftDeleted | src/main/java/com/example/board/service/CommentService.java:130-131 | marked deleted with empty text; id, writer, post and parent are kept |
| Comments.AfterDelete | src/main/java/com/example/board/service/CommentService.java:120-135 | an unknown id, then a caller without permission, is refused with the table unchanged; otherwise only that comment is soft-deleted |
| Comments.DeleteIsIdempotent | src/main/java/com/example/board/service/CommentService.java:120-135 | deleting again succeeds and leaves the same table |
| Comments.DeleteLowersCount | src/main/java/com/example/board/service/CommentService.java:139-144 | soft-deleting a live comment lowers its post's count by exactly one and no other post's count |
| Comments.CreateRaisesCount | src/main/java/com/example/board/service/CommentService.java:139-144 | a new live comment raises its post's count by exactly one and no other post's count |
| Comments.CommentService.constructor | src/main/java/com/example/board/service/CommentService.java:30-36 | an empty, valid table |
| Comments.CommentService.CreateComment | src/main/java/com/example/board/service/CommentService.java:55-93 | refused in order: no logged-in user, an unknown post, an unknown parent, a parent under another post; otherwise exactly one comment is added, not deleted, written by the caller, and returned through fromEntitySimple |
| Comments.CommentService.UpdateComment | src/main/java/com/example/board/service/CommentService.java:97-116 | refused in order: unknown comment, no permission, already deleted; otherwise only that comment's text changes |
| Comments.CommentService.DeleteComment | src/main/java/com/example/board/service/CommentService.java:120-135 | the result and table are AfterDelete's |
| Comments.CommentService.GetCommentCount | src/main/java/com/example/board/service/CommentService.java:139-144 | an unknown post is refused; otherwise the number of that post's comments that are not deleted |

## Left out

- The user and category queries are not modelled: getUserById, getUserByUsername, getAllUsers, getUsersByRole, searchUsers (with its Unicode `toLowerCase`), getManagerDashboard, getAllCategories and getCategoryById. They are read-only stream filters and sorts by timestamp.
- Profile fields (profileImage, bio, website, socialLinks) and every creation/modification timestamp are not modelled; no operation of the core decides anything on them.
- JWT signing and checking, and BCrypt hashing, are function parameters; their algorithms are not part of this model.
- Spring Security's route rules, CORS, the controllers' exception-to-status mapping, and the rest of HealthController (runtime properties, memory percentage) are not modelled.
- File I/O is not modelled: copying, loading and deleting bytes, directory creation. `StringUtils.cleanPath` is taken to return its argument. The disk is modelled only as the set of attachment names (`PostService.postFiles`).
- Lombok's field-by-field `equals`, which `List.remove` uses, is modelled as object identity: two distinct attachments with all fields equal cannot both be stored, since ids are unique.
- Common.ToLower: lowers ASCII letters only. Java's `toLowerCase` also lowers non-ASCII letters, and none of the nine suffixes it is compared with contains one, so for them the result is the same under a locale such as English. It follows the default locale, though: under a Turkish or Azerbaijani locale 'I' lowers to a dotless 'ı', so "PHOTO.GIF" would be served as application/octet-stream there, which the model does not capture.
- Foreign keys from other services' tables are not tracked across services. deleteUser, deleteCategory and deletePost instead take the set of ids that other tables still point at, and a delete of such an id is refused at commit.
- The MODERATOR rule is the code's: any moderator may change any post. A category-scoped rule appears in the surrounding documentation, but the code does not use `isModeratorFor`.
- Users.UserService.WarnUser: warningCount is an unbounded integer; Java's `int` would wrap after 2^31 - 1 warnings. Ids and the view count are likewise unbounded, while Java's `Long` would overflow.
- Users.ToDto: a null managed-category set, which the source maps to an empty id set, cannot occur here. The set is never null.
- Categories.BoardCategoryService.CreateDefaultCategory: requires the name to be free. The source saves without checking; its only caller, initDefaultCategories, calls it on an empty table.
- Ids are modelled as counters that do not move when an operation fails. A database sequence may leave gaps; no property depends on the values.
- PostServices.PostService.AuthorName: the fallbacks to the name and then the username cannot be reached, because nickname is a NOT NULL column. Only the nickname branch is modelled.
- PostDtos.ToEntity: the builder leaves the writer, category and attachment list unset; the model's `NewPost` simply has no such fields.
- PostDtos.AttachmentFromEntity: the category is optional. The source would throw on a null category, which cannot be stored after the persist hook when a type is given.
- A missing content type on an upload is modelled as the failure `FileTypeMissing`, because the attachment's file_type column is NOT NULL and the insert is refused.
- updatePost does not clear the back-reference of a removed attachment; the model does not track back-references of deleted rows.
- Files written or deleted before a failing upload stay so on disk; the table changes are rolled back.
- updatePost edits the loaded list and commits it at the end. The model computes the kept list first and writes it back with the title, which gives the same committed state.
- Null titles, contents and comment texts are not modelled: strings are never null here.
- A null upload list in createPost and updatePost is the same as an empty one; a null `filesToDelete` is the same as an empty one.
- getCommentsByPost is not modelled: its result depends on the repository's ordering by creation date and on lazily loaded children. Its per-comment mapping is `Comments.FromEntity`.
- The comment tree is given as loaded (`Comments.Thread`); how JPA assembles `children` from the parent column is not modelled.
