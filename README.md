# Article feeds: reactions, feed visibility, accounts and client forms

This project models the core of an article-sharing application in Dafny. Readers sign up
with a list of interests and sign in with an email or an Indian mobile number. They see a
feed of the articles in the categories they follow, their own included, and they can like,
dislike, block, edit and soft-delete articles. The server does not check that the one who
edits or deletes an article is its author.

The model covers five parts:

- **The article store** (`ArticleModel`, `ArticleRepo`). Each article has three identity
  sets: `likes`, `dislikes` and `blocks`.
  - The update queries change one stored record in place.
  - Each update reports whether anything actually changed.
  - The three reads (the preference feed, the single-article view and the author's list)
    are filter, sort and projection functions.
- **The article service** (`ArticleSvc`).
  - The reaction resolver reads the record, refuses a repeated identical reaction and
    issues one update. That update keeps the invariant that no user is in both `likes`
    and `dislikes`.
  - It also provides block, soft delete, edit and the three reads.
- **The login-id validators** (`RegexCheck`). The phone and email regular expressions are
  restated as predicates on strings, with an independent character-counting description
  of emails.
- **The account service** (`UserRepo`, `UserSvc`): the duplicate check on sign-up, the
  email-or-phone lookup on sign-in, the profile lookup and the password change.
- **The client**:
  - the session slice (`UserSlice`), a two-field state updated in place;
  - the form schemas (`AddArticleForm`, `EditArticleForm`, `SignUpForm`, `SignInForm`,
    `ChangePasswordForm`, `ProfileForm`), as functions from form values to the list of
    issues reported;
  - the article-card text (`ArticleCard`).

Some things outside the core enter as parameters:

- **Password hashing** is abstract. `UserService.hash` gives the stored form of a password,
  and `UserService.matches` is the comparison of a plain password with a stored one.
- **The image host** is the `upload` parameter of `ArticleService.UpdateArticle`.
- **Client-side foreign checks**: zod's email check is `zodEmail`, the date parser is
  `parse`, and the clock is `now`.

Identities (`UserId`, `ArticleId`) are natural numbers. Records keep the collection's
natural order, so `findOne` and `findById` return the first match. Each repository's
invariant `Valid()` also keeps ids pairwise distinct, so the first match is the only one.

`getArticlesByUserId` (article.repository.ts:25-53) has no `is_deleted` filter, so
`ArticlesByAuthor` includes deleted articles.

## Model

| member | source | states |
|---|---|---|
| `ArticleModel.NewArticle` | server/src/repository/article/article.repository.ts:13-23 | A created article has the given id, author, name, description, categories, images and creation time. It is not deleted and has empty like, dislike and block sets. |
| `ArticleModel.Blocked` | server/src/repository/article/article.repository.ts:139-143 | `$addToSet` on `blocks`: the viewer is added and every other field is kept. The record is unchanged exactly when the viewer had already blocked it. |
| `ArticleModel.Deleted` | server/src/repository/article/article.repository.ts:150-153 | The soft delete sets `isDeleted` and nothing else. The record is unchanged exactly when it was already deleted. |
| `ArticleModel.Reacted` | server/src/repository/article/article.repository.ts:166-182 | The user is added to the reaction's set. With `undoOther` the user is also removed from the opposite set; without it, that set is untouched. Other users' memberships are unchanged, and every field other than `likes` and `dislikes` is kept. |
| `ArticleModel.Edited` | server/src/repository/article/article.repository.ts:192-206 | Name, description and category are replaced. The images are replaced only by a non-empty list. Reaction sets, `blocks`, `isDeleted`, author and creation time are kept. |
| `ArticleModel.IndexOfId` | server/src/repository/base/base.repository.ts:17-25 | The position of the first record with that id, or none exactly when no record has it. |
| `ArticleModel.FindById` | server/src/repository/base/base.repository.ts:17-25 | `findById`: returns a stored record with that id, or null exactly when there is none. |
| `ArticleModel.UpdatedById` | server/src/repository/base/base.repository.ts:38-41 | `updateOne({_id})`: the collection keeps its length. Only the first record with the id is changed; with no such record nothing changes. |
| `ArticleModel.SummarizeAll` | server/src/repository/article/article.repository.ts:117-126 | The `$project` stage: one summary per record, in order, with the counts equal to the set sizes. |
| `ArticleModel.Filter` | server/src/repository/article/article.repository.ts:105-109 | A `$match` stage: each record satisfying the predicate is kept as often as it is stored, and no other record is kept. |
| `ArticleModel.ArticlesByAuthor` | server/src/repository/article/article.repository.ts:25-53 | Every entry is the summary of a record by that author. Every record by that author, deleted or not, appears. |
| `ArticleModel.AggregatedArticleById` | server/src/repository/article/article.repository.ts:66-98 | Null exactly for an unknown id. Otherwise it is the summary of the record with that id, whatever its deleted or blocked state. `isLiked` holds iff the viewer is in `likes`, and `isDisliked` iff the viewer is in `dislikes`. |
| `ArticleModel.InsertByDate` | server/src/repository/article/article.repository.ts:111-115 | Inserting into a newest-first list keeps it newest first and adds exactly that record. |
| `ArticleModel.SortNewestFirst` | server/src/repository/article/article.repository.ts:111-115 | The `$sort: {createdAt: -1}` stage: the result is newest first and a permutation of the input. |
| `ArticleModel.PreferredArticles` | server/src/repository/article/article.repository.ts:100-135 | The feed is the projection, entry by entry, of the matched records sorted newest first. |
| `ArticleModel.FeedIsExactlyVisible` | server/src/repository/article/article.repository.ts:105-115 | The records behind the feed are exactly the stored records that are visible to the viewer: not deleted, in a preferred category and not blocked by the viewer. Each appears as often as it is stored. |
| `ArticleModel.FeedEntriesAreVisible` | server/src/repository/article/article.repository.ts:105-126 | Every feed entry is the summary of a stored record that is not deleted and shares a category with the preferences. The viewer has not blocked it. The entries run from newest to oldest. |
| `ArticleModel.FeedIsComplete` | server/src/repository/article/article.repository.ts:105-109 | Every visible stored record appears in the feed. |
| `ArticleModel.NoPreferencesNoFeed` | server/src/repository/article/article.repository.ts:107 | A viewer with an empty preference list gets an empty feed. |
| `ArticleModel.DetailFlagsExclusive` | server/src/repository/article/article.repository.ts:86-87 | When no record has a user in both reaction sets, the single-article view never reports both `isLiked` and `isDisliked`. |
| `ArticleRepo.ArticleRepository.AddArticle` | server/src/repository/article/article.repository.ts:13-23 | Appends one new record under an id no stored record has. |
| `ArticleRepo.ArticleRepository.GetArticleById` | server/src/repository/article/article.repository.ts:55-64 | Returns the stored record with that id, deleted or not, or null exactly when there is none. |
| `ArticleRepo.ArticleRepository.UpdateOne` | server/src/repository/base/base.repository.ts:38-47 | Changes the record with that id. Returns true exactly when the collection changed (`modifiedCount > 0`). |
| `ArticleRepo.ArticleRepository.UpdateArticleBlock` | server/src/repository/article/article.repository.ts:137-148 | Blocks the record with that id. Returns true exactly when the viewer was not yet in `blocks`; an unknown id changes nothing and returns false. |
| `ArticleRepo.ArticleRepository.UpdateDeleteArticle` | server/src/repository/article/article.repository.ts:150-157 | Soft-deletes the record with that id. Returns true exactly when it was not deleted before, so a repeat returns false. |
| `ArticleRepo.ArticleRepository.ReactToArticle` | server/src/repository/article/article.repository.ts:159-188 | One update applies the reaction to the record with that id. Returns true exactly when the record changed. |
| `ArticleRepo.ArticleRepository.UpdateArticle` | server/src/repository/article/article.repository.ts:190-211 | One update applies the edit, keeping the images when none are given. Returns true exactly when the record changed. |
| `ArticleSvc.ServiceReacted` | server/dist/services/article/article.service.js:140-153 | After a like the user is in `likes` and not in `dislikes`; after a dislike the reverse. Exclusivity is preserved, other users' memberships are untouched, and every field other than `likes` and `dislikes` is kept. A reaction the user did not already hold changes the record. |
| `ArticleSvc.ArticleService.ReactToArticle` | server/dist/services/article/article.service.js:128-167 | An unknown article gives 404 ARTICLE_FETCHING_FAILURE with no change. A repeated like or dislike gives 409 ARTICLE_ALREADY_LIKED or ARTICLE_ALREADY_DISLIKED with no change. Otherwise, deleted articles included, the record takes the reaction and the answer is 200 ARTICLE_LIKED or ARTICLE_DISLIKED, whatever the update reported. No user ever ends in both sets. |
| `ArticleSvc.ArticleService.BlockArticle` | server/dist/services/article/article.service.js:106-116 | Blocks the article and returns the repository's answer. Exclusivity is preserved. |
| `ArticleSvc.ArticleService.DeleteArticle` | server/dist/services/article/article.service.js:117-127 | Soft-deletes the article and returns the repository's answer. Exclusivity is preserved. |
| `ArticleSvc.ArticleService.UpdateArticle` | server/dist/services/article/article.service.js:168-182 | Uploads only when files are given, otherwise passes an empty image list, so with no files every stored image list is kept. The record with that id is edited, and the answer is true exactly when the edit changed it; an unknown id changes nothing and answers false. |
| `ArticleSvc.ArticleService.GetArticles` | server/dist/services/article/article.service.js:52-67 | Every entry belongs to the author, and every article of the author, deleted ones included, is listed. |
| `ArticleSvc.ArticleService.GetArticle` | server/dist/services/article/article.service.js:69-84 | Null exactly for an unknown id; otherwise the view of that article. Under exclusivity it never has both flags set. |
| `ArticleSvc.ArticleService.FetchAllArticles` | server/dist/services/article/article.service.js:86-105 | Empty for an unknown viewer. Otherwise it is the feed for exactly that viewer's stored preference list. |
| `RegexCheck.EmailRegexMeetsRule` | server/src/utils/regex.check.ts:2 | A string matching the email regex satisfies the character-counting rule. |
| `RegexCheck.EmailRuleMeetsRegex` | server/src/utils/regex.check.ts:2 | A string satisfying the character-counting rule matches the email regex. |
| `RegexCheck.IsEmail` | server/src/utils/regex.check.ts:2-4 | `isEmail`: the string splits at some `@` and a later `.` into three non-empty runs of characters that are neither whitespace nor `@`. |
| `RegexCheck.IsPhone` | server/src/utils/regex.check.ts:1-5 | `isPhone`: the bare number (ten ASCII digits, the first one 6 to 9); or `+91` followed by it, directly or after one `-` or whitespace character. |
| `RegexCheck.ValidateLoginId` | server/src/utils/regex.check.ts:7-9 | `validateLoginId` holds exactly when `isEmail` or `isPhone` does. For an accepted login id, `isEmail` holds exactly when it contains an `@`, and one without `@` is a phone. |
| `RegexCheck.EmailCharacterization` | server/src/utils/regex.check.ts:2-4 | `isEmail` holds exactly when the rule holds. The rule: exactly one `@`; a non-empty local part without whitespace; a domain without whitespace with an inner `.`, that is, one with a character on each side. |
| `RegexCheck.EmailHasOneAt` | server/src/utils/regex.check.ts:2 | An email has exactly one `@`, neither first nor last. |
| `RegexCheck.EmailDotIsInner` | server/src/utils/regex.check.ts:2 | After the `@` of an email there is a `.` with at least one non-whitespace, non-`@` character on each side. |
| `RegexCheck.PhoneHasNoAt` | server/src/utils/regex.check.ts:1 | No phone contains `@`. |
| `RegexCheck.EmailAndPhoneDisjoint` | server/src/utils/regex.check.ts:1-2 | No string is both an email and a phone. |
| `RegexCheck.PhoneShape` | server/src/utils/regex.check.ts:1 | A phone is either ten characters and bare (ten digits starting with 6-9), or 13 or 14 characters starting with `+`. So the country code needs its `+`, and a bare number has no other form. |
| `RegexCheck.PrefixedPhone` | server/src/utils/regex.check.ts:1 | Ten such digits are also a phone after `+91`, and after `+91` followed by one `-` or one whitespace character. |
| `Common.FirstIndex` | server/src/repository/base/base.repository.ts:17-25 | The position of the first record satisfying the filter, or none exactly when no record does. Both collections' lookups use it. |
| `Common.FindFirst` | server/src/repository/user/user.repository.ts:31-50 | `findOne`: returns a stored record matching the filter, or null exactly when none matches. |
| `UserRepo.FindUserByEmail` | server/src/repository/user/user.repository.ts:31-39 | `findUserByEmail`: a stored account with that email, or null exactly when no account has it. |
| `UserRepo.FindUserByPhone` | server/src/repository/user/user.repository.ts:42-50 | `findUserByPhone`: a stored account with that phone, or null exactly when no account has it. |
| `UserRepo.FindUserById` | server/src/repository/user/user.repository.ts:53-62 | `getUserDataWithId`: the stored account with that id, or null exactly when no account has it. |
| `UserRepo.NewUser` | server/src/repository/user/user.repository.ts:15-23 | The inserted record carries the given names, email, phone, password and date of birth, and the interests as its preferences. |
| `UserRepo.UserRepository.InsertUser` | server/src/repository/user/user.repository.ts:13-28 | Appends exactly one record under an id no stored record has. |
| `UserRepo.UserRepository.UpdatePassword` | server/dist/repository/user/user.repository.js:87-97 | Sets the password of the record with that id. Returns true exactly when the stored value changed; an unknown id changes nothing and returns false. |
| `UserSvc.LoginLookup` | server/src/services/user/user.service.ts:57-62 | The lookup is by email when the login id is an email, otherwise by phone. It finds nothing exactly when no stored account has that email, or that phone. |
| `UserSvc.UserService.CreateUser` | server/src/services/user/user.service.ts:24-52 | A taken email or phone gives 409 ACCOUNT_EXISTS and inserts nothing. Otherwise exactly one record is appended, under a fresh id, holding the hash of the password, and the answer is 201. |
| `UserSvc.UserService.AuthenticateUser` | server/src/services/user/user.service.ts:55-97 | An unknown account gives 404 and a wrong password 401, both without an id. A match gives 200 with the found account's id. |
| `UserSvc.UserService.GetUserData` | server/src/services/user/user.service.ts:100-112 | Null exactly for an unknown id; otherwise the account with that id. |
| `UserSvc.UserService.ChangePassword` | server/src/services/user/user.service.ts:124-164 | An unknown id gives 404 and a wrong current password 401, neither changing the store. Otherwise the stored password becomes the hash of the new one. The answer is 200 if that changed the record, else 400 PASSWORD_UPDATE_FAILURE. |
| `UserSlice.Reduce` | client/src/Redux/Slices/UserSlice.ts:18-25 | `setUser` sets both fields to the payload whatever they held; `clearUser` gives no id and an empty login id. |
| `UserSlice.EndsClearedIsInitial` | client/src/Redux/Slices/UserSlice.ts:22-25 | Any sequence of actions ending in `clearUser` leads to the initial state. |
| `UserSlice.LastActionDecides` | client/src/Redux/Slices/UserSlice.ts:18-25 | The state after a non-empty sequence of actions depends only on the last one. |
| `UserSlice.ClearAbsorbs` | client/src/Redux/Slices/UserSlice.ts:18-25 | `clearUser` is idempotent, and `setUser` followed by `clearUser` equals `clearUser` alone. |
| `UserSlice.Session.constructor` | client/src/Redux/Slices/UserSlice.ts:9-12 | The initial state has no id and an empty login id. |
| `UserSlice.Session.SetUser` | client/src/Redux/Slices/UserSlice.ts:18-21 | After `setUser` the state is the payload. |
| `UserSlice.Session.ClearUser` | client/src/Redux/Slices/UserSlice.ts:22-25 | After `clearUser`, from any state, the state is the initial one. |
| `AddArticleForm.ImageIssues` | client/src/Components/AddArticle.tsx:12-44 | The images are accepted iff there are exactly two files, each of type image/jpeg, image/png or image/gif and at most 5·1024·1024 bytes. Each broken rule reports its own message on `images`. |
| `AddArticleForm.ArticleIssues` | client/src/Components/AddArticle.tsx:46-51 | The form is accepted iff the name and description are non-empty and the image rules hold. The category never has an issue, and each field has an issue exactly when its rule fails. |
| `EditArticleForm.EditImageIssues` | client/src/Components/EditArticle.tsx:12-62 | An empty list passes every image check. A non-empty list gets exactly the issues the creation form reports. |
| `EditArticleForm.EditArticleIssues` | client/src/Components/EditArticle.tsx:64-69 | The form is accepted iff the name and description are non-empty, and the image list is empty or satisfies the creation rules. |
| `EditArticleForm.EditAgreesWithCreate` | client/src/Components/EditArticle.tsx:24-69 | With new images the edit form accepts exactly what the creation form accepts. Without images it needs only the text fields, which the creation form never accepts. |
| `SignUpForm.DetailIssues` | client/src/Components/SignUp.tsx:15-23 | The email, names and phone rules hold iff no issue is reported. Only a broken phone rule puts an issue on `phone`. |
| `SignUpForm.AccountIssues` | client/src/Components/SignUp.tsx:24-27 | At least one interest, a date of birth, a password of at least 8 characters and a confirmation are required. Only a short password puts an issue on `password`. |
| `SignUpForm.SignUpIssues` | client/src/Components/SignUp.tsx:13-32 | The form is accepted iff every field rule holds and the passwords match. A mismatch is reported on `confirmPassword`, last, even when other fields fail. The phone may be empty or ten digits starting with 6-9. |
| `SignUpForm.AcceptedPhoneIsServerPhone` | client/src/Components/SignUp.tsx:21 | Every non-empty phone the form accepts satisfies the server's `isPhone`. |
| `SignUpForm.PrefixedPhoneRefused` | client/src/Components/SignUp.tsx:18-23 | Every phone the server accepts only in a `+91` form, with or without a separator, is refused by the form, with an issue on `phone`. |
| `SignInForm.SignInIssues` | client/src/Components/SignIn.tsx:11-18 | Accepted iff the login id is a bare ten-digit 6-9 phone or matches the email pattern, and the password has at least 8 characters. |
| `SignInForm.AcceptedLoginIdIsValid` | client/src/Components/SignIn.tsx:14 | Every login id the form accepts satisfies the server's `validateLoginId`. |
| `SignInForm.PrefixedPhoneOnlyOnServer` | client/src/Components/SignIn.tsx:14 | The converse fails: `+919876543210` satisfies `validateLoginId` but is refused by the form. |
| `SignInForm.SignedInSession` | client/src/Components/SignIn.tsx:41 | The session payload is the id the server answered with and the login id as typed. |
| `SignInForm.OnSignInSuccess` | client/src/Components/SignIn.tsx:40-42 | After a successful sign-in the session holds that payload. |
| `ChangePasswordForm.PasswordIssues` | client/src/Components/ChangePassword.tsx:11-20 | Accepted iff all three fields have at least 8 characters and the new password equals its confirmation. A mismatch is reported on `confirmNewPassword`, last. |
| `ChangePasswordForm.Payload` | client/src/Components/ChangePassword.tsx:46-49 | The request carries the current and the new password only. |
| `ChangePasswordForm.ReuseAccepted` | client/src/Components/ChangePassword.tsx:11-20 | Nothing relates the current password to the new one: reusing it is accepted. |
| `ProfileForm.ProfileIssues` | client/src/Components/profile.tsx:10-21 | Accepted iff both names have 1 to 50 characters, the date of birth parses to a time strictly before now, and there is at least one preference. Each field has an issue exactly when its rule fails. |
| `ArticleCard.DescriptionPreview` | client/src/Components/MyArticles.tsx:140-142 | Up to 80 characters are shown unchanged. A longer description shows its first 80 characters and `...`. The preview never exceeds 83 characters and agrees with the description on its first 80 characters. |
| `ArticleCard.CategoryLabel` | client/src/Components/MyArticles.tsx:145 | The label is the first category, or `Uncategorized` when the list is empty or its first entry is the empty string. |

## Left out

- Express controllers, routes, cookies and JWT issuing and checking are left out, because they are HTTP plumbing and foreign library calls. `AuthenticateUser` returns the account id instead of tokens.
- Password hashing and comparison (bcrypt) are abstract functions, not a model of bcrypt.
- Image upload (Cloudinary, multer) is the opaque `upload` parameter. The source article service's `createArticle` (article.service.ts:17-38) first looks the author up and answers 404 PROFILE_FETCH_FAILURE for an unknown id, before any upload. It then uploads and makes the insert that `ArticleRepository.AddArticle` models. The author check and the upload are not modelled, so `createArticle` has no member of its own.
- Database ids, the clock behind `createdAt` and the id generator are modelled as natural numbers and integers.
- ArticleRepo.ArticleRepository.UpdateOne: reports a change only when a modelled field changes. The article schema's `timestamps` option would also set `updatedAt` on every matched update, which would make the repository's booleans true for any existing record. The database behaviour is not modelled.
- ArticleRepo.ArticleRepository.UpdateArticleBlock, ArticleRepo.ArticleRepository.UpdateDeleteArticle, ArticleRepo.ArticleRepository.ReactToArticle, ArticleRepo.ArticleRepository.UpdateArticle, ArticleSvc.ArticleService.BlockArticle, ArticleSvc.ArticleService.DeleteArticle and ArticleSvc.ArticleService.UpdateArticle: inherit the `updatedAt` gap from `UpdateOne`. In the program they answer true for every existing record; in the model they answer true only when a modelled field changed.
- UserRepo.UserRepository.UpdatePassword: reports a change only when the stored hash changes. The user schema also sets `timestamps: true` (user.model.ts:52), so the program's `updateOne` reports a change for every matched record, and its false answer comes only from the catch of a failed write (dist user.repository.js:92-95). Neither the `updatedAt` write nor the failure is modelled.
- UserSvc.UserService.ChangePassword: answers 400 PASSWORD_UPDATE_FAILURE when the new hash equals the stored one. In the program, because of `updatedAt`, that answer comes only from a failed write. Also, as the line on `select: false` below says, the program as written throws before reaching its 401 and 200 branches.
- UserSvc.UserService.AuthenticateUser: models the intended sign-in, where the lookup supplies the stored hash. The user schema marks `password` as `select: false` (user.model.ts:41), so the program's `findOne` returns no password. `comparePasswords` then calls `bcrypt.compare` with an undefined hash, which rejects, and `comparePasswords` rethrows (hash.password.ts:17-25). Sign-in therefore ends in "Failed to sign in" (user.service.ts:93-96) for every existing account instead of 401 or 200. `changePassword` ends in "Failed to change password" (user.service.ts:160-163) in the same way.
- Storage failures and thrown errors are not modelled. Every repository method catches a failed query and rethrows `new Error("Failed …")` (for example article.repository.ts:19-22, 144-147, 184-187). The services rethrow as well (user.service.ts:95, 110, 162). The dist `updatePassword` turns a failure into `false` instead. Every modelled call succeeds.
- ArticleModel.SortNewestFirst: keeps records with the same `createdAt` in store order. The database leaves their order unspecified, so the model fixes one of the allowed orders.
- The schema-level cleaning of values is not modelled: `trim` on article names and descriptions, the lower-casing of emails, and the `select: false` on stored passwords. The lookups here return the stored password, which the program's lookups do not; the consequence is stated on the `AuthenticateUser` line above.
- The category is a list of strings throughout. The form sends a single string, and the cast to a one-element list is the ORM's.
- The service's key renaming (lodash `camelCase`) is not modelled: the reads return the repository's records as they are.
- Comparing a user id with the entries of `likes` and `dislikes` is modelled as set membership, that is, comparison by value.
- Concurrency between the service's read and the repository's write is not modelled: each call is one sequential step.
- `findAll`, `delete`, profile editing and the user repository's other updates are not part of this model.
- String lengths count Unicode characters, where JavaScript counts UTF-16 code units. The two differ only for characters outside the Basic Multilingual Plane.
- The zod `.trim()` transform of the article forms is not modelled; the minimum-length check applies to the value as typed.
- File inputs that are not a list, which the first `z.custom` check of the file schemas rejects, are not modelled.
- zod's email check is the parameter `zodEmail`. The date parser and the clock of the profile form are the parameters `parse` and `now`.
- React rendering, navigation, toasts, axios helpers and Redux store persistence are left out.
