# EventHub upload, display and request-validation rules in Dafny

EventHub is an event-listing web application: an Express/Mongoose backend
with sign-up/log-in and event routes, and a React front end. Most of it is
plumbing over libraries (Mongoose, the Cloudinary SDK, React). This project
models the parts whose behaviour is written out in the repository itself,
and proves what they promise:

- **Image-upload helpers** (`backend/Middlewares/cloudinaryConfig.js`):
  - the start-up check that `CLOUD_NAME`, `CLOUD_API_KEY` and
    `CLOUD_API_SECRET` are set;
  - the `public_id` naming rule `event_<timestamp>_<basename>`;
  - `validateImageFile`: MIME type first, then the inclusive 5 MiB bound;
  - `handleCloudinaryError`: the first case-sensitive substring match picks
    one of six user-facing messages.
- **My Events page** (`frontened/demo/src/pages/MyEvents.jsx`):
  - `getImageUrl`: fallback picture, absolute URL kept, or server-relative
    path prefixed with the backend origin;
  - the card's price label.
- **Request-body validators** (`backend/Middlewares/Authvalidation.js`): the
  joi schemas of `signup` and `login`, and what each middleware does
  (answer 400, or call `next`).

Everything is pure, so the model uses datatypes, functions and lemmas, one
module per source file:

- `cloudinary_config.dfy` — `CloudinaryConfig`.
- `my_events.dfy` — `MyEvents`.
- `auth_validation.dfy` — `AuthValidation`.
- `strings.dfy` — `Strings`: the JavaScript string operations these files
  call. `startsWith` is defined directly as the prefix test. `includes`,
  `split`, `join`, `toUpperCase` and `String(n)` are each paired with an
  independent characterisation or an inverse.
- `wrappers.dfy` — `Wrappers`: `Option` and `Result`.

The environment, the upload time and joi's email grammar are parameters:

- `process.env` is a `map<string, string>`.
- `Date.now()` is a `timestamp: nat`.
- joi's email grammar is a predicate `isEmail: string -> bool`.

A thrown `Error` is a `Result.Failure` that carries its message.

How the joi schemas are read:

- Each key is `joi.string().required()`, so an absent key, a value that is
  not a string and the empty string are all rejected.
- joi reports only the first error.
- It checks the declared keys in schema order, then looks for keys the
  object schema does not allow (joi forbids unknown keys by default).

## Model

| member | source | states |
|---|---|---|
| CloudinaryConfig.CheckEnv | backend/Middlewares/cloudinaryConfig.js:16-22 | the module-load check; every error it throws is "Missing required environment variables: " followed by the missing names joined by ", " (which names: MissingEnvVarsMembers, in declared order: MissingEnvVarsAppend; when it throws: CheckEnvFailsIffMissing) |
| CloudinaryConfig.IsSet | backend/Middlewares/cloudinaryConfig.js:17 | `process.env[name]` is truthy: present and not the empty string; used by MissingEnvVarsMembers |
| CloudinaryConfig.MissingEnvVars | backend/Middlewares/cloudinaryConfig.js:17 | the filtered list is never longer than the list of required names |
| CloudinaryConfig.MissingEnvVarsMembers | backend/Middlewares/cloudinaryConfig.js:16-17 | a name is reported missing exactly when it is required and is absent or empty in the environment |
| CloudinaryConfig.MissingEnvVarsAppend | backend/Middlewares/cloudinaryConfig.js:17 | the filter distributes over concatenation, so missing names keep the order of the required list |
| CloudinaryConfig.CheckEnvFailsIffMissing | backend/Middlewares/cloudinaryConfig.js:16-22 | module load throws exactly when at least one of the three variables is missing or empty |
| CloudinaryConfig.CheckEnvNamesMissing | backend/Middlewares/cloudinaryConfig.js:19-21 | for any missing or empty required variable, the thrown message starts with the fixed prefix and contains that variable's name |
| CloudinaryConfig.CheckEnvAllMissing | backend/Middlewares/cloudinaryConfig.js:16-21 | with an empty environment the message lists all three names joined by ", " in their declared order |
| CloudinaryConfig.CheckEnvOnlyMissingNamed | backend/Middlewares/cloudinaryConfig.js:17-21 | for every environment in which exactly one required variable is missing or empty, the message names that variable and nothing else |
| CloudinaryConfig.CheckEnvEmptyIsMissing | backend/Middlewares/cloudinaryConfig.js:17-21 | an example: with CLOUD_API_SECRET set to "" and the other two set, the message is the prefix followed by "CLOUD_API_SECRET" |
| CloudinaryConfig.PublicId | backend/Middlewares/cloudinaryConfig.js:61-65 | the id starts with "event_" and ends with the original name's text before its first '.' |
| CloudinaryConfig.PublicIdRoundTrip | backend/Middlewares/cloudinaryConfig.js:61-65 | the id can be parsed back into the timestamp and the base name, even when the base name holds '_' |
| CloudinaryConfig.PublicIdBaseName | backend/Middlewares/cloudinaryConfig.js:63-64 | the id ends with "_" plus the base name; the base name has no '.', starts the original name, and is the whole name when that has no '.' |
| CloudinaryConfig.FormatErrorMessage | backend/Middlewares/cloudinaryConfig.js:104-105 | the format error always ends with the fixed "format is not supported" sentence; what comes before it is stated by FormatErrorNamesExtension and FormatErrorOfExtension |
| CloudinaryConfig.ValidateImageFile | backend/Middlewares/cloudinaryConfig.js:99-113 | succeeds exactly when the MIME type is one of the seven allowed and the size is at most 5 MiB, and then returns true; a type outside the list throws the format error, and an allowed type over 5 MiB throws the size error at every size |
| CloudinaryConfig.RejectsUnknownType | backend/Middlewares/cloudinaryConfig.js:100-106 | any other MIME type gives the format error, never the size error, whatever the size |
| CloudinaryConfig.SizeBoundInclusive | backend/Middlewares/cloudinaryConfig.js:101-112 | with an allowed type, 5242880 bytes pass and 5242881 bytes give the size error |
| CloudinaryConfig.FormatErrorNamesExtension | backend/Middlewares/cloudinaryConfig.js:104-105 | the format error starts with the upper-cased text after the name's last '.', which is dot-free and is the whole name when the name has no '.' |
| CloudinaryConfig.FormatErrorOfExtension | backend/Middlewares/cloudinaryConfig.js:104-105 | for any name stem.ext with dot-free ext, the format error is EXT followed by the fixed sentence |
| CloudinaryConfig.HandleCloudinaryError | backend/Middlewares/cloudinaryConfig.js:116-130 | the reply is always one of the six fixed messages |
| CloudinaryConfig.HandleCloudinaryErrorFirstMatch | backend/Middlewares/cloudinaryConfig.js:117-126 | reply k is given exactly when needle k occurs and no earlier needle occurs |
| CloudinaryConfig.HandleCloudinaryErrorDefault | backend/Middlewares/cloudinaryConfig.js:127-129 | the generic reply is given exactly when none of the five needles occurs |
| CloudinaryConfig.RepliesDistinct | backend/Middlewares/cloudinaryConfig.js:117-129 | the six replies are pairwise different, so the reply identifies the case taken |
| CloudinaryConfig.TimeoutIsCaseSensitive | backend/Middlewares/cloudinaryConfig.js:123-128 | "Request Timeout" matches neither "timeout" nor anything else and gets the generic reply |
| CloudinaryConfig.TimeoutBeforeNetwork | backend/Middlewares/cloudinaryConfig.js:123-126 | "network timeout" gets the timeout reply, not the network one |
| Strings.StartsWith | frontened/demo/src/pages/MyEvents.jsx:58 | `startsWith(p)`: the first |p| characters are p; the definition is the prefix test itself |
| Strings.Includes | backend/Middlewares/cloudinaryConfig.js:117-125 | `includes` as a left-to-right, case-sensitive search; characterised by Strings.IncludesIff |
| Strings.Join | backend/Middlewares/cloudinaryConfig.js:21 | `join(sep)` for any separator string, such as the ", " at :21, which puts the separator between consecutive pieces only; for one-character separators it is the inverse of Split (Strings.SplitJoin, Strings.JoinSplit) |
| Strings.FirstSegment | backend/Middlewares/cloudinaryConfig.js:63 | `split('.')[0]`; characterised by Strings.FirstSegmentSpec |
| Strings.LastSegment | backend/Middlewares/cloudinaryConfig.js:104 | `split('.').pop()`; characterised by Strings.LastSegmentSpec |
| Strings.Split | backend/Middlewares/cloudinaryConfig.js:63 | `split` yields at least one piece, so `[0]` and `pop()` always have a value |
| Strings.SplitPiecesSeparatorFree | backend/Middlewares/cloudinaryConfig.js:63 | no piece of a split contains the separator |
| Strings.SplitJoin | backend/Middlewares/cloudinaryConfig.js:104 | joining the pieces of a split with the separator gives back the original string |
| Strings.JoinSplit | backend/Middlewares/cloudinaryConfig.js:63 | for a one-character separator, splitting a join of separator-free pieces gives back the pieces |
| Strings.FirstSegmentSpec | backend/Middlewares/cloudinaryConfig.js:63 | `split(sep)[0]` is the longest separator-free prefix |
| Strings.LastSegmentSpec | backend/Middlewares/cloudinaryConfig.js:104 | `split(sep).pop()` is the longest separator-free suffix |
| Strings.LastSegmentAfterSeparator | backend/Middlewares/cloudinaryConfig.js:104 | text before a separator does not change the last piece |
| Strings.IncludesIff | backend/Middlewares/cloudinaryConfig.js:117-125 | `includes` holds exactly when the needle occurs at some index |
| Strings.NatToDecimal | backend/Middlewares/cloudinaryConfig.js:62-64 | a timestamp renders as a non-empty string of digits without a leading zero |
| Strings.IntToDecimal | frontened/demo/src/pages/MyEvents.jsx:144 | `String(n)` of a whole number begins with '-' exactly when the number is negative, and is digits otherwise |
| Strings.DecimalRoundTrip | backend/Middlewares/cloudinaryConfig.js:62-64 | reading the rendered digits gives back the number |
| Strings.IntDecimalRoundTrip | frontened/demo/src/pages/MyEvents.jsx:144 | `String(n)` reads back as n: the digits after the minus sign give -n for a negative n, and the whole text gives n otherwise |
| Strings.ToUpperCase | backend/Middlewares/cloudinaryConfig.js:104 | upper-casing keeps the length, turns each of a-z into its capital, keeps every other character, and leaves no a-z behind |
| Strings.ToUpperCaseIdempotent | backend/Middlewares/cloudinaryConfig.js:104 | upper-casing an upper-cased string changes nothing |
| MyEvents.IsFalsy | frontened/demo/src/pages/MyEvents.jsx:53 | `!eventImage` on a string image: undefined, null or the empty string; used by MyEvents.MissingImageGivesFallback |
| MyEvents.GetImageUrl | frontened/demo/src/pages/MyEvents.jsx:51-64 | every resolved URL starts with "http" |
| MyEvents.MissingImageGivesFallback | frontened/demo/src/pages/MyEvents.jsx:53-55 | an undefined, null or empty image gives the fixed fallback URL |
| MyEvents.AbsoluteUrlUnchanged | frontened/demo/src/pages/MyEvents.jsx:58-60 | an input starting with "http", https URLs included, is returned unchanged |
| MyEvents.RelativePathPrefixed | frontened/demo/src/pages/MyEvents.jsx:62-63 | any other non-empty input becomes "http://localhost:8080" followed by the input, so the input is a suffix |
| MyEvents.GetImageUrlIdempotent | frontened/demo/src/pages/MyEvents.jsx:51-64 | the URL is never empty, and resolving it again returns it unchanged |
| MyEvents.ImageSrc | frontened/demo/src/pages/MyEvents.jsx:107 | the image element's `src`: the resolved URL, or "/placeholder.svg" when that URL is falsy; MyEvents.PlaceholderNeverUsed shows the second case never happens |
| MyEvents.PlaceholderNeverUsed | frontened/demo/src/pages/MyEvents.jsx:107 | the `|| "/placeholder.svg"` fallback of the image element is never taken |
| MyEvents.PriceText | frontened/demo/src/pages/MyEvents.jsx:144 | the template-literal text of `event.price`: "undefined", "null" or the number's decimal digits; used by MyEvents.PaidLabelShowsPrice |
| MyEvents.PriceLabel | frontened/demo/src/pages/MyEvents.jsx:144 | the card's label; characterised by MyEvents.FreeLabelIff, MyEvents.PaidLabelShowsPrice and MyEvents.PaidLabelRoundTrip |
| MyEvents.FreeLabelIff | frontened/demo/src/pages/MyEvents.jsx:144 | the label is "Free" exactly when the event is free |
| MyEvents.PaidLabelShowsPrice | frontened/demo/src/pages/MyEvents.jsx:144 | a paid event's label is "$" followed by the price's text, including "undefined" and "null" |
| MyEvents.PaidLabelRoundTrip | frontened/demo/src/pages/MyEvents.jsx:144 | the digits after "$" read back as the price, for a non-negative whole price |
| AuthValidation.Lookup | backend/Middlewares/Authvalidation.js:8 | a key has a value exactly when some member of the body carries it |
| AuthValidation.LookupFirst | backend/Middlewares/Authvalidation.js:8 | the value found is the one of the first member carrying the key |
| AuthValidation.CheckRule | backend/Middlewares/Authvalidation.js:4-6 | one `joi.string()[.email()][.min(8)].required()` rule: absent, not a string, empty, not an email, too short, in that order; characterised by AuthValidation.CheckRuleNoneIff |
| AuthValidation.CheckRuleNoneIff | backend/Middlewares/Authvalidation.js:4-6 | a rule reports nothing exactly when the value is a non-empty string meeting its email and length demands |
| AuthValidation.CheckRules | backend/Middlewares/Authvalidation.js:3-8 | the first error among the declared keys, in schema order; see AuthValidation.CheckRulesNoneIff and AuthValidation.CheckRulesFirstError |
| AuthValidation.CheckRulesFirstError | backend/Middlewares/Authvalidation.js:3-8 | when the keys before position k pass and key k fails, the reported error is key k's |
| AuthValidation.FirstUnknownKey | backend/Middlewares/Authvalidation.js:3-8 | the first key the schema does not declare; see AuthValidation.FirstUnknownKeyNoneIff |
| AuthValidation.FirstUnknownKeyIs | backend/Middlewares/Authvalidation.js:3-10 | a reported unknown key (the one `NotAllowed` sends back in the 400 answer) belongs to a member of the body, is not declared, and every member before it is declared |
| AuthValidation.Validate | backend/Middlewares/Authvalidation.js:8 | `schema.validate` on an object body: declared keys first, then undeclared ones; characterised by AuthValidation.ValidateNoneIff |
| AuthValidation.ValidateBody | backend/Middlewares/Authvalidation.js:3-8 | `schema.validate(req.body)` on any body: an absent body passes, a non-object fails; characterised by AuthValidation.ValidateBodyNoneIff |
| AuthValidation.ValidateBodyNoneIff | backend/Middlewares/Authvalidation.js:3-8 | no error exactly when the body is absent or is an object the schema accepts |
| AuthValidation.Respond | backend/Middlewares/Authvalidation.js:9-12 | an error gives 400 with "Bad request" and the error, no error gives `next()`; see AuthValidation.MiddlewareEffects |
| AuthValidation.Signup | backend/Middlewares/Authvalidation.js:2-13 | the `signup` middleware; characterised by AuthValidation.SignupAcceptsIff and AuthValidation.MiddlewareEffects |
| AuthValidation.Login | backend/Middlewares/Authvalidation.js:14-24 | the `login` middleware; characterised by AuthValidation.LoginAcceptsIff and AuthValidation.MiddlewareEffects |
| AuthValidation.CheckRulesNoneIff | backend/Middlewares/Authvalidation.js:3-8 | the declared keys pass exactly when each holds a non-empty string that meets its email and length rules |
| AuthValidation.FirstUnknownKeyNoneIff | backend/Middlewares/Authvalidation.js:3-8 | no undeclared key is reported exactly when every key of the body is declared |
| AuthValidation.ValidateNoneIff | backend/Middlewares/Authvalidation.js:3-8 | the schema reports no error exactly on bodies that meet every rule and carry no other key |
| AuthValidation.SignupAcceptsIff | backend/Middlewares/Authvalidation.js:2-13 | on an object body, `signup` calls `next` exactly when name, email and password are non-empty strings, the email is valid, the password has at least 8 characters and nothing else is sent |
| AuthValidation.LoginAcceptsIff | backend/Middlewares/Authvalidation.js:14-24 | on an object body, `login` calls `next` exactly when email and password are valid, the password has at least 8 characters and nothing else is sent |
| AuthValidation.SignupRejectsMissingField | backend/Middlewares/Authvalidation.js:3-11 | a signup body without name, email or password is rejected; when the fields before the missing one are valid, the error reports the missing field as required |
| AuthValidation.ShortPasswordRejected | backend/Middlewares/Authvalidation.js:6-17 | both validators reject a password string shorter than 8 characters |
| AuthValidation.SignupAcceptsLongPassword | backend/Middlewares/Authvalidation.js:3-12 | a signup body with a name, a valid email and a password of 8 or more characters calls `next` |
| AuthValidation.LoginAcceptsWithoutName | backend/Middlewares/Authvalidation.js:15-23 | a login body with only a valid email and an 8+ character password calls `next`; no name is needed |
| AuthValidation.LoginRejectsName | backend/Middlewares/Authvalidation.js:15-22 | a login body that also carries `name` is rejected, since the schema does not declare it |
| AuthValidation.MiddlewareEffects | backend/Middlewares/Authvalidation.js:9-12 | on a rejected request the status is 400 with "Bad request" and `next` is not called; on an accepted one (absent body, or an accepted object) `next` is called exactly once and no status is set (both validators) |
| AuthValidation.RequestShape | backend/Middlewares/Authvalidation.js:3-12 | the object schema is optional: both validators pass on a request with no parsed body and answer 400 to a body that is not an object |

## Left out

- The Cloudinary SDK is not modelled: `cloudinary.config`, the connection
  ping, the `CloudinaryStorage` engine, `deleteImage` and
  `getOptimizedImageUrl` are network calls whose behaviour is not in the
  repository.
- Console output is not modelled: the development-only logging, the
  `console.error` of the missing variables at
  `backend/Middlewares/cloudinaryConfig.js:20` (every environment) and the
  `console.log` of the image at `frontened/demo/src/pages/MyEvents.jsx:52`
  (every call). None of it changes a result.
- The event routes, the Mongoose models, the auth controller, the server
  and database set-up, the React components and the auth context are not
  part of this model. They are library calls, I/O or rendering.
- `formatDate` and the fetch and navigation effects of the My Events page
  are not part of this model. They depend on `Date`, locale formatting and
  the network.
- Strings.ToUpperCase: maps only the ASCII letters a-z. JavaScript's full
  Unicode case mapping (for example 'ß' becoming "SS") is not modelled.
- AuthValidation.Validate: string lengths count Unicode scalar values,
  while joi's `min(8)` counts UTF-16 code units. The two differ for
  characters outside the Basic Multilingual Plane.
- AuthValidation.Validate: joi's email grammar is the parameter `isEmail`.
- AuthValidation.Validate: every non-string JSON value is the single case
  `JOther`.
- AuthValidation.Validate: a body is taken to have distinct keys, as
  `JSON.parse` produces; `Lookup` returns the first member with a key.
- Strings.JoinSplit: stated for one-character separators, as used by
  `split('.')`. No inverse is stated for the two-character `", "` join at
  `backend/Middlewares/cloudinaryConfig.js:21`. That message is pinned down
  instead by the contract of `CloudinaryConfig.CheckEnv` and by the
  `MissingEnvVars` lemmas.
- AuthValidation.FirstUnknownKey: looks at undeclared keys in the order the
  client sent them. JavaScript's `Object.keys` lists integer-like keys
  first, so when several undeclared keys are sent, joi may name a
  different one. Whether the answer is 400 does not depend on the order.
- AuthValidation.ValidateBody: a body that is not an object is one case,
  `NotAnObject`, with a single error. joi's wording for arrays, strings and
  other values is not modelled.
- CloudinaryConfig.ValidateImageFile: the size is a whole number of bytes.
  An absent or `NaN` size is not modelled. In JavaScript it would pass
  the size check, because the comparison is false.
- CloudinaryConfig.ValidateImageFile: the MIME type and the original name
  are always strings.
- MyEvents.PriceText: prices are whole numbers. JavaScript's rendering of
  fractions and exponents is not modelled.
- MyEvents.PriceLabel: `isFree` is a boolean rather than any truthy value.
- CloudinaryConfig.HandleCloudinaryError: the error always carries a string
  `message`. A `null` or `undefined` error, or one without a string
  `message`, would throw a `TypeError` at the first `includes`; that path is
  not modelled.
- MyEvents.GetImageUrl: only string images are modelled. A truthy
  non-string would throw at `startsWith`.
- CloudinaryConfig.PublicId: the timestamp is `Date.now()` supplied as a
  parameter; the clock itself is not modelled.
