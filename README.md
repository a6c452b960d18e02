# Student-application service: a verified model

This project models the core of a small Express/Mongoose backend. Applicants use it to
submit a student application, and administrators use it to list, fetch and delete
applications. The model has two parts.

- **The schema** (`models/student.model.js`) lists eight paths, each with its setters
  (`trim`, `lowercase`) and its validators, and a unique index on `email`. The model has
  one acceptance predicate per path (`NameAccepted`, `EmailAccepted`, …). It also has each
  path's validator chain, which yields the message of the first failing validator.
  `Validate` gives the list of failing paths with their messages. `Normalize` gives the
  document Mongoose saves, with the setters applied.
- **The four handlers** (`controllers/student.controller.js`).
  - `createStudent` and `deleteStudentById` change the collection. They are methods of a
    `Store` class. The class holds the records in creation order and a strictly
    increasing id counter, which stands in for ObjectId order.
  - `getAllStudents` and `getStudentById` only read. They are functions of the records.
  - The `forEach` that builds the 400 payload is a loop (`ErrorsToMap`).

The module `Text` models the JavaScript string primitives the schema relies on:
- `trim`, which strips the ECMAScript WhiteSpace and LineTerminator code points;
- `toLowerCase`;
- `length`, which counts UTF-16 code units;
- `indexOf` and `replace` with a string pattern, including the `$` patterns of the
  replacement text.

The module `PhonePattern` models the phone regular expression `^[\+]?[1-9][\d]{0,15}$` as an
anchored sequence of quantified character classes. It proves that the expression accepts
exactly an optional `+` followed by 1 to 16 digits, the first of which is not zero.

The store keeps this invariant (`StoreInvariant`, `Store.Valid`):
- ids ascend with creation order and stay below the counter;
- no two records share an email;
- every record is a conforming, normalised document: trimmed, its email already in lower
  case, and every path but the date accepted; the date was not after `now` when the
  record was saved.

Creates and deletes preserve the invariant, so no sequence of requests (`Replay`) can store
the same email twice.

Three things are parameters of the model: the clock (`now`), the validator library's
`isEmail`, and the ObjectId cast (`castId`; `ValidId` holds when the cast succeeds).

Two consequences of the order of the checks in `createStudent`:
- A create is refused with 409 only while a record with that email is stored. Once that
  record is deleted, the email can be used again.
- The duplicate pre-check runs before validation. So a submission whose email is already
  stored gets 409 even when its other fields are invalid.

The enum message of `country` is built the way Mongoose builds it, with
`message.replace('{VALUE}', value)`. That is JavaScript string replacement, so the `$`
patterns of a rejected value are expanded: the country `$&` is reported as
"{VALUE} is not a valid country option" and `$$` as "$ is not a valid country option".

## Model

| member | source | states |
|---|---|---|
| Text.Trim | models/student.model.js:9 | the trimmed string is no longer than the input and has no whitespace at either end |
| Text.TrimInfix | models/student.model.js:9 | the input is whitespace, then its trim as a contiguous slice, then whitespace: trimming removes only whitespace, and only at the ends |
| Text.TrimFixedPoint | models/student.model.js:9 | a string is its own trim exactly when neither end is whitespace |
| Text.TrimIdempotent | models/student.model.js:9 | trimming twice is trimming once |
| Text.TrimEmpty | models/student.model.js:8-9 | a value trims to the empty string (and so fails `required`) exactly when it is all whitespace |
| Text.Utf16Length | models/student.model.js:10-11 | the length the bounds compare is between the number of code points and twice that number, and is zero only for the empty string |
| Text.Utf16LengthConcat | models/student.model.js:10-11 | the UTF-16 length of a concatenation is the sum of the lengths |
| Text.Utf16LengthCounts | models/student.model.js:10-11 | the UTF-16 length is the number of code points plus one for each code point above U+FFFF |
| Text.Lower | models/student.model.js:18 | lowercasing keeps the length and leaves no upper-case letter |
| Text.LowerIdempotent | models/student.model.js:18 | lowercasing twice is lowercasing once |
| Text.LowerFixedPoint | models/student.model.js:18 | a string is its own lowercase exactly when it holds no upper-case letter |
| Text.IndexOf | models/student.model.js:53 | the position found is the first at or after the start where the pattern occurs; -1 means it occurs nowhere from there on |
| Text.Substitution | models/student.model.js:53 | the replacement text with its `$` patterns expanded for a match without capture groups: `$$` is one `$`, `$&` the match, `` $` `` the text before it, `$'` the text after it, every other `$` kept; SubstitutionLiteral and the CountryMessage lemmas state its results |
| Text.Replace | models/student.model.js:53 | when the pattern occurs nowhere the string is unchanged; when its first occurrence is at position i, the result is the text before i, then the expanded replacement, then the text after the occurrence |
| Text.SubstitutionLiteral | models/student.model.js:53 | a replacement without `$` is inserted unchanged |
| Text.ReplaceLiteral | models/student.model.js:53 | a replacement without `$` takes the place of the first occurrence and nothing else changes |
| PhonePattern.PhonePatternMeaning | models/student.model.js:29 | the regular expression accepts a string exactly when it is an optional '+', then a digit 1-9, then at most 15 more digits (1 to 16 digits in all) |
| StudentModel.NameCheck | models/student.model.js:6-12 | name passes exactly when its trim has 2 to 100 UTF-16 units; a missing or blank name gets "Name is required", a short one the minlength message, a long one the maxlength message |
| StudentModel.EmailCheck | models/student.model.js:14-20 | email passes exactly when it is non-empty and its lowercase satisfies isEmail; a missing or empty email gets "Email is required", an invalid one "Please provide a valid email address" |
| StudentModel.PhoneCheck | models/student.model.js:22-33 | phone_number passes exactly when its trim is an optional '+' and 1 to 16 digits with a non-zero first digit; missing or blank gets the required message, anything else that fails the pattern gets "Please provide a valid phone number" |
| StudentModel.CountryCheck | models/student.model.js:36-55 | country passes exactly when it equals one of the 11 listed values; a missing or empty value gets "Country selection is required"; any other value gets the template's `{VALUE}` replaced by the value with its `$` patterns expanded, followed by " is not a valid country option" |
| StudentModel.CountryMessageShape | models/student.model.js:53 | filling in the template is expanding the value's `$` patterns (empty text before the placeholder, the suffix after it) and appending the suffix |
| StudentModel.CountryMessagePlain | models/student.model.js:53 | a rejected value without `$` is named as submitted: "S is not a valid country option" |
| StudentModel.CountryMessageDollar | models/student.model.js:53 | a rejected value `$&`, `$$`, `` $` `` or `$'` is reported as the placeholder, one `$`, nothing or the suffix, followed by the suffix |
| StudentModel.CountryMessageDollarKept | models/student.model.js:53 | a `$` followed by any other character, a digit among them, is kept in the message |
| StudentModel.TextCheck | models/student.model.js:58-77 | field, specialization and academic_qualification pass exactly when the trim has 1 to 100 UTF-16 units; missing or blank gets that path's required message, longer than 100 its maxlength message |
| StudentModel.DateCheck | models/student.model.js:79-89 | the date passes exactly when it is present and not after now; a missing date gets the required message, a future date "Date of academic qualification cannot be in the future" |
| StudentModel.PathCheck | models/student.model.js:4-92 | each path's validator chain, reporting the message of its first failing validator; PathCheckMeaning states when it passes |
| StudentModel.PathCheckMeaning | models/student.model.js:4-92 | each path's validator chain reports no error exactly when that path's acceptance predicate holds |
| StudentModel.ErrorsOf | models/student.model.js:4-92 | the errors name only given paths, each with its own chain's message, and every given path whose chain fails appears |
| StudentModel.ErrorsOfDistinct | models/student.model.js:4-92 | over distinct paths, no path is reported twice |
| StudentModel.Validate | controllers/student.controller.js:30-39 | the errors of the ValidationError `Student.create` raises, at most one per path; ValidateMeaning states which |
| StudentModel.ValidateMeaning | models/student.model.js:4-92 | the validation errors name exactly the failing paths, once each, with each path's own message; a document saves exactly when no path fails |
| StudentModel.AllPathsAccepted | models/student.model.js:4-92 | a document with no failing path has every field present and every path accepted |
| StudentModel.Normalize | models/student.model.js:4-92 | the saved document carries the assigned id, trimmed strings with no whitespace at either end, an email with no upper-case letter and of the submitted length, and the submitted country and date |
| StudentModel.ConformingIsNormal | models/student.model.js:9-75 | re-applying the setters to a conforming stored document leaves it unchanged |
| StudentModel.NormalizeConforms | models/student.model.js:4-92 | the document saved from a valid submission is trimmed and lower-cased, has every path accepted, and has a date no later than now |
| StudentModel.NormalizeIdempotent | models/student.model.js:4-92 | a saved document, submitted again, validates and is saved unchanged |
| StudentController.NewestFirst | controllers/student.controller.js:101 | the newest-first order has as many records as the collection; NewestFirstPermutes and NewestFirstDescending state what it holds and in which order |
| StudentController.NewestFirstDescending | controllers/student.controller.js:101 | with ids ascending in creation order, the newest-first order is strictly descending by id |
| StudentController.NewestFirstPermutes | controllers/student.controller.js:97-101 | sorting newest first keeps the same records with the same multiplicities |
| StudentController.CeilDiv | controllers/student.controller.js:111 | the page count holds all records and one page fewer would not |
| StudentController.CeilDivIsCeiling | controllers/student.controller.js:111 | the page count q satisfies q·limit ≥ total and (q−1)·limit < total, which makes it ceil(total / limit); it is zero only for an empty collection |
| StudentController.PageOf | controllers/student.controller.js:99-100 | the window holds at most limit records, none when skip is past the end, and otherwise min(limit, size − skip) of them |
| StudentController.PageOfIndex | controllers/student.controller.js:99-100 | the returned slice holds the sorted records from position skip onwards, in order |
| StudentController.ListStudents | controllers/student.controller.js:89-113 | total is the collection size, page echoes the request, count is the length of data, data holds at most limit records, and pages is the least page count that holds every record |
| StudentController.GetAllStudents | controllers/student.controller.js:91 | an absent page is 1 and an absent limit is 10: the response echoes the page in force and holds at most the limit in force |
| StudentController.DefaultQuery | controllers/student.controller.js:91-111 | a request without page or limit gets page 1, the ten newest records (all of them when fewer), and the least number of pages of ten that hold the collection |
| StudentController.ListStudentsMeaning | controllers/student.controller.js:91-111 | data holds the newest-first records from index (page−1)·limit, min(limit, total − skip) of them, and is empty past the end; pages·limit ≥ total > (pages−1)·limit |
| StudentController.PagesCoverAllRecords | controllers/student.controller.js:94-111 | requesting pages 1 to the reported page count in turn yields every record exactly once, newest first |
| StudentController.PageDescending | controllers/student.controller.js:97-101 | within a page, records are strictly newest first by id |
| StudentController.PagesOrdered | controllers/student.controller.js:94-101 | every record on an earlier page is newer than every record on a later page |
| StudentController.ValidId | controllers/student.controller.js:150-155 | holds when the id casts; GetStudentById and DeleteById (at :197-202) answer 400 exactly when it does not |
| StudentController.IndexOfId | controllers/student.controller.js:132 | the position found holds the requested id; when none is found, no record has it |
| StudentController.GetStudentById | controllers/student.controller.js:127-162 | 400 exactly when the id does not cast, 404 exactly when it casts but no record has it, otherwise 200 with a stored record carrying that id; the 404 and 400 responses carry "Student not found" and "Invalid student ID format" (`GetResponse.Message`) |
| StudentController.ErrorsToMap | controllers/student.controller.js:58-62 | the loop's map has exactly one key per error path; the last message written for a key is the one kept |
| StudentController.ValidationPayload | controllers/student.controller.js:58-69 | the 400 payload's keys are exactly the failing paths' names, each mapped to that path's own validator message |
| StudentController.EmailTaken | controllers/student.controller.js:21 | the duplicate lookup finds a stored record whose email is the lowercase of the submitted one; EmailLookupIgnoresCase states that case never matters |
| StudentController.EmailLookupIgnoresCase | controllers/student.controller.js:21 | the lookup finds a record for an email exactly when it finds one for its lowercase |
| StudentController.StoredEmailsLowercase | models/student.model.js:18 | every stored email is a fixed point of lowercasing |
| StudentController.AppendKeepsInvariant | models/student.model.js:17 | appending a conforming record with a fresh id and an email not yet stored keeps ids ascending and emails unique |
| StudentController.AdmitKeepsInvariant | controllers/student.controller.js:20-39 | storing the normal form of a valid submission whose email is not taken keeps the store invariant, with a fresh id |
| StudentController.RemoveKeepsInvariant | controllers/student.controller.js:172 | removing one record keeps the store invariant, and no remaining record has the removed id |
| StudentController.Store.Create | controllers/student.controller.js:7-84 | a stored email gives 409 with the store unchanged; otherwise failing paths give 400 with exactly those keys and messages and the store unchanged; otherwise the normalised document is appended under a fresh id, the counter advances, and 201 reports the stored id, name, email and country |
| StudentController.Store.DeleteById | controllers/student.controller.js:167-209 | an id that does not cast gives 400 and an absent id 404, both with the store unchanged; otherwise exactly that record is removed, the others keep their order, and 200 reports its id, name and email; afterwards no record has that id |
| StudentController.CreateTwice | controllers/student.controller.js:20-27 | after a successful create, the same submission again gets 409 and the store has grown by exactly one |
| StudentController.DeleteTwice | controllers/student.controller.js:172-179 | a second delete of the same id never succeeds: after a successful delete it gets 404, and a fetch of the id gets 404 too |
| StudentController.Handle | controllers/student.controller.js:7-209 | one create or delete keeps the store valid and answers with one of that handler's status codes |
| StudentController.Replay | controllers/student.controller.js:21-27 | any sequence of creates and deletes keeps the store valid, so no two records ever share an email |

## Left out

- Express routing, middleware, the server bootstrap and the logger (`logger.info` / `logger.error`): framework glue and I/O.
- The 500 "Internal server error" branches: they depend on database failures, which the model does not have.
- Concurrency. Requests are handled one at a time. So the duplicate-key (11000) fallback at controllers/student.controller.js:72-77 cannot be reached: the pre-check already refuses every email the unique index would.
- `validator.isEmail` is the parameter `isEmail`, and the ObjectId cast is the parameter `castId`; their internals are not modelled.
- The clock is the parameter `now`. Nothing relates the `now` of one request to the next, so "stored dates are not in the future" is proved at save time only.
- Text.Lower: lowercases ASCII letters only, because JavaScript's `toLowerCase` applies full Unicode case mapping, which is not modelled.
- Lone surrogates: every Dafny `char` is a Unicode scalar value, so strings holding an unpaired UTF-16 surrogate cannot be expressed.
- Values of the wrong JSON type are not modelled. Mongoose's String cast of numbers, its Date cast of strings, and the CastError message a bad date gives all fall outside. Submitted strings and dates are typed values or absent.
- Query-string coercion in `getAllStudents`: a given `page` or `limit` is taken as an integer ≥ 1, and an absent one takes its default of 1 or 10 (`GetAllStudents`). `limit = 0`, `page = 0`, negative values and non-numeric strings are not modelled.
- `select('-__v')`: the version key is not part of the stored record.
- `findOne({ email: undefined })`: a submission without an email is taken to match no stored record. What the driver does with an undefined filter depends on its settings.
- The duplicate check compares the lowercased submitted email, since Mongoose applies the `lowercase` setter to query filters. It does not model Mongoose versions or options that skip that.
