# Shared helper layer: a verified Dafny model

This project models the helper layer that the frontend and backend packages share
(`packages/shared/src/utils.ts`). The layer:

- builds the uniform response envelope (`createApiResponse`, `createErrorResponse`);
- checks e-mail addresses (`isValidEmail`);
- reports the missing fields of a request body (`validateRequired`);
- strips angle brackets from user input (`sanitizeString`);
- generates version-4 UUID strings (`generateId`).

Every modelled helper is a pure expression, except that `generateId` reads `Math.random()`; its random draws become an input here. `formatDate`, which reads the clock, is left out. So the model is made of datatypes, functions and lemmas, with no classes and no loops.

Modules, one file each:

- `Wrappers`: `Option`, standing for a JavaScript optional property.
- `Types`: the `ApiResponse<T>` and `AppError` shapes of `packages/shared/src/types.ts`.
- `Js`: the JavaScript built-ins the helpers rely on:
  - the ECMAScript whitespace set, which `String.prototype.trim` and the regular-expression class `\s` share;
  - `trim`;
  - `ToBoolean` truthiness over a small `JsValue` datatype;
  - `Array.prototype.join`.
- `Seqs`: an order-preserving `Filter` (`Array.prototype.filter`, and a global character-class `replace` with `''`), with its characterisation as the unique subsequence that keeps every occurrence of the kept values.
- `Envelope`: the two envelope builders. Parameters that JavaScript leaves `undefined` are `None`.
- `Email`: `^[^\s@]+@[^\s@]+\.[^\s@]+$` as a deterministic automaton over the characters. It is proved equal to the declarative description "local part, `@`, domain part, `.`, last part; all non-empty; none holding whitespace or `@`".
- `Validation`:
  - The record is a `map<string, JsValue>` of own properties, and an absent key reads as `undefined`.
  - A field is missing when its value is falsy, or is a string that trims to nothing.
  - The result is `None` where the source returns `null`.
- `Sanitize`: `trim`, then delete every `<` and `>`.
- `IdGen`:
  - `Math.random()` is replaced by an input: `draws`, the 31 values of `Math.random() * 16 | 0` (each in 0..15), one for each `x` or `y` of the template, in order.
  - `Fill` is the `replace(/[xy]/g, ...)` over the template.
  - `GenerateId` fills the template `xxxxxxxx-xxxx-4xxx-yxxx-xxxxxxxxxxxx`.
  - `ParseId` reads the draws back.

## Model

| member | source | states |
|---|---|---|
| Envelope.CreateApiResponse | packages/shared/src/utils.ts:6-16 | the envelope holds the payload, the flag (default `true`) and the message exactly as given, and never sets `error` |
| Envelope.CreateErrorResponse | packages/shared/src/utils.ts:21-31 | the envelope is a failure with a `null` payload, the given message, and the given `error` (absent when not given) |
| Envelope.FailureWithoutError | packages/shared/src/utils.ts:21-31 | a failure envelope need not carry `error`: the error builder without a detail string leaves it unset, and `createApiResponse(d, false)` is a failure that keeps its payload |
| Envelope.ErrorResponseExample | packages/shared/src/utils.ts:21-31 | `createErrorResponse("bad input", "DETAIL")` is `{success: false, data: null, message: "bad input", error: "DETAIL"}` |
| Js.TrimStart | packages/shared/src/utils.ts:85 | the result is a suffix of the input, what was cut is all whitespace, and the result does not start with whitespace |
| Js.TrimEnd | packages/shared/src/utils.ts:85 | the result is a prefix of the input, what was cut is all whitespace, and the result does not end with whitespace |
| Js.Trim | packages/shared/src/utils.ts:85 | the result is an infix of the input whose margins are all whitespace and whose ends are not whitespace |
| Js.TrimUnique | packages/shared/src/utils.ts:85 | any infix with whitespace-only margins and non-whitespace ends is the trim: trimming has exactly one outcome |
| Js.TrimPadded | packages/shared/src/utils.ts:85 | whitespace + a run that starts and ends with non-whitespace + whitespace trims to that run |
| Js.TrimIdempotent | packages/shared/src/utils.ts:49 | trimming a trimmed string changes nothing |
| Js.TrimEmptyIff | packages/shared/src/utils.ts:49 | a string trims to `''` exactly when every character of it is whitespace |
| Js.Join | packages/shared/src/utils.ts:55 | the joined string is as long as the elements plus one separator per pair of neighbours, starts with the first element, and is that element for a one-element list |
| Js.JoinAppend | packages/shared/src/utils.ts:55 | joining a concatenation of two non-empty lists is the join of the first, the separator, and the join of the second; so every element appears in order with the separator exactly between neighbours |
| Js.JoinPair | packages/shared/src/utils.ts:55 | two elements join as the first, the separator, then the second |
| Seqs.Filter | packages/shared/src/utils.ts:48-50 | the result is no longer than the input; every element satisfies the condition; it equals the input iff every element does; it is empty iff none does |
| Seqs.FilterIsSubsequence | packages/shared/src/utils.ts:48-50 | the result keeps the input's order (it is a subsequence) |
| Seqs.FilterCount | packages/shared/src/utils.ts:48-50 | each kept value occurs in the result as often as in the input; any other value does not occur |
| Seqs.FilterUnique | packages/shared/src/utils.ts:48-50 | a subsequence with those occurrence counts is the filter's result |
| Seqs.FilterAppend | packages/shared/src/utils.ts:85 | filtering a concatenation filters each part |
| Email.IsValidEmailSplit | packages/shared/src/utils.ts:37 | the automaton accepts iff the string splits at an `@` into a non-empty run of allowed characters and a domain of allowed characters with a dot that has a character on each side |
| Email.ValidEmailHasParts | packages/shared/src/utils.ts:36-39 | an accepted string is `a + "@" + b + "." + c` with `a`, `b`, `c` non-empty and free of whitespace and `@` |
| Email.PartsAreValidEmail | packages/shared/src/utils.ts:36-39 | every such `a + "@" + b + "." + c` is accepted |
| Email.IsValidEmailIff | packages/shared/src/utils.ts:36-39 | `isValidEmail(s)` holds iff `s = a + "@" + b + "." + c` as above (`b` and `c` may contain further dots) |
| Email.ValidEmailNecessary | packages/shared/src/utils.ts:37 | an accepted string has no whitespace, exactly one `@` with a character before it, and after it a `.` with a character on each side; a string lacking any of these is refused |
| Email.AcceptedExamples | packages/shared/src/utils.ts:37-38 | `ab@cd.ef` and `a@b..` are accepted |
| Email.RefusedExamples | packages/shared/src/utils.ts:37-38 | `a b@c.d` (whitespace) and `a@b@c.d` (second `@`) are refused |
| Validation.IsMissingCases | packages/shared/src/utils.ts:49 | a value is missing exactly when it is `undefined`, `null`, `false`, `0`, `NaN`, `0n`, or a string of whitespace only (the empty string included) |
| Validation.MissingFields | packages/shared/src/utils.ts:48-50 | every reported field is missing from the record, and none is reported iff every required field is present |
| Validation.ValidateRequired | packages/shared/src/utils.ts:44-61 | the result is `null` iff every required field is present; otherwise an `AppError` with code `VALIDATION_ERROR`, message `Missing required fields: ` + the missing fields joined by `, `, and `details.missingFields` the non-empty list of missing fields |
| Validation.MissingFieldsExactly | packages/shared/src/utils.ts:48-50 | the missing fields are reported in the order of `requiredFields`, every occurrence of a missing field (duplicates too) and no occurrence of a present one |
| Validation.MissingFieldsUnique | packages/shared/src/utils.ts:48-50 | the reported list is the only list with those properties |
| Validation.EmptyRecordExample | packages/shared/src/utils.ts:52-58 | for `{}` and `["name", "email"]` the error message is `Missing required fields: name, email` and both fields are listed |
| Validation.BlankFieldExample | packages/shared/src/utils.ts:48-58 | a name of `" "` is reported as missing, and a non-blank e-mail is not |
| Validation.CompleteRecordExample | packages/shared/src/utils.ts:60 | a record with both fields non-blank gives `null` |
| Sanitize.SanitizeString | packages/shared/src/utils.ts:84-86 | the result contains no `<` or `>` and is no longer than the input |
| Sanitize.SanitizeExactly | packages/shared/src/utils.ts:85 | the result is a subsequence of the trimmed input that keeps every occurrence of every other character |
| Sanitize.SanitizeUnique | packages/shared/src/utils.ts:85 | it is the only such string: the result is the trimmed input with the brackets deleted |
| Sanitize.SanitizeNotIdempotent | packages/shared/src/utils.ts:85 | `"< x"` sanitizes to `" x"`, which sanitizes to `"x"`: sanitizing twice can differ from sanitizing once |
| Sanitize.SanitizeStripsTag | packages/shared/src/utils.ts:85 | blanks + `<name>` + blanks, where the name has no brackets, sanitizes to the name |
| IdGen.HexValueOfDigit | packages/shared/src/utils.ts:70 | `v.toString(16)` for `v` in 0..15 is one lowercase hexadecimal digit, from which `v` is recovered |
| IdGen.Variant | packages/shared/src/utils.ts:69 | `r & 0x3 \| 0x8` is `8 + r % 4`, so the `y` digit is one of `8`, `9`, `a`, `b` |
| IdGen.Fill | packages/shared/src/utils.ts:67-71 | the replacement keeps the template's length |
| IdGen.TemplateLayout | packages/shared/src/utils.ts:67-70 | the template has 31 placeholders; the fill is eight digits, `-`, four digits, `-4`, three digits, `-`, the variant digit, three digits, `-`, twelve digits, each digit from its own draw in order |
| IdGen.GenerateId | packages/shared/src/utils.ts:66-72 | the identifier has length 36, `-` at 8, 13, 18 and 23, `4` at 14, a character of `89ab` at 19 and lowercase hexadecimal digits elsewhere, and it spells out the draws as in `TemplateLayout` |
| IdGen.ParseId | packages/shared/src/utils.ts:67-70 | any identifier of that form yields 31 draws |
| IdGen.IdRoundTrip | packages/shared/src/utils.ts:66-72 | every identifier of that form is generated by the draws that `ParseId` reads from it |
| IdGen.DrawsRecovered | packages/shared/src/utils.ts:66-72 | parsing a generated identifier gives back the draws, with the variant draw replaced by the digit it produced |
| IdGen.GenerateIdInjective | packages/shared/src/utils.ts:67-70 | two runs of draws give the same identifier iff they agree everywhere except in the two high bits of the variant draw |

## Left out

- `formatDate` (`packages/shared/src/utils.ts:77-79`): a call to `Date.prototype.toISOString` on a clock value.
- `Math.random()` and the float-to-integer step `* 16 | 0`. Each draw is an input already in 0..15, so no statement is made about distribution, uniqueness or collisions of identifiers.
- Strings are sequences of Dafny characters, not of UTF-16 code units. A character outside the Basic Multilingual Plane counts as one character here, where JavaScript sees two surrogates. No character in the whitespace set is affected.
- Validation: `obj[field]` reads own properties only. A key inherited from `Object.prototype`, such as `"toString"`, reads as `undefined` here, where JavaScript finds a truthy function.
- `JsValue`: numbers are finite reals, with `0` and `-0` both `0.0`. Infinities, objects, arrays, functions and symbols are one truthy value, `Other`.
- `AppError.details` is typed `unknown`. The model distinguishes only the `{ missingFields }` payload that `validateRequired` attaches.
- `Envelope`: a JavaScript object literal with `message: undefined` and one without a `message` property are the same value here.
- Envelope invariant: success and `error` are not tied together. A reader of `ApiResponse` might expect a failure envelope to carry `error` and a success envelope not to, but the builders do not enforce this. The model follows the code, and `Envelope.FailureWithoutError` states the gap.
- `packages/shared/src/types.ts` beyond `ApiResponse` and `AppError` (`User`, `HttpStatus`, `API_ENDPOINTS`) and `packages/shared/src/index.ts`: declarations and re-exports without behaviour.
- `packages/backend/src/routes/health.ts` and `packages/frontend/src/services/api.ts`: HTTP, the clock, process state and logging, which are outside this model.
- Regular expressions in general. The two patterns the helpers use are written out directly: the e-mail pattern as an automaton, and `/[<>]/g` and `/[xy]/g` as character predicates.
