# CSRF route access check

A Dafny model of Drupal's `CsrfAccessCheck::access`, the access check that
guards routes with a `_csrf_token` requirement. The check

1. takes the route's path template and trims every leading `/` (`ltrim`);
2. walks the route match's raw parameters in their given order and, for each
   `name => value`, replaces every `{name}` in the path with `value`
   (`str_replace`), giving the route's *subject* string;
3. hands the request's `token` query value (null when absent) and the subject
   to the CSRF token generator's `validate`;
4. answers `AccessResult::allowed()` when that returns true and
   `AccessResult::forbidden()` otherwise, and stamps cache max-age 0 on the
   result either way.

The model is split by concern:

- `php_strings.dfy`, module `PhpStrings`: `ltrim` with a single character and
  `str_replace` with scalar arguments, on strings as `seq<char>`. `StrReplace`
  scans left to right, replaces each non-overlapping occurrence and never
  rescans the text it inserts, as PHP does.
- `subject.dfy`, module `Subject`: the placeholder text `{name}`, the
  per-parameter replacement step, the fold over the ordered parameter list, and
  `BuildSubject`.
- `csrf_access_check.dfy`, module `CsrfAccess`: the access result (decision and
  max-age), the route/request/route-match inputs reduced to the values the check
  reads, the validator as a function parameter, the check as a pure function
  `Access`, and `CheckAccess`, a method that follows the source statement by
  statement with a loop over the parameters. `RouteSubject` is glue with no
  contract of its own: it passes the route's path and the raw parameters to
  `BuildSubject`, whose contract and lemmas state what the subject is.

Behaviour followed where a tidier design would differ:

- Every leading `/` is trimmed, not just one: `//node/{id}` gives `node/{id}`.
- The parameters are substituted one `str_replace` at a time, in iteration
  order, not by a single scan of the template. A value that contains another
  parameter's `{name}` is therefore rewritten by a later parameter but not by
  an earlier one (`ParameterOrderExample`).
- An absent `token` is passed to the validator as null; the check itself has
  no special case for it. A request without a token is Forbidden only because,
  and only when, the validator rejects null (`AbsentTokenLeftToValidator`).

## Model

| member | source | states |
|---|---|---|
| `PhpStrings.LTrim` | core/lib/Drupal/Core/Access/CsrfAccessCheck.php:56 | the trimmed path is a suffix of the template, everything removed is `/`, and it does not start with `/` |
| `PhpStrings.LTrimIdempotent` | core/lib/Drupal/Core/Access/CsrfAccessCheck.php:56 | trimming an already trimmed path changes nothing |
| `PhpStrings.LTrimKeepsChars` | core/lib/Drupal/Core/Access/CsrfAccessCheck.php:56 | trimming only removes characters: nothing appears in the trimmed path that was not in the template |
| `PhpStrings.LTrimCharacterization` | core/lib/Drupal/Core/Access/CsrfAccessCheck.php:56 | a string is the trimmed path if and only if it is a suffix preceded only by `/` and not itself starting with `/`, so `ltrim` removes the maximal run of slashes |
| `PhpStrings.StrReplace` | core/lib/Drupal/Core/Access/CsrfAccessCheck.php:59 | the replacement never lengthens the path when the value is no longer than the placeholder, and never shortens it when the value is no shorter; the complete behaviour is stated by `StrReplaceFirst` together with `StrReplaceAbsent` |
| `PhpStrings.StrReplaceAbsent` | core/lib/Drupal/Core/Access/CsrfAccessCheck.php:59 | when `{name}` does not occur in the path, replacing it leaves the path unchanged |
| `PhpStrings.StrReplaceIdentityIff` | core/lib/Drupal/Core/Access/CsrfAccessCheck.php:59 | a replacement leaves the path unchanged exactly when the placeholder is absent or is replaced by itself |
| `PhpStrings.StrReplaceSkipsPrefix` | core/lib/Drupal/Core/Access/CsrfAccessCheck.php:59 | text in which no occurrence starts is copied through unchanged, whatever characters it holds |
| `PhpStrings.StrReplaceLeading` | core/lib/Drupal/Core/Access/CsrfAccessCheck.php:59 | unfolding of one scanning step: an occurrence at the start is replaced and scanning resumes after it in the original text |
| `PhpStrings.StrReplaceFirst` | core/lib/Drupal/Core/Access/CsrfAccessCheck.php:59 | the leftmost occurrence is the one replaced: the text before it is copied, and scanning resumes right after it, so the inserted value is not rescanned |
| `PhpStrings.StrReplaceOnce` | core/lib/Drupal/Core/Access/CsrfAccessCheck.php:59 | a single occurrence after occurrence-free text, followed by text without the placeholder, becomes the value and nothing else changes |
| `PhpStrings.StrReplaceEveryOccurrence` | core/lib/Drupal/Core/Access/CsrfAccessCheck.php:59 | every occurrence of the placeholder between pieces in which no occurrence starts becomes the value, not just the first, whatever the value contains |
| `Subject.Placeholder` | core/lib/Drupal/Core/Access/CsrfAccessCheck.php:59 | the placeholder for a name is `{`, the name, `}` |
| `Subject.SubstituteOne` | core/lib/Drupal/Core/Access/CsrfAccessCheck.php:59 | one parameter step leaves a path without `{` unchanged, since every placeholder starts with `{` |
| `Subject.Substitute` | core/lib/Drupal/Core/Access/CsrfAccessCheck.php:58-60 | a path with no `{` is left unchanged by the whole fold, whatever the parameters |
| `Subject.BuildSubject` | core/lib/Drupal/Core/Access/CsrfAccessCheck.php:55-60 | a template without `{` yields its trimmed self for any parameters |
| `Subject.SubstituteSnoc` | core/lib/Drupal/Core/Access/CsrfAccessCheck.php:58-60 | the substitution is a left fold in parameter order: parameters `p + [(k, v)]` give `{k}` replaced by `v` in the result for `p` |
| `Subject.SubstituteOneAbsent` | core/lib/Drupal/Core/Access/CsrfAccessCheck.php:58-59 | a parameter whose placeholder is absent from the current path leaves the path unchanged |
| `Subject.SubstituteOneOfJoin` | core/lib/Drupal/Core/Access/CsrfAccessCheck.php:59 | one parameter step turns every `{name}` between `{`-free pieces into the value and leaves the pieces alone |
| `Subject.SubstituteLone` | core/lib/Drupal/Core/Access/CsrfAccessCheck.php:59 | a lone `{name}` between `{`-free pieces becomes the value |
| `Subject.PlaceholderNotAt` | core/lib/Drupal/Core/Access/CsrfAccessCheck.php:59 | `{x}` never matches at the start of `{y}` for different names without `}`, whatever follows |
| `Subject.PlaceholderAbsent` | core/lib/Drupal/Core/Access/CsrfAccessCheck.php:59 | `{`-free pieces around a `{y}` placeholder contain no `{x}` placeholder, when the names differ, `y` holds no `{` and neither name holds `}` |
| `Subject.SubstituteBeforeOther` | core/lib/Drupal/Core/Access/CsrfAccessCheck.php:58-59 | the step for `x` replaces `{x}` and leaves a later `{y}` in place, when the pieces hold no `{`, the names differ, `y` holds no `{` and neither name holds `}` |
| `Subject.BuildSubjectNoParameters` | core/lib/Drupal/Core/Access/CsrfAccessCheck.php:55-60 | with no parameters the subject is the template with its leading slashes trimmed, and it does not start with `/` |
| `Subject.BuildSubjectSingle` | core/lib/Drupal/Core/Access/CsrfAccessCheck.php:55-60 | unfolding of the fold for one parameter: one replacement applied to the trimmed template |
| `Subject.BuildSubjectPair` | core/lib/Drupal/Core/Access/CsrfAccessCheck.php:55-60 | unfolding of the fold for two parameters: two replacements, in parameter order, on the trimmed template |
| `Subject.BuildSubjectSlashLed` | core/lib/Drupal/Core/Access/CsrfAccessCheck.php:55-60 | a template with exactly one leading slash and one parameter gives one replacement on the text after the slash |
| `Subject.BuildSubjectOfJoin` | core/lib/Drupal/Core/Access/CsrfAccessCheck.php:55-60 | a one-slash template made of `{`-free pieces separated by `{name}` gives the pieces separated by the value, whatever the value contains |
| `Subject.BuildSubjectOnePlaceholder` | core/lib/Drupal/Core/Access/CsrfAccessCheck.php:55-60 | `/prefix{name}suffix` with `name => value` gives `prefixvaluesuffix` when `prefix` and `suffix` hold no `{` and `prefix` does not start with `/`, as `/node/{id}/edit` with id 42 gives `node/42/edit` |
| `Subject.BuildSubjectRepeatedPlaceholder` | core/lib/Drupal/Core/Access/CsrfAccessCheck.php:55-60 | a placeholder used twice is replaced at both places when the three pieces hold no `{` and the first does not start with `/`, as `/a/{id}/b/{id}` with id 5 gives `a/5/b/5` |
| `Subject.BuildSubjectTwoPlaceholders` | core/lib/Drupal/Core/Access/CsrfAccessCheck.php:55-60 | two parameters with different names are each substituted at their own placeholder, in order, when the first value holds no `{` |
| `Subject.TwoParametersExample` | core/lib/Drupal/Core/Access/CsrfAccessCheck.php:55-60 | `/a/{x}/{y}` with x then y gives `a/<x>/<y>` when the `x` value holds no `{`, as x=1, y=2 gives `a/1/2` |
| `Subject.BuildSubjectValueIntroducesPlaceholder` | core/lib/Drupal/Core/Access/CsrfAccessCheck.php:55-60 | when the value for `x` is the `{y}` placeholder, the later `y` step rewrites it too, so `/a/{x}/{y}` with x=`{y}` then y=v gives `a/<v>/<v>` (pieces without `{`, distinct names, `y` without `{`, names without `}`) |
| `Subject.BuildSubjectTrimsAllSlashes` | core/lib/Drupal/Core/Access/CsrfAccessCheck.php:56-60 | any number of leading slashes is removed, and the parameters are then substituted into the rest |
| `Subject.ParameterOrderExample` | core/lib/Drupal/Core/Access/CsrfAccessCheck.php:58-60 | the fold is order dependent: `{a}` with `a => {b}` then `b => x` gives `x`, with the two parameters swapped it gives `{b}` |
| `CsrfAccess.AllowedResult` | core/lib/Drupal/Core/Access/CsrfAccessCheck.php:63 | `AccessResult::allowed()` is an allowed result that still carries the permanent default max-age |
| `CsrfAccess.ForbiddenResult` | core/lib/Drupal/Core/Access/CsrfAccessCheck.php:66 | `AccessResult::forbidden()` is a forbidden result that still carries the permanent default max-age |
| `CsrfAccess.SetCacheMaxAge` | core/lib/Drupal/Core/Access/CsrfAccessCheck.php:69 | setting the max-age keeps the decision and replaces the max-age |
| `CsrfAccess.QueryGet` | core/lib/Drupal/Core/Access/CsrfAccessCheck.php:62 | the token read from the query is present exactly when the `token` key is, and then it is that key's value |
| `CsrfAccess.Token` | core/lib/Drupal/Core/Access/CsrfAccessCheck.php:62 | the token passed to the validator is present exactly when the request has a `token` query value, and is then that value |
| `CsrfAccess.Access` | core/lib/Drupal/Core/Access/CsrfAccessCheck.php:54-70 | the result is Allowed exactly when the validator accepts the request's token for the built subject, Forbidden exactly when it does not, and has max-age 0 in both cases |
| `CsrfAccess.ReplaceParameters` | core/lib/Drupal/Core/Access/CsrfAccessCheck.php:58-60 | the `foreach` that rewrites one mutable path parameter by parameter ends with the ordered fold of all the replacements |
| `CsrfAccess.CheckAccess` | core/lib/Drupal/Core/Access/CsrfAccessCheck.php:54-70 | the statement-by-statement check with its parameter loop returns the same result as `Access`: the validator sees exactly the folded subject, and the result has max-age 0 |
| `CsrfAccess.AccessDeterminedByValidatorAnswer` | core/lib/Drupal/Core/Access/CsrfAccessCheck.php:62-67 | the result depends on the validator only through its answer for the request's token and the built subject |
| `CsrfAccess.AbsentTokenLeftToValidator` | core/lib/Drupal/Core/Access/CsrfAccessCheck.php:62-67 | without a `token` query value the decision is the validator's answer for null, with no special case in the check |
| `CsrfAccess.PathBound` | core/lib/Drupal/Core/Access/CsrfAccessCheck.php:55-69 | if the validator accepts the token for one subject only, every route whose subject differs is Forbidden with max-age 0 |
| `CsrfAccess.EditTokenExample` | core/lib/Drupal/Core/Access/CsrfAccessCheck.php:55-69 | a token valid for `node/<id>/edit` opens `/node/{id}/edit` and not `/node/{id}/delete` for the same id |

## Left out

- The CSRF token generator (`CsrfTokenGenerator`): its HMAC over a session seed and private key is not part of this model. `validate` is a total function parameter `(Option<string>, string) -> bool`, so nothing is assumed about it.
- Symfony's `Route` and `Request` and Drupal's `RouteMatchInterface`: reduced to the route's path template, the query parameters as a map, and the raw parameters as an ordered list of name/value pairs. The list may repeat a name, which a parameter bag cannot; the fold treats repeats like any other entry.
- PHP value juggling: raw parameter values and query values are modelled as strings; integer values that `str_replace` would convert to strings, and array-valued query parameters, are not modelled.
- Byte semantics: `ltrim` and `str_replace` work on bytes; the model works on characters. Matching of the ASCII `/`, `{` and `}` is the same either way.
- Other access result state (cache contexts, cache tags, the neutral result, reasons) and the combining of several access checks: the check only sets allowed/forbidden and the max-age. The default max-age of a fresh result is Drupal's `Cache::PERMANENT` (-1); `Cache.php` is not part of this model.
- The constructor and dependency injection of the token generator (CsrfAccessCheck.php lines 37-39): the generator is passed to `Access` as its `validate` operation instead.
- Failure of the validator (an exception while reading the session): not modelled, since the validator is a total function here.
- BuildSubjectTwoPlaceholders: stated for a first name without `}`, a second name without `{` or `}`, different names, and a first value without `{`. Outside those conditions a value or an unusual name can create or hide a later placeholder; the case of a first value that is exactly the later placeholder is `BuildSubjectValueIntroducesPlaceholder`, and other cases follow `StrReplaceFirst` step by step without a closed form.
