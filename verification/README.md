# Powermail form-note advisor and TypoScript utility, in Dafny

This project models two small pieces of the Powermail form extension for
TYPO3:

- **The form-note advisor** (`ShowFormNoteIfNoEmailOrNameSelected`). Below a
  stored form in the backend it decides whether to show a warning: the form
  has a non-empty numeric uid, the "replace IRRE with element browser"
  feature is off, and no field of the form is marked as sender e-mail or
  sender name. When the warning is shown, its view model carries a
  `markerWarning` flag. The flag is raised when some field marker is empty in
  PHP's `empty()` sense (missing, null, `""`, `"0"`, `0`) or when two markers
  coincide.
- **The TypoScript utility** (`TypoScriptUtility`). It covers three helpers:
  - overwriting a string with a rendered content object when that object
    renders something truthy;
  - resolving a dotted object path such as `lib.foo` against the frontend's
    setup tree;
  - choosing between the `captcha` extension and the `default` captcha.

The host framework's services become inputs:
- the repository query is a function from form uid to field rows (`FormNote.Host.fieldsOf`);
- the IRRE feature switch is a boolean (`FormNote.Host.replaceIrreActive`);
- `is_numeric` on strings is a predicate (`FormNote.Host.isNumericString`);
- template rendering is a function of the view model (`render` in `FormNote.ShowNote`);
- the content-object renderer `cObjGetSingle` is a deterministic function of
  the object's type entry and properties entry (`TypoScript.Resolver`);
- "extension is loaded" is a predicate (`isLoaded`).

The project has four modules:
- `Optional` (optional.dfy): the `Option` type.
- `Php` (php.dfy): the PHP semantics the code relies on. This covers `empty()`,
  `isset()`, the `(int)` cast, the string form `array_unique` compares by,
  `array_unique` itself, `explode`, `implode` and `trim`.
- `FormNote` (form_note.dfy): the advisor.
- `TypoScript` (typoscript.dfy): the utility.

Two consequences of the code are worth spelling out:
- `overwriteValueFromTypoScript` tests PHP truthiness, so a rendered `"0"`
  leaves the value unchanged just like an empty rendering
  (Classes/Utility/TypoScriptUtility.php:30,
  `TypoScript.OverwriteValueFromTypoScript`).
- `array_unique($markers) === $markers` compares markers by their string
  form, so an integer marker `5` and a string marker `"5"` count as
  duplicates (Classes/Tca/ShowFormNoteIfNoEmailOrNameSelected.php:165,
  `Php.ArrayUniqueIdentical`).

## Model

| member | source | states |
|---|---|---|
| FormNote.ShowNote | Classes/Tca/ShowFormNoteIfNoEmailOrNameSelected.php:43-59 | The markup is the empty string when the form cannot be rendered or a sender field exists. Otherwise it is the rendering of the view model with the muted flag, the form row, and a marker warning raised exactly when some marker is empty or two markers coincide. |
| FormNote.IsShowNote | Classes/Tca/ShowFormNoteIfNoEmailOrNameSelected.php:66-69 | The note is shown iff the form can be rendered and no field row of the form's uid is marked as sender e-mail or sender name. |
| FormNote.NoteMutedIff | Classes/Tca/ShowFormNoteIfNoEmailOrNameSelected.php:77-80 | The note is muted iff the `note` column casts to 1. The `isset` guard is subsumed because null casts to 0. A muted note column is never `empty()`. |
| FormNote.CanBeRendered | Classes/Tca/ShowFormNoteIfNoEmailOrNameSelected.php:90-94 | Rendering is refused when the uid is empty, when it is not numeric, or when the IRRE replacement is active. A renderable form has a non-null uid. |
| FormNote.SenderEmailOrSenderNameSet | Classes/Tca/ShowFormNoteIfNoEmailOrNameSelected.php:103-118 | The scan answers true iff some field row has `sender_email` or `sender_name` whose int value is 1. An empty field list gives false. |
| FormNote.HasFormUniqueAndFilledFieldMarkers | Classes/Tca/ShowFormNoteIfNoEmailOrNameSelected.php:154-166 | The check holds iff every marker is filled and no two markers share a string form. One empty marker makes it false whatever the other fields hold. An empty field list gives true. |
| Php.ArrayUnique | Classes/Tca/ShowFormNoteIfNoEmailOrNameSelected.php:165 | `array_unique` keeps a subsequence of the entries with their original keys, in key order, with pairwise distinct string forms. It keeps an entry exactly when no earlier value has the same string form, so the first entry of each string form survives; and it keeps every entry iff the values' string forms are pairwise distinct. |
| Php.ArrayUniqueIdentical | Classes/Tca/ShowFormNoteIfNoEmailOrNameSelected.php:165 | `array_unique($m) === $m` holds exactly when no two values of `$m` have the same string form. |
| Php.IntCastOfDigits | Classes/Tca/ShowFormNoteIfNoEmailOrNameSelected.php:109-112 | `(int)` of a digit string is the number the digits denote. |
| Php.IntCastOfEmpty | Classes/Tca/ShowFormNoteIfNoEmailOrNameSelected.php:79 | Every value `empty()` calls empty casts to 0, so it never reads as a set flag. |
| Php.IntCastOfStringForm | Classes/Tca/ShowFormNoteIfNoEmailOrNameSelected.php:165 | Casting the decimal string form of an integer back with `(int)` gives the integer. So the string comparison inside `array_unique` tells integer markers apart exactly when they differ. |
| Php.IntCastSkipsSpace | Classes/Tca/ShowFormNoteIfNoEmailOrNameSelected.php:109 | Leading whitespace does not change a cast, so `" 1"` reads as a set flag. |
| Php.IntCastReadsDigitPrefix | Classes/Tca/ShowFormNoteIfNoEmailOrNameSelected.php:112 | When what follows the leading run of digits cannot continue a number (no further digit, no decimal point, no exponent), a cast reads that run and ignores the rest. |
| Php.IntCastWithoutDigits | Classes/Tca/ShowFormNoteIfNoEmailOrNameSelected.php:79 | A string that starts with no whitespace, sign, digit or decimal point casts to 0. |
| Php.Explode | Classes/Utility/TypoScriptUtility.php:49 | `explode` yields at least one piece, and no piece contains the delimiter. |
| Php.ImplodeExplode | Classes/Utility/TypoScriptUtility.php:49 | Joining the pieces of `explode` with the delimiter gives the original string back. |
| Php.ExplodeImplode | Classes/Utility/TypoScriptUtility.php:49 | Exploding the join of delimiter-free pieces gives the pieces back. |
| Php.ExplodeWithoutDelimiter | Classes/Utility/TypoScriptUtility.php:49 | A string without the delimiter explodes to itself alone. |
| Php.Trim | Classes/Utility/TypoScriptUtility.php:49 | `trim` returns a contiguous slice of its input that neither starts nor ends with a strippable character, and everything it drops before and after the slice is strippable. |
| Php.TrimFixedPoint | Classes/Utility/TypoScriptUtility.php:49 | `trim` leaves a string unchanged iff the string has no strippable end. |
| Php.TrimIdempotent | Classes/Utility/TypoScriptUtility.php:49 | Trimming twice is the same as trimming once. |
| Php.TrimExplode | Classes/Utility/TypoScriptUtility.php:49 | `trimExplode` always yields at least one segment, one per exploded piece; no segment contains the delimiter, and each segment is its piece with the strippable ends removed, so no segment starts or ends with a strippable character. |
| TypoScript.OverwriteValueFromTypoScript | Classes/Utility/TypoScriptUtility.php:25-33 | The string becomes the rendered content object when that is truthy and stays unchanged when it is `""` or `"0"`. A truthy string stays truthy. |
| TypoScript.OverwriteIdempotent | Classes/Utility/TypoScriptUtility.php:30-32 | Overwriting a second time from the same configuration changes nothing. |
| TypoScript.OverwriteForgetsCurrent | Classes/Utility/TypoScriptUtility.php:30-32 | When the content object renders something truthy, the previous string does not affect the outcome. |
| TypoScript.Child | Classes/Utility/TypoScriptUtility.php:52 | One descent step succeeds iff the current level has a nested array under `segment.`, and it yields that array. |
| TypoScript.DescendFirstStep | Classes/Utility/TypoScriptUtility.php:51-53 | Descent first selects `first.` and then continues with the remaining segments from that child. |
| TypoScript.DescendNest | Classes/Utility/TypoScriptUtility.php:51-53 | Descending along a path through a tree nested under `s0.`, `s1.`, ... reaches exactly the inner level. |
| TypoScript.DescendStaysMissing | Classes/Utility/TypoScriptUtility.php:51-53 | Once a step finds no nested array, every longer descent fails too. |
| TypoScript.ResolvePath | Classes/Utility/TypoScriptUtility.php:45-47 | An empty path, including `"0"`, resolves to `""` whatever the setup tree holds. |
| TypoScript.ParseTypoScriptFromTypoScriptPath | Classes/Utility/TypoScriptUtility.php:43-55 | The loop returns `""` for an empty path. It descends segment by segment exactly as the reference descent does, then renders the last segment at the level reached. |
| TypoScript.TrimExplodeImplode | Classes/Utility/TypoScriptUtility.php:49-50 | Splitting and trimming the dotted join of plain segments gives the segments back. |
| TypoScript.ResolveJoinedPath | Classes/Utility/TypoScriptUtility.php:49-54 | A path of n plain segments descends through the first n-1 of them, each via its `segment.` key. It then renders the content object `(level[last], level[last.])` at the level reached. |
| TypoScript.ResolveNestedPath | Classes/Utility/TypoScriptUtility.php:49-54 | Resolving a path through a tree nested along it renders the object found at the path's end. |
| TypoScript.SingleSegmentPath | Classes/Utility/TypoScriptUtility.php:49-54 | A path without a dot does not descend. Its trimmed text is looked up at the top level. |
| TypoScript.LibFooPath | Classes/Utility/TypoScriptUtility.php:49-54 | `lib.foo` renders `foo` and `foo.` inside the array under `lib.`. |
| TypoScript.GetCaptchaExtensionFromSettings | Classes/Utility/TypoScriptUtility.php:63-75 | The result is always `captcha` or `default`. It is `captcha` iff `settings.captcha.use` is `captcha` and that extension is loaded. |
| TypoScript.OtherCaptchaIsDefault | Classes/Utility/TypoScriptUtility.php:68-74 | Any configured value other than `captcha` gives `default`. |

## Left out

- Template rendering (`StandaloneView`, template path, `getFileAbsFileName`) is host I/O. `FormNote.ShowNote` takes the renderer as a parameter.
- `getLabels` and `getLabel` are left out. They are localisation through the language service plus `htmlspecialchars`, with no logic of this code's own. The view model therefore has no labels.
- Object-manager lookup and the repository query `getFieldsFromFormWithSelectQuery` are database access. They are the function `Host.fieldsOf`.
- `ConfigurationUtility::isReplaceIrreWithElementBrowserActive`, `ExtensionManagementUtility::isLoaded`, `cObjGetSingle` and the frontend's `tmpl->setup` are host services. They are parameters.
- FormNote.CanBeRendered: `is_numeric` on strings is an abstract host predicate. PHP 7 and PHP 8 differ on trailing whitespace, and the code pins no version.
- Php.IntCast: `(int)` is modelled as leading whitespace, an optional sign and a decimal digit prefix. It does not model the numeric-string forms with a fraction or exponent that PHP 7.1 and later also read (`"1e3"` casts to 1000, `".5e1"` to 5); the lemmas Php.IntCastReadsDigitPrefix and Php.IntCastWithoutDigits are therefore stated only for strings where those forms cannot occur.
- Php.IntCastOfDigits, Php.IntCastReadsDigitPrefix: do not model the saturation of digit strings beyond the 64-bit range; the model reads any digit string as its exact value.
- TypoScript.ResolvePath: a descent step that finds no nested array gives `None`. PHP instead emits a warning and goes on with null, or raises a type error on a string. Those runtime paths are not reproduced.
- TypoScript.GetCaptchaExtensionFromSettings: setup leaves are strings. So PHP's loose `in_array` comparison against non-string values (PHP 7's `0 == "captcha"`) is not modelled.
- TypoScript.OverwriteValueFromTypoScript: the by-reference parameter's nullable default is not modelled, and the string is never null. The source calls `cObjGetSingle` twice; because the resolver is deterministic, the model calls it once.
- `ShowNote` takes the form row itself rather than the `$params` bag. A bag without a `row` entry is not modelled.
