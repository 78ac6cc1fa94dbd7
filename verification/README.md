# Research-form page script, modelled in Dafny

The page script of a personal research webpage does four things. It validates
the research-collaboration form. It toggles a light/dark theme. It keeps a
small add/delete task list ("progress tracker"). It highlights hobby items on
hover. This project models the first three as pure functions and proves what
each one does.

- `Text` (`text.dfy`): JavaScript whitespace and `trim()`, written with
  offsets into the original string. `IsWS` is the
  ECMAScript WhiteSpace plus LineTerminator set. JavaScript's `trim()` and the
  regular-expression class `\s` both use this set.
- `Email` (`email.dfy`): the address expression `^[^\s@]+@[^\s@]+\.[^\s@]+$`.
  `EmailPattern` gives its language directly, as two split points. The
  executable `IsValidEmail` scans for the first `@` and is proved to decide
  exactly that language.
- `Validation` (`validation.dfy`): `validateForm`, `showError` and
  `clearErrors`. The messages on display are a map from field to text. One
  submission clears the map, runs all seven rules in source order (no rule is
  skipped), and reports validity. `Submit` adds the success path: the form is
  confirmed and reset to its default values.
- `Tasks` (`tasks.dfy`): `addTask` and the delegated delete handler, as
  operations on `seq<string>`.
- `Theme` (`theme.dfy`): `toggleTheme`.
- `Scenarios` (`scenarios.dfy`): concrete inputs, such as the accepted and
  rejected addresses and the 19/20-character message boundary.

Points where the code's behaviour is easy to misread:
- Email "required" is decided on the trimmed value, but the address
  expression is applied to the untrimmed value.
- Name, topic and message lengths are measured on the untrimmed value. So
  `" a"` passes the first-name length check.
- The field-of-interest select is compared with `""` without trimming.
- A task is deleted by removing the list item whose button was clicked. The
  model identifies that item by its position in the list.

## Model

| member | source | states |
|---|---|---|
| Text.SkipLeading | scripts.js:60 | the whitespace run starting at a position ends at the first non-whitespace character (or at the end of the string) |
| Text.SkipTrailing | scripts.js:60 | the whitespace run ending at a position starts just after the last non-whitespace character before it (or at the start) |
| Text.Trim | scripts.js:60 | `trim()` is empty exactly when the input is all whitespace; otherwise neither end of the result is whitespace; the result is the infix of the input between two whitespace-only margins, so nothing in the middle changes |
| Text.TrimOfTrimmed | scripts.js:162 | text whose ends are not whitespace is left unchanged by `trim()` |
| Text.TrimIdempotent | scripts.js:162 | trimming twice is the same as trimming once |
| Email.FindAt | scripts.js:140 | the result is the position of the first `@`, or the length when there is none |
| Email.IsValidEmail | scripts.js:139-142 | an accepted address has a non-empty local part before its first `@`, at least three characters after it, and no whitespace or further `@` anywhere; `Email.IsValidEmailCorrect` proves it accepts exactly the expression's language |
| Email.IsValidEmailSound | scripts.js:139-142 | every string the scanning check accepts matches `^[^\s@]+@[^\s@]+\.[^\s@]+$` |
| Email.IsValidEmailComplete | scripts.js:139-142 | every string matching the expression passes the scanning check |
| Email.IsValidEmailCorrect | scripts.js:139-142 | the scanning check accepts a string iff it matches the expression |
| Validation.ShowError | scripts.js:126-128 | one field's message is set; every other field keeps its message |
| Validation.ClearErrors | scripts.js:131-136 | after clearing, no field shows a message, whatever was shown before |
| Validation.TextRule | scripts.js:60-66 | blank input gives "required"; otherwise "too short" iff the untrimmed length is below the minimum; no error iff non-blank and long enough |
| Validation.EmailRule | scripts.js:78-84 | blank input gives "required"; otherwise "invalid" iff the untrimmed value is outside the address language; no error iff it is inside |
| Validation.FieldError | scripts.js:59-114 | each field's if/else-if rule passes iff: names are non-blank with untrimmed length at least 2; the email is in the address language; the topic is non-blank with length at least 5; the select is not exactly empty; the message is non-blank with length at least 20; the box is checked (messages in `TextRule`, `EmailRule`, `SelectAndAgreementRules`) |
| Validation.RunRules | scripts.js:59-114 | running the rules in order adds exactly the failing fields' own messages, keeps every earlier message a rule does not overwrite, and leaves the flag true iff it started true and no rule fired |
| Validation.Validate | scripts.js:43-123 | after a submission, exactly the failing fields show a message, each its own rule's message, regardless of earlier messages; the result is valid iff no field shows a message |
| Validation.AcceptableIffNoRuleFires | scripts.js:59-114 | the field-by-field description of an acceptable form holds iff none of the seven rules fires |
| Validation.ValidIffAcceptable | scripts.js:116-122 | the submission is valid iff every field satisfies its rule, stated field by field without the rule functions |
| Validation.FieldIndependence | scripts.js:54-114 | a field's message depends only on that field's value, not on other fields or earlier messages |
| Validation.NameRules | scripts.js:59-75 | a blank name gives "required"; otherwise "too short" iff the untrimmed length is below 2; a name passes iff non-blank and at least 2 long |
| Validation.EmailRules | scripts.js:77-84 | a blank email gives "required"; otherwise "invalid" iff it is outside the address language; an email passes iff it matches the expression |
| Validation.TopicAndMessageRules | scripts.js:86-108 | blank gives "required"; otherwise "too short" iff the untrimmed length is below 5 (topic) or 20 (message) |
| Validation.SelectAndAgreementRules | scripts.js:95-114 | the select fails iff its value is exactly empty; the agreement fails iff unchecked |
| Validation.Submit | scripts.js:116-122 | confirmation happens iff the form is acceptable; then inputs are reset and no message shows; on failure inputs are kept and exactly the failing fields show a message, each its own rule's |
| Scenarios.AcceptsSimpleAddress | scripts.js:140 | `"a@b.c"` matches the address expression |
| Scenarios.RejectsNoAt | scripts.js:140 | `"abc"` does not match |
| Scenarios.RejectsNoDot | scripts.js:140 | `"a@b"` does not match |
| Scenarios.RejectsEmptyDomainLabel | scripts.js:140 | `"a@.c"` does not match |
| Scenarios.RejectsEmptyTopLevel | scripts.js:140 | `"a@b."` does not match |
| Scenarios.RejectsDoubleAt | scripts.js:140 | `"a@@b.c"` does not match |
| Scenarios.RejectsSpace | scripts.js:140 | `"a @b.c"` does not match |
| Scenarios.GoodFormIsValid | scripts.js:116-122 | a fully filled, agreed form is valid and shows no message |
| Scenarios.LeadingSpaceNamePasses | scripts.js:60-66 | the first name `" a"` passes, because length is measured before trimming |
| Scenarios.MessageBoundary | scripts.js:102-108 | a 19-character message is too short; a 20-character one passes |
| Scenarios.TwoFailuresReportedTogether | scripts.js:59-114 | a blank first name and an unchecked agreement are both reported by one submission |
| Tasks.AddTask | scripts.js:160-191 | a blank draft changes nothing; otherwise the trimmed draft is appended, earlier items keep their places, and the box is emptied |
| Tasks.AddTaskPreservesWellFormed | scripts.js:160-191 | adding keeps every item non-empty and trimmed |
| Tasks.DeleteTask | scripts.js:35-39 | removing one item shortens the list by one; items before it stay put, items after it shift down one, and the multiset loses exactly that item |
| Tasks.DeleteTaskPreservesWellFormed | scripts.js:35-39 | deleting keeps every item non-empty and trimmed |
| Tasks.DeleteUndoesAdd | scripts.js:35-39 | deleting the item just added restores the previous list |
| Tasks.OnListClick | scripts.js:35-39 | a click elsewhere changes nothing; a delete button removes exactly its own item: earlier items stay put, later ones shift down one, and the multiset loses only that item |
| Tasks.AddToEmptyThenDelete | scripts.js:160-191 | a trimmed task added to an empty list is the whole list, and its delete button empties the list |
| Tasks.BlankDraftRefused | scripts.js:164-190 | a whitespace-only draft is refused and nothing changes |
| Theme.ToggleTheme | scripts.js:146-156 | the mode flips; the caption is "Light Theme" iff the new mode is dark and "Dark Theme" iff it is light |
| Theme.ToggleTwice | scripts.js:146-156 | two toggles restore the original mode, with the matching caption |

## Left out

- DOM lookups, event-listener wiring and the Enter-key handler (scripts.js:2-39). The Enter key calls the same add operation as the button, and a click on a delete button is modelled by `OnListClick`.
- The two `alert` calls (scripts.js:118, 189). Success is the `confirmed` flag of `Submit`. A refused task is the unchanged editor state.
- `form.reset()` (scripts.js:119). The page markup that fixes the default values is not part of this model, so `Submit` takes them as a parameter `defaults`.
- The reset button handler (scripts.js:15-17) only calls `clearErrors`, which is `Validation.ClearErrors`. What the button does to the inputs depends on the page markup, which is not part of this model.
- Hover colours on the hobby list (scripts.js:196-206). They are pure presentation with no logic.
- Unicode: `IsWS` lists the ECMAScript whitespace code points as of current Unicode. Strings are sequences of Unicode scalar values, so UTF-16 surrogate code units are not represented. `length` counts code points here, while JavaScript counts UTF-16 code units. This only matters for characters outside the Basic Multilingual Plane.
- The initial theme of the page comes from the markup and is not modelled. `ToggleTheme` works from any state.
