# History quiz page: a Dafny model of its decision rules

The repository is a small static site about the history of contraception.
Its four near-duplicate page scripts (`improved-js-v2.js`, `modular-js.js`,
`main-js.js`, `script.js`) wrap a handful of pure rules in DOM code. This
project models those rules as Dafny datatypes and functions and proves what
they guarantee.

- **Text** (`text.dfy`) covers the three string operations the quiz uses.
  - `toLowerCase` maps the ASCII and Latin-1 capitals one code point at a time.
  - `trim` removes ECMAScript WhiteSpace and LineTerminator characters from both ends.
  - `includes` does substring search.
  - Proved: `includes` agrees with a declarative substring predicate, and trimming commutes with lower-casing.
- **Quiz** (`quiz.dfy`) covers the answer key, the pass threshold of 70 and keyword matching (`checkAnswer`).
  - It scores the submitted form entries (`evaluateAnswers`). The score is an exact pair (earned, max) rather than a float.
  - The answer key is a plain object, so a field named after a member every object inherits (`toString`, `constructor`, ...) finds a truthy value with no `answers`. Scoring such a submission throws, and the model returns an error for it.
  - A submission that names no question puts nothing at stake. The source then computes 0 / 0, which is NaN, and NaN never passes. The model keeps this as a `NaN` score.
  - It also covers both variants of required-field validation and the progress counts.
- **QuizExamples** (`quiz_examples.dfy`) works through sample answers and two sample submissions against the shipped key.
- **Storage** (`storage.dfy`) covers `Object.fromEntries`, `saveData`/`saveProgress`, `getData`, the autosave input handler and both variants of `loadSavedProgress`.
  - Storage is an abstract map from keys to text.
  - `JSON.stringify` and `JSON.parse` are parameters: an encoder, and a decoder that may fail.
  - No claim is made that decoding undoes encoding.
  - Writing a saved value back goes through `form.elements[name]`. That yields a control only for a non-empty name that is not a member of the collection, and only when exactly one control carries the name.
- **Navigation** (`navigation.dfy`) covers the scroll rules.
  - The active-link rule of both scroll handlers: the last current section wins, and with no current section nothing changes.
  - The nav click scroll target and link highlighting.
  - The back-to-top button threshold, which is strict at 300.
- **LazyImages** (`lazy_images.dfy`) covers the load-once rule of the image observer.
- **Wrappers** (`wrappers.dfy`) holds `Option` and `Result`.

Inputs the scripts read from the browser are parameters of the model:
- form fields and their values;
- section offsets and heights, in whole pixels;
- the scroll position;
- intersection entries;
- whether `localStorage.setItem` succeeds.

## Model

| member | source | states |
|---|---|---|
| Text.Includes | improved-js-v2.js:181 | `includes` is true exactly when the keyword occurs as a contiguous part of the answer; the empty keyword occurs in every answer |
| Text.Trim | improved-js-v2.js:179 | `trim` yields the empty string exactly when every character is whitespace, and otherwise a string that neither starts nor ends with whitespace |
| Text.TrimRemovesOnlyWhitespace | improved-js-v2.js:179 | `trim` keeps the contiguous middle of the input and cuts only whitespace before and after it |
| Text.LowerSpec | improved-js-v2.js:179 | `toLowerCase` leaves no capital, turns each capital into its lower-case partner and keeps every other character |
| Text.LowerIdempotent | improved-js-v2.js:179 | lower-casing an already lower-cased string changes nothing |
| Text.LowerTrimCommute | improved-js-v2.js:179 | lower-casing then trimming, as `checkAnswer` does, equals trimming then lower-casing |
| Quiz.CheckAnswer | improved-js-v2.js:178-183 | an answer is right iff, lower-cased and trimmed, it contains some accepted keyword lower-cased |
| Quiz.CheckAnswerIgnoresCase | improved-js-v2.js:179-181 | for every answer and keyword list, lower-casing the answer beforehand never changes the verdict |
| Quiz.CheckAnswerOrderIndependent | improved-js-v2.js:180-182 | the verdict of `some` does not depend on the order of the accepted keywords |
| Quiz.BlankAnswerNeverMatches | improved-js-v2.js:178-183 | a blank or whitespace-only answer matches no list of non-empty keywords |
| Quiz.BlankAnswerScoresNothing | improved-js-v2.js:11-21 | every keyword of the shipped key is non-empty, so a blank answer is wrong for every question |
| Quiz.LookUp | improved-js-v2.js:166-167 | indexing the answer-key object finds an own question, else a truthy inherited member for an `Object.prototype` name, else `undefined` |
| QuizExamples.MixedCaseAnswerMatches | improved-js-v2.js:12-14 | "ROMA y Egipto" is right for question1: matching ignores case |
| Quiz.Gain | improved-js-v2.js:166-171 | an entry earns its question's points exactly when its name is a question and its answer is accepted, and nothing otherwise, so never more than it puts at stake |
| Quiz.TotalPoints | improved-js-v2.js:165-173 | the earned total never exceeds the maximum |
| Quiz.NothingAtStake | improved-js-v2.js:165-175 | the maximum is zero exactly when no submitted entry names a question worth a point |
| Quiz.PointsOrderIndependent | improved-js-v2.js:165-173 | permuting the submitted entries changes neither total |
| Quiz.SumByPermutation | improved-js-v2.js:165-173 | a per-entry sum is invariant under permutation of the entries |
| Quiz.UnknownEntriesIgnored | improved-js-v2.js:166-167 | entries whose name finds nothing in the key object, neither a question nor an inherited member, change neither total and not whether the evaluation throws |
| Quiz.EvaluateAnswers | improved-js-v2.js:160-182 | the loop throws iff some entry is named after an inherited member (its `answers` is undefined); otherwise it yields NaN iff nothing was at stake, and else a ratio with earned ≤ max whose percentage lies in [0, 100] |
| Quiz.NoKnownQuestionIsNaN | improved-js-v2.js:165-175 | with the shipped key, the evaluation throws iff some entry is named after an `Object.prototype` member, and the score is NaN iff no submitted entry names a question of the key |
| Quiz.IsPassing | improved-js-v2.js:186-187 | a score passes iff its percentage is at least 70; NaN never passes |
| Quiz.PassBoundary | modular-js.js:88-89 | exactly 70% passes and 69% does not: the threshold is inclusive |
| QuizExamples.HalfRightFails | improved-js-v2.js:160-187 | one right and one wrong answer do not throw and score 1 of 2, i.e. 50%, which fails |
| QuizExamples.AllRightPasses | improved-js-v2.js:160-187 | two right answers do not throw and score 2 of 2, i.e. 100%, which passes |
| Quiz.RequiredInputs | improved-js-v2.js:145 | the selected controls are exactly the form's controls marked required |
| Quiz.RequiredInputsCount | improved-js-v2.js:280 | the selection holds every required control as often as the form does and no other control, so its length is the number of required controls |
| Quiz.ValidateForm | improved-js-v2.js:144-158 | the class-based validation succeeds iff every required field has a non-blank value |
| Quiz.ValidateEvery | modular-js.js:83-86 | the `every`-based validation succeeds iff every required field is non-blank, vacuously when none is required |
| Quiz.FormProgress | improved-js-v2.js:277-285 | completed never exceeds the number of required fields, and they are equal iff the form validates |
| Quiz.FormProgressCounts | improved-js-v2.js:280-282 | the total is the number of required fields and the completed count the number of required fields with a non-blank value |
| Storage.FromEntries | improved-js-v2.js:115 | the snapshot's keys are exactly the entry names, and a repeated name takes its last entry's value |
| Storage.FormEntries | improved-js-v2.js:114-115 | form data holds only named controls; a single control gives its entry when named and nothing otherwise |
| Storage.FormEntriesAppend | improved-js-v2.js:114-115 | the form data of two runs of controls is the concatenation of theirs; with the single-control case this makes it exactly the named controls, in document order |
| Storage.FormEntriesAt | improved-js-v2.js:114-115 | every named control has its (name, value) entry, placed after the entries of the controls before it |
| Storage.SaveData | modular-js.js:23-28 | a save succeeds iff the store accepts the write; then it stores the encoded snapshot under the key and leaves every other key alone; otherwise it fails with the save error |
| Storage.SaveProgress | improved-js-v2.js:231-237 | the same save, under the fixed storage key |
| Storage.HandleQuizInput | improved-js-v2.js:113-124 | an input event saves the snapshot of the form under the storage key, adds no other key and keeps every other value, then refreshes the progress from the form; when the store refuses the write it fails and skips the refresh |
| Storage.GetData | modular-js.js:31-39 | reading gives nothing when the key is absent, the stored text is empty or decoding fails, and otherwise the decoded value |
| Storage.SaveThenGet | modular-js.js:23-34 | reading right after a successful save gives the decoding of the encoded snapshot |
| Storage.SaveIsolated | modular-js.js:25 | a save never changes what another key reads back, and a failed save changes nothing |
| Storage.NamedItem | improved-js-v2.js:245-246 | `elements[name]` yields a control exactly when the name resolves and exactly one control carries it, and then it is that control |
| Storage.FoundByPositions | improved-js-v2.js:245-246 | a control is found by its name iff the name resolves and the control is the only one at that name |
| Storage.Assign | improved-js-v2.js:245-248 | a saved value goes into the control `elements[name]` yields: the only control with that name, when the name is non-empty and not a collection member; otherwise no control changes |
| Storage.ApplyEntries | modular-js.js:201-204 | writing back the saved entries sets each control that its name finds, when that name is saved, to the snapshot's value; every other field, name and required flag is unchanged, so an unnamed or shared-name control is never written |
| Storage.Entries | improved-js-v2.js:244 | `Object.entries` throws on null, gives no entries for other falsy values, and a value's own entries otherwise |
| Storage.LoadSavedProgress | modular-js.js:198-206 | loading restores the saved snapshot into the form when the store holds a truthy decoded value, refreshing the progress; otherwise nothing changes. As written this variant never runs, because its constructor throws first (see Left out) |
| Storage.LoadSavedProgressInline | improved-js-v2.js:239-255 | the inline load restores the same snapshot; parse failures and `null` are caught and change nothing; any other value refreshes the progress |
| Storage.LoadVariantsAgree | improved-js-v2.js:239-255 | both load variants leave the form identical, and differ in refreshing only when the stored text decodes to a falsy non-null value. The module variant is unreachable as written, so this compares the two rules, not the two pages |
| Storage.NothingSavedNothingChanges | modular-js.js:199-200 | with nothing usable stored, a load leaves the form untouched and does not refresh |
| Storage.RestoreAfterSave | improved-js-v2.js:239-250 | the page's own loader, run after an autosave on a form whose named controls have distinct names, brings back every answer whose name resolves into a form with the same controls. It keeps the page's value in the rest and refreshes the progress. The module loader would do the same. This assumes a decoder that returns the encoded entries |
| Storage.ResponsesOfDistinct | improved-js-v2.js:114-115 | when named controls have distinct names, the saved snapshot maps each name to its control's value |
| Navigation.Highlight | main-js.js:69-74 | every link loses `active` and exactly the links whose href is the target regain it; hrefs are unchanged |
| Navigation.HighlightOverrides | main-js.js:69-74 | a second highlight erases the first: only the last target matters |
| Navigation.LastCurrent | main-js.js:63-68 | the reference: the index of the last section whose band holds the scroll position, or none when no band does |
| Navigation.ScanLastWins | main-js.js:63-76 | walking the sections in order leaves the links highlighted for the last current section, and unchanged when none is current |
| Navigation.UpdateActiveLink | main-js.js:60-77 | after a scroll, a link is active iff its href is `#` plus the id of the last current section; with no current section the links are unchanged |
| Navigation.UpdateActiveSection | script.js:67-83 | the same rule in the module script, reading the id through the `id` property |
| Navigation.ActiveRulesAgree | script.js:77 | when every section has an id, the two scripts mark the same links |
| Navigation.CurrentBoundaries | main-js.js:64-68 | a section's band includes its first pixel (top − 100) and excludes the pixel before it and the pixel at top − 100 + height |
| Navigation.OverlapLaterWins | script.js:70-82 | with two overlapping sections both current, the later one decides the active link |
| Navigation.FirstSelected | main-js.js:26 | the selector finds the first section whose id the href names, and nothing when none has it |
| Navigation.NavScrollTarget | main-js.js:28-36 | a nav click scrolls to a section's top minus the offset when the href names a section, and does not scroll otherwise |
| Navigation.NavScrollTargetFirst | main-js.js:28-31 | the page script scrolls to 70 pixels above the first section with that id |
| Navigation.HandleNavigation | improved-js-v2.js:86-110 | a click on a link naming a section scrolls to 80 pixels above it and marks exactly the links with the same href active; otherwise nothing happens |
| Navigation.ClickedLinkActive | improved-js-v2.js:105-110 | after a click that scrolls, the clicked link is active |
| Navigation.ButtonAfterScrolls | main-js.js:80-86 | after any run of scroll events the button shows iff the last position is past 300 |
| Navigation.ButtonThresholdStrict | script.js:135-139 | the threshold is strict (300 hides, 301 shows) and scrolling further down never hides the button |
| Navigation.OnScroll | main-js.js:89-92 | a scroll event sets the button from the position and leaves the links alone when no section is current |
| Navigation.ScrollEvents | main-js.js:89-92 | a run of scroll events never changes link hrefs, and the button follows the last position |
| Navigation.ScrollForgetsHistory | main-js.js:89-92 | after a run of scroll events the links depend only on the last event when a section is current then; otherwise that event changes nothing |
| LazyImages.Observe | script.js:104-106 | every image with a `data-src` attribute is observed, an empty one included |
| LazyImages.OnEntry | script.js:90-98 | an intersecting observed image with a non-empty `data-src` gets it as `src`, the `loaded` class, and is unobserved; any other entry changes nothing |
| LazyImages.LoadIdempotent | script.js:93-96 | repeating the load of an already loaded image changes nothing, which is why a queued second entry for it is skipped |
| LazyImages.RunEntries | script.js:89-102 | over any run of entries the image loads at most once, exactly when it was observed with a usable source and some entry intersected |
| LazyImages.LoadedAtMostOnce | script.js:91-97 | an image is loaded at most once, and exactly when it has a usable source and scrolls into view |
| LazyImages.EmptySourceNeverLoads | script.js:93 | an image whose `data-src` is empty stays observed and never loads |

## Left out

- DOM lookup, event wiring, `preventDefault`, CSS class bookkeeping beyond `active` and `loaded`, `aria-*` attributes, and the welcome-screen transition are left out. They are page plumbing with no rule of their own.
- `showError`, `showInputError`/`clearInputError`, `showResults`' message text and `toFixed` formatting are left out, because they only render text. Only the pass test of `showResults` is modelled.
- The fade animations and `requestAnimationFrame` timing are left out: they are floating-point frame timing.
- The `debounce` helpers and `setTimeout` banner removal are left out: they are event-loop timers. Each modelled handler is the call that finally runs.
- Real `localStorage` and `JSON` are parameters, because they are foreign library calls. A store write either succeeds or throws. The decoder returns nothing when parsing throws.
- Decoded values are modelled only through their truthiness and their `Object.entries` list. Stored values are strings.
- `FormData` is modelled as every named control with its value. Named buttons (which `FormData` skips unless they submitted the form), unchecked checkboxes and radios, disabled controls and file inputs are left out. The model assumes the quiz form has none of them; the page's markup is not part of this model.
- Storage.Assign: for a name that several controls share, `elements[name]` yields a `RadioNodeList`. Setting its `value` checks a matching radio button; the model has no radio buttons and changes no control. Also not modelled: lookup by `id`; numeric names, which are read as indices; and the name `length`. For `length` the collection yields its size, and when that is non-zero, setting `value` on a number throws in strict code and aborts the load.
- `IntersectionObserver` mechanics are left out: thresholds, root margins, and batching of entries across images. Each image is followed on its own, through the entries delivered for it.
- The section fade-in observers are left out. They only add a `visible` class once, and no rule reads it.
- `scrollTo`, smooth scrolling and `scrollIntoView` are left out. The module script's `scrollToSection` (script.js:57-65) scrolls with no offset; only the offset rules of the other scripts are modelled.
- Navigation.FirstSelected: `querySelector(href)` is modelled as a lookup of a section by id. Non-section elements with that id, and hrefs that are not valid selectors (which make `querySelector` throw), are not modelled. Nor are ids that are not CSS identifiers: for the id `a.b`, the href `#a.b` selects an element with id `a` and class `b`. The page's script then finds no section and does not scroll, while the model scrolls to the section whose id is `a.b`.
- Scroll positions and offsets are whole pixels; fractional `scrollY` values are not modelled.
- Text.Lower: `toLowerCase` is modelled for ASCII and Latin-1 capitals only. Other scripts, and the one capital that lower-cases to two characters, are not modelled.
- Quiz.IsPassing: the percentage is exact. Floating-point rounding of `(earned / max) * 100` near the threshold is not modelled.
- Quiz.FormProgress: the model gives the counts only. The percentage `completed / total * 100`, which is NaN when no field is required, and the progress bar width are not modelled.
- modular-js.js binds a `handleSubmit` (modular-js.js:68) that it never defines. That file therefore has no scoring to model. Binding `undefined` also throws a `TypeError` inside the `QuizManager` constructor, so `new HistoryApp()` throws out of `initializeManagers` (modular-js.js:177-178). This happens before `loadSavedProgress` (modular-js.js:161) runs and before the navigation and enter-button listeners are attached. Only the input autosave listener (modular-js.js:65-67) is in place. Storage.LoadSavedProgress models what that file's loader would do if it ran; as written, it never runs.
- modular-js.js calls its `updateProgress` without an argument (modular-js.js:205 and 77). Only whether the progress is refreshed is modelled, not the width it sets.
- The `Escape` key shortcut and the image error handler are left out, because they are page plumbing.
