# Portfolio interaction logic, modelled in Dafny

This project models the three pieces of logic in a Vue portfolio site that
behave in ways worth stating:

- **The magnetic hover effect** (`src/composables/useMagnetic.js`). An element
  follows the pointer while the pointer is over it. `mouseenter` measures the
  element, tweens its scale up and starts a frame loop. `mousemove` sets an
  attraction target: the pointer's offset from the element's centre, times
  `strength`. Each frame moves the smoothed offset `pos` a fraction `ease` of
  the way to that target and writes it with `gsap.set`. `mouseleave` stops the
  loop, zeroes the target and tweens the element back. The source has two
  copies of this logic, and both are modelled as classes over the same browser:
  - `Magnetic.MagneticHook` is the `useMagnetic` composable.
  - `Magnetic.MagneticDirective` is the `v-magnetic` directive.
- **The bilingual field resolver** `l` (`src/composables/useLocalized.js`),
  modelled as `Localized.Resolve` over a datatype of JavaScript values.
- **Language selection** (`src/locales/index.js`). This covers the browser
  language reduced to `es`/`en`, the initial locale, and the
  `setLanguage`/`getCurrentLanguage`/`toggleLanguage` state, modelled as
  `Locales.LanguageState`.

The browser and GSAP are the class `Web.Browser`:
- a counter of positive `requestAnimationFrame` handles;
- the map of pending handles to the attachment whose `animate` they will run;
- the set of registered listeners;
- an append-only log of requested GSAP writes.

The pointer position and `getBoundingClientRect()` results are method inputs.
Coordinates are `real`.

Modules: `Common` (Option), `Web`, `Magnetic`, `MagneticScenarios` (whole runs
of the composable), `Localized`, `Locales`.

## Behaviour of the code worth noting

- The two forms of the effect differ in four ways, and the model keeps each
  visible:
  - The hook uses destructuring defaults, so an explicit `0` is kept. The
    directive uses `||`, so a `0` becomes the default
    (`DefaultingDiffersOnlyOnZero`).
  - The directive ignores `ease` and always uses 0.1.
  - The directive's enter has no element guard.
  - The directive's leave cancels the frame but does not clear `animationId`.
- `mouseenter` always calls `animate()`, whether or not a loop is running.
  Two enters without a leave between them start two loops, and leave cancels
  only the newer one. The older loop keeps running after leave
  (`MagneticScenarios.DoubleEnterScenario`).
- `mouseenter` does not set the target; only `mousemove` does. So the frame
  run by enter still moves towards the previous target
  (`MagneticScenarios.HoverScenario`).

## Model

| member | source | states |
|---|---|---|
| `Web.Handlers` | src/composables/useMagnetic.js:71-73 | the listeners one attachment registers: exactly three, one per event type, all on that element and that attachment |
| `Web.DetachIdempotent` | src/composables/useMagnetic.js:83-85 | removing an attachment's three listeners twice leaves the same listener set as removing them once |
| `Web.DetachUndoesAttach` | src/composables/useMagnetic.js:71-85 | removing the three listeners undoes adding them; listeners of other handlers are untouched |
| `Web.Browser.RequestAnimationFrame` | src/composables/useMagnetic.js:65 | returns a new positive handle that was not pending, and records which attachment's callback it will run |
| `Web.Browser.CancelAnimationFrame` | src/composables/useMagnetic.js:41 | the handle stops being pending; cancelling a handle that is not pending changes nothing |
| `Web.Truthy` | src/composables/useMagnetic.js:40 | `if (animationId)` (also lines 79, 124 and 134): every positive frame handle is truthy; `null` and 0 are falsy |
| `Web.Browser.FireFrame` | src/composables/useMagnetic.js:65 | running a pending frame uses up its handle and yields the callback's owner |
| `Web.Browser.AddEventListener` | src/composables/useMagnetic.js:71 | adds one listener; registering the same listener again keeps a single copy |
| `Web.Browser.RemoveEventListener` | src/composables/useMagnetic.js:83 | removes exactly that listener |
| `Web.Browser.GsapTo` | src/composables/useMagnetic.js:30-34 | appends one `gsap.to` request (target, properties, duration, ease name) to the log |
| `Web.Browser.GsapSet` | src/composables/useMagnetic.js:60-63 | appends one `gsap.set` request to the log |
| `Magnetic.OrDefault` | src/composables/useMagnetic.js:94-95 | with `||` defaulting, the value used is never 0 when the default is not 0 |
| `Magnetic.DestructuringDefault` | src/composables/useMagnetic.js:5-9 | a destructuring default agrees with `||` defaulting except on an explicit 0, which it keeps |
| `Magnetic.BindingOptions` | src/composables/useMagnetic.js:94-95 | `binding.value?.p` reads the given options; with no binding value the `||` defaults give the default strength and scale |
| `Magnetic.DefaultingDiffersOnlyOnZero` | src/composables/useMagnetic.js:94-95 | the hook's destructuring default and the directive's `||` give different values exactly when the option is an explicit 0 |
| `Magnetic.Center` | src/composables/useMagnetic.js:19-20 | the centre is equidistant from both edges on each axis, lies inside a box of non-negative size, and is (left, top) for a zero-size box (no fault) |
| `Magnetic.AttractionTarget` | src/composables/useMagnetic.js:19-23 | a pointer at the centre gives a zero target |
| `Magnetic.AttractionPointsToPointer` | src/composables/useMagnetic.js:22-23 | with positive strength, each axis of the target has the sign of the pointer's offset from the centre |
| `Magnetic.Step` | src/composables/useMagnetic.js:57 | one frame on one axis scales the gap to the target by exactly 1 − ease; with ease in [0, 1] it lands between the old value and the target |
| `Magnetic.Lerp` | src/composables/useMagnetic.js:57-58 | the same on both axes; with ease = 1 the new offset is the target |
| `Magnetic.Frames` | src/composables/useMagnetic.js:56-65 | n repetitions of the per-frame update towards a fixed target: the gap after n frames is the initial gap times (1 − ease)^n |
| `Magnetic.FramesApproachMonotonically` | src/composables/useMagnetic.js:57-58 | with ease in [0, 1] every frame stays between the previous offset and the target, and so between the start and the target: no overshoot |
| `Magnetic.MagneticHook.constructor` | src/composables/useMagnetic.js:4-14 | defaults 0.3 / 0.1 / 1.05 apply only to missing options; the state starts with no bounds, zero target and offset, no frame |
| `Magnetic.MagneticHook.OnMouseMove` | src/composables/useMagnetic.js:16-24 | before any bounds are captured nothing changes; otherwise the target becomes the attraction target of the captured bounds and the pointer |
| `Magnetic.MagneticHook.Animate` | src/composables/useMagnetic.js:56-66 | the offset takes one lerp step, exactly that offset is logged as an x/y `gsap.set`, and a new frame handle owned by this attachment is stored |
| `Magnetic.MagneticHook.OnFrame` | src/composables/useMagnetic.js:65 | a fired frame uses up its handle and runs one `animate` |
| `Magnetic.MagneticHook.OnMouseEnter` | src/composables/useMagnetic.js:26-37 | with no element nothing changes; otherwise bounds are re-measured, the scale tween (0.3, power2.out) is logged, and exactly one frame runs immediately, even when a loop is already running |
| `Magnetic.MagneticHook.OnMouseLeave` | src/composables/useMagnetic.js:39-54 | cancels the pending frame, clears the handle, zeroes the target, and logs the x=0, y=0, scale=1 tween (0.5, elastic); the offset is kept |
| `Magnetic.MagneticHook.Init` | src/composables/useMagnetic.js:68-74 | with no element nothing changes; otherwise exactly the three handlers are added |
| `Magnetic.MagneticHook.Destroy` | src/composables/useMagnetic.js:76-86 | with no element nothing changes; otherwise the pending frame is cancelled and exactly the three handlers are removed |
| `Magnetic.MagneticDirective.Mounted` | src/composables/useMagnetic.js:93-138 | `||` defaults for strength and scale, the three handlers registered, state at rest |
| `Magnetic.MagneticDirective.OnMouseMove` | src/composables/useMagnetic.js:102-108 | same retargeting rule as the hook, with the directive's strength |
| `Magnetic.MagneticDirective.Animate` | src/composables/useMagnetic.js:110-115 | one lerp step with the fixed ease 0.1, logged on the element, with a new frame stored |
| `Magnetic.MagneticDirective.OnFrame` | src/composables/useMagnetic.js:114 | a fired frame uses up its handle and runs one `animate` |
| `Magnetic.MagneticDirective.OnMouseEnter` | src/composables/useMagnetic.js:117-121 | always re-measures, logs the scale tween and runs one frame (no element guard) |
| `Magnetic.MagneticDirective.OnMouseLeave` | src/composables/useMagnetic.js:123-127 | cancels the pending frame but keeps its stale handle, zeroes the target, logs the return tween |
| `Magnetic.MagneticDirective.Cleanup` | src/composables/useMagnetic.js:133-138 | cancels the last requested frame and removes exactly the three handlers |
| `Magnetic.Unmounted` | src/composables/useMagnetic.js:140-142 | runs the cleanup only when one was installed, otherwise the browser is unchanged; with a cleanup, the attachment's three listeners are removed and its stored frame handle, if any, is cancelled, with no other pending frame touched |
| `MagneticScenarios.ZeroSizeBoxHasNoPull` | src/composables/useMagnetic.js:19-23 | a zero-size box with the pointer on its corner gives a zero target |
| `MagneticScenarios.ScenarioArithmetic` | src/composables/useMagnetic.js:19-23 | a 100×100 box at the origin with the pointer at (150, 50): centre (50, 50), target (30, 0); one frame from rest reaches (3, 0) |
| `MagneticScenarios.HoverScenario` | src/composables/useMagnetic.js:26-54 | enter, move, one frame, leave: target (30, 0), offset (3, 0), no frame pending afterwards, last log entry the elastic return tween |
| `MagneticScenarios.DoubleEnterScenario` | src/composables/useMagnetic.js:26-66 | after enter, enter, leave, the first loop's frame is still pending and, when fired, reschedules itself |
| `MagneticScenarios.DestroyTwice` | src/composables/useMagnetic.js:76-86 | two `destroy` calls leave the same listeners and pending frames as one |
| `Localized.Coalesce` | src/composables/useLocalized.js:15 | `??` yields one of its operands, the left one whenever it is not nullish, and is nullish only when both operands are |
| `Localized.IsBilingual` | src/composables/useLocalized.js:13-14 | every plain object with an `es` or an `en` key is bilingual; null, undefined, primitives and arrays never are |
| `Localized.Get` | src/composables/useLocalized.js:15 | `value[key]` is the entry for a present key; a result that is not nullish is an entry of the object under a present key |
| `Localized.Resolve` | src/composables/useLocalized.js:11-19 | anything that is not a bilingual object comes back unchanged; a bilingual object never resolves to null or undefined |
| `Localized.FirstPresent` | src/composables/useLocalized.js:15 | the first non-nullish candidate, or `''`, never nullish |
| `Localized.ResolveIsFirstPresent` | src/composables/useLocalized.js:15 | a bilingual object resolves to the first present entry among the locale, `es` and `en`, else `''` |
| `Localized.NullishUnchanged` | src/composables/useLocalized.js:12 | null and undefined are returned unchanged |
| `Localized.NonObjectsUnchanged` | src/composables/useLocalized.js:13-18 | strings, numbers, booleans and arrays are returned unchanged |
| `Localized.PlainObjectUnchanged` | src/composables/useLocalized.js:14-18 | an object with neither `es` nor `en` is returned unchanged |
| `Localized.LocaleEntryWins` | src/composables/useLocalized.js:15 | a present, non-nullish entry for the current locale is the result |
| `Localized.FallbackOrder` | src/composables/useLocalized.js:15 | without a usable locale entry: `es` if non-nullish, else `en` if non-nullish, else `''` |
| `Localized.OnlyThreeEntriesMatter` | src/composables/useLocalized.js:15 | two bilingual objects that agree on the locale, `es` and `en` entries resolve alike, whatever their other keys hold |
| `Localized.StringEntriesResolveToString` | src/composables/useLocalized.js:11-19 | when all entries of a bilingual object are strings or nullish, the result is a string: one of the object's entries or `''` |
| `Locales.PrimarySubtag` | src/locales/index.js:7 | `split('-')[0]`: a prefix of the tag that contains no `-` and is followed by `-` or by the end of the tag |
| `Locales.PrimarySubtagUnique` | src/locales/index.js:7 | those three properties determine the primary subtag |
| `Locales.BrowserLanguage` | src/locales/index.js:6-9 | the browser language is always `es` or `en` |
| `Locales.BrowserLanguageEnglish` | src/locales/index.js:7-8 | the result is `en` exactly when the tag is `en` or starts with `en-` (case-sensitive); otherwise it is `es` |
| `Locales.OtherLanguagesGiveSpanish` | src/locales/index.js:8 | a primary subtag other than `es` or `en` gives `es` |
| `Locales.InitialLocale` | src/locales/index.js:12 | a stored non-empty value is used unvalidated; a missing or empty one gives the browser language; the initial locale is never empty |
| `Locales.Toggled` | src/locales/index.js:36 | the toggled locale is `es` or `en`, and it is `en` exactly when the locale was `es` |
| `Locales.ToggleTwiceRestores` | src/locales/index.js:35-37 | toggling twice restores `es` or `en` |
| `Locales.ToggleTwiceFromOther` | src/locales/index.js:35-37 | toggling twice from any other locale ends on `en`, not on the start |
| `Locales.LanguageState.constructor` | src/locales/index.js:12-16 | module load chooses the initial locale and writes neither the storage nor the document |
| `Locales.LanguageState.SetLanguage` | src/locales/index.js:25-29 | locale, stored preference and document language all become `lang`, whatever it is |
| `Locales.LanguageState.GetCurrentLanguage` | src/locales/index.js:32 | returns the current locale |
| `Locales.LanguageState.ToggleLanguage` | src/locales/index.js:35-38 | the locale becomes the toggled one (so `es` or `en`) and is stored and written to the document |
| `Locales.SetThenGet` | src/locales/index.js:25-32 | `getCurrentLanguage` returns what `setLanguage` last set |
| `Locales.ToggleTwice` | src/locales/index.js:35-38 | two toggles from `es` or `en` return to the starting locale, stored and shown |

## Left out

- Event dispatch is not modelled. Handlers are methods that any caller may
  invoke, whether or not the listener is registered. The DOM's event order and
  the pairing of `mouseenter` with `mouseleave` are not modelled.
- Frame timing is not modelled. A frame runs only when the caller fires a
  pending handle (`OnFrame`).
- Layout is not modelled: `getBoundingClientRect` results are inputs.
- GSAP is not modelled: easing curves, tween timing and interpolation are left
  out. Only the requested target properties, duration and ease name are
  logged. Passing a null target (the hook's leave or frame with no element) is
  logged as a call with target `None`; GSAP's warning is not modelled.
- Floating point is not modelled: coordinates are `real`, so IEEE-754 rounding
  of the lerp is not modelled and nothing is claimed about float convergence.
- Option values that are not numbers are left out (`null`, strings, `NaN`), as
  is a `null` options object (a TypeError in the hook).
- Vue's reassignment of `elementRef.value` is modelled as a plain assignment to
  `MagneticHook.element`. Vue reactivity and lifecycle hooks are not modelled.
- `el._magneticCleanup` is not a property in the model. It is the
  `MagneticDirective` reference the caller keeps for the element, or `null`
  when `mounted` never ran.
- `Localized.Resolve` takes the locale as a parameter instead of reading the
  reactive `locale` ref.
- `Localized.Resolve` does not model properties inherited through the
  prototype chain. In JavaScript an unvalidated locale such as `toString`
  would read a function from `value[locale]`. JSON values holding functions
  or symbols are not modelled either.
- Storage and document side effects are not modelled beyond their fields.
  `localStorage` and `document` are the fields of `LanguageState`, and
  `navigator.language` is an input. Storage exceptions (storage disabled or
  full) and the coercion of non-string `lang` values are not modelled.
- vue-i18n internals are not modelled: catalogue lookup, `fallbackLocale`, and
  the contents of `es.json` and `en.json`.
- `src/router/index.js` is not part of this model. It only configures
  vue-router.
- `src/main.js` is not part of this model. It only bootstraps the app.
