# wabyte — a Dafny model of the site's interactive logic

The wabyte marketing site is a static Next.js page. Most of it is markup, but a
few pieces hold real logic, and this project models those and proves
properties about them:

- **The contact form** (`ContactForm`, `EmailPattern`, `JsString`,
  `UriEncoding`):
  - the four fields and their `onChange` edits, including the 1000-unit cap
    on the idea box;
  - `validate`, with its Spanish error messages;
  - the loose e-mail regular expression;
  - the WhatsApp message template, and the `wa.me` link built from it with
    `encodeURIComponent`.
- **The technologies section** (`Technologies`): the category list,
  de-duplicated in first-occurrence order, and the per-category filter that
  groups the technologies under their headings.
- **The isometric tech-stack scene** (`TechStackScene`):
  - where each block sits on the 4-wide grid;
  - the per-frame hover state machine that calls `onHover` and sets the
    cursor;
  - the orthographic camera's frustum at setup and on resize.
- **The hero scene's quality tier**:
  - `DeviceCapabilities`: device detection — the user-agent test, the
    low-performance rule and the pixel-ratio cap;
  - `Scene`: what the scene renders for each tier;
  - `ParticleSystem`: the particle field's initial spread and its
    per-frame wrap-around.
- **The scroll-progress hook** (`ScrollProgress`): progress and direction
  for each scroll event.

JavaScript semantics that the properties depend on are written out:

- `length` counts UTF-16 code units.
- `trim` and `\s` share the ECMAScript white-space set.
- The `i` flag folds case in a way that never maps a non-ASCII character
  onto an ASCII one.
- `encodeURIComponent` emits UTF-8 octets as upper-case `%XY` triplets.
- `undefined <= 4` is false.
- `x > y` on scroll positions is strict.

Browser inputs — `Math.random`, the sine wave, the raycast, `navigator` and
`window` readings — are parameters of the model.

Modules follow the source files: `contact_form.dfy` for `ContactForm.tsx`
(with its string, e-mail and URI helpers in their own files),
`technologies.dfy` for `TechnologiesSection.tsx`, and so on.

## Model

| member | source | states |
|---|---|---|
| JsString.Trim | components/ui/ContactForm.tsx:35-47 | `trim` yields the infix left after dropping leading and trailing white space; it starts and ends with non-white-space and is empty exactly when the value is all white space |
| JsString.Utf16Length | components/ui/ContactForm.tsx:126 | `length` counts UTF-16 code units: between the number of code points and twice it, equal to it exactly when no code point lies beyond the Basic Multilingual Plane |
| JsString.Utf16LengthOfChar | components/ui/ContactForm.tsx:126 | a character counts one code unit inside the Basic Multilingual Plane and two (a surrogate pair) beyond it |
| JsString.Utf16LengthConcat | components/ui/ContactForm.tsx:126 | `length` of a concatenation is the sum of the parts' lengths, so together with the per-character count it fixes `length` of every string |
| EmailPattern.IndexOf | components/ui/ContactForm.tsx:27-30 | the first occurrence of a character: it is there, it does not occur before, and absence is reported exactly when the character is missing |
| EmailPattern.ValidateEmailMatchesPattern | components/ui/ContactForm.tsx:27-30 | the structural `validateEmail` check accepts exactly the strings of `^[^\s@]+@[^\s@]+\.[^\s@]+$`, the three non-empty runs of non-white-space, non-`@` characters around an `@` and a `.` |
| EmailPattern.ValidatePassesMatch | components/ui/ContactForm.tsx:28-29 | every accepted string splits into the three runs the pattern describes |
| EmailPattern.MatchPassesValidate | components/ui/ContactForm.tsx:28-29 | every match of the pattern is accepted |
| EmailPattern.RejectsWithoutAt | components/ui/ContactForm.tsx:28 | every string without an `@` is rejected |
| EmailPattern.RejectsWithoutDot | components/ui/ContactForm.tsx:28 | every string with no `.` after its first `@` is rejected |
| EmailPattern.RejectsSecondAt | components/ui/ContactForm.tsx:28 | every string with two `@` anywhere is rejected |
| EmailPattern.AcceptsPlainAddress | components/ui/ContactForm.tsx:28 | `ana@x.com` is accepted |
| EmailPattern.LeadingSpaceRejected | components/ui/ContactForm.tsx:41-45 | the pattern sees the untrimmed value, so a leading space makes a valid address invalid |
| ContactForm.Validate | components/ui/ContactForm.tsx:32-52 | each name, last name and idea field has its "required" error exactly when it is all white space; the e-mail has an error exactly when blank or outside the pattern, "required" exactly when blank; each error belongs to its field; there are no errors exactly when the form is acceptable |
| ContactForm.CollectErrors | components/ui/ContactForm.tsx:33-51 | one entry per failed check, the e-mail's "invalid" only when it is not blank, and an empty map exactly when every check passes |
| UriEncoding.Utf8 | components/ui/ContactForm.tsx:56 | each code point becomes one to four UTF-8 octets, a single one exactly for ASCII |
| UriEncoding.EncodeUriComponent | components/ui/ContactForm.tsx:56 | the encoding consists of unreserved characters and upper-case percent triplets only, at least as long as the input and at most twelve times as long |
| UriEncoding.EncodeOne | components/ui/ContactForm.tsx:56 | a character is copied exactly when it is in the unreserved set `A-Z a-z 0-9 - _ . ! ~ * ' ( )`, and otherwise becomes the upper-case `%XY` triplets of its UTF-8 octets |
| UriEncoding.EncodeConcat | components/ui/ContactForm.tsx:56 | encoding distributes over concatenation, so with `EncodeOne` it fixes the encoding of every string |
| UriEncoding.EncodeUnreservedIsIdentity | components/ui/ContactForm.tsx:56 | a string of unreserved characters only is left unchanged |
| UriEncoding.EncodedHasNoDelimiters | components/ui/ContactForm.tsx:56-62 | an encoded value holds no `&`, `#`, `=`, `?`, space or `+` |
| UriEncoding.DecodeEncode | components/ui/ContactForm.tsx:56 | `decodeURIComponent(encodeURIComponent(s)) == s` for every string of code points |
| UriEncoding.DecodeEscapeOfEncoded | components/ui/ContactForm.tsx:56 | decoding the escapes of one encoded character gives back that character and the length of its escape |
| ContactForm.MessageCarriesFields | components/ui/ContactForm.tsx:54-57 | the message contains the name, last name, e-mail and idea verbatim, in that order, at positions fixed by the template |
| ContactForm.WhatsAppLink | components/ui/ContactForm.tsx:59-62 | the link is the `https://wa.me/584142994143?text=` prefix followed by `encodeURIComponent` of the message, a value that decodes back to the message and carries no query or fragment delimiter |
| ContactForm.Submit | components/ui/ContactForm.tsx:59-64 | sending replaces the errors with `validate`'s, leaves the values alone, and opens a link exactly when the form is acceptable, namely the WhatsApp link of the values |
| ContactForm.Edit | components/ui/ContactForm.tsx:77-129 | an edit changes only its own field and never the errors; an idea longer than 1000 UTF-16 units is dropped and leaves the state unchanged |
| ContactForm.RunKeepsIdeaWithinCap | components/ui/ContactForm.tsx:125-129 | no sequence of edits and sends takes the idea past the cap once it is within it |
| ContactForm.IdeaCapFromInitial | components/ui/ContactForm.tsx:16-24 | starting from the empty form, the idea never exceeds 1000 UTF-16 units, and so never 1000 characters |
| ContactForm.StepLinkIsWhatsApp | components/ui/ContactForm.tsx:59-63 | the link a single edit or send opens, if any, is a `wa.me` link to the form's number whose `text` decodes |
| ContactForm.RunLinksAreWhatsApp | components/ui/ContactForm.tsx:59-63 | every link a session opens is a `wa.me` link to the form's number whose `text` decodes |
| ContactForm.EditsOpenNoLink | components/ui/ContactForm.tsx:77-129 | edits alone never open a link |
| ContactForm.SendingEmptyFormFails | components/ui/ContactForm.tsx:32-60 | sending the untouched form opens nothing and shows the four "required" errors |
| ContactForm.ErrorTextsShownAndDistinct | components/ui/ContactForm.tsx:36-47 | the five Spanish messages are non-empty, so `errors.x && …` renders them, and pairwise different, so the shown text identifies the failed check |
| Technologies.FirstIndex | components/sections/TechnologiesSection.tsx:12 | the position of the first occurrence of a present element |
| Technologies.Distinct | components/sections/TechnologiesSection.tsx:12 | `Array.from(new Set(xs))` has no duplicates, the same members as `xs`, and is no longer than it |
| Technologies.DistinctFirstOccurrenceOrder | components/sections/TechnologiesSection.tsx:12 | the de-duplicated list keeps elements in order of their first occurrence |
| Technologies.Categories | components/sections/TechnologiesSection.tsx:12 | the category list has no duplicates and holds exactly the categories some technology has |
| Technologies.CategoriesInFirstOccurrenceOrder | components/sections/TechnologiesSection.tsx:12 | categories are listed in order of their first technology |
| Technologies.Filter | components/sections/TechnologiesSection.tsx:46 | the filter keeps exactly the technologies of one category, in source order, and is empty exactly when no technology has it |
| Technologies.GroupsPartition | components/sections/TechnologiesSection.tsx:33-46 | the groups under the headings, taken together, hold every technology exactly once |
| Technologies.GroupsWellFormed | components/sections/TechnologiesSection.tsx:33-46 | each heading's group is non-empty, lists only its category's technologies, and keeps their source order |
| Technologies.ShippedCategories | lib/constants/content.ts:39-49 | the shipped list yields the headings Frontend, Language, Backend, Cloud, DevOps, Artificial Intelligence, in that order |
| TechStackScene.Cell | components/three/TechStackScene.tsx:127-129 | block `i` sits in column `i % 4` and row `i / 4`, so that row times 4 plus column gives back `i` |
| TechStackScene.PositionsDistinct | components/three/TechStackScene.tsx:127-132 | no two blocks share a position |
| TechStackScene.CurrentHover | components/three/TechStackScene.tsx:217-229 | the current hover is present exactly when the raycast hit a block, and it is that block's name |
| TechStackScene.HoverFrame | components/three/TechStackScene.tsx:217-235 | a frame calls `onHover` exactly when the current hover differs from the remembered one, passing the current hover, and sets the cursor with it; `pointer` exactly for a non-empty name; only the hit block is raised |
| TechStackScene.ReportsAreTransitions | components/three/TechStackScene.tsx:208-235 | over any run the reported hovers never repeat consecutively, the first differs from the initial one, the last is the one finally remembered, and there are no more reports than frames |
| TechStackScene.RunRemembersLastFrame | components/three/TechStackScene.tsx:231-232 | after a run the remembered hover is the last frame's current hover |
| TechStackScene.MissesReportNothing | components/three/TechStackScene.tsx:208-235 | from the initial `null`, frames that hit nothing never call `onHover` |
| TechStackScene.SteadyHover | components/three/TechStackScene.tsx:224-235 | resting on one block reports its name at most once |
| TechStackScene.LeaveReportsNull | components/three/TechStackScene.tsx:231-235 | leaving a block reports `null` once |
| TechStackScene.RunConcat | components/three/TechStackScene.tsx:211-238 | running two stretches of frames one after the other reports the concatenation and remembers what the second stretch leaves |
| TechStackScene.EnterThenLeave | components/three/TechStackScene.tsx:208-235 | a mouse crossing one block reports exactly its name and then `null` |
| TechStackScene.ShippedCursor | components/three/TechStackScene.tsx:234 | with the shipped names the cursor is `pointer` exactly while a block is hovered |
| TechStackScene.SetupFrustum | components/three/TechStackScene.tsx:34-46 | the initial frustum is symmetric, 14 units tall, with half-width 7 times the aspect ratio |
| TechStackScene.ResizeFrustum | components/three/TechStackScene.tsx:243-251 | a resize recomputes a symmetric frustum, 14 units tall, with half-width 7 times the new aspect ratio |
| TechStackScene.ResizeAgreesWithSetup | components/three/TechStackScene.tsx:248-251 | a resize gives the frustum the camera would have been created with at that size, whatever it had before |
| DeviceCapabilities.Search | hooks/use3DOptimization.ts:26-28 | the scan finds a case-insensitive occurrence of a token exactly when one exists |
| DeviceCapabilities.IsMobileAgent | hooks/use3DOptimization.ts:26-28 | the user-agent test holds exactly when one of Android, webOS, iPhone, iPad, iPod, BlackBerry, IEMobile, Opera Mini occurs, ignoring case |
| DeviceCapabilities.CheckCapabilities | hooks/use3DOptimization.ts:25-41 | mobile is the user-agent test; low-performance holds exactly for mobile or a reported processor count of at most 4; the pixel ratio is the device's, capped at 1.5 when low-performance and 2 otherwise |
| DeviceCapabilities.ReachableShape | hooks/use3DOptimization.ts:18-41 | in the initial state and after every check, mobile implies low-performance, and the ratio is at most 2, at most 1.5 when low-performance |
| DeviceCapabilities.FoldedAgentMatchesAlike | hooks/use3DOptimization.ts:26 | two agents that differ only in letter case test alike |
| DeviceCapabilities.LowerCaseIPhone | hooks/use3DOptimization.ts:26-34 | an `iphone` agent at ratio 3 is mobile, low-performance and capped at 1.5 |
| DeviceCapabilities.CoreCountDecidesOffMobile | hooks/use3DOptimization.ts:31-34 | for every agent matching no alternative, 8 processors give the full tier, 4 the low one, and an absent count the full one |
| Scene.Render | components/three/Scene.tsx:25-63 | a spinner until mounted, then a canvas at the capabilities' pixel ratio; the reduced wave (0.3, 1.5, 0.5) and no particles when low-performance, otherwise the full wave (0.5, 2, 0.5) and a field of 50 particles on mobile or 100 elsewhere at speed 0.3 |
| Scene.ReducedTierIsLighter | components/three/Scene.tsx:52-63 | the low-performance wave is smaller and lower at the same speed, and it comes without particles |
| Scene.ParticlesAlwaysFull | components/three/Scene.tsx:58-63 | for every reachable capability state, drawn particles always number 100 and the canvas ratio is at most 2, at most 1.5 without particles |
| Scene.InitialRender | components/three/Scene.tsx:42-63 | at the hook's initial capabilities the canvas would be the full tier at ratio 1; the component shows the canvas only after the first check has run, since the check and the mount happen in the same effect flush |
| ParticleSystem.InitPositions | components/three/ParticleSystem.tsx:23-33 | each slot is its random draw, centred and scaled; x and y start in [-10, 10) and z in [-5, 5) |
| ParticleSystem.NextY | components/three/ParticleSystem.tsx:44-49 | a y coordinate never ends a frame above 10; it moves by the offset, or returns to -10 once it passes 10 |
| ParticleSystem.AdvanceFrame | components/three/ParticleSystem.tsx:40-50 | a frame changes only y slots, each as `NextY` with its particle's offset, and leaves none above 10 |
| ParticleSystem.TrajectoryBounds | components/three/ParticleSystem.tsx:40-50 | a particle starting at or above -10 and drifting only upward stays within [-10, 10] |
| ParticleSystem.FloorIsNotGuarded | components/three/ParticleSystem.tsx:47-49 | a downward offset takes a particle below -10; the reset acts only at the top |
| ScrollProgress.Subscribe | hooks/useScrollProgress.ts:12-18 | after subscribing, the published value is still the initial {0, down} and the current position is remembered |
| ScrollProgress.HandleScroll | hooks/useScrollProgress.ts:20-28 | progress times the scrollable height is the position when something scrolls, 0 otherwise; the direction is down exactly for a strictly larger position; the position is remembered |
| ScrollProgress.ProgressInUnitRange | hooks/useScrollProgress.ts:22-23 | inside the scrollable range, progress lies in [0, 1], 0 at the top and 1 at the bottom |
| ScrollProgress.OverscrollIsNegative | hooks/useScrollProgress.ts:22-23 | progress is not clamped: whenever the page scrolls, an overscroll above the top publishes a negative value and one past the bottom a value above 1 |
| ScrollProgress.NoMovementIsUp | hooks/useScrollProgress.ts:24 | an event at the remembered position publishes direction up |
| ScrollProgress.RunPublishesLastEvent | hooks/useScrollProgress.ts:20-28 | after any events the published value depends only on the last event and the position before it |
| ScrollProgress.RunDirection | hooks/useScrollProgress.ts:24-27 | after any events, the direction is down exactly when the last event passed the position before it, and that event's position is remembered |

## Left out

- Opening the link (`window.open`), rendering, styling, framer-motion animation, three.js scene construction, textures, lights, materials, shaders, the wave geometry, the logo and the camera parallax rig are outside the model; only the values they are given are modelled.
- `Math.random`, `Math.sin` and the clock are inputs: the particle draws and per-frame offsets are parameters, and the raycast's first hit is a parameter of each hover frame.
- Floating point: positions, ratios, frustum bounds and scroll progress are real numbers. IEEE rounding, the `Float32Array` buffer's single-precision rounding, and NaN/Infinity are not modelled. Because of that, `SetupFrustum` and `ResizeFrustum` require a non-zero container height, since zero gives an infinite aspect ratio.
- Lone surrogates cannot be represented: a Dafny string holds only Unicode scalar values. So the URIError that `encodeURIComponent` throws on a lone surrogate typed into the form is not modelled.
- TechStackScene.HoverFrame: the raycast is modelled as returning a block. The source intersects recursively, so a hit on a block's child edge lines would yield an undefined name. That case is not modelled.
- The block easing toward its resting or raised height (`position.y += (target - y) * 0.1 / 0.15`) is not modelled. Only which block receives the raise step is.
- ContactForm.Edit: editing a field does not clear its error; errors change only when `validate` runs on send.
- ContactForm.Edit: React's state batching and closures over stale `formData` are not modelled. Each edit applies to the state left by the previous one.
- DeviceCapabilities.CheckCapabilities: re-running on `resize` is covered by stating every property for any `Signals`. The listener registration and removal are not modelled.
- The shared `ContactFormData` declaration lists only `email`. The model follows the four fields (`nombre`, `apellido`, `email`, `idea`) that the form's own initial value holds.
- The navigation bar's `scrolled` flag (set while `window.scrollY > 50`), the logo's delayed fade-in timer, the stand-alone vanilla three.js scene, and the footer, the clients section and the other sections' markup are not part of this model.
