# Portfolio scroll-spy navigation, modelled in Dafny

The portfolio site is a single React component, `Portfolio`, whose only logic is
its scroll-spy navigation controller. This project models that controller.

- `active_section.dfy`, module `ActiveSection`: the active-section resolver
  `computeActive`. The browser is a snapshot `Env`. It holds the scroll offset,
  the viewport height and the document height, plus a map from section id to
  its mounted element. An id with no key has no element. Each element carries
  its `offsetTop` and its bounding-rect top. `ComputeActive` is the rule as a
  function. `ResolveActive` is the component's loop, with its accumulator and
  early `break`, proved equal to the function. `Adopted` describes the scan's
  result independently, and `ScanIsLastAdopted` proves the scan returns the
  last adopted section.
- `navigation.dfy`, module `Navigation`: the scroll lock and navigation state
  machine. Class `Portfolio` holds these fields:
  - the highlighted section `active`;
  - the lock `scrollingTo` (`None` stands for `null`);
  - the animation-frame handle `raf`;
  - the browser's next frame handle and its set of pending frame handles;
  - the target `top` of every registered `release` listener, in registration
    order.

  The events are methods: the scroll/resize handler, a pending frame callback
  running, a click on a nav link, and a scroll tick delivered to one `release`
  listener. Each method's postcondition ties the new state to a pure transition
  function (`OnScroll`, `FireFrame`, `ScrollToId`, `Release`). The lemmas are
  stated about those functions.

The model follows the code, including these behaviours:
- Every click adds a `release` listener and never removes the earlier ones.
- Whichever listener reaches its own target drops the lock, even while a later
  navigation is still in flight (`StaleListenerDropsNewerLock`). A design in
  which a new navigation replaces the previous listener is not what the code does.
- There is no timeout fallback. A target the viewport cannot reach leaves the
  lock held (`UnreachableTargetKeepsLock`).
- The frame callback does not check the lock. A frame requested just before a
  click still runs after the click and replaces the optimistic highlight while
  the lock is held (`PendingFrameOverridesClick`).
- The bottom override returns the literal `"contact"`, which is the last entry
  of `SECTIONS` (`ContactIsLastSection`).
- The release tolerance is 4 pixels, but the threshold bias is only 1 pixel. A
  navigation that settles 2 or 3 pixels short of its target therefore resolves
  to the previous section (`ShortSettleResolvesPreviousSection`). Settling
  exactly on the target highlights the clicked section
  (`ExactSettleHighlightsTarget`).

Pixel values are unbounded integers.

## Model

| member | source | states |
|---|---|---|
| ActiveSection.YOffset | src/App.jsx:28-44 | the navigation offset is NAV_HEIGHT (72) plus 8, that is 80 pixels |
| ActiveSection.Scan | src/App.jsx:54-61 | the scan returns its starting value or one of the ids it walks |
| ActiveSection.ComputeActive | src/App.jsx:46-62 | the resolved section is always a member of SECTIONS |
| ActiveSection.ResolveActive | src/App.jsx:46-62 | the loop with accumulator and early break returns exactly the resolver's result |
| ActiveSection.ScanIsLastAdopted | src/App.jsx:54-61 | the scan returns the last section it adopts (present, top at or above the position, no earlier present section below it), or its starting value when none is adopted |
| ActiveSection.ContactIsLastSection | src/App.jsx:27 | the forced bottom result "contact" is the last of the five sections |
| ActiveSection.BottomOverride | src/App.jsx:49-52 | within 4 pixels of the bottom the result is "contact", whatever the elements and their positions |
| ActiveSection.ActiveIsLastAdopted | src/App.jsx:46-61 | away from the bottom, the threshold is scrollY + 81; the result is the last adopted section, and "home" when none is adopted |
| ActiveSection.NothingReachedIsHome | src/App.jsx:54-61 | away from the bottom, when no present section's top is at or above scrollY + 81 the result is "home", also when "home" is missing |
| ActiveSection.SoleSectionActivation | src/App.jsx:48-59 | with one non-home section mounted, it is active exactly when its top is at most scrollY + 81, so a top equal to scrollY + 81 counts as reached |
| ActiveSection.SortedActiveIsGreatestReached | src/App.jsx:55-60 | with non-decreasing present tops, the result is the present section of greatest index whose top is at most scrollY + 81 |
| ActiveSection.AboutScenario | src/App.jsx:46-61 | home at 0, about at 1000, skills at 2000, scrolled to 950: the result is "about" |
| Navigation.TargetTop | src/App.jsx:86-88 | a target exists exactly when the element does, and it is rectTop + scrollY - 80 |
| Navigation.Portfolio.constructor | src/App.jsx:41-68 | after mounting: no lock, no pending frame, no listener, and the highlight is the resolved section |
| Navigation.Portfolio.HandleScroll | src/App.jsx:69-73 | the scroll/resize handler performs the OnScroll transition and keeps the invariant |
| Navigation.Portfolio.RunFrame | src/App.jsx:72 | a pending frame callback resolves the highlight and is no longer pending |
| Navigation.Portfolio.HandleClick | src/App.jsx:84-101 | the click handler performs the ScrollToId transition and returns the scroll target, none when the element is missing |
| Navigation.Portfolio.HandleRelease | src/App.jsx:93-99 | a tick to a release listener performs the Release transition and keeps the invariant |
| Navigation.EventsPreserveInv | src/App.jsx:41-102 | every event keeps the highlight and the lock within SECTIONS, and keeps only the last requested frame pending |
| Navigation.AtMostOneFrame | src/App.jsx:68-72 | at most one frame update is pending at any time |
| Navigation.LockedScrollIsNoop | src/App.jsx:70 | while locked, a scroll event changes nothing: no cancel, no new frame |
| Navigation.UnlockedScrollSchedulesOneFrame | src/App.jsx:71-72 | unlocked, a scroll event cancels the pending frame and leaves exactly one fresh frame pending, touching nothing else |
| Navigation.LockedScrollsKeepState | src/App.jsx:69-73 | any number of scroll events while locked leave the highlight and all other state unchanged |
| Navigation.BurstCoalesces | src/App.jsx:69-73 | a burst of unlocked scroll events leaves exactly one frame pending and the highlight unchanged |
| Navigation.ClickMissingIsNoop | src/App.jsx:86-87 | a click whose element is missing changes no state |
| Navigation.ClickLocksAndHighlights | src/App.jsx:88-101 | a click locks on the id and highlights it at once, and appends one listener for rectTop + scrollY - 80 while keeping the earlier ones |
| Navigation.FarTickIsNoop | src/App.jsx:93-95 | a tick 4 or more pixels from the listener's target changes nothing |
| Navigation.NearTickReleases | src/App.jsx:93-99 | a tick within 4 pixels drops the lock, removes only that listener, keeps the others in order, and sets the highlight to the resolved section |
| Navigation.StaleListenerDropsNewerLock | src/App.jsx:93-101 | after two clicks both listeners are registered; the first, on reaching its own target, drops the second navigation's lock and leaves the second listener registered |
| Navigation.PendingFrameOverridesClick | src/App.jsx:69-91 | a frame requested before a click still runs after it and replaces the clicked highlight while the lock is held |
| Navigation.UnreachableTargetKeepsLock | src/App.jsx:88-95 | a target 4 or more pixels above the page top never releases while scrollY is non-negative |
| Navigation.ExactSettleHighlightsTarget | src/App.jsx:84-99 | with sorted tops and away from the bottom, settling exactly on the target releases the lock and highlights the clicked section |
| Navigation.ShortSettleResolvesPreviousSection | src/App.jsx:48-99 | settling 3 pixels short of the "about" target releases the lock and resolves to "home" |

## Left out

- JSX rendering, styling, icons, the static skills, projects and links data, and the footer date (src/App.jsx:104-262). They hold no logic.
- The framer-motion parallax transforms and reveal variants (src/App.jsx:31-39). They are floating-point animation inside a library that is not part of this model.
- The DOM and window APIs (`getElementById`, `getBoundingClientRect`, `scrollTo`, `addEventListener`, `requestAnimationFrame`). They are replaced by the `Env` snapshot and explicit event methods.
- The smooth-scroll animation and its timing. `HandleClick` returns the requested target, and the viewport's later positions arrive as snapshots.
- The order in which one scroll event reaches the scroll handler and the several `release` listeners. Each delivery is a separate event.
- Sub-pixel scroll values. All pixel values are integers.
- `e?.preventDefault?.()` (src/App.jsx:85). It has no effect on the controller's state.
- The unmount cleanup (src/App.jsx:77-81). It removes the scroll and resize handlers and cancels the pending frame, but it leaves every registered `release` listener in place.
- React's render scheduling. Each `setActive` is an immediate assignment of `active`.
