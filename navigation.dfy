/** The scroll lock and navigation state machine of the portfolio's scroll-spy:
    the natural scroll handler with its once-per-frame coalescing, the frame
    callback, the smooth-scroll click handler, and the `release` listeners that
    each click registers on the window. */
module Navigation {
  import opened ActiveSection

  datatype Option<T> = None | Some(value: T)

  /** The controller's state: the highlighted section, the scroll lock, the
      last frame handle requested, the next handle the browser will hand out,
      the frame handles still pending, and the target `top` of each registered
      release listener in registration order. */
  datatype NavState = NavState(
    active: string,
    scrollingTo: Option<string>,
    raf: nat,
    nextHandle: nat,
    frames: set<nat>,
    releases: seq<int>)

  /** What the controller keeps true: the highlight and the lock name sections,
      handles are handed out from 1 upwards, and only the handle last requested
      can still be pending. */
  ghost predicate Inv(s: NavState)
  {
    s.active in SECTIONS &&
    (s.scrollingTo.Some? ==> s.scrollingTo.value in SECTIONS) &&
    1 <= s.nextHandle && s.raf < s.nextHandle &&
    s.frames <= {s.raf} && 0 !in s.frames
  }

  /** The lock is held (a non-null `scrollingTo`). */
  predicate Locked(s: NavState)
  {
    s.scrollingTo.Some?
  }

  /** State after mounting: no lock, no frame, no listener, and the highlight
      resolved once for the initial snapshot. */
  function Mounted(env: Env): NavState
  {
    NavState(ComputeActive(env), None, 0, 1, {}, [])
  }

  /** A natural scroll or resize event: ignored while locked; otherwise the
      pending frame (if any) is cancelled and one new frame is requested. */
  function OnScroll(s: NavState): NavState
  {
    if Locked(s) then s
    else s.(raf := s.nextHandle, nextHandle := s.nextHandle + 1,
            frames := (s.frames - {s.raf}) + {s.nextHandle})
  }

  /** The frame callback with handle `h` runs: it resolves the highlight,
      without looking at the lock. */
  function FireFrame(s: NavState, h: nat, env: Env): NavState
    requires h in s.frames
  {
    s.(active := ComputeActive(env), frames := s.frames - {h})
  }

  /** The scroll target for section `id`: its viewport top plus the scroll
      offset, less the navigation offset; none when the element is missing. */
  function TargetTop(id: string, env: Env): (r: Option<int>)
    ensures r.Some? <==> id in env.elements
    ensures r.Some? ==> r.value == env.elements[id].rectTop + env.scrollY - 80
  {
    if id !in env.elements then None
    else Some(env.elements[id].rectTop + env.scrollY - YOffset())
  }

  /** A click on the link to `id`: no effect when the element is missing;
      otherwise the lock and the highlight go to `id` and one more release
      listener is registered for the target. */
  function ScrollToId(s: NavState, id: string, env: Env): NavState
  {
    match TargetTop(id, env)
    case None => s
    case Some(top) => s.(scrollingTo := Some(id), active := id, releases := s.releases + [top])
  }

  /** The viewport settled within 4 pixels of `top`. */
  predicate Near(scrollY: int, top: int)
  {
    -4 < scrollY - top < 4
  }

  /** The scroll tick delivered to release listener `k`: when the viewport is
      within 4 pixels of its target, it drops the lock, removes itself and
      resolves the highlight; otherwise nothing changes. */
  function Release(s: NavState, k: nat, env: Env): NavState
    requires k < |s.releases|
  {
    if Near(env.scrollY, s.releases[k]) then
      s.(scrollingTo := None, releases := s.releases[..k] + s.releases[k + 1..],
         active := ComputeActive(env))
    else s
  }

  // ---------------------------------------------------------------------------
  // The component instance.

  /** One mounted portfolio component, holding the controller's state. */
  class Portfolio {
    var active: string
    var scrollingTo: Option<string>
    var raf: nat
    var nextHandle: nat
    var frames: set<nat>
    var releases: seq<int>

    function State(): NavState
      reads this
    {
      NavState(active, scrollingTo, raf, nextHandle, frames, releases)
    }

    ghost predicate Valid()
      reads this
    {
      Inv(State())
    }

    /** Mounting: the highlight starts at "home" and the mount effect resolves it. */
    constructor (env: Env)
      ensures Valid()
      ensures State() == Mounted(env)
    {
      active := "home";
      scrollingTo := None;
      raf := 0;
      nextHandle := 1;
      frames := {};
      releases := [];
      new;
      active := ResolveActive(env);
    }

    /** The handler registered for window scroll and resize events. */
    method HandleScroll()
      requires Valid()
      modifies this
      ensures Valid()
      ensures State() == OnScroll(old(State()))
    {
      if scrollingTo.Some? {
        return;
      }
      frames := frames - {raf};
      raf := nextHandle;
      nextHandle := nextHandle + 1;
      frames := frames + {raf};
    }

    /** The browser runs the pending frame callback `h`. */
    method RunFrame(h: nat, env: Env)
      requires Valid() && h in frames
      modifies this
      ensures Valid()
      ensures State() == FireFrame(old(State()), h, env)
    {
      frames := frames - {h};
      active := ResolveActive(env);
    }

    /** The click handler for the link to `id`; returns the offset passed to
      `window.scrollTo`, none when the element is missing. */
    method HandleClick(id: string, env: Env) returns (target: Option<int>)
      requires Valid() && id in SECTIONS
      modifies this
      ensures Valid()
      ensures target == TargetTop(id, env)
      ensures State() == ScrollToId(old(State()), id, env)
    {
      if id !in env.elements {
        return None;
      }
      var top := env.elements[id].rectTop + env.scrollY - YOffset();
      scrollingTo := Some(id);
      active := id;
      target := Some(top);
      releases := releases + [top];
    }

    /** Release listener `k` receives a scroll tick. */
    method HandleRelease(k: nat, env: Env)
      requires Valid() && k < |releases|
      modifies this
      ensures Valid()
      ensures State() == Release(old(State()), k, env)
    {
      var top := releases[k];
      var near := -4 < env.scrollY - top < 4;
      if near {
        scrollingTo := None;
        releases := releases[..k] + releases[k + 1..];
        active := ResolveActive(env);
      }
    }
  }

  // ---------------------------------------------------------------------------
  // Properties of the state machine.

  /** Every event keeps the invariant. */
  lemma EventsPreserveInv(s: NavState, id: string, h: nat, k: nat, env: Env)
    requires Inv(s)
    ensures Inv(Mounted(env))
    ensures Inv(OnScroll(s))
    ensures h in s.frames ==> Inv(FireFrame(s, h, env))
    ensures id in SECTIONS ==> Inv(ScrollToId(s, id, env))
    ensures k < |s.releases| ==> Inv(Release(s, k, env))
  {
  }

  /** At most one frame is pending at any time. */
  lemma AtMostOneFrame(s: NavState)
    requires Inv(s)
    ensures |s.frames| <= 1
  {
    if s.frames != {} {
      assert s.frames == {s.raf};
    }
  }

  /** While locked, a scroll event changes nothing: no cancel, no new frame. */
  lemma LockedScrollIsNoop(s: NavState)
    requires Locked(s)
    ensures OnScroll(s) == s
  {
  }

  /** Unlocked, a scroll event leaves exactly one frame pending, a fresh one,
      and touches nothing else. */
  lemma UnlockedScrollSchedulesOneFrame(s: NavState)
    requires Inv(s) && !Locked(s)
    ensures Inv(OnScroll(s))
    ensures OnScroll(s).frames == {OnScroll(s).raf} && OnScroll(s).raf !in s.frames
    ensures OnScroll(s).active == s.active && OnScroll(s).scrollingTo == s.scrollingTo
    ensures OnScroll(s).releases == s.releases
  {
  }

  /** `n` natural scroll events in a row. */
  function Scrolls(s: NavState, n: nat): NavState
    decreases n
  {
    if n == 0 then s else Scrolls(OnScroll(s), n - 1)
  }

  /** However many scroll events arrive while locked, the highlight and the
      rest of the state stay as they were. */
  lemma {:induction false} LockedScrollsKeepState(s: NavState, n: nat)
    requires Locked(s)
    ensures Scrolls(s, n) == s
    decreases n
  {
    if n > 0 {
      LockedScrollIsNoop(s);
      LockedScrollsKeepState(s, n - 1);
    }
  }

  /** However many scroll events arrive unlocked, at most one frame is pending. */
  lemma {:induction false} BurstCoalesces(s: NavState, n: nat)
    requires Inv(s) && !Locked(s) && n > 0
    ensures Inv(Scrolls(s, n)) && |Scrolls(s, n).frames| == 1
    ensures Scrolls(s, n).active == s.active
    decreases n
  {
    var t := OnScroll(s);
    UnlockedScrollSchedulesOneFrame(s);
    if n > 1 {
      BurstCoalesces(t, n - 1);
    }
  }

  /** A click on a missing element changes nothing. */
  lemma ClickMissingIsNoop(s: NavState, id: string, env: Env)
    requires id !in env.elements
    ensures ScrollToId(s, id, env) == s
  {
  }

  /** A click on a present element locks on it and highlights it at once, and
      appends one listener for `rectTop + scrollY - 80`, keeping the earlier ones. */
  lemma ClickLocksAndHighlights(s: NavState, id: string, env: Env)
    requires id in env.elements
    ensures var t := ScrollToId(s, id, env);
      t.scrollingTo == Some(id) && t.active == id && Locked(t) &&
      |t.releases| == |s.releases| + 1 &&
      t.releases[..|s.releases|] == s.releases &&
      t.releases[|s.releases|] == env.elements[id].rectTop + env.scrollY - 80 &&
      t.frames == s.frames && t.raf == s.raf
  {
    assert (s.releases + [env.elements[id].rectTop + env.scrollY - YOffset()])[..|s.releases|] == s.releases;
  }

  /** A tick farther than 4 pixels from the listener's target changes nothing. */
  lemma FarTickIsNoop(s: NavState, k: nat, env: Env)
    requires k < |s.releases|
    requires env.scrollY - s.releases[k] >= 4 || s.releases[k] - env.scrollY >= 4
    ensures Release(s, k, env) == s
  {
  }

  /** A tick within 4 pixels drops the lock, removes only that listener, keeps
      the others in order, and sets the highlight to the resolved section. */
  lemma NearTickReleases(s: NavState, k: nat, env: Env)
    requires k < |s.releases|
    requires -4 < env.scrollY - s.releases[k] < 4
    ensures var t := Release(s, k, env);
      !Locked(t) && t.active == ComputeActive(env) &&
      |t.releases| == |s.releases| - 1 &&
      (forall j :: 0 <= j < k ==> t.releases[j] == s.releases[j]) &&
      (forall j :: k <= j < |t.releases| ==> t.releases[j] == s.releases[j + 1]) &&
      t.frames == s.frames
  {
  }

  /** Listeners are never replaced: a second click while the first is in flight
      leaves both listeners registered, and the first one, on reaching its own
      target, drops the lock although the second target is still far away. */
  lemma StaleListenerDropsNewerLock(s: NavState, a: string, b: string, env1: Env, env2: Env, env3: Env)
    requires a in env1.elements && b in env2.elements
    requires env3.scrollY == env1.elements[a].rectTop + env1.scrollY - 80
    ensures var s2 := ScrollToId(ScrollToId(s, a, env1), b, env2);
      var k := |s.releases|;
      |s2.releases| == k + 2 && s2.scrollingTo == Some(b) &&
      var s3 := Release(s2, k, env3);
      !Locked(s3) && s3.releases == s.releases + [s2.releases[k + 1]]
  {
    var s1 := ScrollToId(s, a, env1);
    var s2 := ScrollToId(s1, b, env2);
    var k := |s.releases|;
    assert s2.releases == s.releases + [s1.releases[k], s2.releases[k + 1]];
    assert s2.releases[..k] == s.releases;
    assert s2.releases[k + 1..] == [s2.releases[k + 1]];
  }

  /** The frame callback does not check the lock: a frame requested by a scroll
      just before a click still runs after it and replaces the click's
      highlight with the resolved section while the lock is held. */
  lemma PendingFrameOverridesClick(s: NavState, id: string, env1: Env, env2: Env)
    requires Inv(s) && !Locked(s) && id in env1.elements
    ensures var s1 := OnScroll(s);
      var s2 := ScrollToId(s1, id, env1);
      s2.active == id && Locked(s2) && s1.raf in s2.frames &&
      var s3 := FireFrame(s2, s1.raf, env2);
      Locked(s3) && s3.active == ComputeActive(env2)
  {
  }

  /** A listener whose target lies 4 or more pixels above the top of the page
      never fires while the page is scrolled at or below its top, so the lock
      it would drop stays held. */
  lemma UnreachableTargetKeepsLock(s: NavState, k: nat, env: Env)
    requires k < |s.releases| && s.releases[k] <= -4 && env.scrollY >= 0
    ensures Release(s, k, env) == s
  {
  }

  /** A click followed by a settle exactly on the target: when the element's
      document top is what the click measured, the tops are sorted, the page is
      not at its bottom and the next present section starts more than one pixel
      lower, the resolve run by the release highlights the clicked section. */
  lemma ExactSettleHighlightsTarget(s: NavState, i: int, env1: Env, env2: Env)
    requires 0 <= i < |SECTIONS| && SECTIONS[i] in env1.elements && SECTIONS[i] in env2.elements
    requires env2.elements[SECTIONS[i]].offsetTop == env1.elements[SECTIONS[i]].rectTop + env1.scrollY
    requires !NearBottom(env2) && PresentTopsSorted(env2.elements)
    requires forall j :: i < j < |SECTIONS| && SECTIONS[j] in env2.elements ==>
               env2.elements[SECTIONS[j]].offsetTop > env2.elements[SECTIONS[i]].offsetTop + 1
    requires env2.scrollY == env2.elements[SECTIONS[i]].offsetTop - 80
    ensures var s1 := ScrollToId(s, SECTIONS[i], env1);
      |s1.releases| == |s.releases| + 1 &&
      var s2 := Release(s1, |s.releases|, env2);
      !Locked(s2) && s2.active == SECTIONS[i]
  {
    ClickLocksAndHighlights(s, SECTIONS[i], env1);
    SortedActiveIsGreatestReached(env2, i);
  }

  /** The release tolerance (4 pixels) is wider than the threshold bias (1
      pixel): a click on "about" that settles 3 pixels short of its target
      releases the lock and resolves the highlight back to "home". */
  lemma ShortSettleResolvesPreviousSection(s: NavState)
    ensures var env1 := Env(0, 560, 5000, map["home" := Element(0, 0), "about" := Element(1000, 1000)]);
      var env2 := Env(917, 560, 5000, map["home" := Element(0, -917), "about" := Element(1000, 83)]);
      var s1 := ScrollToId(s, "about", env1);
      s1.active == "about" && s1.releases[|s.releases|] == 920 &&
      var s2 := Release(s1, |s.releases|, env2);
      !Locked(s2) && s2.active == "home"
  {
  }
}
