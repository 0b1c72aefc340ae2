/** The active-section resolver of the portfolio's scroll-spy navigation.
    The page's sections are identified by the strings of SECTIONS, in page order;
    the browser is abstracted as a snapshot (Env) of the scroll position, the
    viewport and document heights, and the section elements that are mounted. */
module ActiveSection {

  /** The navigable sections, in the order they appear on the page. */
  const SECTIONS: seq<string> := ["home", "about", "skills", "projects", "contact"]

  /** Height of the sticky navigation bar, in pixels. */
  const NAV_HEIGHT: int := 72

  /** Offset reserved for the sticky navigation bar plus an 8-pixel buffer. */
  function YOffset(): (r: int)
    ensures r == 80
  {
    NAV_HEIGHT + 8
  }

  /** A mounted section element: its document-relative top (offsetTop) and its
      viewport-relative top (getBoundingClientRect().top). */
  datatype Element = Element(offsetTop: int, rectTop: int)

  /** A snapshot of the browser: scroll offset, viewport height, document height,
      and the elements found by id (an id without a key has no element). */
  datatype Env = Env(scrollY: int, innerHeight: int, scrollHeight: int, elements: map<string, Element>)

  /** The page is scrolled to within 4 pixels of its bottom. */
  predicate NearBottom(env: Env)
  {
    env.innerHeight + env.scrollY >= env.scrollHeight - 4
  }

  /** The scan position: the scroll offset, the navigation offset and a one-pixel bias. */
  function Threshold(env: Env): int
  {
    env.scrollY + YOffset() + 1
  }

  /** The scan over `ids`: skips missing elements, adopts each present element
      whose top is at or above `pos`, stops at the first present one below it. */
  function Scan(ids: seq<string>, elements: map<string, Element>, pos: int, current: string): (r: string)
    ensures r == current || r in ids
    decreases |ids|
  {
    if ids == [] then current
    else if ids[0] !in elements then Scan(ids[1..], elements, pos, current)
    else if pos >= elements[ids[0]].offsetTop then Scan(ids[1..], elements, pos, ids[0])
    else current
  }

  /** The section the navigation highlights for the snapshot `env`. */
  function ComputeActive(env: Env): (r: string)
    ensures r in SECTIONS
  {
    if NearBottom(env) then "contact"
    else Scan(SECTIONS, env.elements, Threshold(env), "home")
  }

  /** The resolver as the component runs it: a loop over SECTIONS with an
      accumulator and an early exit. */
  method ResolveActive(env: Env) returns (current: string)
    ensures current == ComputeActive(env)
  {
    var scrollPos := env.scrollY + YOffset() + 1;
    if env.innerHeight + env.scrollY >= env.scrollHeight - 4 {
      return "contact";
    }
    current := "home";
    var i := 0;
    while i < |SECTIONS|
      invariant 0 <= i <= |SECTIONS|
      invariant Scan(SECTIONS[i..], env.elements, scrollPos, current) == ComputeActive(env)
    {
      var id := SECTIONS[i];
      assert SECTIONS[i..][1..] == SECTIONS[i + 1..];
      if id !in env.elements {
        i := i + 1;
        continue;
      }
      var top := env.elements[id].offsetTop;
      if scrollPos >= top {
        current := id;
      } else {
        break;
      }
      i := i + 1;
    }
  }

  // ---------------------------------------------------------------------------
  // An independent description of the scan's result.

  /** The scan reaches index `i` and adopts it: the element is present, its top is
      at or above `pos`, and no earlier present element lies below `pos`. */
  ghost predicate Adopted(ids: seq<string>, elements: map<string, Element>, pos: int, i: int)
  {
    0 <= i < |ids| && ids[i] in elements && elements[ids[i]].offsetTop <= pos &&
    forall j :: 0 <= j < i && ids[j] in elements ==> elements[ids[j]].offsetTop <= pos
  }

  /** Adoption in `ids` at a positive index is adoption in the tail, provided
      the head (if present) does not stop the scan. */
  lemma AdoptedTail(ids: seq<string>, elements: map<string, Element>, pos: int, i: int)
    requires 0 < i < |ids|
    requires ids[0] in elements ==> elements[ids[0]].offsetTop <= pos
    ensures Adopted(ids, elements, pos, i) <==> Adopted(ids[1..], elements, pos, i - 1)
  {
    if Adopted(ids[1..], elements, pos, i - 1) {
      forall j | 0 <= j < i && ids[j] in elements
        ensures elements[ids[j]].offsetTop <= pos
      {
        if j > 0 {
          assert ids[j] == ids[1..][j - 1];
        }
      }
    }
    if Adopted(ids, elements, pos, i) {
      forall j | 0 <= j < i - 1 && ids[1..][j] in elements
        ensures elements[ids[1..][j]].offsetTop <= pos
      {
        assert ids[1..][j] == ids[j + 1];
      }
    }
  }

  /** The scan returns the last adopted section, or its starting value when no
      section is adopted. */
  lemma {:induction false} ScanIsLastAdopted(ids: seq<string>, elements: map<string, Element>, pos: int, current: string)
    ensures (forall i :: 0 <= i < |ids| ==> !Adopted(ids, elements, pos, i)) ==>
              Scan(ids, elements, pos, current) == current
    ensures forall i :: Adopted(ids, elements, pos, i) &&
                        (forall j :: i < j < |ids| ==> !Adopted(ids, elements, pos, j)) ==>
              Scan(ids, elements, pos, current) == ids[i]
    decreases |ids|
  {
    if ids == [] {
      return;
    }
    var rest := ids[1..];
    if ids[0] in elements && elements[ids[0]].offsetTop > pos {
      forall i | 0 <= i < |ids| ensures !Adopted(ids, elements, pos, i) {
        assert 0 <= 0 < |ids| && ids[0] in elements;
      }
      return;
    }
    var next := if ids[0] in elements then ids[0] else current;
    assert Scan(ids, elements, pos, current) == Scan(rest, elements, pos, next);
    ScanIsLastAdopted(rest, elements, pos, next);
    forall i | 0 < i < |ids|
      ensures Adopted(ids, elements, pos, i) <==> Adopted(rest, elements, pos, i - 1)
    {
      AdoptedTail(ids, elements, pos, i);
    }
    if ids[0] in elements {
      // The head is adopted, so some index is adopted.
      assert Adopted(ids, elements, pos, 0);
      forall i | Adopted(ids, elements, pos, i) && (forall j :: i < j < |ids| ==> !Adopted(ids, elements, pos, j))
        ensures Scan(ids, elements, pos, current) == ids[i]
      {
        if i == 0 {
          forall k | 0 <= k < |rest| ensures !Adopted(rest, elements, pos, k) {
            assert !Adopted(ids, elements, pos, k + 1);
          }
        } else {
          forall k | i - 1 < k < |rest| ensures !Adopted(rest, elements, pos, k) {
            assert !Adopted(ids, elements, pos, k + 1);
          }
          assert ids[i] == rest[i - 1];
        }
      }
    } else {
      assert !Adopted(ids, elements, pos, 0);
      if forall i :: 0 <= i < |ids| ==> !Adopted(ids, elements, pos, i) {
        forall k | 0 <= k < |rest| ensures !Adopted(rest, elements, pos, k) {
          assert !Adopted(ids, elements, pos, k + 1);
        }
      }
      forall i | Adopted(ids, elements, pos, i) && (forall j :: i < j < |ids| ==> !Adopted(ids, elements, pos, j))
        ensures Scan(ids, elements, pos, current) == ids[i]
      {
        forall k | i - 1 < k < |rest| ensures !Adopted(rest, elements, pos, k) {
          assert !Adopted(ids, elements, pos, k + 1);
        }
        assert ids[i] == rest[i - 1];
      }
    }
  }

  // ---------------------------------------------------------------------------
  // Properties of the resolver.

  /** "contact", the forced result at the bottom, is the last section. */
  lemma ContactIsLastSection()
    ensures |SECTIONS| == 5 && SECTIONS[|SECTIONS| - 1] == "contact"
  {
  }

  /** Near the bottom of the page the result is "contact", whatever the
      sections' positions and whichever elements are missing. */
  lemma BottomOverride(env: Env, elements: map<string, Element>)
    requires NearBottom(env)
    ensures ComputeActive(env) == "contact"
    ensures ComputeActive(env.(elements := elements)) == "contact"
  {
  }

  /** Away from the bottom, the result is the last section the scan adopts
      against the threshold scrollY + 81; "home" when it adopts none. */
  lemma ActiveIsLastAdopted(env: Env)
    requires !NearBottom(env)
    ensures Threshold(env) == env.scrollY + 81
    ensures (forall i :: 0 <= i < |SECTIONS| ==> !Adopted(SECTIONS, env.elements, Threshold(env), i)) ==>
              ComputeActive(env) == "home"
    ensures forall i :: Adopted(SECTIONS, env.elements, Threshold(env), i) &&
                        (forall j :: i < j < |SECTIONS| ==> !Adopted(SECTIONS, env.elements, Threshold(env), j)) ==>
              ComputeActive(env) == SECTIONS[i]
  {
    ScanIsLastAdopted(SECTIONS, env.elements, Threshold(env), "home");
  }

  /** Away from the bottom, when no present section's top is at or above
      scrollY + 81 the result is "home", also when "home" itself is missing. */
  lemma NothingReachedIsHome(env: Env)
    requires !NearBottom(env)
    requires forall i :: 0 <= i < |SECTIONS| && SECTIONS[i] in env.elements ==>
               env.elements[SECTIONS[i]].offsetTop > env.scrollY + 81
    ensures ComputeActive(env) == "home"
  {
    ActiveIsLastAdopted(env);
  }

  /** The +1 bias: with only section i mounted (i > 0), it is active exactly when
      its top is at most scrollY + 81, so a top equal to scrollY + 81 counts. */
  lemma SoleSectionActivation(env: Env, i: int)
    requires !NearBottom(env)
    requires 0 < i < |SECTIONS| && SECTIONS[i] in env.elements
    requires forall j :: 0 <= j < |SECTIONS| && j != i ==> SECTIONS[j] !in env.elements
    ensures ComputeActive(env) == SECTIONS[i] <==> env.elements[SECTIONS[i]].offsetTop <= env.scrollY + 81
  {
    ActiveIsLastAdopted(env);
    if env.elements[SECTIONS[i]].offsetTop <= env.scrollY + 81 {
      assert Adopted(SECTIONS, env.elements, Threshold(env), i);
    } else {
      forall k | 0 <= k < |SECTIONS| ensures !Adopted(SECTIONS, env.elements, Threshold(env), k) {
      }
    }
  }

  /** The present sections' tops do not decrease in page order. */
  ghost predicate PresentTopsSorted(elements: map<string, Element>)
  {
    forall i, j :: 0 <= i < j < |SECTIONS| && SECTIONS[i] in elements && SECTIONS[j] in elements ==>
      elements[SECTIONS[i]].offsetTop <= elements[SECTIONS[j]].offsetTop
  }

  /** With sorted tops and away from the bottom, the active section is the
      present section of greatest index whose top is at most scrollY + 81. */
  lemma SortedActiveIsGreatestReached(env: Env, i: int)
    requires !NearBottom(env) && PresentTopsSorted(env.elements)
    requires 0 <= i < |SECTIONS| && SECTIONS[i] in env.elements
    requires env.elements[SECTIONS[i]].offsetTop <= env.scrollY + 81
    requires forall j :: i < j < |SECTIONS| && SECTIONS[j] in env.elements ==>
               env.elements[SECTIONS[j]].offsetTop > env.scrollY + 81
    ensures ComputeActive(env) == SECTIONS[i]
  {
    ActiveIsLastAdopted(env);
    assert Adopted(SECTIONS, env.elements, Threshold(env), i);
  }

  /** A worked scenario: home at 0, about at 1000, skills at 2000, other
      sections missing, scrolled to 950: the threshold 1031 passes "about" only. */
  lemma AboutScenario()
    ensures ComputeActive(Env(950, 560, 5000,
              map["home" := Element(0, -950), "about" := Element(1000, 50), "skills" := Element(2000, 1050)])) == "about"
  {
  }
}
