/**
 * `updateActiveNavLink`: on every scroll, the nav links pointing at the
 * section under the scroll position get the `active` class. Sections and
 * the scroll position are read-only inputs; the `active` class of each
 * link is one element of a boolean array, changed in place.
 */
module Navigation {
  import opened Wrappers

  /** What the handler reads of a `section` element; `id` is `None` when the attribute is absent. */
  datatype Section = Section(offsetTop: int, offsetHeight: int, id: Option<string>)

  /** Extra space, in pixels, above a section that already counts as inside it. */
  const Lead: int := 100

  /**
   * The `href` the links of a section carry: `"#"` + its id. A section
   * without an id attribute yields `"#null"`, as the JavaScript template
   * string renders a null attribute.
   */
  function Target(s: Section): string
  {
    "#" + match s.id case Some(x) => x case None => "null"
  }

  /** The scroll position lies in the half-open window of the section. */
  predicate InView(s: Section, navbarHeight: int, scrollY: int)
  {
    var top := s.offsetTop - navbarHeight - Lead;
    top <= scrollY < top + s.offsetHeight
  }

  /** The index of the last section whose window holds the scroll position. */
  function LastInView(sections: seq<Section>, navbarHeight: int, scrollY: int): (r: Option<nat>)
    ensures r.Some? ==> r.value < |sections| && InView(sections[r.value], navbarHeight, scrollY)
    ensures r.Some? ==> forall j :: r.value < j < |sections| ==> !InView(sections[j], navbarHeight, scrollY)
    ensures r.None? <==> forall j :: 0 <= j < |sections| ==> !InView(sections[j], navbarHeight, scrollY)
  {
    if sections == [] then None
    else if InView(sections[|sections| - 1], navbarHeight, scrollY) then Some(|sections| - 1)
    else LastInView(sections[..|sections| - 1], navbarHeight, scrollY)
  }

  /** The active flags after the handler, given the links' hrefs and the flags before it. */
  function ActiveAfter(sections: seq<Section>, navbarHeight: int, scrollY: int,
                       hrefs: seq<Option<string>>, before: seq<bool>): (after: seq<bool>)
    requires |before| == |hrefs|
    ensures |after| == |hrefs|
  {
    match LastInView(sections, navbarHeight, scrollY)
    case None => before
    case Some(k) => seq(|hrefs|, j requires 0 <= j < |hrefs| => hrefs[j] == Some(Target(sections[k])))
  }

  /**
   * What the flags mean, without reference to how the section is found:
   * with no section in view they are the flags before; otherwise a link is
   * active exactly when its href targets the last section in view.
   */
  lemma ActiveAfterMeaning(sections: seq<Section>, navbarHeight: int, scrollY: int,
                           hrefs: seq<Option<string>>, before: seq<bool>, k: nat, j: nat)
    requires |before| == |hrefs| && j < |hrefs|
    ensures (forall i :: 0 <= i < |sections| ==> !InView(sections[i], navbarHeight, scrollY)) ==>
      ActiveAfter(sections, navbarHeight, scrollY, hrefs, before) == before
    ensures k < |sections| && InView(sections[k], navbarHeight, scrollY) &&
            (forall m :: k < m < |sections| ==> !InView(sections[m], navbarHeight, scrollY)) ==>
      (ActiveAfter(sections, navbarHeight, scrollY, hrefs, before)[j] <==> hrefs[j] == Some(Target(sections[k])))
  {
    var r := LastInView(sections, navbarHeight, scrollY);
    if k < |sections| && InView(sections[k], navbarHeight, scrollY) &&
       (forall m :: k < m < |sections| ==> !InView(sections[m], navbarHeight, scrollY)) {
      assert r.Some?;
    }
  }

  /** Adding one more section: it wins if it is in view, otherwise the earlier answer stands. */
  lemma LastInViewSnoc(sections: seq<Section>, navbarHeight: int, scrollY: int, i: nat)
    requires i < |sections|
    ensures LastInView(sections[..i + 1], navbarHeight, scrollY) ==
      if InView(sections[i], navbarHeight, scrollY) then Some(i)
      else LastInView(sections[..i], navbarHeight, scrollY)
  {
    assert sections[..i + 1][..i] == sections[..i];
  }

  /**
   * A scroll handler run twice at the same position leaves the links as a
   * single run does.
   */
  lemma ActiveAfterIdempotent(sections: seq<Section>, navbarHeight: int, scrollY: int,
                              hrefs: seq<Option<string>>, before: seq<bool>)
    requires |before| == |hrefs|
    ensures ActiveAfter(sections, navbarHeight, scrollY, hrefs,
                        ActiveAfter(sections, navbarHeight, scrollY, hrefs, before))
         == ActiveAfter(sections, navbarHeight, scrollY, hrefs, before)
  {
  }

  /** When some section is in view, the earlier state of the links does not matter. */
  lemma ActiveAfterForgetsBefore(sections: seq<Section>, navbarHeight: int, scrollY: int,
                                 hrefs: seq<Option<string>>, b1: seq<bool>, b2: seq<bool>)
    requires |b1| == |hrefs| && |b2| == |hrefs|
    requires exists j :: 0 <= j < |sections| && InView(sections[j], navbarHeight, scrollY)
    ensures ActiveAfter(sections, navbarHeight, scrollY, hrefs, b1)
         == ActiveAfter(sections, navbarHeight, scrollY, hrefs, b2)
  {
  }

  /** A section without an id activates the links whose href is `"#null"`. */
  lemma MissingIdTargetsNull(s: Section)
    requires s.id.None?
    ensures Target(s) == "#null"
  {
  }

  /**
   * `updateActiveNavLink`: for each section in document order that holds
   * the scroll position, take `active` off every link and put it back on
   * the links whose href is that section's target.
   */
  method UpdateActiveNavLink(sections: seq<Section>, navbarHeight: int, scrollY: int,
                             hrefs: seq<Option<string>>, active: array<bool>)
    requires active.Length == |hrefs|
    modifies active
    ensures active[..] == ActiveAfter(sections, navbarHeight, scrollY, hrefs, old(active[..]))
    ensures LastInView(sections, navbarHeight, scrollY).None? ==> active[..] == old(active[..])
    ensures forall k :: LastInView(sections, navbarHeight, scrollY) == Some(k) ==>
      forall j :: 0 <= j < active.Length ==> (active[j] <==> hrefs[j] == Some(Target(sections[k])))
  {
    ghost var initial := active[..];
    for i := 0 to |sections|
      invariant active[..] == ActiveAfter(sections[..i], navbarHeight, scrollY, hrefs, initial)
    {
      LastInViewSnoc(sections, navbarHeight, scrollY, i);
      var section := sections[i];
      var sectionTop := section.offsetTop - navbarHeight - Lead;
      var sectionBottom := sectionTop + section.offsetHeight;
      if scrollY >= sectionTop && scrollY < sectionBottom {
        var target := Target(section);
        ghost var snapshot := active[..];
        for j := 0 to active.Length
          invariant forall m :: 0 <= m < j ==> active[m] == (hrefs[m] == Some(target))
          invariant forall m :: j <= m < active.Length ==> active[m] == snapshot[m]
        {
          active[j] := false;
          if hrefs[j] == Some(target) {
            active[j] := true;
          }
        }
      }
    }
    assert sections[..|sections|] == sections;
  }
}
