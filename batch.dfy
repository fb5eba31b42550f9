/**
 * create_badges: the rows of the CSV after its first, two badges per page,
 * a new page with cut guides before every badge in slot 0.
 */
module Badges {
  import opened Wrappers
  import opened Geometry
  import opened Logo

  /** A straight line from (x1, y1) to (x2, y2). */
  datatype Line = Line(x1: real, y1: real, x2: real, y2: real)

  /** What create_badges does to the canvas, leaving the drawing calls out. */
  datatype Event =
    | NewPage(guides: seq<Line>)                                  // showPage, white page, cut guides
    | PlaceBadge(name: string, x: real, y: real, logo: string)    // create_badge at (x, y)

  /** A vertical line at the badge width and a horizontal one at the page height less the badge height. */
  const CutGuides: seq<Line> := [
    Line(BadgeWidth, 0.0, BadgeWidth, PageHeight),
    Line(0.0, PageHeight - BadgeHeight, PageWidth, PageHeight - BadgeHeight)]

  /** Slot 0 sits at the top left of the page, slot 1 at (badge width, 0). */
  function SlotX(slot: int): real {
    if slot == 0 then 0.0 else BadgeWidth
  }

  function SlotY(slot: int): real {
    if slot == 0 then PageHeight - BadgeHeight else 0.0
  }

  function SlotRect(slot: int): Rect {
    Rect(SlotX(slot), SlotY(slot), BadgeWidth, BadgeHeight)
  }

  /** The rows after the first: next(reader, None) discards one row if there is one. */
  function Body(rows: seq<seq<string>>): seq<seq<string>> {
    if rows == [] then [] else rows[1..]
  }

  /** Every row of the body has a random draw, which indexes the logo list when there is one. */
  predicate Drawable(body: seq<seq<string>>, picks: seq<nat>, logoCount: nat) {
    |picks| >= |body| && forall i :: 0 <= i < |picks| && logoCount > 0 ==> picks[i] < logoCount
  }

  /** What row i of the body adds: nothing when empty, else a page start in slot 0 and the badge. */
  function RowEvents(i: nat, row: seq<string>, logo: string): seq<Event> {
    if row == [] then []
    else
      (if i % 2 == 0 then [NewPage(CutGuides)] else []) +
      [PlaceBadge(row[0], SlotX(i % 2), SlotY(i % 2), logo)]
  }

  /** The logo path random.choice gives for each row ("" stands for the IndexError of an empty list). */
  function Chosen(picks: seq<nat>, logos: seq<string>): (r: seq<string>)
    requires forall i :: 0 <= i < |picks| && logos != [] ==> picks[i] < |logos|
    ensures |r| == |picks|
  {
    seq(|picks|, i requires 0 <= i < |picks| => if logos == [] then "" else logos[picks[i]])
  }

  /** The events of the first n rows of the body, logoOf[i] being the logo drawn for row i. */
  function Plan(body: seq<seq<string>>, logoOf: seq<string>, n: nat): seq<Event>
    requires n <= |body| <= |logoOf|
  {
    if n == 0 then [] else Plan(body, logoOf, n - 1) + RowEvents(n - 1, body[n - 1], logoOf[n - 1])
  }

  /** Some row among the first n of the body is due for a badge. */
  predicate HasAttendee(body: seq<seq<string>>, n: nat)
    requires n <= |body|
  {
    exists i :: 0 <= i < n && body[i] != []
  }

  /** random.choice raises IndexError exactly when a badge is due and no logo was found. */
  predicate NoLogoForBadge(body: seq<seq<string>>, logos: seq<string>) {
    logos == [] && HasAttendee(body, |body|)
  }

  /** The logo box create_badges asks process_logo to fill. */
  const LogoWidth: real := BadgeWidth * 0.7
  const LogoHeight: real := BadgeHeight * 0.3

  /**
   * process_logo raises ZeroDivisionError for this path: it takes the vector
   * branch and svgOf, standing for svg2rlg, gives a drawing with a zero side.
   */
  predicate ZeroSizeSvg(path: string, svgOf: string -> Drawing) {
    IsSvgPath(path) && (svgOf(path).width == 0.0 || svgOf(path).height == 0.0)
  }

  /** Some row among the first n due for a badge drew a logo that process_logo cannot scale. */
  predicate LogoScaleFails(body: seq<seq<string>>, logoOf: seq<string>, svgOf: string -> Drawing, n: nat)
    requires n <= |body| <= |logoOf|
  {
    exists i :: 0 <= i < n && body[i] != [] && ZeroSizeSvg(logoOf[i], svgOf)
  }

  /**
   * The first n rows run one after the other: an empty row does nothing, and
   * the first row due for a badge whose logo cannot be chosen (noLogos) or
   * scaled ends the run with that error.
   */
  function RowsOutcome(body: seq<seq<string>>, logoOf: seq<string>, noLogos: bool, svgOf: string -> Drawing, n: nat)
    : Result<seq<Event>>
    requires n <= |body| <= |logoOf|
  {
    if n == 0 then Ok([])
    else
      var prev := RowsOutcome(body, logoOf, noLogos, svgOf, n - 1);
      if prev.Err? || body[n - 1] == [] then prev
      else if noLogos then Err(EmptyChoice)
      else if ZeroSizeSvg(logoOf[n - 1], svgOf) then Err(ZeroDivision)
      else Ok(prev.value + RowEvents(n - 1, body[n - 1], logoOf[n - 1]))
  }

  /**
   * The run of the first n rows fails with IndexError when a badge is due and
   * there is no logo, else with ZeroDivisionError when some badge's logo is a
   * zero-size SVG, and otherwise yields the plan of those rows.
   */
  lemma {:induction false} RowsOutcomeCases(body: seq<seq<string>>, logoOf: seq<string>, noLogos: bool,
                                            svgOf: string -> Drawing, n: nat)
    requires n <= |body| <= |logoOf|
    ensures RowsOutcome(body, logoOf, noLogos, svgOf, n) ==
      if noLogos && HasAttendee(body, n) then Err(EmptyChoice)
      else if LogoScaleFails(body, logoOf, svgOf, n) then Err(ZeroDivision)
      else Ok(Plan(body, logoOf, n))
  {
    if n > 0 {
      var k := n - 1;
      RowsOutcomeCases(body, logoOf, noLogos, svgOf, k);
      if body[k] == [] {
        assert RowsOutcome(body, logoOf, noLogos, svgOf, n) == RowsOutcome(body, logoOf, noLogos, svgOf, k);
        assert HasAttendee(body, n) ==> HasAttendee(body, k) by {
          if HasAttendee(body, n) {
            var i :| 0 <= i < n && body[i] != [];
            assert i < k;
          }
        }
        assert LogoScaleFails(body, logoOf, svgOf, n) ==> LogoScaleFails(body, logoOf, svgOf, k) by {
          if LogoScaleFails(body, logoOf, svgOf, n) {
            var i :| 0 <= i < n && body[i] != [] && ZeroSizeSvg(logoOf[i], svgOf);
            assert i < k;
          }
        }
        assert RowEvents(k, body[k], logoOf[k]) == [];
        assert Plan(body, logoOf, n) == Plan(body, logoOf, k) + [] == Plan(body, logoOf, k);
      } else {
        assert HasAttendee(body, n);
        if noLogos && HasAttendee(body, k) {
        } else if LogoScaleFails(body, logoOf, svgOf, k) {
          assert LogoScaleFails(body, logoOf, svgOf, n);
        } else if ZeroSizeSvg(logoOf[k], svgOf) {
          assert LogoScaleFails(body, logoOf, svgOf, n);
        } else {
          assert LogoScaleFails(body, logoOf, svgOf, n) == LogoScaleFails(body, logoOf, svgOf, k);
        }
      }
    }
  }

  /** Once a row has failed, the later rows are never run. */
  lemma {:induction false} RowsOutcomeStops(body: seq<seq<string>>, logoOf: seq<string>, noLogos: bool,
                                            svgOf: string -> Drawing, k: nat, n: nat)
    requires k <= n <= |body| <= |logoOf|
    requires RowsOutcome(body, logoOf, noLogos, svgOf, k).Err?
    ensures RowsOutcome(body, logoOf, noLogos, svgOf, n) == RowsOutcome(body, logoOf, noLogos, svgOf, k)
    decreases n
  {
    if n > k {
      RowsOutcomeStops(body, logoOf, noLogos, svgOf, k, n - 1);
    }
  }

  /**
   * create_badges: filter the logo folder's listing, discard the first CSV
   * row, then lay out the rest. listing is what os.listdir gave for the logo
   * folder; picks[i] is the index random.choice drew for row i after the first;
   * svgOf(path) is the drawing svg2rlg reads from path.
   */
  method CreateBadges(rows: seq<seq<string>>, logosFolder: string, listing: seq<string>, picks: seq<nat>,
                      svgOf: string -> Drawing)
    returns (r: Result<seq<Event>>)
    requires Drawable(Body(rows), picks, |LogoFiles(logosFolder, listing)|)
    ensures var body, logos := Body(rows), LogoFiles(logosFolder, listing);
      if NoLogoForBadge(body, logos) then r == Err(EmptyChoice)
      else if LogoScaleFails(body, Chosen(picks, logos), svgOf, |body|) then r == Err(ZeroDivision)
      else r == Ok(Plan(body, Chosen(picks, logos), |body|))
  {
    var logos := LogoFiles(logosFolder, listing);
    var body := Body(rows);
    r := LayOutRows(body, logos, picks, svgOf);
    RowsOutcomeCases(body, Chosen(picks, logos), logos == [], svgOf, |body|);
  }

  /** The loop over the rows: for i, row in enumerate(reader). */
  method LayOutRows(body: seq<seq<string>>, logos: seq<string>, picks: seq<nat>, svgOf: string -> Drawing)
    returns (r: Result<seq<Event>>)
    requires Drawable(body, picks, |logos|)
    ensures r == RowsOutcome(body, Chosen(picks, logos), logos == [], svgOf, |body|)
  {
    var events: seq<Event> := [];
    ghost var logoOf := Chosen(picks, logos);
    for i := 0 to |body|
      invariant RowsOutcome(body, logoOf, logos == [], svgOf, i) == Ok(events)
    {
      var row := body[i];
      if row != [] {
        if logos == [] {
          RowsOutcomeStops(body, logoOf, logos == [], svgOf, i + 1, |body|);
          return Err(EmptyChoice);
        }
        var logo := logos[picks[i]];
        assert logoOf[i] == logo;
        var drawn := DrawRow(i, row, logo, svgOf);
        if drawn.Err? {
          RowsOutcomeStops(body, logoOf, logos == [], svgOf, i + 1, |body|);
          return Err(drawn.error);
        }
        events := events + drawn.value;
      }
    }
    r := Ok(events);
  }

  /**
   * One attendee row: process_logo on the drawn path, then a page with cut
   * guides when the badge goes to slot 0, and the badge at its slot.
   */
  method DrawRow(i: nat, row: seq<string>, logo: string, svgOf: string -> Drawing)
    returns (r: Result<seq<Event>>)
    requires row != []
    ensures if ZeroSizeSvg(logo, svgOf) then r == Err(ZeroDivision) else r == Ok(RowEvents(i, row, logo))
  {
    if IsSvgPath(logo) {
      var processed := ProcessSvgLogo(svgOf(logo), LogoWidth, LogoHeight);
      if processed.Err? {
        return Err(processed.error);
      }
    }
    var badgeNum := i % 2;
    var drawn: seq<Event> := [];
    if badgeNum == 0 {
      drawn := [NewPage(CutGuides)];
    }
    var x := if badgeNum == 0 then 0.0 else BadgeWidth;
    var y := if badgeNum == 0 then PageHeight - BadgeHeight else 0.0;
    r := Ok(drawn + [PlaceBadge(row[0], x, y, logo)]);
  }

  // ---------------------------------------------------------------- what the plan promises

  function PageCount(events: seq<Event>): nat {
    if events == [] then 0
    else PageCount(events[..|events| - 1]) + (if events[|events| - 1].NewPage? then 1 else 0)
  }

  function BadgeCount(events: seq<Event>): nat {
    if events == [] then 0
    else BadgeCount(events[..|events| - 1]) + (if events[|events| - 1].PlaceBadge? then 1 else 0)
  }

  lemma {:induction false} CountsAppend(a: seq<Event>, b: seq<Event>)
    ensures PageCount(a + b) == PageCount(a) + PageCount(b)
    ensures BadgeCount(a + b) == BadgeCount(a) + BadgeCount(b)
    decreases |b|
  {
    if b == [] {
      assert a + b == a;
    } else {
      var m := |b| - 1;
      assert (a + b)[..|a + b| - 1] == a + b[..m];
      CountsAppend(a, b[..m]);
    }
  }

  /** The number of attendees among the first n rows of the body: its non-empty rows. */
  function Attendees(body: seq<seq<string>>, n: nat): nat
    requires n <= |body|
  {
    if n == 0 then 0 else Attendees(body, n - 1) + (if body[n - 1] != [] then 1 else 0)
  }

  /** A row adds one badge when it is not empty, and a page start as well when its index is even. */
  lemma RowCounts(i: nat, row: seq<string>, logo: string)
    ensures BadgeCount(RowEvents(i, row, logo)) == if row != [] then 1 else 0
    ensures PageCount(RowEvents(i, row, logo)) == if row != [] && i % 2 == 0 then 1 else 0
  {
    if row != [] {
      var badge := [PlaceBadge(row[0], SlotX(i % 2), SlotY(i % 2), logo)];
      assert badge[..0] == [];
      if i % 2 == 0 {
        CountsAppend([NewPage(CutGuides)], badge);
        assert [NewPage(CutGuides)][..0] == [];
      } else {
        assert RowEvents(i, row, logo) == badge;
      }
    }
  }

  /** One badge per attendee, empty rows drawing nothing. */
  lemma {:induction false} PlanBadgeCount(body: seq<seq<string>>, logoOf: seq<string>, n: nat)
    requires n <= |body| <= |logoOf|
    ensures BadgeCount(Plan(body, logoOf, n)) == Attendees(body, n)
  {
    if n > 0 {
      var i := n - 1;
      var prev, row := Plan(body, logoOf, i), RowEvents(i, body[i], logoOf[i]);
      assert Plan(body, logoOf, n) == prev + row;
      PlanBadgeCount(body, logoOf, i);
      CountsAppend(prev, row);
      RowCounts(i, body[i], logoOf[i]);
      assert Attendees(body, n) == Attendees(body, i) + BadgeCount(row);
    }
  }

  lemma HalfUp(i: nat)
    ensures i % 2 == 0 ==> (i + 2) / 2 == (i + 1) / 2 + 1
    ensures i % 2 == 1 ==> (i + 2) / 2 == (i + 1) / 2
  {
  }

  /** With no empty row, n attendees take (n + 1) / 2 pages, that is n / 2 rounded up. */
  lemma {:induction false} PlanPageCount(body: seq<seq<string>>, logoOf: seq<string>, n: nat)
    requires n <= |body| <= |logoOf|
    requires forall i :: 0 <= i < n ==> body[i] != []
    ensures PageCount(Plan(body, logoOf, n)) == (n + 1) / 2
  {
    if n > 0 {
      var i := n - 1;
      PlanPageCount(body, logoOf, i);
      CountsAppend(Plan(body, logoOf, i), RowEvents(i, body[i], logoOf[i]));
      RowCounts(i, body[i], logoOf[i]);
      HalfUp(i);
    }
  }

  predicate InSlot(e: Event, slot: int)
    requires e.PlaceBadge?
  {
    e.x == SlotX(slot) && e.y == SlotY(slot)
  }

  predicate AfterPageStart(events: seq<Event>, k: int)
    requires 0 <= k < |events|
  {
    k > 0 && events[k - 1].NewPage?
  }

  predicate BeforeSlotZero(events: seq<Event>, k: int)
    requires 0 <= k < |events|
  {
    k + 1 < |events| && events[k + 1].PlaceBadge? && InSlot(events[k + 1], 0)
  }

  /** Every badge sits in slot 0 or slot 1, and it is in slot 0 exactly when a page start precedes it. */
  ghost predicate BadgesInSlots(events: seq<Event>) {
    forall k :: 0 <= k < |events| && events[k].PlaceBadge? ==>
      (InSlot(events[k], 0) || InSlot(events[k], 1)) &&
      (InSlot(events[k], 0) <==> AfterPageStart(events, k))
  }

  /** Every page start draws the cut guides and is followed by a badge in slot 0. */
  ghost predicate PagesLeadSlotZero(events: seq<Event>) {
    forall k :: 0 <= k < |events| && events[k].NewPage? ==>
      events[k].guides == CutGuides && BeforeSlotZero(events, k)
  }

  /** A page is started right before each badge in slot 0 and before nothing else. */
  lemma {:induction false} PlanPagesBeforeSlotZero(body: seq<seq<string>>, logoOf: seq<string>, n: nat)
    requires n <= |body| <= |logoOf|
    ensures BadgesInSlots(Plan(body, logoOf, n)) && PagesLeadSlotZero(Plan(body, logoOf, n))
  {
    if n > 0 {
      var i := n - 1;
      PlanPagesBeforeSlotZero(body, logoOf, i);
      var prev := Plan(body, logoOf, i);
      var row := RowEvents(i, body[i], logoOf[i]);
      assert Plan(body, logoOf, n) == prev + row;
      if body[i] != [] {
        var b := PlaceBadge(body[i][0], SlotX(i % 2), SlotY(i % 2), logoOf[i]);
        if i % 2 == 0 {
          assert row == [NewPage(CutGuides), b];
          AppendPageAndBadge(prev, b);
        } else {
          assert row == [b];
          AppendSlotOne(prev, b);
        }
      } else {
        assert prev + row == prev;
      }
    }
  }

  lemma AppendPageAndBadge(prev: seq<Event>, b: Event)
    requires BadgesInSlots(prev) && PagesLeadSlotZero(prev) && b.PlaceBadge? && InSlot(b, 0)
    ensures BadgesInSlots(prev + [NewPage(CutGuides), b]) && PagesLeadSlotZero(prev + [NewPage(CutGuides), b])
  {
    var all := prev + [NewPage(CutGuides), b];
    var m := |prev|;
    forall k | 0 <= k < |all| && all[k].PlaceBadge?
      ensures (InSlot(all[k], 0) || InSlot(all[k], 1)) && (InSlot(all[k], 0) <==> AfterPageStart(all, k))
    {
      if k < m {
        assert all[k] == prev[k];
        BadgeAt(prev, k);
        if k > 0 { assert all[k - 1] == prev[k - 1]; }
      } else {
        assert k == m + 1 && all[k - 1] == NewPage(CutGuides);
      }
    }
    forall k | 0 <= k < |all| && all[k].NewPage?
      ensures all[k].guides == CutGuides && BeforeSlotZero(all, k)
    {
      if k < m {
        assert all[k] == prev[k];
        if k + 1 < m { assert all[k + 1] == prev[k + 1]; }
      } else {
        assert k == m && all[k + 1] == b;
      }
    }
  }

  lemma BadgeAt(events: seq<Event>, k: nat)
    requires BadgesInSlots(events) && k < |events| && events[k].PlaceBadge?
    ensures InSlot(events[k], 0) || InSlot(events[k], 1)
    ensures InSlot(events[k], 0) <==> AfterPageStart(events, k)
  {
  }

  /** A page start is never the last event. */
  lemma LastIsNotPageStart(events: seq<Event>)
    requires PagesLeadSlotZero(events)
    ensures events == [] || events[|events| - 1].PlaceBadge?
  {
    if events != [] {
      var k := |events| - 1;
      assert events[k].NewPage? ==> BeforeSlotZero(events, k);
    }
  }

  lemma AppendSlotOne(prev: seq<Event>, b: Event)
    requires BadgesInSlots(prev) && PagesLeadSlotZero(prev) && b.PlaceBadge? && InSlot(b, 1)
    ensures BadgesInSlots(prev + [b]) && PagesLeadSlotZero(prev + [b])
  {
    var all := prev + [b];
    var m := |prev|;
    assert SlotX(0) != SlotX(1);
    LastIsNotPageStart(prev);
    forall k | 0 <= k < |all| && all[k].PlaceBadge?
      ensures (InSlot(all[k], 0) || InSlot(all[k], 1)) && (InSlot(all[k], 0) <==> AfterPageStart(all, k))
    {
      if k < m {
        assert all[k] == prev[k];
        BadgeAt(prev, k);
        if k > 0 { assert all[k - 1] == prev[k - 1]; }
      } else {
        assert all[k] == b;
        if k > 0 { assert all[k - 1] == prev[m - 1]; }
      }
    }
    forall k | 0 <= k < |all| && all[k].NewPage?
      ensures all[k].guides == CutGuides && BeforeSlotZero(all, k)
    {
      assert k < m && all[k] == prev[k];
      assert k + 1 < m;
      assert all[k + 1] == prev[k + 1];
    }
  }

  /**
   * Rows after the first go to page i / 2, slot i % 2: with no empty rows,
   * Ann, Bob and Cy take slot 0 and slot 1 of the first page and slot 0 of
   * the second.
   */
  lemma SlotExamples(logoOf: seq<string>)
    requires |logoOf| >= 3
    ensures var full := Body([["name"], ["Ann"], ["Bob"], ["Cy"]]);
      Plan(full, logoOf, 3) == [
        NewPage(CutGuides), PlaceBadge("Ann", 0.0, PageHeight - BadgeHeight, logoOf[0]),
        PlaceBadge("Bob", BadgeWidth, 0.0, logoOf[1]),
        NewPage(CutGuides), PlaceBadge("Cy", 0.0, PageHeight - BadgeHeight, logoOf[2])]
  {
    var full := Body([["name"], ["Ann"], ["Bob"], ["Cy"]]);
    assert full == [["Ann"], ["Bob"], ["Cy"]];
    var ann := PlaceBadge("Ann", 0.0, PageHeight - BadgeHeight, logoOf[0]);
    var bob := PlaceBadge("Bob", BadgeWidth, 0.0, logoOf[1]);
    var cy := PlaceBadge("Cy", 0.0, PageHeight - BadgeHeight, logoOf[2]);
    assert RowEvents(0, full[0], logoOf[0]) == [NewPage(CutGuides), ann];
    assert RowEvents(1, full[1], logoOf[1]) == [bob];
    assert RowEvents(2, full[2], logoOf[2]) == [NewPage(CutGuides), cy];
    assert Plan(full, logoOf, 1) == [NewPage(CutGuides), ann];
    assert Plan(full, logoOf, 2) == [NewPage(CutGuides), ann, bob];
  }

  /**
   * The first row is never drawn, and an empty row still uses its index:
   * after an empty second row, Bob lands in slot 1 with no page started
   * for him.
   */
  lemma EmptyRowExample(logoOf: seq<string>)
    requires |logoOf| >= 2
    ensures Body([["name"]]) == []
    ensures var gap := Body([["name"], [], ["Bob"]]);
      Plan(gap, logoOf, 2) == [PlaceBadge("Bob", BadgeWidth, 0.0, logoOf[1])]
  {
    var gap := Body([["name"], [], ["Bob"]]);
    assert gap == [[], ["Bob"]];
    assert Plan(gap, logoOf, 1) == [];
    assert RowEvents(1, gap[1], logoOf[1]) == [PlaceBadge("Bob", BadgeWidth, 0.0, logoOf[1])];
  }

  /**
   * The two slots lie on the page and meet along the vertical cut guide; the
   * horizontal guide runs along slot 0's bottom edge but spans the whole page
   * width, so it also crosses slot 1, one inch below its top edge and below
   * both of its title lines.
   */
  lemma SlotGeometry()
    ensures Inside(SlotRect(0), Rect(0.0, 0.0, PageWidth, PageHeight))
    ensures Inside(SlotRect(1), Rect(0.0, 0.0, PageWidth, PageHeight))
    ensures SlotRect(0).x + SlotRect(0).width == SlotRect(1).x == CutGuides[0].x1 == CutGuides[0].x2
    ensures SlotRect(0).y == CutGuides[1].y1 == CutGuides[1].y2
    ensures SlotRect(0).y + SlotRect(0).height == PageHeight
    ensures CutGuides[1].x1 == 0.0 && CutGuides[1].x2 == PageWidth
    ensures var top1 := SlotRect(1).y + SlotRect(1).height;
      var l := LayoutBadge(SlotX(1), SlotY(1), BadgeWidth, BadgeHeight);
      SlotRect(1).y < CutGuides[1].y1 < l.subtitleY < l.titleY < top1 &&
      top1 - CutGuides[1].y1 == Inch
  {
  }
}
