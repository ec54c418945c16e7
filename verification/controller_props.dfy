/** Properties of the browsing controller: the invariant every reachable
    state keeps, the ring behaviour of channel switching, the effect of each
    kind of input, and concrete scenarios. */
module ControllerProperties {
  import opened Catalog
  import Text
  import Ring
  import opened Controller

  // ---------------------------------------------------------------------
  // The reachable-state invariant

  /** What holds in every state the page can reach from mounting: the
      catalog is empty until it has loaded, nothing is selected outside the
      player view, the error screen shows the fixed message, the selection
      is always an entry of the catalog, and the controls are shown for as
      long as nothing is selected. */
  predicate Valid(s: State) {
    && (s.phase == Loading ==> s.catalog == [])
    && (s.phase != Ready ==> s.selected == None)
    && (s.phase.Error? ==> s.phase.message == LoadErrorMessage)
    && (s.selected.Some? ==> s.selected.value in s.catalog)
    && (s.selected.None? ==> s.showControls)
  }

  lemma InitValid()
    ensures Valid(Init())
  {
  }

  /** Every event keeps the invariant. */
  lemma StepPreservesValid(s: State, e: Event)
    requires Valid(s)
    ensures Valid(Step(s, e))
  {
  }

  /** Any sequence of events keeps the invariant. */
  lemma {:induction false} RunPreservesValid(s: State, events: seq<Event>)
    requires Valid(s)
    ensures Valid(Run(s, events))
    decreases |events|
  {
    if events != [] {
      StepPreservesValid(s, events[0]);
      RunPreservesValid(Step(s, events[0]), events[1..]);
    }
  }

  /** Every state reached from mounting satisfies the invariant. */
  lemma ReachableIsValid(events: seq<Event>)
    ensures Valid(Run(Init(), events))
  {
    InitValid();
    RunPreservesValid(Init(), events);
  }

  /** In a reachable state the selected name is always found, so the -1
      branch of the ring arithmetic is never taken there. */
  lemma ReachableSelectionIsFound(s: State)
    requires Valid(s) && s.selected.Some?
    ensures 0 <= FindIndex(s.catalog, s.selected.value.name) < |s.catalog|
  {
  }

  /** Once a channel plays, some channel keeps playing: no event clears the
      selection. */
  lemma SelectionPersists(s: State, e: Event)
    requires s.selected.Some?
    ensures Step(s, e).selected.Some?
  {
  }

  /** A failed load is final: from the error screen no event changes
      anything, so no retry and no selection ever happen. */
  lemma ErrorIsTerminal(s: State, e: Event)
    requires Valid(s) && s.phase.Error?
    ensures Step(s, e) == s
  {
  }

  /** While the catalog is loading, input events are not delivered. */
  lemma LoadingIgnoresInput(s: State, e: Event)
    requires s.phase == Loading && IsUserEvent(e)
    ensures Step(s, e) == s
  {
  }

  // ---------------------------------------------------------------------
  // Channel switching on the ring

  /** The catalog has no duplicate names and the selection is one of its
      entries; this is the situation the ring arithmetic is designed for. */
  predicate OnRing(s: State) {
    && UniqueNames(s.catalog)
    && s.selected.Some?
    && s.selected.value in s.catalog
  }

  /** Position of the selected channel of a state on the ring. */
  function Position(s: State): (i: int)
    requires OnRing(s)
    ensures 0 <= i < |s.catalog| && s.catalog[i] == s.selected.value
  {
    var i :| 0 <= i < |s.catalog| && s.catalog[i] == s.selected.value;
    FindIndexOfUnique(s.catalog, i);
    FindIndex(s.catalog, s.selected.value.name)
  }

  /** On the ring, switching moves exactly one place. */
  lemma SwitchMovesOnePlace(s: State, dir: Direction)
    requires OnRing(s)
    ensures var n := |s.catalog|;
            var i := Position(s);
            SwitchChannel(s, dir)
            == s.(selected := Some(s.catalog[if dir == Next then Ring.NextIndex(i, n) else Ring.PrevIndex(i, n)]))
  {
  }

  /** Switching changes nothing when no channel is selected or the catalog is
      empty, whether the prev/next buttons are clicked or activated from
      the keyboard. */
  lemma SwitchWithoutTargetIsInert(s: State, dir: Direction)
    requires s.selected.None? || s.catalog == []
    ensures SwitchChannel(s, dir) == s
    ensures Step(s, ButtonClicked(SwitchButton(dir))) == s
    ensures Step(s, ButtonKeyed(SwitchButton(dir))) == s
  {
  }

  /** Next then previous restores the state. */
  lemma SwitchNextThenPrev(s: State)
    requires OnRing(s)
    ensures SwitchChannel(SwitchChannel(s, Next), Prev) == s
  {
    var i := Position(s);
    var j := Ring.NextIndex(i, |s.catalog|);
    var forward := SwitchChannel(s, Next);
    SwitchMovesOnePlace(s, Next);
    FindIndexOfUnique(s.catalog, j);
    assert Position(forward) == j;
    Ring.PrevAfterNext(i, |s.catalog|);
    SwitchMovesOnePlace(forward, Prev);
  }

  /** Previous then next restores the state. */
  lemma SwitchPrevThenNext(s: State)
    requires OnRing(s)
    ensures SwitchChannel(SwitchChannel(s, Prev), Next) == s
  {
    var i := Position(s);
    var h := Ring.PrevIndex(i, |s.catalog|);
    var backward := SwitchChannel(s, Prev);
    SwitchMovesOnePlace(s, Prev);
    FindIndexOfUnique(s.catalog, h);
    assert Position(backward) == h;
    Ring.NextAfterPrev(i, |s.catalog|);
    SwitchMovesOnePlace(backward, Next);
  }

  /** Next from the last entry wraps to the first; previous from the first
      wraps to the last. */
  lemma SwitchWrapsAround(s: State)
    requires UniqueNames(s.catalog) && s.catalog != []
    ensures var n := |s.catalog|;
            s.selected == Some(s.catalog[n - 1]) ==>
              SwitchChannel(s, Next).selected == Some(s.catalog[0])
    ensures var n := |s.catalog|;
            s.selected == Some(s.catalog[0]) ==>
              SwitchChannel(s, Prev).selected == Some(s.catalog[n - 1])
  {
  }

  /** A selection whose name is not in the catalog is resolved to -1: next
      then plays the first entry and previous the second-to-last (the only
      entry when there is one). */
  lemma StaleSelectionSwitch(s: State)
    requires s.selected.Some? && s.catalog != []
    requires forall c :: c in s.catalog ==> c.name != s.selected.value.name
    ensures SwitchChannel(s, Next).selected == Some(s.catalog[0])
    ensures var n := |s.catalog|;
            SwitchChannel(s, Prev).selected == Some(s.catalog[if n == 1 then 0 else n - 2])
  {
  }

  /** `k` presses of one switch button. */
  function SwitchTimes(s: State, dir: Direction, k: nat): State
  {
    if k == 0 then s else SwitchChannel(SwitchTimes(s, dir, k - 1), dir)
  }

  /** `k` presses of next advance the selection `k` places. */
  lemma {:induction false} SwitchTimesAdvances(s: State, k: nat)
    requires OnRing(s)
    ensures SwitchTimes(s, Next, k)
            == s.(selected := Some(s.catalog[Ring.Advance(Position(s), k, |s.catalog|)]))
  {
    if k > 0 {
      SwitchTimesAdvances(s, k - 1);
      var n := |s.catalog|;
      var p := Ring.Advance(Position(s), k - 1, n);
      var t := SwitchTimes(s, Next, k - 1);
      assert t == s.(selected := Some(s.catalog[p]));
      FindIndexOfUnique(s.catalog, p);
      assert Position(t) == p;
      SwitchMovesOnePlace(t, Next);
    }
  }

  /** Pressing next once per catalog entry comes back to the starting
      channel with the state otherwise unchanged. */
  lemma SwitchFullCircle(s: State)
    requires OnRing(s)
    ensures SwitchTimes(s, Next, |s.catalog|) == s
  {
    SwitchTimesAdvances(s, |s.catalog|);
    Ring.AdvanceFullCircle(Position(s), |s.catalog|);
  }

  // ---------------------------------------------------------------------
  // Input events in the player view

  /** Escape closes the list and the arrow keys show the controls; neither
      ever changes the channel, and every other key changes nothing. */
  lemma KeysNeverSwitch(s: State, key: string)
    requires s.phase == Ready
    ensures Step(s, KeyPressed(key)).selected == s.selected
    ensures key == "Escape" ==>
      !Step(s, KeyPressed(key)).showList && Step(s, KeyPressed(key)).showControls == s.showControls
    ensures key == "ArrowUp" || key == "ArrowDown" ==>
      Step(s, KeyPressed(key)).showControls && Step(s, KeyPressed(key)).showList == s.showList
    ensures key != "Escape" && key != "ArrowUp" && key != "ArrowDown" ==> Step(s, KeyPressed(key)) == s
  {
  }

  /** A drag that starts at `y0` and moves to `y1` decides the list by its
      direction once it exceeds the threshold: down opens, up closes. A
      shorter drag only records where it started. */
  lemma DragDecidesList(s: State, y0: int, y1: int)
    requires s.phase == Ready
    ensures var r := Run(s, [TouchStarted(y0), TouchMoved(y1)]);
            && (y1 - y0 > SwipeThreshold ==> r == s.(touchStartY := y0, showList := true))
            && (y0 - y1 > SwipeThreshold ==> r == s.(touchStartY := y0, showList := false))
            && (-SwipeThreshold <= y1 - y0 <= SwipeThreshold ==> r == s.(touchStartY := y0))
  {
    var t := Step(s, TouchStarted(y0));
    assert Run(s, [TouchStarted(y0), TouchMoved(y1)]) == Run(t, [TouchMoved(y1)]);
    assert Run(t, [TouchMoved(y1)]) == Step(t, TouchMoved(y1));
  }

  /** Mouse movement always shows the controls; the idle timeout then
      hides them again while a channel plays. */
  lemma ActivityThenIdle(s: State)
    requires s.phase == Ready && s.selected.Some?
    ensures Step(s, MouseMoved).showControls
    ensures Step(Step(s, MouseMoved), IdleTimerFired) == s.(showControls := false)
  {
  }

  /** The idle timeout never hides the controls of the welcome screen, and
      it is inert once they are hidden. */
  lemma IdleTimeoutInert(s: State)
    requires s.selected.None? || !s.showControls
    ensures Step(s, IdleTimerFired) == s
  {
  }

  /** A click on the `k`-th entry of the open list plays exactly that
      channel, which is a catalog entry matching the query, and closes the
      list; the controls and the search are left alone. */
  lemma ListPickPlaysShownChannel(s: State, k: int)
    requires s.phase == Ready && s.showList && 0 <= k < |Visible(s)|
    ensures var r := Step(s, ListItemPressed(k));
            && r.selected == Some(Visible(s)[k])
            && r.selected.value in s.catalog
            && Matches(r.selected.value, s.query)
            && !r.showList
            && r == s.(selected := r.selected, showList := false)
  {
  }

  /** A click on Browse opens the closed list and the close button undoes
      it. */
  lemma BrowseThenCloseRestores(s: State)
    requires s.phase == Ready && TopBarActive(s) && !s.showList
    ensures Step(s, ButtonClicked(BrowseButton)).showList
    ensures Step(Step(s, ButtonClicked(BrowseButton)), ClosePressed) == s
  {
  }

  /** While the list is open it covers the top bar, the prev/next buttons
      and the welcome screen: a mouse or touch click on any of their buttons
      changes nothing. */
  lemma OpenListCoversButtons(s: State, b: Button)
    requires s.showList
    ensures Step(s, ButtonClicked(b)) == s
  {
  }

  /** With the controls hidden during playback the faded-out top bar does
      not take a mouse or touch click on Browse. */
  lemma BrowseIgnoredWhileHidden(s: State)
    requires s.selected.Some? && !s.showControls
    ensures Step(s, ButtonClicked(BrowseButton)) == s
  {
  }

  /** Keyboard activation of the Browse button flips the list in every
      player-view state, including under the open list and while the top
      bar is faded out: it is the only way Browse closes the list. */
  lemma KeyedBrowseAlwaysToggles(s: State)
    requires s.phase == Ready
    ensures Step(s, ButtonKeyed(BrowseButton)) == s.(showList := !s.showList)
  {
  }

  /** Where a click reaches a button, its keyboard activation has the same
      effect; where the button is not mounted, neither does anything. The
      two differ exactly on mounted buttons that are covered or faded out. */
  lemma ClickAndKeyAgree(s: State, b: Button)
    ensures Clickable(s, b) ==> Step(s, ButtonClicked(b)) == Step(s, ButtonKeyed(b))
    ensures !Mounted(s, b) ==> Step(s, ButtonClicked(b)) == s && Step(s, ButtonKeyed(b)) == s
    ensures s.phase == Ready && Mounted(s, b) && !Clickable(s, b) ==>
              Step(s, ButtonClicked(b)) == s && Step(s, ButtonKeyed(b)) == Press(s, b)
  {
  }

  /** On the ring, the prev/next buttons still switch the channel from the
      keyboard while the list covers them, moving one place as a click
      would; the list stays open in front of the new channel. */
  lemma KeyedSwitchBehindList(s: State, dir: Direction)
    requires OnRing(s) && s.phase == Ready && s.showControls && s.showList
    ensures var n := |s.catalog|;
            var i := Position(s);
            && Step(s, ButtonKeyed(SwitchButton(dir)))
               == s.(selected := Some(s.catalog[if dir == Next then Ring.NextIndex(i, n) else Ring.PrevIndex(i, n)]))
            && Step(s, ButtonKeyed(SwitchButton(dir))).showList
  {
  }

  // ---------------------------------------------------------------------
  // Scenarios

  function Ch(name: string): Channel {
    Channel(name, "", "")
  }

  function Playing(catalog: seq<Channel>, c: Channel): State {
    State(Ready, catalog, Some(c), false, true, 0, "")
  }

  /** Catalog [A, B, C]: next from B plays C, next again wraps to A, and
      previous from A wraps to C. */
  lemma ScenarioThreeChannels()
    ensures var cat := [Ch("A"), Ch("B"), Ch("C")];
            && SwitchChannel(Playing(cat, Ch("B")), Next).selected == Some(Ch("C"))
            && SwitchChannel(SwitchChannel(Playing(cat, Ch("B")), Next), Next).selected == Some(Ch("A"))
            && SwitchChannel(Playing(cat, Ch("A")), Prev).selected == Some(Ch("C"))
  {
    var cat := [Ch("A"), Ch("B"), Ch("C")];
    assert UniqueNames(cat);
    FindIndexOfUnique(cat, 0);
    FindIndexOfUnique(cat, 1);
    FindIndexOfUnique(cat, 2);
    var atB := Playing(cat, cat[1]);
    SwitchMovesOnePlace(atB, Next);
    var atC := SwitchChannel(atB, Next);
    assert atC == Playing(cat, cat[2]);
    SwitchMovesOnePlace(atC, Next);
    SwitchMovesOnePlace(Playing(cat, cat[0]), Prev);
  }

  /** Catalog [A, B] with A playing, the controls shown and the list open:
      a click on next lands on the list and changes nothing, while Enter on
      the focused next button plays B behind the list. */
  lemma ScenarioKeyedNextBehindList()
    ensures var cat := [Ch("A"), Ch("B")];
            var s := Playing(cat, Ch("A")).(showList := true);
            && Step(s, ButtonClicked(SwitchButton(Next))) == s
            && Step(s, ButtonKeyed(SwitchButton(Next))) == s.(selected := Some(Ch("B")))
  {
  }

  /** With an empty catalog the switch buttons change nothing. */
  lemma ScenarioEmptyCatalog(c: Channel, dir: Direction)
    ensures SwitchChannel(Playing([], c), dir) == Playing([], c)
  {
  }

  /** A rejected fetch shows the error screen, and a later answer is not
      taken. */
  lemma ScenarioFetchRejected(data: seq<Channel>)
    ensures Step(Init(), FetchFailed).phase == Error(LoadErrorMessage)
    ensures Run(Init(), [FetchFailed, FetchSucceeded(data)]) == Step(Init(), FetchFailed)
  {
    var failed := Step(Init(), FetchFailed);
    assert Run(Init(), [FetchFailed, FetchSucceeded(data)]) == Run(failed, [FetchSucceeded(data)]);
    assert Run(failed, [FetchSucceeded(data)]) == Run(failed, []);
  }

  /** The query "tv" against TVOne, Metro and RCTV keeps TVOne and RCTV. */
  lemma ScenarioSearchTv()
    ensures Filter([Ch("TVOne"), Ch("Metro"), Ch("RCTV")], "tv") == [Ch("TVOne"), Ch("RCTV")]
  {
    var cat := [Ch("TVOne"), Ch("Metro"), Ch("RCTV")];
    TvMatches();
    assert cat[1..] == [Ch("Metro"), Ch("RCTV")];
    assert cat[1..][1..] == [Ch("RCTV")];
    FilterSingleton(Ch("RCTV"), "tv");
    assert Filter(cat[1..], "tv") == [Ch("RCTV")];
  }

  /** Which of the three names the query "tv" matches, case-insensitively. */
  lemma TvMatches()
    ensures Matches(Ch("TVOne"), "tv")
    ensures !Matches(Ch("Metro"), "tv")
    ensures Matches(Ch("RCTV"), "tv")
  {
    assert Text.Lower("tv") == "tv";
    assert Text.Lower("TVOne") == "tvone";
    assert Text.OccursAt("tvone", "tv", 0);
    assert Text.Lower("Metro") == "metro";
    MetroLacksTv();
    assert Text.Lower("RCTV") == "rctv";
    assert Text.OccursAt("rctv", "tv", 2);
  }

  /** "metro" has no 'v', so no position of it starts "tv". */
  lemma MetroLacksTv()
    ensures !Text.Contains("metro", "tv")
  {
    forall i | 0 <= i <= 3
      ensures !Text.OccursAt("metro", "tv", i)
    {
      assert "metro"[i..i + 2][1] == "metro"[i + 1];
      assert i + 1 in {1, 2, 3, 4};
    }
  }

  /** Names are the only identity: with two entries named alike, next from
      the later one resolves to the earlier one and plays the entry after
      it, so repeated presses cycle between two entries and never reach the
      first one. */
  lemma ScenarioDuplicateNames()
    ensures var cat := [Channel("X", "", "1"), Ch("B"), Channel("X", "", "2")];
            && SwitchChannel(Playing(cat, cat[2]), Next).selected == Some(cat[1])
            && SwitchChannel(Playing(cat, cat[1]), Next).selected == Some(cat[2])
  {
  }
}
