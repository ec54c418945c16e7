/** The browsing controller of the `App` component: its state, the event
    handlers that change it, and `Step`, which applies one user, network or
    timer event the way the rendered page would deliver it. */
module Controller {
  import opened Catalog
  import JsArith
  import Ring

  /** What the page shows: the loading screen, the player, or the error
      screen. Loading and error are two flags in the component; only these
      three combinations of them ever arise. */
  datatype Phase = Loading | Ready | Error(message: string)

  datatype Direction = Next | Prev

  datatype State = State(
    phase: Phase,
    catalog: seq<Channel>,
    selected: Option<Channel>,
    showList: bool,
    showControls: bool,
    touchStartY: int,
    query: string
  )

  /** The fixed message the error screen shows when the catalog cannot be
      loaded. */
  const LoadErrorMessage: string := "Failed to load channels"

  /** A vertical drag must move strictly more than this many pixels to open
      or close the channel list. */
  const SwipeThreshold: int := 50

  /** The component as first mounted: loading, nothing selected, controls
      shown, list closed, empty search. */
  function Init(): (s: State)
    ensures s.phase == Loading && s.catalog == [] && s.selected == None
    ensures s.showControls && !s.showList && s.query == ""
  {
    State(Loading, [], None, false, true, 0, "")
  }

  // ---------------------------------------------------------------------
  // Catalog fetch outcome

  /** The fetch delivered a channel array: it becomes the catalog and the
      page leaves the loading screen. */
  function CatalogLoaded(s: State, data: seq<Channel>): (r: State)
    ensures r.phase == Ready && r.catalog == data
    ensures r.(phase := s.phase, catalog := s.catalog) == s
  {
    s.(phase := Ready, catalog := data)
  }

  /** The fetch or its JSON decoding failed: the page shows the fixed error
      message. The catalog is left as it was. */
  function CatalogFailed(s: State): (r: State)
    ensures r.phase.Error? && r.phase.message == LoadErrorMessage
    ensures r.(phase := s.phase) == s
  {
    s.(phase := Error(LoadErrorMessage))
  }

  // ---------------------------------------------------------------------
  // Input handlers

  /** `handleKeyDown`: Escape closes the list; the vertical arrows reveal the
      controls; every other key is ignored. */
  function KeyDown(s: State, key: string): (r: State)
    ensures r.selected == s.selected && r.catalog == s.catalog && r.phase == s.phase
    ensures key == "Escape" ==> !r.showList && r.showControls == s.showControls
    ensures key == "ArrowUp" || key == "ArrowDown" ==> r.showControls && r.showList == s.showList
    ensures key != "Escape" && key != "ArrowUp" && key != "ArrowDown" ==> r == s
    ensures r.(showList := s.showList, showControls := s.showControls) == s
  {
    if key == "Escape" then s.(showList := false)
    else if key == "ArrowUp" || key == "ArrowDown" then s.(showControls := true)
    else s
  }

  /** `handleTouchStart`: remembers where the drag began. */
  function TouchStart(s: State, y: int): (r: State)
    ensures r.touchStartY == y
    ensures r.(touchStartY := s.touchStartY) == s
  {
    s.(touchStartY := y)
  }

  /** `handleTouchMove`: a drag of more than the threshold decides the list.
      The delta is start minus current, so a finger moving down the screen
      (a larger y) opens the list and one moving up closes it. */
  function TouchMove(s: State, y: int): (r: State)
    ensures y > s.touchStartY + SwipeThreshold ==> r == s.(showList := true)
    ensures y < s.touchStartY - SwipeThreshold ==> r == s.(showList := false)
    ensures s.touchStartY - SwipeThreshold <= y <= s.touchStartY + SwipeThreshold ==> r == s
  {
    var delta := s.touchStartY - y;
    if JsArith.Abs(delta) > SwipeThreshold then s.(showList := delta < 0) else s
  }

  /** `handleMouseMove`: any mouse movement reveals the controls. */
  function MouseMove(s: State): (r: State)
    ensures r.showControls
    ensures r.(showControls := s.showControls) == s
  {
    s.(showControls := true)
  }

  /** The auto-hide timeout firing. The effect arms it only while the
      controls are shown and a channel is selected, so in any other state
      the event does nothing. */
  function IdleTimeout(s: State): (r: State)
    ensures r.showControls <==> s.showControls && s.selected.None?
    ensures r.(showControls := s.showControls) == s
  {
    if s.showControls && s.selected.Some? then s.(showControls := false) else s
  }

  /** A click on a channel of the list: play it and close the list. */
  function SelectChannel(s: State, c: Channel): (r: State)
    ensures r.selected == Some(c) && !r.showList
    ensures r.(selected := s.selected, showList := s.showList) == s
  {
    s.(selected := Some(c), showList := false)
  }

  /** The Browse button flips the list open or closed. */
  function ToggleList(s: State): (r: State)
    ensures r.showList != s.showList
    ensures r.(showList := s.showList) == s
  {
    s.(showList := !s.showList)
  }

  /** The close button and a click on the backdrop both close the list. */
  function CloseList(s: State): (r: State)
    ensures !r.showList
    ensures r.(showList := s.showList) == s
  {
    s.(showList := false)
  }

  /** The welcome screen's call to action opens the list. */
  function OpenList(s: State): (r: State)
    ensures r.showList
    ensures r.(showList := s.showList) == s
  {
    s.(showList := true)
  }

  /** Typing in the search box replaces the query; the list shown is then
      `Filter(catalog, query)`. */
  function SetQuery(s: State, q: string): (r: State)
    ensures r.query == q
    ensures r.(query := s.query) == s
  {
    s.(query := q)
  }

  /** `switchChannel`: move the selection one place around the catalog
      ring. Nothing happens when no channel is selected or the catalog is
      empty. Otherwise only the selection changes, and it becomes a catalog
      entry. */
  function SwitchChannel(s: State, dir: Direction): (r: State)
    ensures s.selected == None || s.catalog == [] ==> r == s
    ensures s.selected.Some? && s.catalog != [] ==>
      exists k :: 0 <= k < |s.catalog| && r == s.(selected := Some(s.catalog[k]))
  {
    if s.selected.None? || |s.catalog| == 0 then s
    else
      var n := |s.catalog|;
      var current := FindIndex(s.catalog, s.selected.value.name);
      var k := if dir == Next then Ring.NextIndex(current, n) else Ring.PrevIndex(current, n);
      s.(selected := Some(s.catalog[k]))
  }

  /** `filteredChannels`, the list the overlay renders for the current
      query: the catalog entries that match it, in catalog order. */
  function Visible(s: State): (r: seq<Channel>)
    ensures forall c :: c in r <==> c in s.catalog && Matches(c, s.query)
    ensures SubsequenceOf(r, s.catalog)
  {
    FilterIsSubsequence(s.catalog, s.query);
    Filter(s.catalog, s.query)
  }

  /** The top bar takes clicks unless it is faded out, which happens exactly
      while a channel plays with the controls hidden; on the welcome screen
      it always takes them. */
  function TopBarActive(s: State): (r: bool)
    ensures s.selected.None? ==> r
    ensures s.selected.Some? ==> (r <==> s.showControls)
  {
    s.showControls || s.selected.None?
  }

  /** The buttons of the player view that lie below the open list: Browse
      in the top bar, the prev/next pair, and the welcome screen's call to
      action. */
  datatype Button = BrowseButton | SwitchButton(dir: Direction) | WelcomeButton

  /** The button is in the document in the player view: the top bar always
      is, the prev/next pair while a channel plays with the controls shown,
      the welcome button while nothing is selected. A mounted button can take
      keyboard focus whether or not it is faded out or covered. */
  predicate Mounted(s: State, b: Button) {
    match b
    case BrowseButton => true
    case SwitchButton(_) => s.selected.Some? && s.showControls
    case WelcomeButton => s.selected.None?
  }

  /** A mouse or touch click reaches the button: it is mounted, the open
      list does not cover it, and for Browse the top bar is not faded out. */
  predicate Clickable(s: State, b: Button) {
    Mounted(s, b) && !s.showList && (b.BrowseButton? ==> TopBarActive(s))
  }

  /** The button's click handler: Browse flips the list, prev/next switch
      the channel, the welcome button opens the list. Switching touches only
      the selection, the other two only the list. */
  function Press(s: State, b: Button): (r: State)
    ensures b.SwitchButton? ==> r.(selected := s.selected) == s
    ensures b.BrowseButton? ==> r.(showList := s.showList) == s && r.showList != s.showList
    ensures b.WelcomeButton? ==> r.(showList := s.showList) == s && r.showList
  {
    match b
    case BrowseButton => ToggleList(s)
    case SwitchButton(dir) => SwitchChannel(s, dir)
    case WelcomeButton => OpenList(s)
  }

  // ---------------------------------------------------------------------
  // Events as the page delivers them

  datatype Event =
    | FetchSucceeded(data: seq<Channel>)
    | FetchFailed
    | KeyPressed(key: string)
    | TouchStarted(y: int)
    | TouchMoved(y: int)
    | MouseMoved
    | IdleTimerFired
    | ButtonClicked(b: Button)  // a mouse click or a tap on the button
    | ButtonKeyed(b: Button)    // Enter or Space while the button has focus
    | ClosePressed
    | QueryTyped(q: string)
    | ListItemPressed(k: int)

  /** UI events that only reach the controller through the player view,
      which is rendered only once the catalog has loaded. */
  predicate IsUserEvent(e: Event) {
    !(e.FetchSucceeded? || e.FetchFailed? || e.IdleTimerFired?)
  }

  /** The outcome `r` of a handler attached to the player view, which exists
      only in the Ready phase. */
  function InPlayerView(s: State, r: State): State {
    if s.phase == Ready then r else s
  }

  /** Applies one event. The fetch settles once, while loading. Input
      events arrive only through elements that are rendered in the current
      state, all of them inside the player view of the Ready phase. A mouse
      or touch click on Browse, prev/next or the welcome button needs the
      button to be `Clickable`: the open list is a full-screen layer above
      all three, so while it is open their clicks land on the list instead,
      and the faded-out top bar lets clicks through. Keyboard activation
      (Enter or Space on the focused button) needs the button only to be
      `Mounted`: neither the layer nor the fading removes it from the focus
      order. The close button, the search box and the list entries sit on
      the top layer, so every input device reaches them alike. An event
      whose element is absent or out of reach changes nothing. */
  function Step(s: State, e: Event): (r: State)
    ensures IsUserEvent(e) && s.phase != Ready ==> r == s
    ensures r.catalog == s.catalog || (s.phase == Loading && e.FetchSucceeded?)
  {
    match e
    case FetchSucceeded(data) => if s.phase == Loading then CatalogLoaded(s, data) else s
    case FetchFailed => if s.phase == Loading then CatalogFailed(s) else s
    case IdleTimerFired => IdleTimeout(s)
    case KeyPressed(key) => InPlayerView(s, KeyDown(s, key))
    case TouchStarted(y) => InPlayerView(s, TouchStart(s, y))
    case TouchMoved(y) => InPlayerView(s, TouchMove(s, y))
    case MouseMoved => InPlayerView(s, MouseMove(s))
    case ButtonClicked(b) => if s.phase == Ready && Clickable(s, b) then Press(s, b) else s
    case ButtonKeyed(b) => if s.phase == Ready && Mounted(s, b) then Press(s, b) else s
    case ClosePressed => if s.phase == Ready && s.showList then CloseList(s) else s
    case QueryTyped(q) => if s.phase == Ready && s.showList then SetQuery(s, q) else s
    case ListItemPressed(k) =>
      var shown := Visible(s);
      if s.phase == Ready && s.showList && 0 <= k < |shown| then SelectChannel(s, shown[k]) else s
  }

  /** Applies a sequence of events in order. */
  function Run(s: State, events: seq<Event>): State
    decreases |events|
  {
    if events == [] then s else Run(Step(s, events[0]), events[1..])
  }
}
