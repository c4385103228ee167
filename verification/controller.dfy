/** The NavigationButtons custom element with the DOM taken away: its state,
    the attributes it reads, the view it renders, how it answers a click, and
    how it reacts to the events the host sends it. */
module Controller {
  import opened Options
  import opened Pagination

  // ---------------------------------------------------------------------
  // State and attributes
  // ---------------------------------------------------------------------

  /** The two numbers the element keeps. */
  datatype State = State(currentPage: int, totalPages: int)

  /** The state a freshly constructed element starts with. */
  const InitialState: State := State(1, 1)

  /** The observed attributes `current-page` and `total-pages`, already read as
      integers; `None` is an absent attribute. */
  datatype Attributes = Attributes(currentPage: Option<int>, totalPages: Option<int>)

  datatype AttributeName = CurrentPageAttribute | TotalPagesAttribute

  function GetAttribute(a: Attributes, name: AttributeName): (value: Option<int>) {
    match name
    case CurrentPageAttribute => a.currentPage
    case TotalPagesAttribute => a.totalPages
  }

  /** Sets one attribute (or removes it, for `None`) and keeps the other. */
  function SetAttribute(a: Attributes, name: AttributeName, value: Option<int>): (a': Attributes)
    ensures GetAttribute(a', name) == value
    ensures forall other :: other != name ==> GetAttribute(a', other) == GetAttribute(a, other)
  {
    match name
    case CurrentPageAttribute => a.(currentPage := value)
    case TotalPagesAttribute => a.(totalPages := value)
  }

  /** Reads both attributes into the state; an absent attribute counts as 1. */
  function UpdateInputAttributes(a: Attributes): (s: State)
    ensures a.currentPage == None ==> s.currentPage == 1
    ensures a.totalPages == None ==> s.totalPages == 1
    ensures forall p :: a.currentPage == Some(p) ==> s.currentPage == p
    ensures forall p :: a.totalPages == Some(p) ==> s.totalPages == p
  {
    State(ValueOr(a.currentPage, 1), ValueOr(a.totalPages, 1))
  }

  // ---------------------------------------------------------------------
  // Rendering
  // ---------------------------------------------------------------------

  /** One rendered entry of the page list: an ellipsis span, or a page button
      that may carry the active mark. */
  datatype Item = EllipsisMarker | PageButton(page: int, active: bool)

  /** The rendered control: the two arrow buttons' disabled flags and the
      page list. */
  datatype View = View(previousDisabled: bool, nextDisabled: bool, items: seq<Item>)

  /** How one entry of the integer output list is rendered: the sentinel as an
      ellipsis span, any other value as a button, active when it equals the
      current page. */
  function RenderEntry(x: int, currentPage: int): (item: Item) {
    if x == EllipsisSentinel then EllipsisMarker else PageButton(x, x == currentPage)
  }

  /** The item a token stands for, read directly off the token. */
  function ItemFor(t: Token, currentPage: int): (item: Item) {
    match t
    case Ellipsis => EllipsisMarker
    case Page(n) => PageButton(n, n == currentPage)
  }

  /** Renders the integer output list entry by entry, in order. */
  function RenderEntries(xs: seq<int>, currentPage: int): (items: seq<Item>)
    ensures |items| == |xs|
  {
    seq(|xs|, i requires 0 <= i < |xs| => RenderEntry(xs[i], currentPage))
  }

  /** How many items carry the active mark. */
  function ActiveCount(items: seq<Item>): (count: nat) {
    if |items| == 0 then 0
    else (if items[0].PageButton? && items[0].active then 1 else 0) + ActiveCount(items[1..])
  }

  /** The previous arrow is disabled on page 1 only. */
  function PreviousDisabled(s: State): (disabled: bool) {
    s.currentPage == 1
  }

  /** The next arrow is disabled on the last page and on any page beyond it. */
  function NextDisabled(s: State): (disabled: bool) {
    s.currentPage >= s.totalPages
  }

  /** The view for a state: previous is disabled only on page 1, next on the
      last page or beyond it, and the page list is the strip, with the sentinel
      encoding invisible to the reader: each item is what its token stands for,
      and exactly one page is active when the current page is a real page. */
  function Render(s: State): (v: View)
    ensures v.previousDisabled <==> s.currentPage == 1
    ensures v.nextDisabled <==> s.currentPage >= s.totalPages
    ensures var strip := GeneratePagination(s.currentPage, s.totalPages);
      |v.items| == |strip| &&
      forall i :: 0 <= i < |strip| ==> v.items[i] == ItemFor(strip[i], s.currentPage)
    ensures ActiveCount(v.items) == if 1 <= s.currentPage <= s.totalPages then 1 else 0
  {
    var strip := GeneratePagination(s.currentPage, s.totalPages);
    StripSurvivesEncoding(s.currentPage, s.totalPages);
    CurrentPageShownOnce(s.currentPage, s.totalPages);
    var items := RenderEntries(Encode(strip), s.currentPage);
    RenderedItemsFollowTokens(strip, items, s.currentPage);
    View(PreviousDisabled(s), NextDisabled(s), items)
  }

  /** Rendering the encoded strip yields, at each place, the item its token
      stands for, as long as no page collides with the sentinel; so the active
      items are exactly the occurrences of the current page. */
  lemma RenderedItemsFollowTokens(strip: seq<Token>, items: seq<Item>, currentPage: int)
    requires SentinelFree(strip)
    requires items == RenderEntries(Encode(strip), currentPage)
    ensures |items| == |strip|
    ensures forall i :: 0 <= i < |strip| ==> items[i] == ItemFor(strip[i], currentPage)
    ensures ActiveCount(items) == Occurrences(strip, currentPage)
  {
    forall i | 0 <= i < |strip|
      ensures items[i] == ItemFor(strip[i], currentPage)
    {
      assert Encode(strip)[i] == EncodeToken(strip[i]);
    }
    ActiveCountMatches(strip, items, currentPage);
  }

  lemma {:induction false} ActiveCountMatches(strip: seq<Token>, items: seq<Item>, currentPage: int)
    requires |items| == |strip|
    requires forall i :: 0 <= i < |strip| ==> items[i] == ItemFor(strip[i], currentPage)
    ensures ActiveCount(items) == Occurrences(strip, currentPage)
  {
    if |strip| > 0 {
      assert items[0] == ItemFor(strip[0], currentPage);
      var restItems, restStrip := items[1..], strip[1..];
      forall i | 0 <= i < |restStrip|
        ensures restItems[i] == ItemFor(restStrip[i], currentPage)
      {
        assert restItems[i] == items[i + 1] && restStrip[i] == strip[i + 1];
      }
      ActiveCountMatches(restStrip, restItems, currentPage);
    }
  }

  // ---------------------------------------------------------------------
  // Clicks
  // ---------------------------------------------------------------------

  /** The `data-page` value of a button: the previous or next arrow, or a page number. */
  datatype PageLabel = PreviousLabel | NextLabel | NumberLabel(n: int)

  /** The button a click landed in: whether it is disabled, and its `data-page`
      value if it has one. */
  datatype Button = Button(disabled: bool, page: Option<PageLabel>)

  /** The page a label asks for, relative to the current page. */
  function Candidate(s: State, tag: PageLabel): (page: int) {
    match tag
    case PreviousLabel => s.currentPage - 1
    case NextLabel => s.currentPage + 1
    case NumberLabel(n) => n
  }

  /** The page a click requests, if any. `target` is the nearest button around
      the clicked node (`None` for a click outside every button, such as on an
      ellipsis). Only an enabled, labelled button can request a page, and only
      a real page other than the current one is requested. */
  function ResolveClick(s: State, target: Option<Button>): (r: Option<int>)
    ensures r.Some? ==> 1 <= r.value <= s.totalPages && r.value != s.currentPage
    ensures r.Some? <==>
      target.Some? && !target.value.disabled && target.value.page.Some? &&
      var p := Candidate(s, target.value.page.value);
      1 <= p <= s.totalPages && p != s.currentPage
    ensures r.Some? ==> r.value == Candidate(s, target.value.page.value)
  {
    if target.None? || target.value.disabled then None
    else if target.value.page.None? then None
    else
      var newPage := Candidate(s, target.value.page.value);
      if newPage >= 1 && newPage <= s.totalPages && newPage != s.currentPage then Some(newPage)
      else None
  }

  /** The nearest button around a click on a rendered item: none for an
      ellipsis span, the page's own button otherwise. */
  function ItemTarget(item: Item): (target: Option<Button>) {
    match item
    case EllipsisMarker => None
    case PageButton(n, _) => Some(Button(false, Some(NumberLabel(n))))
  }

  /** Clicking a rendered item: an ellipsis and the active page request
      nothing, every other page button requests its own page. */
  lemma ClickOnItem(s: State, i: int)
    requires 0 <= i < |Render(s).items|
    ensures var item := Render(s).items[i];
      ResolveClick(s, ItemTarget(item))
        == if item.PageButton? && !item.active then Some(item.page) else None
  {
    var strip := GeneratePagination(s.currentPage, s.totalPages);
    var item := Render(s).items[i];
    assert item == ItemFor(strip[i], s.currentPage);
    if strip[i].Page? {
      assert PagesWithin(strip, 1, s.totalPages);
      ClickOnPageButton(s, strip[i].n);
    }
  }

  /** A button for a real page requests that page unless it is the current one. */
  lemma ClickOnPageButton(s: State, n: int)
    requires 1 <= n <= s.totalPages
    ensures ResolveClick(s, ItemTarget(PageButton(n, n == s.currentPage)))
         == if n == s.currentPage then None else Some(n)
  {
  }

  /** For a real current page, an arrow is enabled exactly when clicking it
      requests a page, and the page it requests is the adjacent one. The
      arrows' flags are those `Render` puts in the view. */
  lemma ArrowsLiveIffEnabled(s: State)
    requires 1 <= s.currentPage <= s.totalPages
    ensures ResolveClick(s, Some(Button(PreviousDisabled(s), Some(PreviousLabel))))
         == if PreviousDisabled(s) then None else Some(s.currentPage - 1)
    ensures ResolveClick(s, Some(Button(NextDisabled(s), Some(NextLabel))))
         == if NextDisabled(s) then None else Some(s.currentPage + 1)
  {
  }

  /** Previous is disabled only on page 1, so for a current page of 0 it is
      enabled, yet a click on it requests nothing. */
  lemma PreviousEnabledButInertBelowRange()
    ensures var s := State(0, 10);
      !PreviousDisabled(s) && ResolveClick(s, Some(Button(PreviousDisabled(s), Some(PreviousLabel)))) == None
  {
  }

  // ---------------------------------------------------------------------
  // The element as a state machine
  // ---------------------------------------------------------------------

  /** The element: its attributes, its state, and the view last rendered
      (`None` before the first render). */
  datatype Element = Element(attributes: Attributes, state: State, view: Option<View>)

  /** A constructed element: no attributes, the initial state, nothing rendered. */
  const Constructed: Element := Element(Attributes(None, None), InitialState, None)

  /** What the host can do to the element: attach it to a document, set or
      remove an observed attribute, or deliver a click. */
  datatype Event =
    | Connected
    | AttributeChanged(name: AttributeName, value: Option<int>)
    | Clicked(target: Option<Button>)

  /** The element after an event, with the page it asked to navigate to, if any. */
  datatype Reaction = Reaction(element: Element, emitted: Option<int>)

  /** The state always reflects the attributes, and the view, once there is
      one, is the rendering of the state. */
  predicate Consistent(e: Element) {
    && e.state == UpdateInputAttributes(e.attributes)
    && (e.view.Some? ==> e.view.value == Render(e.state))
  }

  /** Re-reads the attributes and renders afresh. */
  function Refresh(attributes: Attributes): (e: Element)
    ensures Consistent(e) && e.view.Some?
    ensures e.attributes == attributes
  {
    var s := UpdateInputAttributes(attributes);
    Element(attributes, s, Some(Render(s)))
  }

  /** One event. Connecting refreshes; an attribute change refreshes unless
      the old and new values are equal, in which case nothing happens; a click
      never changes the element and may emit one navigation request. */
  function Step(e: Element, ev: Event): (r: Reaction)
    ensures ev.Clicked? ==> r.element == e
    ensures ev.AttributeChanged? && GetAttribute(e.attributes, ev.name) == ev.value ==> r.element == e
    ensures r.emitted.Some? ==>
      ev.Clicked? && 1 <= r.emitted.value <= e.state.totalPages && r.emitted.value != e.state.currentPage
    ensures Consistent(e) ==> Consistent(r.element)
    ensures !ev.Clicked? ==> r.element.view.Some? || r.element == e
    // A click dispatches exactly the page the click resolves to.
    ensures ev.Clicked? ==> r.emitted == ResolveClick(e.state, ev.target)
    // An attribute change is always recorded.
    ensures ev.AttributeChanged? ==>
      r.element.attributes == SetAttribute(e.attributes, ev.name, ev.value)
    // Connecting, and changing a value, re-read the attributes and re-render.
    ensures ev.Connected? || (ev.AttributeChanged? && GetAttribute(e.attributes, ev.name) != ev.value) ==>
      r.element.view == Some(Render(UpdateInputAttributes(r.element.attributes)))
    // Only an attribute change writes the attributes.
    ensures !ev.AttributeChanged? ==> r.element.attributes == e.attributes
    // A refresh leaves the element consistent whatever it was before.
    ensures ev.Connected? || (ev.AttributeChanged? && GetAttribute(e.attributes, ev.name) != ev.value) ==>
      Consistent(r.element)
  {
    match ev
    case Connected =>
      Reaction(Refresh(e.attributes), None)
    case AttributeChanged(name, value) =>
      var oldValue := GetAttribute(e.attributes, name);
      var attributes := SetAttribute(e.attributes, name, value);
      if oldValue == value then
        assert attributes == e.attributes;
        Reaction(e, None)
      else
        Reaction(Refresh(attributes), None)
    case Clicked(target) =>
      Reaction(e, ResolveClick(e.state, target))
  }

  /** Skipping the refresh for an unchanged value loses nothing once the
      element has rendered: a refresh would rebuild the very same element. */
  lemma UnchangedValueGuardIsSound(e: Element)
    requires Consistent(e) && e.view.Some?
    ensures Refresh(e.attributes) == e
  {
  }

  /** The attributes after the host has applied every attribute change in
      `events` to `a`, in order; other events leave them alone. */
  function HostAttributes(a: Attributes, events: seq<Event>): (r: Attributes)
    decreases |events|
  {
    if |events| == 0 then a
    else
      var next := if events[0].AttributeChanged?
        then SetAttribute(a, events[0].name, events[0].value)
        else a;
      HostAttributes(next, events[1..])
  }

  /** The pages the clicks in `events` ask for, each resolved against the
      attributes the host has set by the time of that click. */
  function ClickRequests(a: Attributes, events: seq<Event>): (r: seq<int>)
    decreases |events|
  {
    if |events| == 0 then []
    else match events[0]
      case Connected => ClickRequests(a, events[1..])
      case AttributeChanged(name, value) => ClickRequests(SetAttribute(a, name, value), events[1..])
      case Clicked(target) =>
        ToSeq(ResolveClick(UpdateInputAttributes(a), target)) + ClickRequests(a, events[1..])
  }

  /** The element after a sequence of events, with every page it emitted, in
      order. Its attributes are those the host set, and, from a consistent
      element, it emits exactly what the clicks ask for given those attributes. */
  function Run(e: Element, events: seq<Event>): (r: (Element, seq<int>))
    decreases |events|
    ensures r.0.attributes == HostAttributes(e.attributes, events)
    ensures Consistent(e) ==> Consistent(r.0)
    ensures Consistent(e) ==> r.1 == ClickRequests(e.attributes, events)
    ensures forall p :: p in r.1 ==> p >= 1
    // Once rendered, or once connected, the element has a view.
    ensures e.view.Some? || Connected in events ==> r.0.view.Some?
  {
    if |events| == 0 then (e, [])
    else
      var first := Step(e, events[0]);
      var rest := Run(first.element, events[1..]);
      (rest.0, ToSeq(first.emitted) + rest.1)
  }

  /** Whatever the host does, the element ends with the attributes the host
      set, keeps its state in line with them, and emits exactly the pages its
      clicks ask for. Once connected it shows the rendering of those attributes. */
  lemma RunFromConstructed(events: seq<Event>)
    ensures Run(Constructed, events).0.attributes == HostAttributes(Constructed.attributes, events)
    ensures Consistent(Run(Constructed, events).0)
    ensures Run(Constructed, events).1 == ClickRequests(Constructed.attributes, events)
    ensures Connected in events ==>
      Run(Constructed, events).0.view
        == Some(Render(UpdateInputAttributes(HostAttributes(Constructed.attributes, events))))
  {
    assert Consistent(Constructed);
  }

  /** A run of clicks changes nothing and requests only real pages other than
      the current one. */
  lemma {:induction false} ClicksOnlyRequest(e: Element, targets: seq<Option<Button>>)
    ensures var r := Run(e, seq(|targets|, i requires 0 <= i < |targets| => Clicked(targets[i])));
      r.0 == e &&
      forall p :: p in r.1 ==> 1 <= p <= e.state.totalPages && p != e.state.currentPage
  {
    var events := seq(|targets|, i requires 0 <= i < |targets| => Clicked(targets[i]));
    if |targets| > 0 {
      var tail := targets[1..];
      assert events[1..] == seq(|tail|, i requires 0 <= i < |tail| => Clicked(tail[i]));
      ClicksOnlyRequest(e, tail);
    }
  }
}
