/** `EntryTurboController` (injected.js): keeps one turbo toggle button next to the host page's
    anchor button, keeps its look in step with the turbo flag and its position in step with
    the page layout, and mirrors the flag into the page's global `Entry` object. */
module Turbo {
  import opened Wrappers
  import opened Dom
  import opened Policy

  /** The host page's global `Entry` object, as far as the controller writes to it. */
  datatype EntryGlobal = EntryGlobal(isTurbo: bool)

  /** The page's first `<iframe>`: its document while readable (loaded and same-origin) and
      its window's `Entry` while defined and readable. */
  datatype Frame = Frame(contentDocument: Option<NodeId>, entry: Option<EntryGlobal>)

  /** A mutation subscription: its handle and the document it watches. */
  datatype Observer = Observer(handle: nat, target: NodeId)

  /** A `message` event as the window listener sees it. */
  datatype WindowMessage = WindowMessage(fromSameWindow: bool, kind: string, isTurbo: bool)

  const StateMessage := "ENTRY_TURBO_STATE"
  const ToggleMessage := "ENTRY_TURBO_TOGGLE"

  /** How many ancestors the popup search climbs. */
  const MaxAncestorDepth := 10

  function ContentDocument(frame: Option<Frame>): Option<NodeId> {
    if frame.Some? then frame.value.contentDocument else None
  }

  function Handles(o: Option<Observer>): set<nat> {
    if o.Some? then {o.value.handle} else {}
  }

  /** `if (typeof Entry !== 'undefined') Entry.isTurbo = on` */
  function SetTurbo(entry: Option<EntryGlobal>, on: bool): (r: Option<EntryGlobal>)
    ensures r.Some? <==> entry.Some?
    ensures r.Some? ==> r.value.isTurbo == on
  {
    if entry.Some? then Some(entry.value.(isTurbo := on)) else None
  }

  /** The same write on the iframe window's `Entry`, when there is an iframe. */
  function SetFrameTurbo(frame: Option<Frame>, on: bool): (r: Option<Frame>)
    ensures r.Some? <==> frame.Some?
    ensures ContentDocument(r) == ContentDocument(frame)
    ensures r.Some? ==> r.value.entry == SetTurbo(frame.value.entry, on)
  {
    if frame.Some? then Some(frame.value.(entry := SetTurbo(frame.value.entry, on))) else None
  }

  /** `applyTurboSetting`: the iframe's `Entry` on project pages, the host's elsewhere; an
      absent `Entry` is left absent and nothing else is written. */
  ghost predicate TurboApplied(url: string, frame0: Option<Frame>, entry0: Option<EntryGlobal>,
                               frame1: Option<Frame>, entry1: Option<EntryGlobal>, on: bool)
  {
    if IsProjectUrl(url) then frame1 == SetFrameTurbo(frame0, on) && entry1 == entry0
    else frame1 == frame0 && entry1 == SetTurbo(entry0, on)
  }

  // ---------------------------------------------------------------------------------------
  // Anchor and button lookup, as one reconciliation pass sees the page

  /** The document a pass searches for the anchor: the iframe's on project pages (none while
      the iframe or its document is missing), the host document on workspace pages. */
  function SearchRoot(url: string, host: NodeId, frame: Option<Frame>): (r: Option<NodeId>)
    ensures r.Some? ==> TargetButtonSelector(url).Some?
  {
    if IsProjectUrl(url) then ContentDocument(frame)
    else if IsWsUrl(url) then Some(host)
    else None
  }

  function FindAnchor(d: Dom, url: string, host: NodeId, frame: Option<Frame>): Option<NodeId> {
    var root := SearchRoot(url, host, frame);
    if root.None? then None else d.QuerySelector(root.value, TargetButtonSelector(url).value)
  }

  /** `anchor.parentNode.querySelector('.isTurboButtonON, .isTurboButtonOFF')` */
  function ExistingButton(d: Dom, anchor: NodeId): Option<NodeId> {
    var p := d.ParentOf(anchor);
    if p.None? then None else d.QuerySelector(p.value, MarkerSelector)
  }

  /** Every node below `p` that carries a turbo marker class. */
  ghost function MarkedBelow(d: Dom, p: NodeId): set<NodeId> {
    set n | n in d.nodes && d.Matches(n, p, MarkerSelector)
  }

  /** Nothing left to create: no anchor, an anchor without a parent, or a marked button
      already below the anchor's parent. */
  predicate Settled(d: Dom, url: string, host: NodeId, frame: Option<Frame>) {
    var a := FindAnchor(d, url, host, frame);
    a.None? || d.ParentOf(a.value).None? || ExistingButton(d, a.value).Some?
  }

  /** One of the button's first ten ancestors (never the button itself) has `entryPopup`. */
  ghost predicate PopupAncestor(d: Dom, button: Option<NodeId>) {
    button.Some? &&
    exists k :: 1 <= k <= MaxAncestorDepth && d.HasClass(d.AncestorAt(button.value, k), PopupClass)
  }

  /** The iframe's document, while readable, is a document node of the tree: it has no
      parent, so every node below it has it as `ownerDocument`. */
  predicate FrameDocumentIsRoot(d: Dom, frame: Option<Frame>) {
    ContentDocument(frame).Some? ==>
      ContentDocument(frame).value in d.nodes && d.nodes[ContentDocument(frame).value].parent.None?
  }

  /** `turboButton.ownerDocument === iframe.contentDocument` */
  predicate ButtonInFrame(d: Dom, button: Option<NodeId>, frame: Option<Frame>) {
    && button.Some? && ContentDocument(frame).Some? && button.value in d.nodes
    && d.nodes[button.value].owner == ContentDocument(frame).value
  }

  /** The style `updateTurboButtonPosition` gives the button. */
  ghost function PositionFor(url: string, d: Dom, button: Option<NodeId>, frame: Option<Frame>): Style {
    ButtonPositionStyle(IsWsUrl(url), ButtonInFrame(d, button, frame), PopupAncestor(d, button))
  }

  /** The button `createTurboButton` builds before inserting it. */
  function NewButton(on: bool): (r: Node)
    ensures Shows(r, on) && r.style == InitialStyle
  {
    Node({Marker(on)}, None, [], 0, Label(on), Background(on), InitialStyle)
  }

  /** The button after `updateButtonAppearance`: class, label and colour show `on` and the
      position is the one its place calls for. */
  ghost function Refreshed(d: Dom, b: NodeId, on: bool, url: string, frame: Option<Frame>): (r: Dom)
    requires b in d.nodes
  {
    d.Update(b, d.nodes[b].(classes := {Marker(on)}, text := Label(on), background := Background(on),
                            style := PositionFor(url, d, Some(b), frame)))
  }

  // ---------------------------------------------------------------------------------------
  // Lemmas about the lookups

  /** No button found below the anchor's parent means no marked node there at all. */
  lemma NoButtonNoMarks(d: Dom, a: NodeId, p: NodeId)
    requires d.OrderComplete() && d.ParentOf(a) == Some(p)
    requires ExistingButton(d, a) == None
    ensures MarkedBelow(d, p) == {}
  {
    forall n | n in d.nodes ensures !d.Matches(n, p, MarkerSelector) {
      NodeIsInOrder(d, n);
      var i :| 0 <= i < |d.order| && d.order[i] == n;
    }
  }

  /** The button inserted after the anchor is the only marked node below the anchor's parent
      afterwards, so the parent's marker query finds it. */
  lemma CreatedButtonFound(d: Dom, a: NodeId, p: NodeId, on: bool)
    requires d.Valid() && d.ParentOf(a) == Some(p)
    requires ExistingButton(d, a) == None
    ensures MarkedBelow(d.InsertAfter(a, NewButton(on)), p) == {d.nextId}
    ensures ExistingButton(d.InsertAfter(a, NewButton(on)), a) == Some(d.nextId)
  {
    var elem := NewButton(on);
    var e := d.InsertAfter(a, elem);
    assert a in d.nodes;
    MarkerClassesAreDistinct(on, "");
    InsertAfterFirstMatch(d, a, elem, e, MarkerSelector);
    InsertAfterShape(d, a, elem, e);
    assert MarkedBelow(e, p) == {d.nextId};
  }

  /** The anchor search answers as before the insertion: a button is never an anchor. */
  lemma CreatedButtonKeepsAnchor(d: Dom, url: string, host: NodeId, frame: Option<Frame>, on: bool,
                                 a: NodeId)
    requires d.Valid() && a in d.nodes && d.nodes[a].parent.Some?
    requires FindAnchor(d, url, host, frame).Some?
    ensures FindAnchor(d.InsertAfter(a, NewButton(on)), url, host, frame) == FindAnchor(d, url, host, frame)
  {
    var elem := NewButton(on);
    var e := d.InsertAfter(a, elem);
    MarkerClassesAreDistinct(on, url);
    InsertAfterQueryKept(d, a, elem, e, SearchRoot(url, host, frame).value, TargetButtonSelector(url).value);
  }

  /** Inserting a new button after the anchor when none was below its parent: the tree stays
      well formed, the anchor is found again, and the new button is the one and only marked
      node below the parent, so the next pass has nothing to create. */
  lemma CreatedButtonSettles(d: Dom, url: string, host: NodeId, frame: Option<Frame>, on: bool,
                             a: NodeId, p: NodeId)
    requires d.Valid()
    requires FindAnchor(d, url, host, frame) == Some(a) && d.ParentOf(a) == Some(p)
    requires ExistingButton(d, a) == None
    ensures d.InsertAfter(a, NewButton(on)).Valid()
    ensures FindAnchor(d.InsertAfter(a, NewButton(on)), url, host, frame) == Some(a)
    ensures MarkedBelow(d, p) == {}
    ensures MarkedBelow(d.InsertAfter(a, NewButton(on)), p) == {d.nextId}
    ensures ExistingButton(d.InsertAfter(a, NewButton(on)), a) == Some(d.nextId)
    ensures Settled(d.InsertAfter(a, NewButton(on)), url, host, frame)
  {
    assert a in d.nodes;
    InsertAfterValid(d, a, NewButton(on), d.InsertAfter(a, NewButton(on)));
    NoButtonNoMarks(d, a, p);
    CreatedButtonFound(d, a, p, on);
    CreatedButtonKeepsAnchor(d, url, host, frame, on, a);
  }

  /** What a creating pass leaves behind once the new button has also been positioned: a
      well-formed tree with one more node, the new button right after the anchor among its
      parent's children and showing the flag, and nothing left to create. */
  lemma CreationOutcome(d: Dom, url: string, host: NodeId, frame: Option<Frame>, on: bool,
                        a: NodeId, p: NodeId, s: Style)
    requires d.Valid()
    requires FindAnchor(d, url, host, frame) == Some(a) && d.ParentOf(a) == Some(p)
    requires ExistingButton(d, a) == None
    ensures var x := d.nextId;
      var e := d.InsertAfter(a, NewButton(on));
      var f := e.Restyled(x, s);
      var kids := f.nodes[p].children;
      && f.Valid() && Settled(f, url, host, frame)
      && f.nodes.Keys == d.nodes.Keys + {x}
      && MarkedBelow(f, p) == {x}
      && Shows(f.nodes[x], on) && f.nodes[x].style == s
      && multiset(kids) == multiset(d.nodes[p].children) + multiset{x}
      && (exists k :: 0 < k < |kids| && kids[k - 1] == a && kids[k] == x)
  {
    var x := d.nextId;
    var elem := NewButton(on);
    var e := d.InsertAfter(a, elem);
    assert a in d.nodes;
    CreatedButtonSettles(d, url, host, frame, on, a, p);
    InsertAfterShape(d, a, elem, e);
    InsertAfterChildren(d, a, elem, e);
    RestyleKeepsLookups(e, x, s, url, host, frame);
    var k := SpliceIndex(d.nodes[p].children, a);
    assert e.Restyled(x, s).nodes[p] == e.nodes[p];
  }

  // ---------------------------------------------------------------------------------------
  // One reconciliation pass, from the tree, iframe, `Entry` and button `d0, f0, en0, button0`
  // to `d1, f1, en1, button`

  /** The tree a creating pass leaves: the new button right after the anchor, given the row
      `applyButtonPositionStyle` picks, with `isInIframe` set exactly on project pages (where
      the iframe creator runs). */
  ghost function CreatedTree(url: string, d0: Dom, a: NodeId, on: bool): Dom
    requires a in d0.nodes && d0.nodes[a].parent.Some? && d0.nodes[a].parent.value in d0.nodes
  {
    var e := d0.InsertAfter(a, NewButton(on));
    e.Restyled(d0.nextId, ButtonPositionStyle(IsWsUrl(url), IsProjectUrl(url), PopupAncestor(e, Some(d0.nextId))))
  }

  /** The marked node found below the anchor's parent became the button and was only
      repositioned; the iframe and `Entry` are untouched. */
  ghost predicate Adopted(url: string, d0: Dom, f0: Option<Frame>, en0: Option<EntryGlobal>, a: NodeId,
                          d1: Dom, f1: Option<Frame>, en1: Option<EntryGlobal>, button: Option<NodeId>)
  {
    && button == ExistingButton(d0, a)
    && button.Some? && button.value in d0.nodes
    && d1 == d0.Restyled(button.value, PositionFor(url, d0, button, f0))
    && f1 == f0 && en1 == en0
  }

  /** A new button showing the flag was inserted after the anchor and positioned, and the flag
      was written to `Entry`. */
  ghost predicate Inserted(url: string, d0: Dom, f0: Option<Frame>, en0: Option<EntryGlobal>, a: NodeId,
                           d1: Dom, f1: Option<Frame>, en1: Option<EntryGlobal>, button: Option<NodeId>,
                           on: bool)
  {
    && a in d0.nodes && d0.nodes[a].parent.Some? && d0.nodes[a].parent.value in d0.nodes
    && button == Some(d0.nextId)
    && d1 == CreatedTree(url, d0, a, on)
    && TurboApplied(url, f0, en0, f1, en1, on)
  }

  /** `checkAndAddButtonInIframe` / `checkAndAddButtonInMainPage` as a relation: without an
      anchor, or with an anchor that has no parent, nothing changes at all; with a marked node
      below the anchor's parent that node is adopted; otherwise a button is created. */
  ghost predicate PassOutcome(url: string, host: NodeId,
                              d0: Dom, f0: Option<Frame>, en0: Option<EntryGlobal>, button0: Option<NodeId>,
                              d1: Dom, f1: Option<Frame>, en1: Option<EntryGlobal>, button: Option<NodeId>,
                              on: bool)
  {
    var a := FindAnchor(d0, url, host, f0);
    if a.None? || d0.ParentOf(a.value).None? then
      d1 == d0 && f1 == f0 && en1 == en0 && button == button0
    else if ExistingButton(d0, a.value).Some? then
      Adopted(url, d0, f0, en0, a.value, d1, f1, en1, button)
    else
      Inserted(url, d0, f0, en0, a.value, d1, f1, en1, button, on)
  }

  /** A pass that finds no anchor, or an anchor without a parent, changes nothing. */
  lemma QuietPass(url: string, host: NodeId, d: Dom, f: Option<Frame>, en: Option<EntryGlobal>,
                  button: Option<NodeId>, on: bool)
    requires FindAnchor(d, url, host, f).None? || d.ParentOf(FindAnchor(d, url, host, f).value).None?
    ensures PassOutcome(url, host, d, f, en, button, d, f, en, button, on)
  {
  }

  /** A pass that finds a marked node below the anchor's parent adopts and repositions it. */
  lemma AdoptingPass(url: string, host: NodeId, d: Dom, f: Option<Frame>, en: Option<EntryGlobal>,
                     button0: Option<NodeId>, a: NodeId, b: NodeId, on: bool)
    requires FindAnchor(d, url, host, f) == Some(a) && d.ParentOf(a).Some?
    requires ExistingButton(d, a) == Some(b)
    ensures b in d.nodes
    ensures PassOutcome(url, host, d, f, en, button0,
                        d.Restyled(b, PositionFor(url, d, Some(b), f)), f, en, Some(b), on)
  {
  }

  /** A pass that finds an anchor with a parent and no marked node below the parent creates
      the button, and the tree it leaves is well formed. */
  lemma CreatingPass(url: string, host: NodeId, d: Dom, f: Option<Frame>, en: Option<EntryGlobal>,
                     button0: Option<NodeId>, a: NodeId, p: NodeId, on: bool,
                     f1: Option<Frame>, en1: Option<EntryGlobal>)
    requires d.Valid()
    requires FindAnchor(d, url, host, f) == Some(a) && d.ParentOf(a) == Some(p)
    requires ExistingButton(d, a) == None
    requires TurboApplied(url, f, en, f1, en1, on)
    ensures CreatedTree(url, d, a, on).Valid()
    ensures PassOutcome(url, host, d, f, en, button0, CreatedTree(url, d, a, on), f1, en1, Some(d.nextId), on)
  {
    assert a in d.nodes;
    InsertAfterValid(d, a, NewButton(on), d.InsertAfter(a, NewButton(on)));
    UpdateKeepsValid(d.InsertAfter(a, NewButton(on)), d.nextId,
                     CreatedTree(url, d, a, on).nodes[d.nextId]);
  }

  // ---------------------------------------------------------------------------------------
  // What a pass achieves

  /** Nothing was created: no node is added and no marked set changes; `Entry` is untouched. */
  ghost predicate NothingCreated(d0: Dom, f0: Option<Frame>, en0: Option<EntryGlobal>,
                                 d1: Dom, f1: Option<Frame>, en1: Option<EntryGlobal>)
  {
    && d1.nodes.Keys == d0.nodes.Keys
    && (forall p: NodeId :: MarkedBelow(d1, p) == MarkedBelow(d0, p))
    && f1 == f0 && en1 == en0
  }

  /** Exactly one node was added: the button, right after the anchor among the children of
      its parent `p`, showing the flag, the only marked node below `p`; the flag went to
      `Entry`. */
  ghost predicate Created(url: string, d0: Dom, f0: Option<Frame>, en0: Option<EntryGlobal>,
                          a: NodeId, p: NodeId, d1: Dom, f1: Option<Frame>,
                          en1: Option<EntryGlobal>, button: Option<NodeId>, on: bool)
  {
    var x := d0.nextId;
    && p in d0.nodes
    && button == Some(x)
    && d1.nodes.Keys == d0.nodes.Keys + {x}
    && MarkedBelow(d1, p) == {x}
    && Shows(d1.nodes[x], on)
    && multiset(d1.nodes[p].children) == multiset(d0.nodes[p].children) + multiset{x}
    && (exists k :: 0 < k < |d1.nodes[p].children|
          && d1.nodes[p].children[k - 1] == a && d1.nodes[p].children[k] == x)
    && TurboApplied(url, f0, en0, f1, en1, on)
  }

  /** The creating branch leaves nothing to create, and writing the flag to the iframe keeps
      its document. */
  lemma InsertedSettles(url: string, host: NodeId,
                        d0: Dom, f0: Option<Frame>, en0: Option<EntryGlobal>, a: NodeId,
                        d1: Dom, f1: Option<Frame>, en1: Option<EntryGlobal>, button: Option<NodeId>,
                        on: bool)
    requires d0.Valid() && FindAnchor(d0, url, host, f0) == Some(a) && ExistingButton(d0, a) == None
    requires Inserted(url, d0, f0, en0, a, d1, f1, en1, button, on)
    ensures ContentDocument(f1) == ContentDocument(f0)
    ensures Settled(d1, url, host, f1)
  {
    var x := d0.nextId;
    var e := d0.InsertAfter(a, NewButton(on));
    var s := ButtonPositionStyle(IsWsUrl(url), IsProjectUrl(url), PopupAncestor(e, Some(x)));
    CreationOutcome(d0, url, host, f0, on, a, d0.ParentOf(a).value, s);
    assert SearchRoot(url, host, f1) == SearchRoot(url, host, f0);
  }

  /** After any pass nothing is left to create, and the iframe's document is the same. */
  lemma PassSettles(url: string, host: NodeId,
                    d0: Dom, f0: Option<Frame>, en0: Option<EntryGlobal>, button0: Option<NodeId>,
                    d1: Dom, f1: Option<Frame>, en1: Option<EntryGlobal>, button: Option<NodeId>, on: bool)
    requires d0.Valid()
    requires PassOutcome(url, host, d0, f0, en0, button0, d1, f1, en1, button, on)
    ensures ContentDocument(f1) == ContentDocument(f0)
    ensures Settled(d1, url, host, f1)
  {
    var a := FindAnchor(d0, url, host, f0);
    if a.None? || d0.ParentOf(a.value).None? {
    } else if ExistingButton(d0, a.value).Some? {
      var b := ExistingButton(d0, a.value).value;
      RestyleKeepsLookups(d0, b, PositionFor(url, d0, Some(b), f0), url, host, f0);
    } else {
      InsertedSettles(url, host, d0, f0, en0, a.value, d1, f1, en1, button, on);
    }
  }

  /** A pass over a page with nothing to create adds no node and changes no marked set. */
  lemma SettledPassCreatesNothing(url: string, host: NodeId,
                                  d0: Dom, f0: Option<Frame>, en0: Option<EntryGlobal>, button0: Option<NodeId>,
                                  d1: Dom, f1: Option<Frame>, en1: Option<EntryGlobal>, button: Option<NodeId>,
                                  on: bool)
    requires d0.Valid() && Settled(d0, url, host, f0)
    requires PassOutcome(url, host, d0, f0, en0, button0, d1, f1, en1, button, on)
    ensures NothingCreated(d0, f0, en0, d1, f1, en1)
  {
    var a := FindAnchor(d0, url, host, f0);
    if a.Some? && d0.ParentOf(a.value).Some? {
      var b := ExistingButton(d0, a.value).value;
      RestyleKeepsLookups(d0, b, PositionFor(url, d0, Some(b), f0), url, host, f0);
    }
  }

  /** A pass over a page with something to create adds exactly the one button, right after
      the anchor, as the only marked node below the anchor's parent. */
  lemma UnsettledPassCreates(url: string, host: NodeId,
                             d0: Dom, f0: Option<Frame>, en0: Option<EntryGlobal>, button0: Option<NodeId>,
                             d1: Dom, f1: Option<Frame>, en1: Option<EntryGlobal>, button: Option<NodeId>,
                             on: bool)
    requires d0.Valid() && !Settled(d0, url, host, f0)
    requires PassOutcome(url, host, d0, f0, en0, button0, d1, f1, en1, button, on)
    ensures var a := FindAnchor(d0, url, host, f0).value;
      Created(url, d0, f0, en0, a, d0.ParentOf(a).value, d1, f1, en1, button, on)
  {
    var a := FindAnchor(d0, url, host, f0).value;
    var x := d0.nextId;
    var e := d0.InsertAfter(a, NewButton(on));
    var s := ButtonPositionStyle(IsWsUrl(url), IsProjectUrl(url), PopupAncestor(e, Some(x)));
    CreationOutcome(d0, url, host, f0, on, a, d0.ParentOf(a).value, s);
  }

  /** Two passes in a row: the second creates nothing, so at most the one node the first
      pass may add exists afterwards, nothing is left to create, and a page that needed a
      button has exactly that one below the anchor's parent. Once the first pass found an
      anchor with a parent, the second changes nothing and the button sits where its place
      calls for. */
  lemma TwoPasses(url: string, host: NodeId,
                  d0: Dom, f0: Option<Frame>, en0: Option<EntryGlobal>, button0: Option<NodeId>,
                  d1: Dom, f1: Option<Frame>, en1: Option<EntryGlobal>, button1: Option<NodeId>,
                  d2: Dom, f2: Option<Frame>, en2: Option<EntryGlobal>, button2: Option<NodeId>,
                  on: bool)
    requires d0.Valid() && d1.Valid() && FrameDocumentIsRoot(d0, f0)
    requires PassOutcome(url, host, d0, f0, en0, button0, d1, f1, en1, button1, on)
    requires PassOutcome(url, host, d1, f1, en1, button1, d2, f2, en2, button2, on)
    ensures d2.nodes.Keys <= d0.nodes.Keys + {d0.nextId}
    ensures Settled(d2, url, host, f2)
    ensures !Settled(d0, url, host, f0) ==>
      var a := FindAnchor(d0, url, host, f0).value;
      MarkedBelow(d2, d0.ParentOf(a).value) == {d0.nextId}
    ensures FindAnchor(d0, url, host, f0).Some? && d0.ParentOf(FindAnchor(d0, url, host, f0).value).Some? ==>
      && d2 == d1 && f2 == f1 && en2 == en1 && button2 == button1
      && button2.Some? && button2.value in d2.nodes
      && d2.nodes[button2.value].style == PositionFor(url, d2, button2, f2)
  {
    if FindAnchor(d0, url, host, f0).Some? && d0.ParentOf(FindAnchor(d0, url, host, f0).value).Some? {
      PassPlacesButton(url, host, d0, f0, en0, button0, d1, f1, en1, button1, on);
      SecondPassChangesNothing(url, host, d0, f0, en0, button0, d1, f1, en1, button1, d2, f2, en2, button2, on);
    }
    PassSettles(url, host, d0, f0, en0, button0, d1, f1, en1, button1, on);
    if Settled(d0, url, host, f0) {
      SettledPassCreatesNothing(url, host, d0, f0, en0, button0, d1, f1, en1, button1, on);
    } else {
      UnsettledPassCreates(url, host, d0, f0, en0, button0, d1, f1, en1, button1, on);
    }
    PassSettles(url, host, d1, f1, en1, button1, d2, f2, en2, button2, on);
    SettledPassCreatesNothing(url, host, d1, f1, en1, button1, d2, f2, en2, button2, on);
  }

  /** A button inserted after an anchor found in the iframe's document belongs to that
      document, so `isButtonInIframe` holds for it. */
  lemma CreatedButtonInFrame(url: string, host: NodeId, d: Dom, f: Option<Frame>, a: NodeId, on: bool)
    requires d.Valid() && FrameDocumentIsRoot(d, f) && IsProjectUrl(url)
    requires FindAnchor(d, url, host, f) == Some(a) && d.ParentOf(a).Some?
    ensures ButtonInFrame(d.InsertAfter(a, NewButton(on)), Some(d.nextId), f)
  {
    var doc := ContentDocument(f).value;
    assert d.Matches(a, doc, TargetButtonSelector(url).value);
    BelowDocumentOwned(d, a, doc);
    assert d.Linked(a);
  }

  /** The adopting branch: the button ends up with the style its place calls for, and the
      anchor, its parent and the button are found again. */
  lemma AdoptedButtonPlaced(url: string, host: NodeId, d0: Dom, f0: Option<Frame>, a: NodeId, b: NodeId)
    requires d0.Valid() && FindAnchor(d0, url, host, f0) == Some(a) && d0.ParentOf(a).Some?
    requires ExistingButton(d0, a) == Some(b)
    ensures var d1 := d0.Restyled(b, PositionFor(url, d0, Some(b), f0));
      && FrameDocumentIsRoot(d1, f0) == FrameDocumentIsRoot(d0, f0)
      && FindAnchor(d1, url, host, f0) == Some(a) && d1.ParentOf(a) == d0.ParentOf(a)
      && ExistingButton(d1, a) == Some(b)
      && d1.nodes[b].style == PositionFor(url, d1, Some(b), f0)
  {
    var s := PositionFor(url, d0, Some(b), f0);
    RestyleKeepsLookups(d0, b, s, url, host, f0);
    ButtonUpdateKeepsPosition(d0, b, d0.nodes[b].(style := s), url, f0);
  }

  /** The creating branch: the new button already has the style `updateTurboButtonPosition`
      would give it (on project pages it lies in the iframe's document), and the anchor, its
      parent and the new button are found again. */
  lemma CreatedButtonPlaced(url: string, host: NodeId, d0: Dom, f0: Option<Frame>, en0: Option<EntryGlobal>,
                            a: NodeId, d1: Dom, f1: Option<Frame>, en1: Option<EntryGlobal>,
                            button: Option<NodeId>, on: bool)
    requires d0.Valid() && FrameDocumentIsRoot(d0, f0)
    requires FindAnchor(d0, url, host, f0) == Some(a) && ExistingButton(d0, a) == None
    requires Inserted(url, d0, f0, en0, a, d1, f1, en1, button, on)
    ensures FrameDocumentIsRoot(d1, f1)
    ensures FindAnchor(d1, url, host, f1) == Some(a) && d1.ParentOf(a) == d0.ParentOf(a)
    ensures ExistingButton(d1, a) == button && button.Some? && button.value in d1.nodes
    ensures d1.nodes[button.value].style == PositionFor(url, d1, button, f1)
  {
    var x := d0.nextId;
    var p := d0.ParentOf(a).value;
    var e := d0.InsertAfter(a, NewButton(on));
    var s := ButtonPositionStyle(IsWsUrl(url), IsProjectUrl(url), PopupAncestor(e, Some(x)));
    assert a in d0.nodes;
    CreatedButtonSettles(d0, url, host, f0, on, a, p);
    InsertAfterShape(d0, a, NewButton(on), e);
    RestyleKeepsLookups(e, x, s, url, host, f0);
    assert SearchRoot(url, host, f1) == SearchRoot(url, host, f0);
    ButtonUpdateKeepsPosition(e, x, e.nodes[x].(style := s), url, f1);
    if !IsWsUrl(url) {
      CreatedButtonInFrame(url, host, d0, f0, a, on);
    }
  }

  /** After a pass that found an anchor with a parent, the button has the style its place
      calls for, and the same anchor and the same button are found again. */
  lemma PassPlacesButton(url: string, host: NodeId,
                         d0: Dom, f0: Option<Frame>, en0: Option<EntryGlobal>, button0: Option<NodeId>,
                         d1: Dom, f1: Option<Frame>, en1: Option<EntryGlobal>, button1: Option<NodeId>,
                         on: bool)
    requires d0.Valid() && FrameDocumentIsRoot(d0, f0)
    requires FindAnchor(d0, url, host, f0).Some? && d0.ParentOf(FindAnchor(d0, url, host, f0).value).Some?
    requires PassOutcome(url, host, d0, f0, en0, button0, d1, f1, en1, button1, on)
    ensures var a := FindAnchor(d0, url, host, f0).value;
      && FindAnchor(d1, url, host, f1) == Some(a) && d1.ParentOf(a).Some?
      && ExistingButton(d1, a) == button1 && button1.Some? && button1.value in d1.nodes
      && d1.nodes[button1.value].style == PositionFor(url, d1, button1, f1)
  {
    var a := FindAnchor(d0, url, host, f0).value;
    if ExistingButton(d0, a).Some? {
      AdoptedButtonPlaced(url, host, d0, f0, a, ExistingButton(d0, a).value);
    } else {
      CreatedButtonPlaced(url, host, d0, f0, en0, a, d1, f1, en1, button1, on);
    }
  }

  /** A pass right after a pass that found an anchor with a parent changes nothing: it finds
      the same button, already positioned, and restyles it with the style it has. In
      particular an adopting pass after an iframe creation keeps the iframe row. */
  lemma SecondPassChangesNothing(url: string, host: NodeId,
                                 d0: Dom, f0: Option<Frame>, en0: Option<EntryGlobal>, button0: Option<NodeId>,
                                 d1: Dom, f1: Option<Frame>, en1: Option<EntryGlobal>, button1: Option<NodeId>,
                                 d2: Dom, f2: Option<Frame>, en2: Option<EntryGlobal>, button2: Option<NodeId>,
                                 on: bool)
    requires d0.Valid() && FrameDocumentIsRoot(d0, f0)
    requires FindAnchor(d0, url, host, f0).Some? && d0.ParentOf(FindAnchor(d0, url, host, f0).value).Some?
    requires PassOutcome(url, host, d0, f0, en0, button0, d1, f1, en1, button1, on)
    requires PassOutcome(url, host, d1, f1, en1, button1, d2, f2, en2, button2, on)
    ensures d2 == d1 && f2 == f1 && en2 == en1 && button2 == button1
  {
    var a := FindAnchor(d0, url, host, f0).value;
    PassPlacesButton(url, host, d0, f0, en0, button0, d1, f1, en1, button1, on);
    assert Adopted(url, d1, f1, en1, a, d2, f2, en2, button2);
    RestyleSame(d1, button1.value);
  }

  /** A position or look update that keeps the button's parent, children and owner changes
      neither its popup ancestry nor whether it sits in the iframe: the popup search never
      looks at the button itself. */
  lemma ButtonUpdateKeepsPosition(d: Dom, b: NodeId, node: Node, url: string, frame: Option<Frame>)
    requires d.Valid() && b in d.nodes
    requires node.parent == d.nodes[b].parent && node.children == d.nodes[b].children
    requires node.owner == d.nodes[b].owner
    ensures d.Update(b, node).Valid()
    ensures PopupAncestor(d.Update(b, node), Some(b)) == PopupAncestor(d, Some(b))
    ensures ButtonInFrame(d.Update(b, node), Some(b), frame) == ButtonInFrame(d, Some(b), frame)
    ensures PositionFor(url, d.Update(b, node), Some(b), frame) == PositionFor(url, d, Some(b), frame)
  {
    var e := d.Update(b, node);
    UpdateKeepsShape(d, b, node);
    forall k | 1 <= k <= MaxAncestorDepth
      ensures e.HasClass(e.AncestorAt(b, k), PopupClass) == d.HasClass(d.AncestorAt(b, k), PopupClass)
    {
      NoSelfAncestor(d, b, k);
    }
  }

  /** A style write changes no class and no link, so every lookup of a pass answers as before. */
  lemma RestyleKeepsLookups(d: Dom, b: NodeId, s: Style, url: string, host: NodeId,
                            frame: Option<Frame>)
    requires d.Valid() && b in d.nodes
    ensures var e := d.Restyled(b, s);
      && e.Valid() && e.nodes.Keys == d.nodes.Keys
      && (forall n | n in d.nodes :: e.nodes[n].classes == d.nodes[n].classes)
      && (forall n | n in d.nodes :: e.ParentOf(n) == d.ParentOf(n))
      && FindAnchor(e, url, host, frame) == FindAnchor(d, url, host, frame)
      && (forall a: NodeId :: ExistingButton(e, a) == ExistingButton(d, a))
      && (forall p: NodeId :: MarkedBelow(e, p) == MarkedBelow(d, p))
      && Settled(e, url, host, frame) == Settled(d, url, host, frame)
  {
    var node := d.nodes[b].(style := s);
    var e := d.Restyled(b, s);
    UpdateKeepsShape(d, b, node);
    forall scope: NodeId, sel: Selector
      ensures e.QuerySelector(scope, sel) == d.QuerySelector(scope, sel)
    {
      UpdateKeepsQueries(d, b, node, scope, sel);
    }
    forall p: NodeId ensures MarkedBelow(e, p) == MarkedBelow(d, p) {
      forall n | n in d.nodes ensures e.Matches(n, p, MarkerSelector) == d.Matches(n, p, MarkerSelector) {
      }
    }
  }
}
