/** The page the controller runs in and the controller itself (injected.js:4-470). Timers,
    observers and the message transport appear only as the state the controller keeps about
    them: interval ids, observer handles and an outbox of posted messages. */
module Controller {
  import opened Wrappers
  import opened Dom
  import opened Policy
  import opened Mutations
  import opened Turbo

  /** The window: its URL, its DOM (the host document and, once loaded, the iframe's
      document), the first iframe, the global `Entry`, and the scheduler's bookkeeping. */
  class Page {
    const url: string
    /** The node of the host `document`. */
    const host: NodeId
    var dom: Dom
    var frame: Option<Frame>
    var entry: Option<EntryGlobal>
    /** Ids of the running `setInterval` timers. */
    var timers: set<nat>
    /** Handles of the connected mutation observers, and the next handle to give out. */
    var observing: set<nat>
    var nextHandle: nat
    /** Messages posted with `window.postMessage`, oldest first. */
    var outbox: seq<WindowMessage>

    constructor(url: string, host: NodeId, dom: Dom, frame: Option<Frame>, entry: Option<EntryGlobal>)
      ensures this.url == url && this.host == host && this.dom == dom
      ensures this.frame == frame && this.entry == entry
      ensures timers == {} && observing == {} && nextHandle == 0 && outbox == []
    {
      this.url := url;
      this.host := host;
      this.dom := dom;
      this.frame := frame;
      this.entry := entry;
      timers := {};
      observing := {};
      nextHandle := 0;
      outbox := [];
    }
  }

  class EntryTurboController {
    const page: Page
    var isTurbo: bool
    var turboButton: Option<NodeId>
    var intervalId: Option<nat>
    var mainObserver: Option<Observer>
    var iframeObserver: Option<Observer>

    /** The page's tree is well formed, the button, when there is one, is one of its nodes,
        and the observers' handles are ones the page has already given out. */
    ghost predicate Valid()
      reads this`turboButton, this`mainObserver, this`iframeObserver, page`dom, page`nextHandle
    {
      && page.dom.Valid()
      && (turboButton.Some? ==> turboButton.value in page.dom.nodes)
      && (mainObserver.Some? ==> mainObserver.value.handle < page.nextHandle)
      && (iframeObserver.Some? ==> iframeObserver.value.handle < page.nextHandle)
    }

    /** The constructor and `init`: the flag starts off, there is no button yet, the
        reconciliation timer `timer` (the id `setInterval` hands out) is running and both
        observers are started. */
    constructor(page: Page, timer: nat)
      requires page.dom.Valid()
      modifies page`timers, page`observing, page`nextHandle
      ensures Valid()
      ensures this.page == page && !isTurbo && turboButton == None && intervalId == Some(timer)
      ensures page.timers == old(page.timers) + {timer}
      ensures mainObserver == Some(Observer(old(page.nextHandle), page.host))
      ensures iframeObserver.Some? <==> ContentDocument(page.frame).Some?
      ensures page.observing == old(page.observing) + Handles(mainObserver) + Handles(iframeObserver)
    {
      this.page := page;
      isTurbo := false;
      turboButton := None;
      intervalId := None;
      mainObserver := None;
      iframeObserver := None;
      new;
      intervalId := Some(timer);
      page.timers := page.timers + {timer};
      StartDOMObserver();
    }

    // -------------------------------------------------------------------------------------
    // Observers (injected.js:39-85)

    method StartDOMObserver()
      requires Valid()
      modifies this`mainObserver, this`iframeObserver, page`observing, page`nextHandle
      ensures mainObserver == Some(Observer(old(page.nextHandle), page.host))
      ensures ContentDocument(page.frame).None? ==> iframeObserver == old(iframeObserver)
      ensures ContentDocument(page.frame).Some? ==>
        iframeObserver == Some(Observer(old(page.nextHandle) + 1, ContentDocument(page.frame).value))
      ensures Handles(mainObserver) <= page.observing
      ensures ContentDocument(page.frame).Some? ==> Handles(iframeObserver) <= page.observing
      ensures page.observing <= old(page.observing) + Handles(mainObserver) + Handles(iframeObserver)
      ensures old(page.observing) - page.observing <= Handles(old(mainObserver)) + Handles(old(iframeObserver))
      ensures Valid()
    {
      StartMainPageObserver();
      StartIframeObserver();
    }

    /** Disconnects the previous main observer and connects a new one to the host document. */
    method StartMainPageObserver()
      requires Valid()
      modifies this`mainObserver, page`observing, page`nextHandle
      ensures mainObserver == Some(Observer(old(page.nextHandle), page.host))
      ensures page.nextHandle == old(page.nextHandle) + 1
      ensures page.observing == old(page.observing) - Handles(old(mainObserver)) + {old(page.nextHandle)}
      ensures Valid()
    {
      if mainObserver.Some? {
        page.observing := page.observing - {mainObserver.value.handle};
      }
      var h := page.nextHandle;
      page.nextHandle := h + 1;
      mainObserver := Some(Observer(h, page.host));
      page.observing := page.observing + {h};
    }

    /** Without a readable iframe document nothing happens; otherwise the previous iframe
        observer is disconnected and a new one watches the iframe's document. */
    method StartIframeObserver()
      requires Valid()
      modifies this`iframeObserver, page`observing, page`nextHandle
      ensures ContentDocument(page.frame).None? ==>
        iframeObserver == old(iframeObserver) && page.observing == old(page.observing)
        && page.nextHandle == old(page.nextHandle)
      ensures ContentDocument(page.frame).Some? ==>
        && iframeObserver == Some(Observer(old(page.nextHandle), ContentDocument(page.frame).value))
        && page.nextHandle == old(page.nextHandle) + 1
        && page.observing == old(page.observing) - Handles(old(iframeObserver)) + {old(page.nextHandle)}
      ensures Valid()
      ensures page.dom == old(page.dom) && page.frame == old(page.frame) && page.entry == old(page.entry)
      ensures turboButton == old(turboButton)
    {
      var doc := ContentDocument(page.frame);
      if doc.None? {
        return;
      }
      if iframeObserver.Some? {
        page.observing := page.observing - {iframeObserver.value.handle};
      }
      var h := page.nextHandle;
      page.nextHandle := h + 1;
      iframeObserver := Some(Observer(h, doc.value));
      page.observing := page.observing + {h};
    }

    /** `handleDOMChanges`: folds a batch of records into one flag; the caller schedules one
        position update when it is set. */
    method HandleDOMChanges(mutations: seq<MutationRecord>) returns (shouldCheckButton: bool)
      ensures shouldCheckButton <==> BatchTriggers(mutations)
    {
      shouldCheckButton := false;
      for i := 0 to |mutations|
        invariant shouldCheckButton <==> BatchTriggers(mutations[..i])
      {
        var mutation := mutations[i];
        var before := shouldCheckButton;
        if mutation.ChildList? {
          var nodes := mutation.addedNodes + mutation.removedNodes;
          for j := 0 to |nodes|
            invariant shouldCheckButton <==>
              before || exists k :: 0 <= k < j && NodeTriggers(nodes[k])
          {
            var node := nodes[j];
            if node.Element? {
              if Markers * node.classes != {} || DescendantCarries(node.descendantClasses, Markers) {
                shouldCheckButton := true;
              }
              if Popup * node.classes != {} || DescendantCarries(node.descendantClasses, Popup) {
                shouldCheckButton := true;
              }
            }
          }
        }
        if mutation.Attributes? && mutation.attributeName == "class" {
          var target := mutation.target;
          if target.Element? && PopupClass in target.classes {
            shouldCheckButton := true;
          }
        }
        assert shouldCheckButton <==> before || MutationTriggers(mutation);
        BatchTriggersSplit(mutations[..i], [mutation]);
        assert mutations[..i + 1] == mutations[..i] + [mutation];
      }
      assert mutations[..|mutations|] == mutations;
    }

    // -------------------------------------------------------------------------------------
    // Position (injected.js:130-247)

    /** `updateTurboButtonPosition`: gives the button the style its URL, document and
        ancestry call for; without a button nothing changes. */
    method UpdateTurboButtonPosition()
      requires Valid()
      modifies page`dom
      ensures Valid()
      ensures turboButton.None? ==> page.dom == old(page.dom)
      ensures turboButton.Some? ==>
        page.dom == old(page.dom).Restyled(turboButton.value,
                                           PositionFor(page.url, old(page.dom), turboButton, page.frame))
    {
      if turboButton.None? {
        return;
      }
      if Includes(page.url, WsPath) {
        ApplyButtonPositionStyle(false);
      } else {
        var isInIframe := IsButtonInIframe();
        ApplyButtonPositionStyle(isInIframe);
      }
    }

    /** `isButtonInIframe`: the button belongs to the iframe's document. */
    method IsButtonInIframe() returns (r: bool)
      requires Valid()
      ensures r == ButtonInFrame(page.dom, turboButton, page.frame)
    {
      if turboButton.None? {
        return false;
      }
      var doc := ContentDocument(page.frame);
      if doc.None? {
        return false;
      }
      r := page.dom.nodes[turboButton.value].owner == doc.value;
    }

    /** `applyButtonPositionStyle(isInIframe)`: the eight positional fields are written one by
        one; on a workspace URL the popup ancestry decides instead of `isInIframe`. */
    method ApplyButtonPositionStyle(isInIframe: bool)
      requires Valid()
      modifies page`dom
      ensures Valid()
      ensures turboButton.None? ==> page.dom == old(page.dom)
      ensures turboButton.Some? ==>
        page.dom == old(page.dom).Restyled(turboButton.value,
          ButtonPositionStyle(IsWsUrl(page.url), isInIframe, PopupAncestor(old(page.dom), turboButton)))
    {
      if turboButton.None? {
        return;
      }
      if Includes(page.url, WsPath) {
        ApplyWSPageStyle();
        return;
      }
      var b := turboButton.value;
      var s := page.dom.nodes[b].style;
      if isInIframe {
        s := s.(position := "");
        s := s.(right := "");
        s := s.(bottom := "");
        s := s.(margin := "");
        s := s.(marginRight := "150px");
        s := s.(marginTop := "12px");
        s := s.(marginBottom := "12px");
        s := s.(float := "right");
      } else {
        s := s.(position := "");
        s := s.(right := "");
        s := s.(bottom := "");
        s := s.(margin := "");
        s := s.(marginRight := "10px");
        s := s.(marginTop := "12px");
        s := s.(marginBottom := "12px");
        s := s.(float := "right");
      }
      UpdateKeepsShape(page.dom, b, page.dom.nodes[b].(style := s));
      page.dom := page.dom.Restyled(b, s);
    }

    /** `applyWSPageStyle`: the absolute placement inside a popup, the toolbar margin
        elsewhere. Called only while there is a button. */
    method ApplyWSPageStyle()
      requires Valid() && turboButton.Some?
      modifies page`dom
      ensures Valid()
      ensures page.dom == old(page.dom).Restyled(turboButton.value,
        if PopupAncestor(old(page.dom), turboButton) then PopupStyle else WorkspaceStyle)
    {
      var hasPopupAncestor := HasPopupAncestor();
      var b := turboButton.value;
      var s := page.dom.nodes[b].style;
      if hasPopupAncestor {
        s := s.(position := "absolute");
        s := s.(right := "100px");
        s := s.(bottom := "9.5px");
        s := s.(margin := "0");
        s := s.(marginRight := "");
        s := s.(marginTop := "");
        s := s.(marginBottom := "");
        s := s.(float := "right");
      } else {
        s := s.(position := "");
        s := s.(right := "");
        s := s.(bottom := "");
        s := s.(margin := "");
        s := s.(marginRight := "");
        s := s.(marginTop := "2.5px");
        s := s.(marginBottom := "");
        s := s.(float := "right");
      }
      UpdateKeepsShape(page.dom, b, page.dom.nodes[b].(style := s));
      page.dom := page.dom.Restyled(b, s);
    }

    /** `hasPopupAncestor`: the great-grandparent test, then a walk up from the parent of at
        most ten steps. False without a button. */
    method HasPopupAncestor() returns (r: bool)
      ensures r <==> PopupAncestor(page.dom, turboButton)
    {
      if turboButton.None? {
        return false;
      }
      var b := turboButton.value;
      var d := page.dom;
      var ancestor := d.Up(d.Up(d.ParentOf(b)));
      assert d.AncestorAt(b, 1) == d.ParentOf(b);
      assert ancestor == d.AncestorAt(b, 3);
      if d.HasClass(ancestor, PopupClass) {
        return true;
      }
      var currentElement := d.ParentOf(b);
      var depth := 0;
      while currentElement.Some? && depth < MaxAncestorDepth
        invariant 0 <= depth <= MaxAncestorDepth
        invariant currentElement == d.AncestorAt(b, depth + 1)
        invariant forall k :: 1 <= k <= depth ==> !d.HasClass(d.AncestorAt(b, k), PopupClass)
        decreases MaxAncestorDepth - depth
      {
        if d.HasClass(currentElement, PopupClass) {
          return true;
        }
        currentElement := d.Up(currentElement);
        depth := depth + 1;
      }
      if currentElement.None? {
        forall k | depth + 1 <= k <= MaxAncestorDepth ensures d.AncestorAt(b, k) == None {
          AncestorEnded(d, b, depth + 1, k);
        }
      }
      return false;
    }

    // -------------------------------------------------------------------------------------
    // Reconciliation (injected.js:250-386)

    /** `getTargetButtonSelector` */
    method GetTargetButtonSelector() returns (selector: Option<Selector>)
      ensures selector == TargetButtonSelector(page.url)
    {
      if Includes(page.url, ProjectPath) || Includes(page.url, IframePath) {
        selector := Some(MinimizeSelector);
      } else if Includes(page.url, WsPath) {
        selector := Some(WorkspaceSelector);
      } else {
        selector := None;
      }
    }

    /** `checkAndAddButton`: one reconciliation pass. Without a selector for the URL nothing
        changes; on project and iframe URLs the pass works in the iframe and then restarts the
        iframe observer. */
    method CheckAndAddButton()
      requires Valid()
      modifies this`turboButton, this`iframeObserver, page`dom, page`frame, page`entry
      modifies page`observing, page`nextHandle
      ensures Valid()
      ensures PassOutcome(page.url, page.host, old(page.dom), old(page.frame), old(page.entry), old(turboButton),
                          page.dom, page.frame, page.entry, turboButton, isTurbo)
      ensures TargetButtonSelector(page.url).None? ==>
        && turboButton == old(turboButton) && iframeObserver == old(iframeObserver)
        && page.dom == old(page.dom) && page.frame == old(page.frame) && page.entry == old(page.entry)
        && page.observing == old(page.observing) && page.nextHandle == old(page.nextHandle)
      ensures IsProjectUrl(page.url) && ContentDocument(page.frame).Some? ==>
        iframeObserver == Some(Observer(old(page.nextHandle), ContentDocument(page.frame).value))
      ensures !IsProjectUrl(page.url) ==>
        iframeObserver == old(iframeObserver) && page.observing == old(page.observing)
    {
      var selector := GetTargetButtonSelector();
      if selector.None? {
        QuietPass(page.url, page.host, page.dom, page.frame, page.entry, turboButton, isTurbo);
        return;
      }
      if Includes(page.url, ProjectPath) || Includes(page.url, IframePath) {
        CheckAndAddButtonInIframe(selector.value);
        StartIframeObserver();
      } else {
        CheckAndAddButtonInMainPage(selector.value);
      }
    }

    /** `checkAndAddButtonInIframe`: the anchor is looked up in the iframe's document; a
        missing iframe document, a missing anchor or an anchor without a parent ends the pass. */
    method CheckAndAddButtonInIframe(selector: Selector)
      requires Valid() && IsProjectUrl(page.url) && TargetButtonSelector(page.url) == Some(selector)
      modifies this`turboButton, page`dom, page`frame, page`entry
      ensures Valid()
      ensures PassOutcome(page.url, page.host, old(page.dom), old(page.frame), old(page.entry), old(turboButton),
                          page.dom, page.frame, page.entry, turboButton, isTurbo)
      ensures page.nextHandle == old(page.nextHandle)
    {
      var doc := ContentDocument(page.frame);
      if doc.None? {
        QuietPass(page.url, page.host, page.dom, page.frame, page.entry, turboButton, isTurbo);
        return;
      }
      var targetButton := page.dom.QuerySelector(doc.value, selector);
      if targetButton.None? {
        QuietPass(page.url, page.host, page.dom, page.frame, page.entry, turboButton, isTurbo);
        return;
      }
      var a := targetButton.value;
      var parent := page.dom.ParentOf(a);
      if parent.None? {
        QuietPass(page.url, page.host, page.dom, page.frame, page.entry, turboButton, isTurbo);
        return;
      }
      var existingTurboButton := page.dom.QuerySelector(parent.value, MarkerSelector);
      ghost var d0, f0, en0, b0 := page.dom, page.frame, page.entry, turboButton;
      if existingTurboButton.Some? {
        AdoptButton(existingTurboButton.value);
        AdoptingPass(page.url, page.host, d0, f0, en0, b0, a, existingTurboButton.value, isTurbo);
        return;
      }
      CreateTurboButtonInIframe(a);
      CreatingPass(page.url, page.host, d0, f0, en0, b0, a, parent.value, isTurbo, page.frame, page.entry);
    }

    /** `checkAndAddButtonInMainPage`: the same pass with the anchor looked up in the host
        document. */
    method CheckAndAddButtonInMainPage(selector: Selector)
      requires Valid() && !IsProjectUrl(page.url) && TargetButtonSelector(page.url) == Some(selector)
      modifies this`turboButton, page`dom, page`frame, page`entry
      ensures Valid()
      ensures PassOutcome(page.url, page.host, old(page.dom), old(page.frame), old(page.entry), old(turboButton),
                          page.dom, page.frame, page.entry, turboButton, isTurbo)
    {
      var targetButton := page.dom.QuerySelector(page.host, selector);
      if targetButton.None? {
        QuietPass(page.url, page.host, page.dom, page.frame, page.entry, turboButton, isTurbo);
        return;
      }
      var a := targetButton.value;
      var parent := page.dom.ParentOf(a);
      if parent.None? {
        QuietPass(page.url, page.host, page.dom, page.frame, page.entry, turboButton, isTurbo);
        return;
      }
      var existingTurboButton := page.dom.QuerySelector(parent.value, MarkerSelector);
      ghost var d0, f0, en0, b0 := page.dom, page.frame, page.entry, turboButton;
      if existingTurboButton.Some? {
        AdoptButton(existingTurboButton.value);
        AdoptingPass(page.url, page.host, d0, f0, en0, b0, a, existingTurboButton.value, isTurbo);
        return;
      }
      CreateTurboButton(a);
      CreatingPass(page.url, page.host, d0, f0, en0, b0, a, parent.value, isTurbo, page.frame, page.entry);
    }

    /** The adopting branch of both passes: `turboButton` becomes the marked node that was
        found and is repositioned. */
    method AdoptButton(existing: NodeId)
      requires Valid() && existing in page.dom.nodes
      modifies this`turboButton, page`dom
      ensures Valid()
      ensures turboButton == Some(existing)
      ensures page.dom == old(page.dom).Restyled(existing, PositionFor(page.url, old(page.dom), turboButton, page.frame))
    {
      turboButton := Some(existing);
      UpdateTurboButtonPosition();
    }

    /** `createTurboButton`: a button showing the flag is created in the host document,
        inserted right after the anchor, positioned as a host-document button, and the flag
        is written to `Entry`. */
    method CreateTurboButton(targetButton: NodeId)
      requires Valid() && targetButton in page.dom.nodes
      requires page.dom.nodes[targetButton].parent.Some?
      modifies this`turboButton, page`dom, page`frame, page`entry
      ensures Valid()
      ensures var x := old(page.dom.nextId);
        var e := old(page.dom).InsertAfter(targetButton, NewButton(isTurbo));
        && turboButton == Some(x)
        && page.dom == e.Restyled(x, ButtonPositionStyle(IsWsUrl(page.url), false, PopupAncestor(e, Some(x))))
      ensures TurboApplied(page.url, old(page.frame), old(page.entry), page.frame, page.entry, isTurbo)
    {
      InsertButton(targetButton);
      ApplyButtonPositionStyle(false);
      ApplyTurboSetting();
    }

    /** `createTurboButtonInIframe`: the same, positioned as an iframe button. */
    method CreateTurboButtonInIframe(targetButton: NodeId)
      requires Valid() && targetButton in page.dom.nodes
      requires page.dom.nodes[targetButton].parent.Some?
      modifies this`turboButton, page`dom, page`frame, page`entry
      ensures Valid()
      ensures var x := old(page.dom.nextId);
        var e := old(page.dom).InsertAfter(targetButton, NewButton(isTurbo));
        && turboButton == Some(x)
        && page.dom == e.Restyled(x, ButtonPositionStyle(IsWsUrl(page.url), true, PopupAncestor(e, Some(x))))
      ensures TurboApplied(page.url, old(page.frame), old(page.entry), page.frame, page.entry, isTurbo)
    {
      InsertButton(targetButton);
      ApplyButtonPositionStyle(true);
      ApplyTurboSetting();
    }

    /** The part both creators share: `createElement`, the class, label and colour for the
        flag, and `insertBefore(turboButton, targetButton.nextSibling)`. */
    method InsertButton(targetButton: NodeId)
      requires Valid() && targetButton in page.dom.nodes
      requires page.dom.nodes[targetButton].parent.Some?
      modifies this`turboButton, page`dom
      ensures Valid()
      ensures turboButton == Some(old(page.dom.nextId))
      ensures page.dom == old(page.dom).InsertAfter(targetButton, NewButton(isTurbo))
    {
      var x := page.dom.nextId;
      var e := page.dom.InsertAfter(targetButton, NewButton(isTurbo));
      InsertAfterValid(page.dom, targetButton, NewButton(isTurbo), e);
      page.dom := e;
      turboButton := Some(x);
    }

    // -------------------------------------------------------------------------------------
    // The flag (injected.js:25-33, 389-452)

    /** `toggleTurbo`: flips the flag, tells the content script, refreshes the button and
        writes the flag to `Entry`. */
    method ToggleTurbo()
      requires Valid()
      modifies this`isTurbo, page`outbox, page`dom, page`frame, page`entry
      ensures Valid()
      ensures isTurbo == !old(isTurbo)
      ensures page.outbox == old(page.outbox) + [WindowMessage(true, ToggleMessage, isTurbo)]
      ensures turboButton.None? ==> page.dom == old(page.dom)
      ensures turboButton.Some? ==> page.dom == Refreshed(old(page.dom), turboButton.value, isTurbo, page.url, page.frame)
      ensures TurboApplied(page.url, old(page.frame), old(page.entry), page.frame, page.entry, isTurbo)
    {
      isTurbo := !isTurbo;
      page.outbox := page.outbox + [WindowMessage(true, ToggleMessage, isTurbo)];
      UpdateButtonAppearance();
      ApplyTurboSetting();
    }

    /** `updateButtonAppearance`: class, label and colour follow the flag, then the position
        is refreshed; without a button nothing changes. */
    method UpdateButtonAppearance()
      requires Valid()
      modifies page`dom
      ensures Valid()
      ensures turboButton.None? ==> page.dom == old(page.dom)
      ensures turboButton.Some? ==> page.dom == Refreshed(old(page.dom), turboButton.value, isTurbo, page.url, page.frame)
    {
      if turboButton.None? {
        return;
      }
      var b := turboButton.value;
      var node := page.dom.nodes[b];
      node := node.(classes := {Marker(isTurbo)});
      node := node.(text := Label(isTurbo));
      node := node.(background := Background(isTurbo));
      ButtonUpdateKeepsPosition(page.dom, b, node, page.url, page.frame);
      page.dom := page.dom.Update(b, node);
      UpdateTurboButtonPosition();
    }

    /** The `message` listener: only `ENTRY_TURBO_STATE` messages from this window are heeded;
        they set the flag, refresh the button and write the flag to `Entry`. */
    method OnMessage(m: WindowMessage)
      requires Valid()
      modifies this`isTurbo, page`dom, page`frame, page`entry
      ensures Valid()
      ensures !(m.fromSameWindow && m.kind == StateMessage) ==>
        isTurbo == old(isTurbo) && page.dom == old(page.dom)
        && page.frame == old(page.frame) && page.entry == old(page.entry)
      ensures m.fromSameWindow && m.kind == StateMessage ==>
        && isTurbo == m.isTurbo
        && (turboButton.None? ==> page.dom == old(page.dom))
        && (turboButton.Some? ==> page.dom == Refreshed(old(page.dom), turboButton.value, isTurbo, page.url, page.frame))
        && TurboApplied(page.url, old(page.frame), old(page.entry), page.frame, page.entry, isTurbo)
    {
      if !m.fromSameWindow {
        return;
      }
      if m.kind == StateMessage {
        isTurbo := m.isTurbo;
        UpdateButtonAppearance();
        ApplyTurboSetting();
      }
    }

    /** `applyTurboSetting` */
    method ApplyTurboSetting()
      modifies page`frame, page`entry
      ensures TurboApplied(page.url, old(page.frame), old(page.entry), page.frame, page.entry, isTurbo)
    {
      if Includes(page.url, ProjectPath) || Includes(page.url, IframePath) {
        ApplyTurboInProjectPage();
      } else {
        SetEntryInMainPage();
      }
    }

    /** `applyTurboInProjectPage`: the iframe window's `Entry`, when there is an iframe and
        its `Entry` is defined and readable. */
    method ApplyTurboInProjectPage()
      modifies page`frame
      ensures page.frame == SetFrameTurbo(old(page.frame), isTurbo)
    {
      if page.frame.Some? {
        var iframeWindow := page.frame.value;
        if iframeWindow.entry.Some? {
          page.frame := Some(iframeWindow.(entry := Some(iframeWindow.entry.value.(isTurbo := isTurbo))));
        }
      }
    }

    /** `setEntryInMainPage` */
    method SetEntryInMainPage()
      modifies page`entry
      ensures page.entry == SetTurbo(old(page.entry), isTurbo)
    {
      if page.entry.Some? {
        page.entry := Some(page.entry.value.(isTurbo := isTurbo));
      }
    }

    // -------------------------------------------------------------------------------------
    // Teardown (injected.js:455-469)

    /** `destroy`: stops the timer (a zero id is falsy and is left alone), disconnects both
        observers and forgets them; `intervalId` itself is kept. */
    method Destroy()
      modifies this`mainObserver, this`iframeObserver, page`timers, page`observing
      ensures mainObserver == None && iframeObserver == None
      ensures page.observing == old(page.observing) - Handles(old(mainObserver)) - Handles(old(iframeObserver))
      ensures page.timers ==
        if intervalId.Some? && intervalId.value != 0 then old(page.timers) - {intervalId.value}
        else old(page.timers)
    {
      if intervalId.Some? && intervalId.value != 0 {
        page.timers := page.timers - {intervalId.value};
      }
      if mainObserver.Some? {
        page.observing := page.observing - {mainObserver.value.handle};
        mainObserver := None;
      }
      if iframeObserver.Some? {
        page.observing := page.observing - {iframeObserver.value.handle};
        iframeObserver := None;
      }
    }

    // -------------------------------------------------------------------------------------
    // Sequences of calls

    /** Two passes with no DOM change in between create at most one node, and after a
        creating first pass the new button is the only marked node below the anchor's parent;
        once an anchor with a parent was found, the button ends with the position its place
        calls for. */
    method ReconcileTwice()
      requires Valid() && FrameDocumentIsRoot(page.dom, page.frame)
      modifies this`turboButton, this`iframeObserver, page`dom, page`frame, page`entry
      modifies page`observing, page`nextHandle
      ensures Valid()
      ensures page.dom.nodes.Keys <= old(page.dom.nodes.Keys) + {old(page.dom.nextId)}
      ensures Settled(page.dom, page.url, page.host, page.frame)
      ensures !old(Settled(page.dom, page.url, page.host, page.frame)) ==>
        var a := old(FindAnchor(page.dom, page.url, page.host, page.frame)).value;
        MarkedBelow(page.dom, old(page.dom.ParentOf(a)).value) == {old(page.dom.nextId)}
      ensures old(FindAnchor(page.dom, page.url, page.host, page.frame)).Some?
              && old(page.dom.ParentOf(FindAnchor(page.dom, page.url, page.host, page.frame).value)).Some? ==>
        && turboButton.Some? && turboButton.value in page.dom.nodes
        && page.dom.nodes[turboButton.value].style == PositionFor(page.url, page.dom, turboButton, page.frame)
    {
      ghost var d0, f0, en0, b0 := page.dom, page.frame, page.entry, turboButton;
      CheckAndAddButton();
      ghost var d1, f1, en1, b1 := page.dom, page.frame, page.entry, turboButton;
      CheckAndAddButton();
      TwoPasses(page.url, page.host, d0, f0, en0, b0, d1, f1, en1, b1,
                page.dom, page.frame, page.entry, turboButton, isTurbo);
    }

    /** Toggling twice restores the flag and leaves the button and `Entry` showing it. */
    method ToggleTwice()
      requires Valid()
      modifies this`isTurbo, page`outbox, page`dom, page`frame, page`entry
      ensures Valid()
      ensures isTurbo == old(isTurbo)
      ensures page.outbox == old(page.outbox) + [WindowMessage(true, ToggleMessage, !isTurbo),
                                                WindowMessage(true, ToggleMessage, isTurbo)]
      ensures turboButton.Some? ==> Shows(page.dom.nodes[turboButton.value], isTurbo)
      ensures page.entry.Some? ==> page.entry.value.isTurbo == isTurbo || IsProjectUrl(page.url)
      ensures page.frame.Some? && page.frame.value.entry.Some? ==>
        page.frame.value.entry.value.isTurbo == isTurbo || !IsProjectUrl(page.url)
    {
      ToggleTurbo();
      ToggleTurbo();
    }
  }
}
