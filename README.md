# Entry turbo-mode controller

This is a model of `EntryTurboController`, the script that a browser extension injects into
pages of the Entry block-coding site. The controller keeps one "turbo mode" toggle button
next to an anchor button of the editor: the minimise button inside the project iframe, or
the workspace toolbar button on `/ws/` pages. It keeps three things in step:

- the button's class, label and colour follow the turbo flag;
- the button's inline position follows the page layout: project page or workspace page,
  host document or iframe, inside an `entryPopup` container or not;
- the flag is copied into the page's global `Entry` object.

Every 500 ms a reconciliation pass re-finds the anchor and adopts or creates the button.
Two mutation observers ask for a position update when a button or a popup container comes
or goes.

The model has six modules:

- `Wrappers` holds `Option`.
- `Dom` is an abstract DOM value. Nodes carry a class set, a parent link, an ordered child
  list, an owner document, a label, a background colour and the eight positional style
  properties. A listing `order` of all nodes stands for document order. The module defines
  `querySelector` as the first match in that listing below a node, and
  `insertBefore(x, anchor.nextSibling)`. A well-formed tree has every parentless node own
  itself, so a node below a document belongs to it. The module proves that both operations
  keep the tree well formed and leave unrelated queries unchanged.
- `Policy` holds the pure decisions. URL classification is `url.includes` and its
  equivalence with "occurs at some index". It also holds the anchor selectors, the four
  position style records, and the class, label and colour that encode the flag.
- `Mutations` holds mutation records and the test that decides whether a batch of records
  asks for a position update.
- `Turbo` holds the functions one reconciliation pass is judged by: anchor lookup, existing
  button lookup, "settled", and `PassOutcome`, the exact new tree, iframe and `Entry` for
  each branch of a pass. It also holds the lemmas that a created button is found again,
  that every pass leaves nothing to create and that a second pass creates nothing.
- `Controller` holds the class `Page` (URL, DOM, first iframe, global `Entry`, timers,
  observer handles, posted messages) and the class `EntryTurboController`, whose fields and
  methods are the source's, each proved against the functions above.

## Model

| member | source | states |
|---|---|---|
| Controller.EntryTurboController.constructor | injected.js:5-36 | the flag starts off with no button; the 500 ms timer is registered; the main observer watches the host document; an iframe observer exists exactly when the iframe document is readable; the observer handles are added to the connected set |
| Controller.EntryTurboController.OnMessage | injected.js:25-33 | only `ENTRY_TURBO_STATE` messages from this window change anything; such a message sets the flag to the message's, refreshes the button's look and position and writes the flag to `Entry` |
| Controller.EntryTurboController.StartDOMObserver | injected.js:39-42 | a fresh main observer on the host document, and a fresh iframe observer on the iframe document when there is one; only the replaced observers are disconnected |
| Controller.EntryTurboController.StartMainPageObserver | injected.js:45-60 | the old main observer is disconnected and a new one with a fresh handle watches the host document |
| Controller.EntryTurboController.StartIframeObserver | injected.js:63-85 | without a readable iframe document nothing changes; otherwise the old iframe observer is replaced by a new one on that document; the tree, the iframe, `Entry` and `turboButton` are never touched |
| Controller.EntryTurboController.HandleDOMChanges | injected.js:88-127 | the update is requested iff some record of the batch adds or removes an element carrying or containing a marker or `entryPopup` class, or is a `class` change whose target now has `entryPopup` |
| Mutations.DescendantCarries | injected.js:101 | `node.querySelector` over a class-list selector holds iff some descendant carries one of the names |
| Mutations.BatchTriggersSplit | injected.js:88-127 | splitting a batch into two notifications requests an update iff the whole batch did |
| Mutations.QuietBatch | injected.js:93-121 | batches of `style` changes and of text or comment nodes never request an update |
| Mutations.ButtonInsertionTriggers | injected.js:97-103 | inserting or removing a turbo button, whatever its flag, requests an update |
| Mutations.PopupClassRemovalUnnoticed | injected.js:115-120 | the class-change test reads the class list after the change: removing `entryPopup` requests nothing, adding it requests an update |
| Controller.EntryTurboController.UpdateTurboButtonPosition | injected.js:130-143 | without a button nothing changes; otherwise the button gets the style its URL, owner document and popup ancestry call for, and nothing else changes |
| Controller.EntryTurboController.IsButtonInIframe | injected.js:146-157 | true iff there is a button and a readable iframe document and the button's owner is that document |
| Controller.EntryTurboController.ApplyButtonPositionStyle | injected.js:160-192 | the eight writes leave the button with the style-table row for (workspace URL, `isInIframe`, popup ancestor), and the tree stays well formed |
| Controller.EntryTurboController.ApplyWSPageStyle | injected.js:195-219 | the popup row when an ancestor has `entryPopup`, the toolbar row otherwise |
| Controller.EntryTurboController.HasPopupAncestor | injected.js:222-247 | true iff one of the button's first ten ancestors has `entryPopup` (the great-grandparent test adds nothing to the walk); false without a button |
| Policy.IncludesIff | injected.js:253 | the recursive `includes` holds iff the fragment occurs at some index |
| Controller.EntryTurboController.GetTargetButtonSelector | injected.js:250-260 | the selector is the one `TargetButtonSelector` gives for the URL |
| Policy.TargetButtonSelectorCases | injected.js:250-260 | minimise selector iff `/project/` or `/iframe/` occurs; workspace selector iff only `/ws/` occurs; none otherwise |
| Policy.ButtonPositionStyleFields | injected.js:160-219 | every style keeps `float: right`; each distinctive field pins down its case (absolute only in a popup, 150px only in the iframe, and so on) |
| Policy.ButtonPositionStyleDeterminesCase | injected.js:160-219 | equal styles come from the same row; `isInIframe` does not matter on workspace URLs and popup ancestry does not matter elsewhere |
| Policy.ProjectAndWsUrl | injected.js:250-260 | a URL with both a project and a workspace fragment takes its anchor from the iframe but its position from the workspace rows |
| Policy.LookDeterminesFlag | injected.js:403-408 | class, label and colour each tell the flags apart, so one look never shows both flags |
| Policy.MarkerClassesAreDistinct | injected.js:286-290 | the marker selector finds a button whatever its flag; no anchor selector accepts a button; no marker class is `entryPopup` |
| Turbo.SetTurbo | injected.js:447-452 | an absent `Entry` stays absent; a present one gets the flag |
| Turbo.SetFrameTurbo | injected.js:428-444 | the iframe and its document are kept; the iframe's `Entry`, if present, gets the flag |
| Turbo.SearchRoot | injected.js:263-307 | a pass searches a document only when the URL has a selector |
| Turbo.NewButton | injected.js:323-336 | a new button shows the flag and starts with the floated-right style |
| Turbo.NoButtonNoMarks | injected.js:310 | an empty marker query below the anchor's parent means no marked node there at all |
| Turbo.CreatedButtonFound | injected.js:344 | after insertion the new button is the only marked node below the parent and the marker query finds it |
| Turbo.CreatedButtonKeepsAnchor | injected.js:344 | inserting a button does not change which anchor the selector finds |
| Turbo.CreatedButtonSettles | injected.js:281-352 | after a creation the tree is well formed, the anchor is found again and its parent has exactly one marked node, so nothing is left to create |
| Turbo.CreationOutcome | injected.js:322-352 | after creating and positioning: one node more, the button right after the anchor among the parent's children, showing the flag with the chosen style, the only marked node, nothing left to create |
| Turbo.QuietPass | injected.js:281-307 | a pass that finds no iframe document, no anchor, or an anchor without a parent leaves the tree, the iframe, `Entry` and `turboButton` exactly as they were |
| Turbo.AdoptingPass | injected.js:309-315 | a pass that finds a marked node below the anchor's parent makes it `turboButton` and restyles it with the position its page calls for; the tree is otherwise the same and the iframe and `Entry` are untouched |
| Turbo.CreatingPass | injected.js:317-318 | a pass with nothing marked below the anchor's parent yields exactly the tree with a new button showing the flag inserted after the anchor and given the position row for its URL and popup ancestry; the flag is written to the iframe's or the host's `Entry`; the new tree is well formed |
| Turbo.PassSettles | injected.js:263-319 | after any pass nothing is left to create, and the iframe's document is the same |
| Turbo.SettledPassCreatesNothing | injected.js:309-315 | a pass over a settled page adds no node, changes no set of marked nodes and leaves the iframe and `Entry` as they were |
| Turbo.UnsettledPassCreates | injected.js:317-352 | a pass over an unsettled page adds exactly one node, right after the anchor, showing the flag, as the only marked node below the anchor's parent, and writes the flag to `Entry` |
| Turbo.TwoPasses | injected.js:263-278 | two passes in a row add at most one node and leave nothing to create; when the first page was unsettled, the first pass's button is the only marked node below the anchor's parent; once the first pass found an anchor with a parent, the second changes nothing and the button has the position its place calls for |
| Turbo.CreatedButtonInFrame | injected.js:146-157 | a button inserted after an anchor found in the iframe's document has that document as `ownerDocument`, so `isButtonInIframe` holds for it |
| Turbo.PassPlacesButton | injected.js:281-319 | after a pass that found an anchor with a parent, the same anchor and the same button are found again and the button's style is the one `updateTurboButtonPosition` gives it |
| Turbo.SecondPassChangesNothing | injected.js:263-319 | a pass right after a pass that found an anchor with a parent leaves the tree, the iframe, `Entry` and `turboButton` as they were; an adopting pass after an iframe creation keeps the iframe row |
| Turbo.ButtonUpdateKeepsPosition | injected.js:403-411 | changing the button's own record changes neither its popup ancestry nor its document, so the position it calls for is the same |
| Turbo.RestyleKeepsLookups | injected.js:130-219 | a style write keeps the tree well formed and every lookup of a pass (anchor, existing button, marked nodes, settled) unchanged |
| Controller.EntryTurboController.CheckAndAddButton | injected.js:263-278 | the new tree, iframe, `Entry` and `turboButton` are exactly those `PassOutcome` gives for the branch the page takes (unchanged, adopted and restyled, or the created tree); without a selector nothing changes at all; on project URLs the iframe observer is then restarted on the readable iframe document, elsewhere the observers are untouched |
| Controller.EntryTurboController.CheckAndAddButtonInIframe | injected.js:281-302 | the same exact outcome, with the anchor searched in the iframe document; no observer handle is used |
| Controller.EntryTurboController.CheckAndAddButtonInMainPage | injected.js:305-319 | the same exact outcome, with the anchor searched in the host document |
| Controller.EntryTurboController.AdoptButton | injected.js:311-314 | the found node becomes the button and is only repositioned |
| Controller.EntryTurboController.CreateTurboButton | injected.js:322-352 | the new node is the inserted button with the host-document position row, and the flag is written to `Entry` |
| Controller.EntryTurboController.CreateTurboButtonInIframe | injected.js:355-386 | the same with the iframe position row |
| Controller.EntryTurboController.InsertButton | injected.js:322-345 | the new button gets the next id, is inserted after the anchor, becomes `turboButton`, and the tree stays well formed |
| Controller.EntryTurboController.ToggleTurbo | injected.js:389-400 | the flag is negated, one toggle message with the new flag is posted, the button is refreshed and the flag is written to `Entry` |
| Controller.EntryTurboController.UpdateButtonAppearance | injected.js:403-412 | without a button nothing changes; otherwise its class, label and colour show the flag and its position is refreshed |
| Controller.EntryTurboController.ApplyTurboSetting | injected.js:415-425 | on project URLs only the iframe's `Entry` is written, elsewhere only the host's |
| Controller.EntryTurboController.ApplyTurboInProjectPage | injected.js:428-444 | the iframe's `Entry` gets the flag when present |
| Controller.EntryTurboController.SetEntryInMainPage | injected.js:447-452 | the host's `Entry` gets the flag when present |
| Controller.EntryTurboController.Destroy | injected.js:455-469 | the timer is cleared unless its id is falsy; both observers are disconnected and forgotten |
| Controller.EntryTurboController.ReconcileTwice | injected.js:263-278 | two passes with no DOM change in between add at most one node and leave nothing to create; after a creating first pass the new button is the only marked node below the anchor's parent; once an anchor with a parent was found, `turboButton` ends with the position its place calls for |
| Controller.EntryTurboController.ToggleTwice | injected.js:389-412 | toggling twice restores the flag, shows it on the button and in the written `Entry`, and posts both toggle messages in order |
| Dom.InsertAfterValid | injected.js:344 | inserting after the anchor keeps the tree well formed |
| Dom.InsertAfterChildren | injected.js:344 | the parent's children gain the new node, right after the anchor |
| Dom.InsertAfterQueryKept | injected.js:306 | a query whose selector rejects the new node answers as before the insertion |
| Dom.InsertAfterFirstMatch | injected.js:310 | a query below the parent that found nothing before, and whose selector accepts the new node, finds the new node |
| Dom.UpdateKeepsQueries | injected.js:160-219 | a write that keeps a node's classes and links leaves every query unchanged |
| Dom.BelowDocumentOwned | injected.js:152 | in a well-formed tree every node below a document node has that document as `ownerDocument` |

## Left out

- Timers are bookkeeping only. The 500 ms `setInterval` is a timer id in `Page.timers`; the model does not run callbacks or interleave them. `HandleDOMChanges` returns the flag instead of scheduling the 50 ms `setTimeout`.
- Mutation observers are handles in `Page.observing`. Which mutations the browser delivers is not modelled, nor is the host page changing its DOM between passes.
- `window.postMessage` appends to `Page.outbox`; delivery to the content script (content.js) is not part of this model. Event listener registration, including the button's `click` listener, is left out. `ToggleTurbo` is what a click calls.
- `init` is `async`; the model runs it to completion inside the constructor.
- Only the eight positional style properties and the background colour are modelled. The rest of the `cssText` (padding, font, border, cursor, colour) is constant and left out.
- Exceptions: the `try`/`catch` blocks around cross-origin iframe access are modelled as an absent iframe document or absent iframe `Entry` (`Option`).
- In the host-document pass, an anchor without a parent makes `targetButton.parentNode.querySelector` throw out of the timer callback before anything is changed. The model treats it as a pass that changes nothing, which leaves the same state.
- `observe(document.body, …)` is modelled as observing the document node; a missing `body` is not modelled.
- Document order is an explicit `order` sequence that lists every node once. It is not derived from the tree, so "first match in document order" is first match in some fixed listing of the nodes. A new button is placed in it right after the anchor, not after the anchor's descendants.
- CSS shorthand is not modelled: the eight style properties are independent strings. In the popup row the source writes `margin = '0'` and then clears `marginRight`, `marginTop` and `marginBottom`, which in a browser leaves only `margin-left: 0` and makes `style.margin` read back as `''`; the model keeps `margin` as `"0"`.
- The page URL is a constant of `Page`. The source re-reads `window.location.href` on every call (injected.js:133, 163, 251, 267, 416), so navigation within the single-page app between passes is not modelled.
- A well-formed tree makes every parentless node a document that owns itself, but the controller's invariant does not say that the iframe's document is such a node. `ReconcileTwice` requires it instead; nothing else depends on it. Nothing requires the host document to be parentless, and no proof needs it.
- Class lists of document nodes are not distinguished from those of elements. The popup walk may reach the document node, which never carries `entryPopup` in a real page.
- Controller.EntryTurboController.StartDOMObserver: states which handles are added and removed as subset facts instead of one equation, because the iframe observer may or may not be replaced.

## Notes on the code's behaviour

- The iframe observer is torn down and recreated after every pass on a project URL whenever the iframe document is readable (injected.js:65), not only when the iframe document changes.
- The adopting branch of a pass does not write the flag to `Entry`; only creation and the flag operations do.
- Positioning tests `/ws/` first, while the selector choice tests `/project/` and `/iframe/` first. `Policy.ProjectAndWsUrl` states the consequence.
