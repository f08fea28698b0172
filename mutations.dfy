/** Mutation records as the controller's observers deliver them, and the per-record test that
    decides whether a batch asks for a position update (injected.js:88-127). */
module Mutations {
  import opened Policy

  /** A node named by a mutation record: an element, with its own class list and the class
      lists of its descendants (what `node.querySelector` searches), or a text or comment node. */
  datatype MutatedNode =
    | Element(classes: set<string>, descendantClasses: seq<set<string>>)
    | NonElement

  /** The observers subscribe to child-list changes and to `class` and `style` attribute
      changes; for an attribute record the target's class list is the one after the change. */
  datatype MutationRecord =
    | ChildList(addedNodes: seq<MutatedNode>, removedNodes: seq<MutatedNode>)
    | Attributes(attributeName: string, target: MutatedNode)

  /** The turbo marker classes, and the popup container class. */
  const Markers: set<string> := MarkerSelector.names
  const Popup: set<string> := {PopupClass}

  /** `node.querySelector?.(...)` for a class list selector: some descendant carries one of
      `names`. */
  function DescendantCarries(descendantClasses: seq<set<string>>, names: set<string>): (r: bool)
    ensures r <==> exists i :: 0 <= i < |descendantClasses| && names * descendantClasses[i] != {}
  {
    if descendantClasses == [] then false
    else names * descendantClasses[0] != {} || DescendantCarries(descendantClasses[1..], names)
  }

  /** The element carries one of `names` itself or has a descendant that does. */
  ghost predicate CarriesOrContains(n: MutatedNode, names: set<string>) {
    n.Element? &&
    (names * n.classes != {} ||
     exists i :: 0 <= i < |n.descendantClasses| && names * n.descendantClasses[i] != {})
  }

  /** An added or removed node asks for an update. */
  ghost predicate NodeTriggers(n: MutatedNode) {
    CarriesOrContains(n, Markers) || CarriesOrContains(n, Popup)
  }

  ghost predicate MutationTriggers(m: MutationRecord) {
    match m
    case ChildList(added, removed) =>
      exists i :: 0 <= i < |added + removed| && NodeTriggers((added + removed)[i])
    case Attributes(name, target) =>
      name == "class" && target.Element? && PopupClass in target.classes
  }

  /** One position update is scheduled for the batch when some record in it asks for one. */
  ghost predicate BatchTriggers(batch: seq<MutationRecord>) {
    exists i :: 0 <= i < |batch| && MutationTriggers(batch[i])
  }

  /** Splitting a batch into two notifications schedules an update iff the whole did. */
  lemma BatchTriggersSplit(a: seq<MutationRecord>, b: seq<MutationRecord>)
    ensures BatchTriggers(a + b) <==> BatchTriggers(a) || BatchTriggers(b)
  {
    if BatchTriggers(a + b) {
      var i :| 0 <= i < |a + b| && MutationTriggers((a + b)[i]);
      if i >= |a| {
        assert (a + b)[i] == b[i - |a|];
      }
    }
    if BatchTriggers(a) {
      var i :| 0 <= i < |a| && MutationTriggers(a[i]);
      assert (a + b)[i] == a[i];
    }
    if BatchTriggers(b) {
      var i :| 0 <= i < |b| && MutationTriggers(b[i]);
      assert (a + b)[|a| + i] == b[i];
    }
  }

  /** `style` changes and text or comment nodes never ask for an update. */
  lemma QuietBatch(batch: seq<MutationRecord>)
    requires forall i | 0 <= i < |batch| ::
      || (batch[i].Attributes? && batch[i].attributeName == "style")
      || (batch[i].ChildList? &&
          forall n | n in batch[i].addedNodes + batch[i].removedNodes :: n == NonElement)
    ensures !BatchTriggers(batch)
  {
    forall i | 0 <= i < |batch| ensures !MutationTriggers(batch[i]) {
      if batch[i].ChildList? {
        var all := batch[i].addedNodes + batch[i].removedNodes;
        forall j | 0 <= j < |all| ensures !NodeTriggers(all[j]) {
          assert all[j] in all;
        }
      }
    }
  }

  /** Inserting or removing a turbo button (whatever its flag) asks for an update. */
  lemma ButtonInsertionTriggers(on: bool, others: seq<MutatedNode>)
    ensures MutationTriggers(ChildList([Element({Marker(on)}, [])] + others, []))
    ensures MutationTriggers(ChildList([], [Element({Marker(on)}, [])] + others))
  {
    assert Marker(on) in Markers * {Marker(on)};
    var added := [Element({Marker(on)}, [])] + others + [];
    assert NodeTriggers(added[0]);
    var removed := [] + ([Element({Marker(on)}, [])] + others);
    assert NodeTriggers(removed[0]);
  }

  /** The attribute test reads the class list after the change: a class change that removes
      `entryPopup` from its target does not ask for an update, one that adds it does. */
  lemma PopupClassRemovalUnnoticed(before: set<string>, after: set<string>)
    requires PopupClass in before && PopupClass !in after
    ensures !MutationTriggers(Attributes("class", Element(after, [])))
    ensures MutationTriggers(Attributes("class", Element(before, [])))
  {
  }
}
