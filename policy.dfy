/** The pure decisions of the turbo-button controller: which page layout the URL names, which
    anchor selector that layout uses, which of four fixed style records positions the button,
    and how the button's class, label and colour encode the turbo flag. */
module Policy {
  import opened Wrappers
  import opened Dom

  // ---------------------------------------------------------------------------------------
  // URL classification (injected.js:250-260)

  /** `s.includes(p)`: does `p` occur in `s`, scanning from the left. */
  predicate Includes(s: string, p: string)
    decreases |s|
  {
    |p| <= |s| && (s[..|p|] == p || (0 < |s| && Includes(s[1..], p)))
  }

  /** `p` occurs in `s` starting at index `i`. */
  predicate OccursAt(p: string, s: string, i: int) {
    0 <= i && i + |p| <= |s| && s[i..i + |p|] == p
  }

  /** `p` occurs in `s` at some index. */
  ghost predicate OccursIn(p: string, s: string) {
    exists i :: OccursAt(p, s, i)
  }

  lemma {:induction false} IncludesIff(s: string, p: string)
    ensures Includes(s, p) <==> OccursIn(p, s)
    decreases |s|
  {
    if |p| <= |s| {
      if s[..|p|] == p {
        assert OccursAt(p, s, 0);
      } else if 0 < |s| {
        IncludesIff(s[1..], p);
        if Includes(s[1..], p) {
          var i :| OccursAt(p, s[1..], i);
          assert s[i + 1..i + 1 + |p|] == p;
          assert OccursAt(p, s, i + 1);
        }
        if OccursIn(p, s) {
          var i :| OccursAt(p, s, i);
          assert i != 0;
          assert s[1..][i - 1..i - 1 + |p|] == p;
          assert OccursAt(p, s[1..], i - 1);
        }
      }
    }
  }

  const ProjectPath := "/project/"
  const IframePath := "/iframe/"
  const WsPath := "/ws/"

  /** Project and embedded-iframe pages: the anchor lives inside the page's iframe. */
  predicate IsProjectUrl(url: string) {
    Includes(url, ProjectPath) || Includes(url, IframePath)
  }

  /** Workspace pages, as the positioning code tests them (on its own, before anything else). */
  predicate IsWsUrl(url: string) {
    Includes(url, WsPath)
  }

  const MinimizeSelector := AllOf({"entryEngineButtonMinimize", "entryCoordinateButtonMinimize"})
  const WorkspaceSelector := AllOf({"entryEngineButtonWorkspace_w", "entryEngineTopWorkspace",
                                    "entryCoordinateButtonWorkspace_w"})

  /** `getTargetButtonSelector`: project and iframe paths win over the workspace path. */
  function TargetButtonSelector(url: string): Option<Selector> {
    if IsProjectUrl(url) then Some(MinimizeSelector)
    else if IsWsUrl(url) then Some(WorkspaceSelector)
    else None
  }

  /** The selector, stated by where the path fragments occur in the URL. */
  lemma TargetButtonSelectorCases(url: string)
    ensures TargetButtonSelector(url) == Some(MinimizeSelector)
        <==> OccursIn(ProjectPath, url) || OccursIn(IframePath, url)
    ensures TargetButtonSelector(url) == Some(WorkspaceSelector)
        <==> OccursIn(WsPath, url) && !OccursIn(ProjectPath, url) && !OccursIn(IframePath, url)
    ensures TargetButtonSelector(url) == None
        <==> !OccursIn(WsPath, url) && !OccursIn(ProjectPath, url) && !OccursIn(IframePath, url)
  {
    IncludesIff(url, ProjectPath);
    IncludesIff(url, IframePath);
    IncludesIff(url, WsPath);
    assert "entryEngineButtonMinimize" !in WorkspaceSelector.names;
  }

  // ---------------------------------------------------------------------------------------
  // Position policy (injected.js:160-219)

  /** Project page, button inside the iframe. */
  const FrameStyle := Style("", "", "", "", "150px", "12px", "12px", "right")
  /** Project page, button still in the host document. */
  const HostStyle := Style("", "", "", "", "10px", "12px", "12px", "right")
  /** Workspace page, button inside an `entryPopup` container. */
  const PopupStyle := Style("absolute", "100px", "9.5px", "0", "", "", "", "right")
  /** Workspace page, ordinary toolbar. */
  const WorkspaceStyle := Style("", "", "", "", "", "2.5px", "", "right")

  /** The positional part of the inline style a new button starts with (its `cssText`). */
  const InitialStyle := Style("", "", "", "", "", "", "", "right")

  /** `applyButtonPositionStyle(isInIframe)` with `applyWSPageStyle`: on a workspace URL the
      popup ancestry decides and `inIframe` is ignored; elsewhere `inIframe` decides. */
  function ButtonPositionStyle(onWs: bool, inIframe: bool, popupAncestor: bool): Style {
    if onWs then (if popupAncestor then PopupStyle else WorkspaceStyle)
    else if inIframe then FrameStyle
    else HostStyle
  }

  /** The four records are told apart by their fields: each field that differs from the
      ordinary workspace look pins down the case it comes from. */
  lemma ButtonPositionStyleFields(onWs: bool, inIframe: bool, popupAncestor: bool)
    ensures var r := ButtonPositionStyle(onWs, inIframe, popupAncestor);
      && r.float == "right"
      && (r.position == "absolute" <==> onWs && popupAncestor)
      && (r.marginTop == "2.5px" <==> onWs && !popupAncestor)
      && (r.marginTop == "12px" <==> !onWs)
      && (r.marginRight == "150px" <==> !onWs && inIframe)
      && (r.marginRight == "10px" <==> !onWs && !inIframe)
      && r in {FrameStyle, HostStyle, PopupStyle, WorkspaceStyle}
  {
  }

  /** The written style determines the case: equal styles come from the same row of the
      table, with `inIframe` irrelevant on workspace pages and the popup test irrelevant
      elsewhere. */
  lemma ButtonPositionStyleDeterminesCase(w1: bool, i1: bool, p1: bool, w2: bool, i2: bool, p2: bool)
    requires ButtonPositionStyle(w1, i1, p1) == ButtonPositionStyle(w2, i2, p2)
    ensures w1 == w2
    ensures w1 ==> p1 == p2
    ensures !w1 ==> i1 == i2
  {
    ButtonPositionStyleFields(w1, i1, p1);
    ButtonPositionStyleFields(w2, i2, p2);
  }

  /** A URL naming both a project and a workspace path takes its anchor from the iframe but
      its position from the workspace rows: the two tests run in opposite order. */
  lemma ProjectAndWsUrl(url: string, inIframe: bool, popupAncestor: bool)
    requires IsProjectUrl(url) && IsWsUrl(url)
    ensures TargetButtonSelector(url) == Some(MinimizeSelector)
    ensures ButtonPositionStyle(IsWsUrl(url), inIframe, popupAncestor)
         in {PopupStyle, WorkspaceStyle}
  {
  }

  // ---------------------------------------------------------------------------------------
  // Appearance (injected.js:324-325, 333, 358-359, 403-408)

  const MarkerOn := "isTurboButtonON"
  const MarkerOff := "isTurboButtonOFF"
  const PopupClass := "entryPopup"

  /** `.isTurboButtonON, .isTurboButtonOFF` */
  const MarkerSelector := AnyOf({MarkerOn, MarkerOff})

  function Marker(on: bool): string {
    if on then MarkerOn else MarkerOff
  }

  function Label(on: bool): string {
    if on then "터보모드 켜짐" else "터보모드 꺼짐"
  }

  function Background(on: bool): string {
    if on then "rgb(22, 216, 163)" else "rgb(226, 226, 226)"
  }

  /** The node's class list, label and background colour all show the flag `on`. */
  predicate Shows(node: Node, on: bool) {
    node.classes == {Marker(on)} && node.text == Label(on) && node.background == Background(on)
  }

  /** A look shows at most one flag: class, label and colour each tell the two flags apart. */
  lemma LookDeterminesFlag(node: Node, on: bool, other: bool)
    requires Shows(node, on) && Shows(node, other)
    ensures on == other
    ensures Marker(true) != Marker(false) && Label(true) != Label(false)
    ensures Background(true) != Background(false)
  {
  }

  /** Whichever the flag, a button's own marker class is found by the marker selector, and the
      anchor selectors never take a button for an anchor. */
  lemma MarkerClassesAreDistinct(on: bool, url: string)
    ensures MarkerSelector.Accepts({Marker(on)})
    ensures TargetButtonSelector(url).Some? ==> !TargetButtonSelector(url).value.Accepts({Marker(on)})
    ensures Marker(on) != PopupClass
  {
    assert Marker(on) in MarkerSelector.names * {Marker(on)};
    if TargetButtonSelector(url).Some? {
      var names := TargetButtonSelector(url).value.names;
      assert "entryEngineButtonMinimize" in MinimizeSelector.names;
      assert "entryEngineTopWorkspace" in WorkspaceSelector.names;
    }
  }
}
