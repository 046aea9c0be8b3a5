/**
 The settings dialog of the reward chart: three name fields seeded from the
 chart's children, saved back as a list, and closed by the overlay.
 */
module SettingsModal {
  import opened ChartData

  /** The dialog's inputs and its three bound fields. */
  datatype Modal = Modal(
    visible: bool,
    childrenNames: seq<string>,
    child1Name: string,
    child2Name: string,
    child3Name: string)

  /** What the dialog emits on its outputs. */
  datatype Emission = CloseModal | SaveSettings(names: seq<string>)

  const OverlayClass: string := "settings-overlay"

  /** The field initialisers: not visible, no names, empty fields. */
  const FreshModal: Modal := Modal(false, [], "", "", "")

  /** Seeds the three fields from the first three names, only when at least three are given. */
  function NgOnChanges(m: Modal): (r: Modal)
    ensures |m.childrenNames| >= 3 ==>
              r.child1Name == m.childrenNames[0] && r.child2Name == m.childrenNames[1]
              && r.child3Name == m.childrenNames[2]
    ensures |m.childrenNames| < 3 ==> r == m
    ensures r.visible == m.visible && r.childrenNames == m.childrenNames
  {
    if |m.childrenNames| >= 3 then
      m.(child1Name := m.childrenNames[0], child2Name := m.childrenNames[1], child3Name := m.childrenNames[2])
    else m
  }

  function OnClose(m: Modal): (out: seq<Emission>)
    ensures out == [CloseModal]
  {
    [CloseModal]
  }

  /** Emits the three fields in order, then closes. */
  function OnSave(m: Modal): (out: seq<Emission>)
    ensures |out| == 2 && out[1] == CloseModal
    ensures out[0] == SaveSettings([m.child1Name, m.child2Name, m.child3Name])
  {
    [SaveSettings([m.child1Name, m.child2Name, m.child3Name])] + OnClose(m)
  }

  /** Closes only when the click landed on the overlay itself (its class list holds the overlay class). */
  function OnOverlayClick(m: Modal, targetClasses: seq<string>): (out: seq<Emission>)
    ensures OverlayClass in targetClasses ==> out == [CloseModal]
    ensures OverlayClass !in targetClasses ==> out == []
  {
    if OverlayClass in targetClasses then OnClose(m) else []
  }

  /** Opening the dialog on a chart with three children and saving unchanged leaves the chart as it was. */
  lemma SaveUnchangedNamesIsIdentity(c: Chart)
    requires |c.children| == 3
    ensures var m := NgOnChanges(FreshModal.(visible := true, childrenNames := ChildrenNames(c)));
      OnSave(m)[0].SaveSettings? && UpdateChildrenNames(c, OnSave(m)[0].names) == c
  {
    var m := NgOnChanges(FreshModal.(visible := true, childrenNames := ChildrenNames(c)));
    assert OnSave(m)[0].names == ChildrenNames(c);
    UpdateWithOwnNamesIsIdentity(c);
  }

  /** The three edited fields become the three children's names, in order. */
  lemma SaveRenamesChildren(c: Chart, m: Modal)
    requires |c.children| == 3
    ensures var r := UpdateChildrenNames(c, OnSave(m)[0].names);
      && r.children[0].name == m.child1Name
      && r.children[1].name == m.child2Name
      && r.children[2].name == m.child3Name
  {
  }
}
