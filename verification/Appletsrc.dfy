/** The writer of Plasma's panel configuration: numbered containments and applets, in order. */
module Appletsrc {
  import opened Text
  import opened Sorting
  import opened Dicts

  // ---- The input ----

  datatype Widget = Widget(plugin: string, config: Dict<Dict<string>>)

  /** The panel's settings, with the defaults filled in and the numbers looked up. */
  datatype Panel = Panel(location: nat, alignment: nat, hiding: nat, height: string, floating: bool,
                         widgets: seq<Widget>)

  ghost predicate ValidPanel(panel: Panel) {
    forall w :: w in panel.widgets ==> w.config.Valid()
  }

  const SYSTEM_TRAY := "org.kde.plasma.systemtray"

  // ---- The output ----

  datatype Header =
    | Containment(id: nat)
    | General(id: nat)
    | ConfigDialog(id: nat)
    | Applet(id: nat, applet: nat)
    | AppletConfig(id: nat, applet: nat)
    | AppletGroup(id: nat, applet: nat, group: string)

  function Tail(h: Header): string {
    match h
    case Containment(_) => ""
    case General(_) => "][General"
    case ConfigDialog(_) => "][ConfigDialog"
    case Applet(_, a) => "][Applets][" + Decimal(a)
    case AppletConfig(_, a) => "][Applets][" + (Decimal(a) + "][Configuration")
    case AppletGroup(_, a, g) => "][Applets][" + (Decimal(a) + ("][Configuration][" + g))
  }

  /** The text of a section header. */
  function Render(h: Header): string {
    "Containments][" + (Decimal(h.id) + Tail(h))
  }

  datatype Section = Section(header: Header, entries: Dict<string>)

  function Entries(pairs: seq<(string, string)>): Dict<string> {
    if pairs == [] then Empty()
    else Entries(pairs[..|pairs| - 1]).Put(pairs[|pairs| - 1].0, pairs[|pairs| - 1].1)
  }

  function ContainmentEntries(formfactor: string, location: string, plugin: string): Dict<string> {
    Entries([("activityId", ""), ("formfactor", formfactor), ("immutability", "1"), ("lastScreen", "0"),
             ("location", location), ("plugin", plugin)])
  }

  function AppletEntries(plugin: string): Dict<string> {
    Entries([("immutability", "1"), ("plugin", plugin)])
  }

  // ---- The sections of one widget ----

  const TRAY_PLUGINS := [
    "org.kde.plasma.battery", "org.kde.plasma.bluetooth", "org.kde.plasma.clipboard", "org.kde.plasma.devicenotifier",
    "org.kde.plasma.manage-inputmethod", "org.kde.plasma.mediacontroller", "org.kde.plasma.networkmanagement",
    "org.kde.plasma.notifications", "org.kde.plasma.volume", "org.kde.plasma.cameraindicator",
    "org.kde.plasma.keyboardindicator", "org.kde.plasma.printmanager"]

  /** The applets inside a tray; the first gets the number `first`. */
  function TrayApplets(tray: nat, first: nat, plugins: seq<string>): (r: seq<Section>)
    ensures |r| == |plugins|
  {
    seq(|plugins|, k requires 0 <= k < |plugins| => Section(Applet(tray, first + k), AppletEntries(plugins[k])))
  }

  function TrayReference(tray: nat): Dict<string> {
    Entries([("PreloadWeight", "100"), ("SystrayContainmentId", Decimal(tray))])
  }

  /** The first sections of a system tray: its applet in the panel, the reference, and the tray's own containment. */
  function TrayHead(panel: nat, location: string, id: nat): seq<Section> {
    [ Section(Applet(panel, id + 1), AppletEntries(SYSTEM_TRAY)),
      Section(AppletConfig(panel, id + 1), TrayReference(id)),
      Section(Containment(id), ContainmentEntries("2", location, "org.kde.plasma.private.systemtray"))]
  }

  function TrayGeneral(id: nat, plugins: seq<string>): Section {
    Section(General(id), Entries([("extraItems", Join(";", plugins)), ("knownItems", Join(";", plugins))]))
  }

  function TraySections(panel: nat, location: string, id: nat, plugins: seq<string>): seq<Section> {
    TrayHead(panel, location, id) + TrayApplets(id, id + 2, plugins) + [TrayGeneral(id, plugins)]
  }

  /** The configuration groups of an ordinary applet. */
  function GroupSections(panel: nat, applet: nat, config: Dict<Dict<string>>, n: nat): (r: seq<Section>)
    requires n <= |config.keys|
    ensures |r| == n
    ensures forall k :: 0 <= k < n ==> r[k].header == AppletGroup(panel, applet, config.keys[k])
  {
    if n == 0 then []
    else
      GroupSections(panel, applet, config, n - 1)
      + [Section(AppletGroup(panel, applet, config.keys[n - 1]), config.Get(config.keys[n - 1]).GetOr(Empty()))]
  }

  function PlainSections(panel: nat, id: nat, w: Widget): seq<Section> {
    [Section(Applet(panel, id), AppletEntries(w.plugin))] + GroupSections(panel, id, w.config, |w.config.keys|)
  }

  function WidgetSections(panel: nat, location: string, id: nat, w: Widget, plugins: seq<string>): seq<Section> {
    if w.plugin == SYSTEM_TRAY then TraySections(panel, location, id, plugins) else PlainSections(panel, id, w)
  }

  /** How many numbers a widget takes, and which of them its applet in the panel has. */
  function IdsTaken(w: Widget, plugins: seq<string>): nat {
    if w.plugin == SYSTEM_TRAY then 2 + |plugins| else 1
  }

  function AppletIdOf(w: Widget, id: nat): nat {
    if w.plugin == SYSTEM_TRAY then id + 1 else id
  }

  // ---- All widgets ----

  /** The next free number after the first `n` widgets. */
  function IdAfter(ws: seq<Widget>, first: nat, n: nat, plugins: seq<string>): (id: nat)
    requires n <= |ws|
    ensures id >= first + n
  {
    if n == 0 then first else IdAfter(ws, first, n - 1, plugins) + IdsTaken(ws[n - 1], plugins)
  }

  function SectionsAfter(panel: nat, location: string, ws: seq<Widget>, first: nat, n: nat,
                         plugins: seq<string>): seq<Section>
    requires n <= |ws|
  {
    if n == 0 then []
    else
      SectionsAfter(panel, location, ws, first, n - 1, plugins)
      + WidgetSections(panel, location, IdAfter(ws, first, n - 1, plugins), ws[n - 1], plugins)
  }

  /** The numbers of the panel's applets, in widget order. */
  function AppletIds(ws: seq<Widget>, first: nat, n: nat, plugins: seq<string>): (r: seq<int>)
    requires n <= |ws|
    ensures |r| == n
    ensures forall k :: 0 <= k < n ==> r[k] >= 0
  {
    if n == 0 then []
    else AppletIds(ws, first, n - 1, plugins) + [AppletIdOf(ws[n - 1], IdAfter(ws, first, n - 1, plugins))]
  }

  function Decimals(ids: seq<int>): seq<string> {
    Map((i: int) => if i >= 0 then Decimal(i) else "", ids)
  }

  // ---- The whole file ----

  function DesktopSection(id: nat): Section {
    Section(Containment(id),
            ContainmentEntries("0", "0", "org.kde.desktopcontainment").Put("wallpaperplugin", "org.kde.image"))
  }

  function PanelSection(id: nat, location: string): Section {
    Section(Containment(id), ContainmentEntries("2", location, "org.kde.panel").Put("wallpaperplugin", ""))
  }

  function GeneralDraft(floating: bool): Dict<string> {
    Entries([("AppletOrder", ""), ("iconSize", "2"), ("floating", if floating then "true" else "false")])
  }

  function WithOrder(entries: Dict<string>, ids: seq<int>): Dict<string> {
    entries.Put("AppletOrder", Join(";", Decimals(ids)))
  }

  function WithGeometry(entries: Dict<string>, panel: Panel): Dict<string> {
    entries
      .Put("panelVisibility", Decimal(panel.hiding))
      .Put("thickness", panel.height)
      .Put("alignment", Decimal(panel.alignment))
      .Put("lengthMode", "2")
  }

  function DialogSection(id: nat): Section {
    Section(ConfigDialog(id), Entries([("DialogHeight", "84"), ("DialogWidth", "1920")]))
  }

  /** The sections that are there before the widgets; `general` is the panel's General group. */
  function Prologue(panel: Panel, first: nat, general: Dict<string>): seq<Section> {
    [DesktopSection(first), PanelSection(first + 1, Decimal(panel.location)), Section(General(first + 1), general)]
  }

  function FinalGeneral(panel: Panel, first: nat, plugins: seq<string>): Dict<string> {
    WithGeometry(
      WithOrder(GeneralDraft(panel.floating), AppletIds(panel.widgets, first + 2, |panel.widgets|, plugins)),
      panel)
  }

  function WidgetPart(panel: Panel, first: nat, plugins: seq<string>): seq<Section> {
    SectionsAfter(first + 1, Decimal(panel.location), panel.widgets, first + 2, |panel.widgets|, plugins)
  }

  /** What a build adds, when `first` is the next free number. */
  function Built(panel: Panel, first: nat, plugins: seq<string>): seq<Section> {
    Prologue(panel, first, FinalGeneral(panel, first, plugins)) + WidgetPart(panel, first, plugins)
    + [DialogSection(first + 1)]
  }

  // ---- The writer ----

  class IdAllocator {
    var nextId: nat

    constructor (start: nat)
      ensures nextId == start
    {
      nextId := start;
    }

    method Next() returns (val: nat)
      modifies this
      ensures val == old(nextId) && nextId == old(nextId) + 1
    {
      val := nextId;
      nextId := nextId + 1;
    }
  }

  /** Every number in the sections has been handed out. */
  ghost predicate IdsBelow(sections: seq<Section>, bound: nat) {
    forall s :: s in sections ==> s.header.id < bound
  }

  /** The first section with this header has its entries changed. */
  function Patched(sections: seq<Section>, header: Header, change: Dict<string> -> Dict<string>): seq<Section> {
    if sections == [] then []
    else if sections[0].header == header then [Section(header, change(sections[0].entries))] + sections[1..]
    else [sections[0]] + Patched(sections[1..], header, change)
  }

  lemma PatchedStep(s: seq<Section>, i: nat, header: Header, change: Dict<string> -> Dict<string>)
    requires i < |s|
    ensures s[..i] + Patched(s[i..], header, change) ==
            if s[i].header == header then s[..i] + [Section(header, change(s[i].entries))] + s[i + 1..]
            else s[..i + 1] + Patched(s[i + 1..], header, change)
  {
    assert s[i..][0] == s[i] && s[i..][1..] == s[i + 1..];
    assert s[..i + 1] == s[..i] + [s[i]];
  }

  lemma {:induction false} PatchedMiddle(before: seq<Section>, s: Section, rest: seq<Section>,
                                         change: Dict<string> -> Dict<string>)
    requires forall b :: b in before ==> b.header != s.header
    ensures Patched(before + [s] + rest, s.header, change) == before + [Section(s.header, change(s.entries))] + rest
  {
    var whole := before + [s] + rest;
    var changed := Section(s.header, change(s.entries));
    if before == [] {
      assert whole == [s] + rest && before + [changed] + rest == [changed] + rest;
    } else {
      assert whole[0] == before[0] && before[0] in before;
      assert whole[1..] == before[1..] + [s] + rest;
      PatchedMiddle(before[1..], s, rest, change);
      assert before + [changed] + rest == [before[0]] + (before[1..] + [changed] + rest);
    }
  }

  class AppletsrcWriter {
    const ids: IdAllocator
    var sections: seq<Section>

    ghost predicate Valid()
      reads this, ids
    {
      IdsBelow(sections, ids.nextId)
    }

    constructor ()
      ensures Valid() && fresh(ids) && ids.nextId == 1 && sections == []
    {
      ids := new IdAllocator(1);
      sections := [];
    }

    method AddSection(header: Header, entries: Dict<string>)
      modifies this
      ensures sections == old(sections) + [Section(header, entries)]
    {
      sections := sections + [Section(header, entries)];
    }

    /** The applets of a new tray, one by one. */
    method AddTrayApplets(tray: nat, plugins: seq<string>)
      modifies this, ids
      ensures ids.nextId == old(ids.nextId) + |plugins|
      ensures sections == old(sections) + TrayApplets(tray, old(ids.nextId), plugins)
    {
      for k := 0 to |plugins|
        invariant ids.nextId == old(ids.nextId) + k
        invariant sections == old(sections) + TrayApplets(tray, old(ids.nextId), plugins)[..k]
      {
        var tid := ids.Next();
        AddSection(Applet(tray, tid), AppletEntries(plugins[k]));
      }
    }

    method AddTray(panel: nat, location: string, plugins: seq<string>) returns (applet: nat)
      modifies this, ids
      ensures applet == old(ids.nextId) + 1
      ensures ids.nextId == old(ids.nextId) + 2 + |plugins|
      ensures sections == old(sections) + TraySections(panel, location, old(ids.nextId), plugins)
    {
      hide Entries, AppletEntries, ContainmentEntries, TrayReference, TrayApplets;
      ghost var before := sections;
      var tray := ids.Next();
      applet := ids.Next();
      AddSection(Applet(panel, applet), AppletEntries(SYSTEM_TRAY));
      AddSection(AppletConfig(panel, applet), TrayReference(tray));
      AddSection(Containment(tray), ContainmentEntries("2", location, "org.kde.plasma.private.systemtray"));
      assert sections == before + TrayHead(panel, location, tray);
      AddTrayApplets(tray, plugins);
      var general := TrayGeneral(tray, plugins);
      AddSection(general.header, general.entries);
    }

    method AddPlain(panel: nat, w: Widget) returns (applet: nat)
      requires w.config.Valid()
      modifies this, ids
      ensures applet == old(ids.nextId) && ids.nextId == old(ids.nextId) + 1
      ensures sections == old(sections) + PlainSections(panel, old(ids.nextId), w)
    {
      hide AppletEntries;
      applet := ids.Next();
      AddSection(Applet(panel, applet), AppletEntries(w.plugin));
      ghost var before := sections;
      for k := 0 to |w.config.keys|
        invariant ids.nextId == old(ids.nextId) + 1
        invariant sections == before + GroupSections(panel, applet, w.config, k)
      {
        var group := w.config.keys[k];
        assert group in w.config.keys;
        AddSection(AppletGroup(panel, applet, group), w.config.entries[group]);
      }
    }

    method AddWidget(panel: nat, location: string, w: Widget, plugins: seq<string>) returns (applet: nat)
      requires w.config.Valid()
      modifies this, ids
      ensures applet == AppletIdOf(w, old(ids.nextId))
      ensures ids.nextId == old(ids.nextId) + IdsTaken(w, plugins)
      ensures sections == old(sections) + WidgetSections(panel, location, old(ids.nextId), w, plugins)
    {
      hide TraySections, PlainSections;
      if w.plugin == SYSTEM_TRAY {
        applet := AddTray(panel, location, plugins);
      } else {
        applet := AddPlain(panel, w);
      }
    }

    /** The loop over the widgets: the numbers of the panel's applets. */
    method AddWidgets(panel: nat, location: string, ws: seq<Widget>, plugins: seq<string>) returns (applets: seq<int>)
      requires forall w :: w in ws ==> w.config.Valid()
      modifies this, ids
      ensures applets == AppletIds(ws, old(ids.nextId), |ws|, plugins)
      ensures ids.nextId == IdAfter(ws, old(ids.nextId), |ws|, plugins)
      ensures sections == old(sections) + SectionsAfter(panel, location, ws, old(ids.nextId), |ws|, plugins)
    {
      hide WidgetSections, AppletIdOf, IdsTaken;
      applets := [];
      for i := 0 to |ws|
        invariant applets == AppletIds(ws, old(ids.nextId), i, plugins)
        invariant ids.nextId == IdAfter(ws, old(ids.nextId), i, plugins)
        invariant sections == old(sections) + SectionsAfter(panel, location, ws, old(ids.nextId), i, plugins)
      {
        assert ws[i] in ws;
        var applet := AddWidget(panel, location, ws[i], plugins);
        applets := applets + [applet];
      }
    }

    /** The loop that looks for a section by its header and changes its entries. */
    method PatchSection(header: Header, change: Dict<string> -> Dict<string>)
      modifies this
      ensures sections == Patched(old(sections), header, change)
    {
      for i := 0 to |sections|
        invariant sections == old(sections)
        invariant Patched(sections, header, change) == sections[..i] + Patched(sections[i..], header, change)
      {
        PatchedStep(sections, i, header, change);
        if sections[i].header == header {
          sections := sections[..i] + [Section(header, change(sections[i].entries))] + sections[i + 1..];
          return;
        }
      }
    }

    /** `build`. */
    method Build(panel: Panel)
      requires Valid() && ValidPanel(panel)
      modifies this, ids
      ensures sections == old(sections) + Built(panel, old(ids.nextId), TRAY_PLUGINS)
      ensures ids.nextId == IdAfter(panel.widgets, old(ids.nextId) + 2, |panel.widgets|, TRAY_PLUGINS)
    {
      BuildWith(panel, TRAY_PLUGINS);
    }

    /** The two containments and the panel's General group, still without its applet order. */
    method AddPrologue(panel: Panel) returns (panelId: nat)
      modifies this, ids
      ensures panelId == old(ids.nextId) + 1 && ids.nextId == old(ids.nextId) + 2
      ensures sections == old(sections) + Prologue(panel, old(ids.nextId), GeneralDraft(panel.floating))
    {
      hide Entries, ContainmentEntries, GeneralDraft, DesktopSection, PanelSection;
      ghost var before := sections;
      var desktop := ids.Next();
      AddSection(DesktopSection(desktop).header, DesktopSection(desktop).entries);
      panelId := ids.Next();
      AddSection(PanelSection(panelId, Decimal(panel.location)).header,
                 PanelSection(panelId, Decimal(panel.location)).entries);
      AddSection(General(panelId), GeneralDraft(panel.floating));
      assert sections == before + Prologue(panel, desktop, GeneralDraft(panel.floating));
    }

    method AddContents(panel: Panel, plugins: seq<string>) returns (panelId: nat, applets: seq<int>)
      requires ValidPanel(panel)
      modifies this, ids
      ensures panelId == old(ids.nextId) + 1
      ensures applets == AppletIds(panel.widgets, old(ids.nextId) + 2, |panel.widgets|, plugins)
      ensures ids.nextId == IdAfter(panel.widgets, old(ids.nextId) + 2, |panel.widgets|, plugins)
      ensures sections ==
              old(sections) + Head(panel, old(ids.nextId)) + [Section(General(panelId), GeneralDraft(panel.floating))]
                          + WidgetPart(panel, old(ids.nextId), plugins)
    {
      hide SectionsAfter, AppletIds, IdAfter, GeneralDraft, DesktopSection, PanelSection;
      panelId := AddPrologue(panel);
      applets := AddWidgets(panelId, Decimal(panel.location), panel.widgets, plugins);
    }

    method BuildWith(panel: Panel, plugins: seq<string>)
      requires Valid() && ValidPanel(panel)
      modifies this, ids
      ensures sections == old(sections) + Built(panel, old(ids.nextId), plugins)
      ensures ids.nextId == IdAfter(panel.widgets, old(ids.nextId) + 2, |panel.widgets|, plugins)
    {
      hide Built, Head, WidgetPart, GeneralDraft, WithOrder, WithGeometry, AppletIds, IdAfter, DialogSection;
      ghost var before, first := sections, ids.nextId;
      GeneralIsNew(before, panel, first);
      var panelId, applets := AddContents(panel, plugins);
      FinishPanel(panelId, panel, applets, before + Head(panel, first), GeneralDraft(panel.floating),
                  WidgetPart(panel, first, plugins));
      BuiltInPieces(before, panel, first, plugins);
    }

    /** What follows the widget loop: the applet order, the dialog section, the geometry. */
    method FinishPanel(panelId: nat, panel: Panel, applets: seq<int>,
                       ghost head: seq<Section>, ghost draft: Dict<string>, ghost rest: seq<Section>)
      requires sections == head + [Section(General(panelId), draft)] + rest
      requires forall s :: s in head ==> s.header != General(panelId)
      modifies this
      ensures sections == head + [Section(General(panelId), WithGeometry(WithOrder(draft, applets), panel))]
                          + (rest + [DialogSection(panelId)])
    {
      hide WithOrder, WithGeometry, Entries;
      var order := (entries: Dict<string>) => WithOrder(entries, applets);
      var geometry := (entries: Dict<string>) => WithGeometry(entries, panel);
      PatchedMiddle(head, Section(General(panelId), draft), rest, order);
      PatchSection(General(panelId), order);
      var dialog := DialogSection(panelId);
      AddSection(dialog.header, dialog.entries);
      ghost var ordered := Section(General(panelId), WithOrder(draft, applets));
      assert sections == head + [ordered] + (rest + [dialog]);
      PatchedMiddle(head, ordered, rest + [dialog], geometry);
      PatchSection(General(panelId), geometry);
    }
  }

  lemma BuiltInPieces(before: seq<Section>, panel: Panel, first: nat, plugins: seq<string>)
    ensures before + Head(panel, first) + [Section(General(first + 1), FinalGeneral(panel, first, plugins))]
            + (WidgetPart(panel, first, plugins) + [DialogSection(first + 1)])
            == before + Built(panel, first, plugins)
  {
    hide FinalGeneral, WidgetPart, DialogSection, DesktopSection, PanelSection;
    var general := Section(General(first + 1), FinalGeneral(panel, first, plugins));
    assert Prologue(panel, first, FinalGeneral(panel, first, plugins)) == Head(panel, first) + [general];
  }

  function Head(panel: Panel, first: nat): seq<Section> {
    [DesktopSection(first), PanelSection(first + 1, Decimal(panel.location))]
  }

  lemma GeneralIsNew(start: seq<Section>, panel: Panel, first: nat)
    requires IdsBelow(start, first)
    ensures forall s :: s in start + Head(panel, first) ==> s.header != General(first + 1)
  {
  }
}
