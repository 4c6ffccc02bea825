/** What the sections of a written panel configuration hold, entry by entry. */
module AppletsrcContents {
  import opened Text
  import opened Wrappers
  import opened Dicts
  import opened Appletsrc
  import opened AppletsrcLaws

  // ---- The panel's own group ----

  /** The entries of the panel's General group. */
  function PanelEntries(panel: Panel, order: string): map<string, string> {
    map["AppletOrder" := order,
        "iconSize" := "2",
        "floating" := if panel.floating then "true" else "false",
        "panelVisibility" := Decimal(panel.hiding),
        "thickness" := panel.height,
        "alignment" := Decimal(panel.alignment),
        "lengthMode" := "2"]
  }

  lemma EntriesSnoc(pairs: seq<(string, string)>, key: string, value: string)
    ensures Entries(pairs + [(key, value)]) == Entries(pairs).Put(key, value)
  {
    assert (pairs + [(key, value)])[..|pairs|] == pairs;
  }

  lemma NoEntries()
    ensures Entries([]) == Empty()
  {
  }

  lemma TwoEntries(a: string, v: string, b: string, w: string)
    ensures Entries([(a, v), (b, w)]).entries == map[a := v][b := w]
  {
    hide Entries;
    NoEntries();
    EntriesSnoc([], a, v);
    EntriesSnoc([(a, v)], b, w);
    assert [] + [(a, v)] == [(a, v)] && [(a, v)] + [(b, w)] == [(a, v), (b, w)];
  }

  lemma DraftEntries(floating: bool)
    ensures GeneralDraft(floating).entries ==
            map["AppletOrder" := "", "iconSize" := "2", "floating" := if floating then "true" else "false"]
  {
    hide Entries;
    var f := if floating then "true" else "false";
    TwoEntries("AppletOrder", "", "iconSize", "2");
    EntriesSnoc([("AppletOrder", ""), ("iconSize", "2")], "floating", f);
    assert [("AppletOrder", ""), ("iconSize", "2")] + [("floating", f)] ==
           [("AppletOrder", ""), ("iconSize", "2"), ("floating", f)];
  }

  lemma Overwrites(order: string, f: string)
    ensures map["AppletOrder" := "", "iconSize" := "2", "floating" := f]["AppletOrder" := order] ==
            map["AppletOrder" := order, "iconSize" := "2", "floating" := f]
  {
    assert |"AppletOrder"| == 11 && |"iconSize"| == 8 && |"floating"| == 8;
  }

  lemma FinalEntries(panel: Panel, ids: seq<int>)
    ensures WithGeometry(WithOrder(GeneralDraft(panel.floating), ids), panel).entries ==
            PanelEntries(panel, Join(";", Decimals(ids)))
  {
    hide GeneralDraft, Decimals, Decimal, Join;
    DraftEntries(panel.floating);
    Overwrites(Join(";", Decimals(ids)), if panel.floating then "true" else "false");
  }

  /** The panel's group holds the order of its applets, its geometry, and nothing else. */
  lemma PanelGroupExact(panel: Panel, first: nat, plugins: seq<string>)
    ensures var s := Built(panel, first, plugins);
            && |s| > 2 && s[2].header == General(first + 1)
            && s[2].entries.entries == PanelEntries(panel, Join(";", Decimals(PanelApplets(s, first + 1))))
  {
    hide Built, GeneralDraft, AppletIds, Decimals, Join, PanelEntries, WithGeometry, WithOrder, PanelApplets;
    GeneralOfBuilt(panel, first, plugins);
    PanelAppletsOfBuilt(panel, first, plugins);
    FinalEntries(panel, AppletIds(panel.widgets, first + 2, |panel.widgets|, plugins));
  }

  // ---- The groups of a widget ----

  /** A group of the widget's configuration, verbatim, under its applet in the panel. */
  predicate IsGroupOf(x: Section, panel: nat, w: Widget, applet: int) {
    && w.plugin != SYSTEM_TRAY
    && x.header.AppletGroup? && x.header.id == panel && x.header.applet == applet
    && x.header.group in w.config.entries && x.entries == w.config.entries[x.header.group]
  }

  lemma {:induction false} GroupsOfApplet(panel: nat, id: nat, config: Dict<Dict<string>>, n: nat, x: Section)
    requires config.Valid() && n <= |config.keys|
    ensures x in GroupSections(panel, id, config, n) <==>
            && x.header.AppletGroup? && x.header.id == panel && x.header.applet == id
            && x.header.group in config.keys[..n] && x.header.group in config.entries
            && x.entries == config.entries[x.header.group]
  {
    if n > 0 {
      GroupsOfApplet(panel, id, config, n - 1, x);
      assert config.keys[n - 1] in config.keys;
      assert config.keys[..n] == config.keys[..n - 1] + [config.keys[n - 1]];
    }
  }

  lemma GroupsOfWidget(panel: nat, location: string, id: nat, w: Widget, plugins: seq<string>, x: Section)
    requires w.config.Valid() && x.header.AppletGroup?
    ensures x in WidgetSections(panel, location, id, w, plugins) <==> IsGroupOf(x, panel, w, AppletIdOf(w, id))
  {
    hide AppletEntries, TrayReference, ContainmentEntries, Entries, GroupSections;
    if w.plugin != SYSTEM_TRAY {
      GroupsOfApplet(panel, id, w.config, |w.config.keys|, x);
      assert w.config.keys[..|w.config.keys|] == w.config.keys;
    }
  }

  ghost predicate GroupOfSome(x: Section, panel: nat, ws: seq<Widget>, applets: seq<int>)
    requires |applets| <= |ws|
  {
    exists k :: 0 <= k < |applets| && IsGroupOf(x, panel, ws[k], applets[k])
  }

  lemma GroupOfSnoc(x: Section, panel: nat, ws: seq<Widget>, applets: seq<int>, a: int)
    requires |applets| < |ws|
    ensures GroupOfSome(x, panel, ws, applets + [a]) <==>
            GroupOfSome(x, panel, ws, applets) || IsGroupOf(x, panel, ws[|applets|], a)
  {
    hide IsGroupOf;
    var longer := applets + [a];
    assert longer[|applets|] == a && forall k :: 0 <= k < |applets| ==> longer[k] == applets[k];
  }

  lemma {:induction false} GroupsOfWidgets(panel: nat, location: string, ws: seq<Widget>, first: nat, n: nat,
                                           plugins: seq<string>, x: Section)
    requires n <= |ws| && x.header.AppletGroup? && forall w :: w in ws ==> w.config.Valid()
    ensures x in SectionsAfter(panel, location, ws, first, n, plugins) <==>
            GroupOfSome(x, panel, ws, AppletIds(ws, first, n, plugins))
  {
    hide WidgetSections, AppletIdOf, IdsTaken, IsGroupOf, GroupOfSome;
    if n > 0 {
      GroupsOfWidgets(panel, location, ws, first, n - 1, plugins, x);
      assert ws[n - 1] in ws;
      var id := IdAfter(ws, first, n - 1, plugins);
      GroupsOfWidget(panel, location, id, ws[n - 1], plugins, x);
      GroupOfSnoc(x, panel, ws, AppletIds(ws, first, n - 1, plugins), AppletIdOf(ws[n - 1], id));
    } else {
      NoGroups(x, panel, ws);
    }
  }

  lemma NoGroups(x: Section, panel: nat, ws: seq<Widget>)
    ensures !GroupOfSome(x, panel, ws, [])
  {
  }

  /** The groups in the file are exactly those of the widgets that are no trays, verbatim, each under its applet. */
  lemma GroupsExact(panel: Panel, first: nat, plugins: seq<string>, x: Section)
    requires ValidPanel(panel) && x.header.AppletGroup?
    ensures var s := Built(panel, first, plugins);
            && |PanelApplets(s, first + 1)| == |panel.widgets|
            && (x in s <==> GroupOfSome(x, first + 1, panel.widgets, PanelApplets(s, first + 1)))
  {
    hide SectionsAfter, AppletIds, PanelApplets, GroupOfSome, FinalGeneral, Prologue, DialogSection;
    PanelAppletsOfBuilt(panel, first, plugins);
    GroupsOfWidgets(first + 1, Decimal(panel.location), panel.widgets, first + 2, |panel.widgets|, plugins, x);
    NoGroupElsewhere(panel, first, FinalGeneral(panel, first, plugins));
  }

  lemma NoGroupElsewhere(panel: Panel, first: nat, general: Dict<string>)
    ensures forall x :: x in Prologue(panel, first, general) + [DialogSection(first + 1)] ==> !x.header.AppletGroup?
  {
    hide ContainmentEntries, Entries;
  }

  // ---- The trays ----

  /** An applet of this plugin. */
  predicate IsApplet(x: Section, id: nat, applet: int, plugin: string) {
    && x.header.Applet? && x.header.id == id && x.header.applet == applet
    && x.entries.entries == map["immutability" := "1", "plugin" := plugin]
  }

  /** The tray under this number: its reference, its containment, its list of items, and an applet for each item. */
  ghost predicate IsTray(s: seq<Section>, panel: nat, location: string, applet: int, tray: nat, plugins: seq<string>) {
    && (exists x :: x in s && x.header.AppletConfig? && x.header.id == panel && x.header.applet == applet &&
          x.entries.entries == map["PreloadWeight" := "100", "SystrayContainmentId" := Decimal(tray)])
    && (exists x :: x in s && x.header == Containment(tray) &&
          x.entries.entries == map["activityId" := "", "formfactor" := "2", "immutability" := "1", "lastScreen" := "0",
                                   "location" := location, "plugin" := "org.kde.plasma.private.systemtray"])
    && (exists x :: x in s && x.header == General(tray) &&
          x.entries.entries == map["extraItems" := Join(";", plugins), "knownItems" := Join(";", plugins)])
    && (forall p :: p in plugins ==> exists x, a :: x in s && IsApplet(x, tray, a, p))
  }

  ghost predicate HasTray(s: seq<Section>, panel: nat, location: string, applet: int, plugins: seq<string>) {
    exists tray: nat :: IsTray(s, panel, location, applet, tray, plugins)
  }

  lemma AppletEntriesAre(plugin: string)
    ensures AppletEntries(plugin).entries == map["immutability" := "1", "plugin" := plugin]
  {
    hide Entries;
    TwoEntries("immutability", "1", "plugin", plugin);
  }

  lemma TrayEntriesAre(tray: nat, plugins: seq<string>)
    ensures TrayReference(tray).entries == map["PreloadWeight" := "100", "SystrayContainmentId" := Decimal(tray)]
    ensures TrayGeneral(tray, plugins).entries.entries ==
            map["extraItems" := Join(";", plugins), "knownItems" := Join(";", plugins)]
  {
    hide Decimal, Join, Entries;
    TwoEntries("PreloadWeight", "100", "SystrayContainmentId", Decimal(tray));
    TwoEntries("extraItems", Join(";", plugins), "knownItems", Join(";", plugins));
  }

  lemma ContainmentEntriesAre(formfactor: string, location: string, plugin: string)
    ensures ContainmentEntries(formfactor, location, plugin).entries ==
            map["activityId" := "", "formfactor" := formfactor, "immutability" := "1", "lastScreen" := "0",
                "location" := location, "plugin" := plugin]
  {
    hide Entries;
    var two := [("activityId", ""), ("formfactor", formfactor)];
    TwoEntries("activityId", "", "formfactor", formfactor);
    EntriesSnoc(two, "immutability", "1");
    EntriesSnoc(two + [("immutability", "1")], "lastScreen", "0");
    var four := two + [("immutability", "1")] + [("lastScreen", "0")];
    EntriesSnoc(four, "location", location);
    EntriesSnoc(four + [("location", location)], "plugin", plugin);
    assert four + [("location", location)] + [("plugin", plugin)] ==
           [("activityId", ""), ("formfactor", formfactor), ("immutability", "1"), ("lastScreen", "0"),
            ("location", location), ("plugin", plugin)];
  }

  lemma TrayOf(panel: nat, location: string, id: nat, plugins: seq<string>)
    ensures IsTray(TraySections(panel, location, id, plugins), panel, location, id + 1, id, plugins)
  {
    hide AppletEntries, TrayReference, ContainmentEntries, Entries, Decimal, Join;
    var s := TraySections(panel, location, id, plugins);
    TrayEntriesAre(id, plugins);
    ContainmentEntriesAre("2", location, "org.kde.plasma.private.systemtray");
    assert s[1] in s && s[2] in s;
    assert s[3 + |plugins|] == TrayGeneral(id, plugins) && s[3 + |plugins|] in s;
    forall p | p in plugins ensures exists x, a :: x in s && IsApplet(x, id, a, p) {
      var k :| 0 <= k < |plugins| && plugins[k] == p;
      AppletEntriesAre(p);
      assert s[3 + k] in s && s[3 + k] == Section(Applet(id, id + 2 + k), AppletEntries(p));
      assert IsApplet(s[3 + k], id, id + 2 + k, p);
    }
  }

  lemma IsTrayWidens(s: seq<Section>, t: seq<Section>, panel: nat, location: string, applet: int, tray: nat,
                     plugins: seq<string>)
    requires IsTray(s, panel, location, applet, tray, plugins) && forall x :: x in s ==> x in t
    ensures IsTray(t, panel, location, applet, tray, plugins)
  {
    hide IsApplet, Decimal, Join;
  }

  lemma {:induction false} TraysOf(panel: nat, location: string, ws: seq<Widget>, first: nat, n: nat,
                                   plugins: seq<string>, k: nat)
    requires k < n <= |ws| && ws[k].plugin == SYSTEM_TRAY
    ensures HasTray(SectionsAfter(panel, location, ws, first, n, plugins), panel, location,
                    AppletIds(ws, first, n, plugins)[k], plugins)
  {
    hide IsTray, TraySections, PlainSections;
    var id := IdAfter(ws, first, n - 1, plugins);
    var before := SectionsAfter(panel, location, ws, first, n - 1, plugins);
    var all := SectionsAfter(panel, location, ws, first, n, plugins);
    var applet := AppletIds(ws, first, n, plugins)[k];
    if k == n - 1 {
      TrayOf(panel, location, id, plugins);
      IsTrayWidens(TraySections(panel, location, id, plugins), all, panel, location, applet, id, plugins);
    } else {
      TraysOf(panel, location, ws, first, n - 1, plugins, k);
      var tray: nat :| IsTray(before, panel, location, applet, tray, plugins);
      IsTrayWidens(before, all, panel, location, applet, tray, plugins);
    }
  }

  /** Every tray widget has a tray of its own in the file, complete with its items. */
  lemma TraysComplete(panel: Panel, first: nat, plugins: seq<string>, k: nat)
    requires k < |panel.widgets| && panel.widgets[k].plugin == SYSTEM_TRAY
    ensures var s := Built(panel, first, plugins);
            && |PanelApplets(s, first + 1)| == |panel.widgets|
            && HasTray(s, first + 1, Decimal(panel.location), PanelApplets(s, first + 1)[k], plugins)
  {
    hide IsTray, AppletIds, PanelApplets, FinalGeneral, Prologue, DialogSection, SectionsAfter;
    PanelAppletsOfBuilt(panel, first, plugins);
    var s, widgets := Built(panel, first, plugins), WidgetPart(panel, first, plugins);
    var location := Decimal(panel.location);
    TraysOf(first + 1, location, panel.widgets, first + 2, |panel.widgets|, plugins, k);
    var a := AppletIds(panel.widgets, first + 2, |panel.widgets|, plugins)[k];
    var tray: nat :| IsTray(widgets, first + 1, location, a, tray, plugins);
    IsTrayWidens(widgets, s, first + 1, location, a, tray, plugins);
  }

  /** The k-th number in the panel's order is that of an applet with the k-th widget's plugin. */
  lemma WidgetHasApplet(panel: Panel, first: nat, plugins: seq<string>, k: nat)
    requires k < |panel.widgets|
    ensures var s := Built(panel, first, plugins);
            && |PanelApplets(s, first + 1)| == |panel.widgets|
            && exists x :: x in s && IsApplet(x, first + 1, PanelApplets(s, first + 1)[k], panel.widgets[k].plugin)
  {
    hide AppletIds, PanelApplets, FinalGeneral, Prologue, DialogSection, SectionsAfter, AppletEntries;
    PanelAppletsOfBuilt(panel, first, plugins);
    var n := |panel.widgets|;
    AppletOfWidgetThere(first + 1, Decimal(panel.location), panel.widgets, first + 2, n, plugins, k);
    var plugin := panel.widgets[k].plugin;
    var x := Section(Applet(first + 1, AppletIds(panel.widgets, first + 2, n, plugins)[k]), AppletEntries(plugin));
    AppletEntriesAre(plugin);
    assert x in WidgetPart(panel, first, plugins) && x in Built(panel, first, plugins);
    assert IsApplet(x, first + 1, PanelApplets(Built(panel, first, plugins), first + 1)[k], plugin);
  }

  /** The file begins with the desktop and the panel, at the panel's place on the screen, and ends with the dialog. */
  lemma FrameExact(panel: Panel, first: nat, plugins: seq<string>)
    ensures var s := Built(panel, first, plugins);
            && |s| > 3 && s[0].header == Containment(first) && s[1].header == Containment(first + 1)
            && s[0].entries.entries ==
               map["activityId" := "", "formfactor" := "0", "immutability" := "1", "lastScreen" := "0",
                   "location" := "0", "plugin" := "org.kde.desktopcontainment", "wallpaperplugin" := "org.kde.image"]
            && s[1].entries.entries ==
               map["activityId" := "", "formfactor" := "2", "immutability" := "1", "lastScreen" := "0",
                   "location" := Decimal(panel.location), "plugin" := "org.kde.panel", "wallpaperplugin" := ""]
            && s[|s| - 1].header == ConfigDialog(first + 1)
            && s[|s| - 1].entries.entries == map["DialogHeight" := "84", "DialogWidth" := "1920"]
  {
    hide ContainmentEntries, Entries, WidgetPart, FinalGeneral, Decimal;
    ContainmentEntriesAre("0", "0", "org.kde.desktopcontainment");
    ContainmentEntriesAre("2", Decimal(panel.location), "org.kde.panel");
    TwoEntries("DialogHeight", "84", "DialogWidth", "1920");
    var s := Built(panel, first, plugins);
    assert s[0] == DesktopSection(first) && s[1] == PanelSection(first + 1, Decimal(panel.location));
    assert s[|s| - 1] == DialogSection(first + 1);
  }
}
