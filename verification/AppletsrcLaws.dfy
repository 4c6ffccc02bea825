/** Numbers are never reused, headers are distinct, and every reference in the panel configuration is sound. */
module AppletsrcLaws {
  import opened Text
  import opened Wrappers
  import opened Dicts
  import opened Appletsrc

  // ---- Headers as text ----

  predicate HasApplet(h: Header) {
    h.Applet? || h.AppletConfig? || h.AppletGroup?
  }

  /** What follows the applet's number in a header. */
  function AfterApplet(h: Header): string
    requires HasApplet(h)
  {
    match h
    case Applet(_, _) => ""
    case AppletConfig(_, _) => "][Configuration"
    case AppletGroup(_, _, g) => "][Configuration][" + g
  }

  lemma TailOfApplet(h: Header)
    requires HasApplet(h)
    ensures Tail(h) == "][Applets][" + (Decimal(h.applet) + AfterApplet(h))
  {
    if h.Applet? { assert Decimal(h.applet) + "" == Decimal(h.applet); }
  }

  lemma AfterAppletInjective(a: Header, b: Header)
    requires HasApplet(a) && HasApplet(b) && AfterApplet(a) == AfterApplet(b) && a.id == b.id && a.applet == b.applet
    ensures a == b
  {
    if a.AppletGroup? && b.AppletGroup? {
      assert AfterApplet(a)[17..] == a.group && AfterApplet(b)[17..] == b.group;
    }
  }

  /** The third character of a tail tells the kinds of header apart. */
  lemma TailKind(h: Header)
    ensures h.Containment? <==> Tail(h) == ""
    ensures !h.Containment? ==>
            |Tail(h)| > 2 && Tail(h)[2] == if h.General? then 'G' else if h.ConfigDialog? then 'C' else 'A'
  {
    if HasApplet(h) { TailOfApplet(h); }
  }

  lemma TailInjective(a: Header, b: Header)
    requires Tail(a) == Tail(b) && a.id == b.id
    ensures a == b
  {
    if HasApplet(a) { TailOfApplet(a); }
    if HasApplet(b) { TailOfApplet(b); }
    TailKind(a);
    TailKind(b);
    if HasApplet(a) && HasApplet(b) {
      var x, y := Decimal(a.applet) + AfterApplet(a), Decimal(b.applet) + AfterApplet(b);
      assert x == Tail(a)[11..] && y == Tail(b)[11..];
      DigitsThenRest(Decimal(a.applet), AfterApplet(a), Decimal(b.applet), AfterApplet(b));
      DecimalInjective(a.applet, b.applet);
      AfterAppletInjective(a, b);
    }
  }

  /** Different headers are different texts, whatever the group names are. */
  lemma RenderInjective(a: Header, b: Header)
    requires Render(a) == Render(b)
    ensures a == b
  {
    var x, y := Decimal(a.id) + Tail(a), Decimal(b.id) + Tail(b);
    assert x == Render(a)[14..] && y == Render(b)[14..];
    DigitsThenRest(Decimal(a.id), Tail(a), Decimal(b.id), Tail(b));
    DecimalInjective(a.id, b.id);
    TailInjective(a, b);
  }

  // ---- Numbers and headers of consecutive parts ----

  /** The number that a section is about: an applet's if it has one, else the containment's. */
  function About(h: Header): nat {
    if HasApplet(h) then h.applet else h.id
  }

  /** The number that a section introduces. */
  function Introduces(h: Header): Option<nat> {
    if h.Containment? || h.Applet? then Some(About(h)) else None
  }

  ghost predicate DistinctHeaders(s: seq<Section>) {
    forall i, j :: 0 <= i < j < |s| ==> s[i].header != s[j].header
  }

  /** No number is introduced twice. */
  ghost predicate NoReuse(s: seq<Section>) {
    forall i, j :: 0 <= i < j < |s| && Introduces(s[i].header).Some? ==>
        Introduces(s[i].header) != Introduces(s[j].header)
  }

  ghost predicate Within(s: seq<Section>, lo: nat, hi: nat) {
    forall i :: 0 <= i < |s| ==> lo <= About(s[i].header) < hi
  }

  ghost predicate WellNumbered(s: seq<Section>, lo: nat, hi: nat) {
    DistinctHeaders(s) && NoReuse(s) && Within(s, lo, hi)
  }

  lemma WellNumberedConcat(p: seq<Section>, q: seq<Section>, lo: nat, mid: nat, hi: nat)
    requires WellNumbered(p, lo, mid) && WellNumbered(q, mid, hi) && lo <= mid <= hi
    ensures WellNumbered(p + q, lo, hi)
  {
    var s := p + q;
    forall i, j | 0 <= i < j < |s|
      ensures s[i].header != s[j].header
      ensures Introduces(s[i].header).Some? ==> Introduces(s[i].header) != Introduces(s[j].header)
    {
      if i < |p| <= j {
        assert About(s[i].header) < mid <= About(s[j].header);
      }
    }
  }

  lemma TrayWellNumbered(panel: nat, location: string, id: nat, plugins: seq<string>)
    requires panel < id
    ensures WellNumbered(TraySections(panel, location, id, plugins), id, id + 2 + |plugins|)
  {
    hide AppletEntries, TrayReference, ContainmentEntries, Entries, TrayGeneral;
    var s := TraySections(panel, location, id, plugins);
    var n := |plugins|;
    assert s[0].header == Applet(panel, id + 1) && s[1].header == AppletConfig(panel, id + 1)
           && s[2].header == Containment(id);
    assert forall k :: 3 <= k < 3 + n ==> s[k].header == Applet(id, id + k - 1);
    assert s[3 + n] == TrayGeneral(id, plugins) && |s| == n + 4;
    TrayGeneralHeader(id, plugins);
    WellNumberedTray(s, panel, id, n);
  }

  lemma TrayGeneralHeader(id: nat, plugins: seq<string>)
    ensures TrayGeneral(id, plugins).header == General(id)
  {
  }

  lemma WellNumberedTray(s: seq<Section>, panel: nat, id: nat, n: nat)
    requires panel < id && |s| == n + 4
    requires s[0].header == Applet(panel, id + 1) && s[1].header == AppletConfig(panel, id + 1)
    requires s[2].header == Containment(id)
    requires forall k :: 3 <= k < 3 + n ==> s[k].header == Applet(id, id + k - 1)
    requires s[3 + n].header == General(id)
    ensures WellNumbered(s, id, id + 2 + n)
  {
  }

  lemma PlainWellNumbered(panel: nat, id: nat, w: Widget)
    requires panel < id && w.config.Valid()
    ensures WellNumbered(PlainSections(panel, id, w), id, id + 1)
  {
    var s := PlainSections(panel, id, w);
    var keys := w.config.keys;
    assert forall k :: 1 <= k < |s| ==> s[k].header == AppletGroup(panel, id, keys[k - 1]);
  }

  lemma WidgetWellNumbered(panel: nat, location: string, id: nat, w: Widget, plugins: seq<string>)
    requires panel < id && w.config.Valid()
    ensures WellNumbered(WidgetSections(panel, location, id, w, plugins), id, id + IdsTaken(w, plugins))
  {
    hide TraySections, PlainSections, WellNumbered;
    if w.plugin == SYSTEM_TRAY {
      TrayWellNumbered(panel, location, id, plugins);
    } else {
      PlainWellNumbered(panel, id, w);
    }
  }

  lemma {:induction false} WidgetsWellNumbered(panel: nat, location: string, ws: seq<Widget>, first: nat, n: nat,
                                               plugins: seq<string>)
    requires n <= |ws| && panel < first && forall w :: w in ws ==> w.config.Valid()
    ensures WellNumbered(SectionsAfter(panel, location, ws, first, n, plugins), first, IdAfter(ws, first, n, plugins))
  {
    hide WidgetSections, IdsTaken;
    if n > 0 {
      WidgetsWellNumbered(panel, location, ws, first, n - 1, plugins);
      assert ws[n - 1] in ws;
      var id := IdAfter(ws, first, n - 1, plugins);
      WidgetWellNumbered(panel, location, id, ws[n - 1], plugins);
      WellNumberedConcat(SectionsAfter(panel, location, ws, first, n - 1, plugins),
                         WidgetSections(panel, location, id, ws[n - 1], plugins),
                         first, id, IdAfter(ws, first, n, plugins));
    }
  }

  lemma PrologueWellNumbered(panel: Panel, first: nat, general: Dict<string>)
    ensures WellNumbered(Prologue(panel, first, general), first, first + 2)
  {
    hide ContainmentEntries, Entries;
    var s := Prologue(panel, first, general);
    assert s[0].header == Containment(first) && s[1].header == Containment(first + 1)
           && s[2].header == General(first + 1);
  }

  /** The dialog section comes last, but is about the panel: its header is new all the same. */
  lemma DialogIsNew(s: seq<Section>, id: nat, lo: nat, hi: nat, e: Dict<string>)
    requires WellNumbered(s, lo, hi) && lo <= id < hi && forall x :: x in s ==> !x.header.ConfigDialog?
    ensures WellNumbered(s + [Section(ConfigDialog(id), e)], lo, hi)
  {
    var t := s + [Section(ConfigDialog(id), e)];
    forall i | 0 <= i < |s| ensures t[i].header != ConfigDialog(id) { assert s[i] in s; }
  }

  lemma {:induction false} NoDialogInWidgets(panel: nat, location: string, ws: seq<Widget>, first: nat, n: nat,
                                             plugins: seq<string>)
    requires n <= |ws|
    ensures forall x :: x in SectionsAfter(panel, location, ws, first, n, plugins) ==> !x.header.ConfigDialog?
  {
    hide WidgetSections;
    if n > 0 {
      NoDialogInWidgets(panel, location, ws, first, n - 1, plugins);
      NoDialogInWidget(panel, location, IdAfter(ws, first, n - 1, plugins), ws[n - 1], plugins);
    }
  }

  lemma NoDialogInWidget(panel: nat, location: string, id: nat, w: Widget, plugins: seq<string>)
    ensures forall x :: x in WidgetSections(panel, location, id, w, plugins) ==> !x.header.ConfigDialog?
  {
    hide AppletEntries, TrayReference, ContainmentEntries, Entries;
  }

  /** The sections of a built file are well numbered: from the first free number to the next free one. */
  lemma BuiltWellNumbered(panel: Panel, first: nat, plugins: seq<string>)
    requires ValidPanel(panel)
    ensures WellNumbered(Built(panel, first, plugins), first,
                         IdAfter(panel.widgets, first + 2, |panel.widgets|, plugins))
  {
    hide SectionsAfter, FinalGeneral, WellNumbered, Prologue;
    var widgets := WidgetPart(panel, first, plugins);
    var general := FinalGeneral(panel, first, plugins);
    var next := IdAfter(panel.widgets, first + 2, |panel.widgets|, plugins);
    var prologue := Prologue(panel, first, general);
    PrologueWellNumbered(panel, first, general);
    WidgetsWellNumbered(first + 1, Decimal(panel.location), panel.widgets, first + 2, |panel.widgets|, plugins);
    WellNumberedConcat(prologue, widgets, first, first + 2, next);
    NoDialogInWidgets(first + 1, Decimal(panel.location), panel.widgets, first + 2, |panel.widgets|, plugins);
    NoDialogInPrologue(panel, first, general);
    DialogIsNew(prologue + widgets, first + 1, first, next, DialogSection(first + 1).entries);
  }

  lemma NoDialogInPrologue(panel: Panel, first: nat, general: Dict<string>)
    ensures forall x :: x in Prologue(panel, first, general) ==> !x.header.ConfigDialog?
  {
    hide ContainmentEntries, Entries;
  }

  /** For every widget list, no number is introduced twice and no two sections have the same header text. */
  lemma NothingIsReused(panel: Panel, first: nat, plugins: seq<string>)
    requires ValidPanel(panel)
    ensures var s := Built(panel, first, plugins);
            && (forall i, j :: 0 <= i < j < |s| ==> Render(s[i].header) != Render(s[j].header))
            && NoReuse(s)
  {
    hide Built, Render;
    BuiltWellNumbered(panel, first, plugins);
    var s := Built(panel, first, plugins);
    forall i, j | 0 <= i < j < |s| ensures Render(s[i].header) != Render(s[j].header) {
      if Render(s[i].header) == Render(s[j].header) { RenderInjective(s[i].header, s[j].header); }
    }
  }

  // ---- The applet order ----

  /** Among the sections of one widget, the applet in the panel is the only one, with the widget's own plugin. */
  lemma PanelAppletOfWidget(panel: nat, location: string, id: nat, w: Widget, plugins: seq<string>, a: nat)
    requires panel < id
    ensures var s := WidgetSections(panel, location, id, w, plugins);
            && s != [] && s[0] == Section(Applet(panel, AppletIdOf(w, id)), AppletEntries(w.plugin))
            && forall k :: 0 < k < |s| ==> s[k].header != Applet(panel, a)
  {
    hide AppletEntries, TrayReference, ContainmentEntries, Entries;
  }

  /** The panel's applets, in the order of their sections. */
  function PanelApplets(s: seq<Section>, panel: nat): seq<int> {
    if s == [] then []
    else
      var last := s[|s| - 1].header;
      PanelApplets(s[..|s| - 1], panel) + if last.Applet? && last.id == panel then [last.applet] else []
  }

  lemma {:induction false} PanelAppletsConcat(p: seq<Section>, q: seq<Section>, panel: nat)
    ensures PanelApplets(p + q, panel) == PanelApplets(p, panel) + PanelApplets(q, panel)
  {
    if q == [] {
      assert p + q == p;
    } else {
      assert (p + q)[..|p + q| - 1] == p + q[..|q| - 1];
      PanelAppletsConcat(p, q[..|q| - 1], panel);
    }
  }

  lemma {:induction false} NoPanelApplets(s: seq<Section>, panel: nat)
    requires forall k :: 0 <= k < |s| ==> !(s[k].header.Applet? && s[k].header.id == panel)
    ensures PanelApplets(s, panel) == []
  {
    if s != [] { NoPanelApplets(s[..|s| - 1], panel); }
  }

  lemma PanelAppletsOfWidget(panel: nat, location: string, id: nat, w: Widget, plugins: seq<string>)
    requires panel < id
    ensures PanelApplets(WidgetSections(panel, location, id, w, plugins), panel) == [AppletIdOf(w, id)]
  {
    hide WidgetSections, AppletIdOf;
    var s := WidgetSections(panel, location, id, w, plugins);
    var a := AppletIdOf(w, id);
    PanelAppletOfWidget(panel, location, id, w, plugins, a);
    forall k | 0 < k < |s| ensures !(s[k].header.Applet? && s[k].header.id == panel) {
      if s[k].header.Applet? { PanelAppletOfWidget(panel, location, id, w, plugins, s[k].header.applet); }
    }
    assert s == [s[0]] + s[1..];
    NoPanelApplets(s[1..], panel);
    PanelAppletsConcat([s[0]], s[1..], panel);
    assert [s[0]][..0] == [] && PanelApplets([s[0]], panel) == [a as int];
  }

  lemma {:induction false} PanelAppletsOfWidgets(panel: nat, location: string, ws: seq<Widget>, first: nat, n: nat,
                                                 plugins: seq<string>)
    requires n <= |ws| && panel < first
    ensures PanelApplets(SectionsAfter(panel, location, ws, first, n, plugins), panel) ==
            AppletIds(ws, first, n, plugins)
  {
    hide WidgetSections, AppletIdOf, IdsTaken;
    if n > 0 {
      var id := IdAfter(ws, first, n - 1, plugins);
      PanelAppletsOfWidgets(panel, location, ws, first, n - 1, plugins);
      PanelAppletsOfWidget(panel, location, id, ws[n - 1], plugins);
      PanelAppletsConcat(SectionsAfter(panel, location, ws, first, n - 1, plugins),
                         WidgetSections(panel, location, id, ws[n - 1], plugins), panel);
    }
  }

  lemma OrderSurvivesGeometry(d: Dict<string>, panel: Panel, ids: seq<int>)
    ensures WithGeometry(WithOrder(d, ids), panel).Get("AppletOrder") == Some(Join(";", Decimals(ids)))
  {
    assert "panelVisibility" != "AppletOrder" && "thickness" != "AppletOrder";
    assert "alignment" != "AppletOrder" && "lengthMode" != "AppletOrder";
  }

  lemma PrologueHasNoApplet(panel: Panel, first: nat, general: Dict<string>, id: nat)
    ensures PanelApplets(Prologue(panel, first, general), id) == []
  {
    hide ContainmentEntries, Entries;
    NoPanelApplets(Prologue(panel, first, general), id);
  }

  lemma PanelAppletsOfBuilt(panel: Panel, first: nat, plugins: seq<string>)
    ensures PanelApplets(Built(panel, first, plugins), first + 1) ==
            AppletIds(panel.widgets, first + 2, |panel.widgets|, plugins)
  {
    hide SectionsAfter, AppletIds, FinalGeneral, DialogSection, Prologue;
    var widgets := WidgetPart(panel, first, plugins);
    var prologue := Prologue(panel, first, FinalGeneral(panel, first, plugins));
    PanelAppletsOfWidgets(first + 1, Decimal(panel.location), panel.widgets, first + 2, |panel.widgets|, plugins);
    PrologueHasNoApplet(panel, first, FinalGeneral(panel, first, plugins), first + 1);
    DialogIsNoApplet(first + 1);
    PanelAppletsConcat(prologue, widgets, first + 1);
    PanelAppletsConcat(prologue + widgets, [DialogSection(first + 1)], first + 1);
  }

  lemma GeneralOfBuilt(panel: Panel, first: nat, plugins: seq<string>)
    ensures var s := Built(panel, first, plugins);
            |s| > 2 && s[2] == Section(General(first + 1), FinalGeneral(panel, first, plugins))
  {
    hide FinalGeneral, DesktopSection, PanelSection, WidgetPart, DialogSection;
    var prologue := Prologue(panel, first, FinalGeneral(panel, first, plugins));
    assert |prologue| == 3 && Built(panel, first, plugins)[2] == prologue[2];
  }

  /**
   * The panel's applet sections are in widget order, one for each widget, and `AppletOrder` is exactly their
   * numbers.
   */
  lemma AppletOrderIsExact(panel: Panel, first: nat, plugins: seq<string>)
    ensures var s := Built(panel, first, plugins);
            && |s| > 2 && s[2].header == General(first + 1)
            && s[2].entries.Get("AppletOrder") == Some(Join(";", Decimals(PanelApplets(s, first + 1))))
            && |PanelApplets(s, first + 1)| == |panel.widgets|
  {
    hide Built, GeneralDraft, WithOrder, WithGeometry;
    GeneralOfBuilt(panel, first, plugins);
    PanelAppletsOfBuilt(panel, first, plugins);
    OrderSurvivesGeometry(GeneralDraft(panel.floating), panel,
                          AppletIds(panel.widgets, first + 2, |panel.widgets|, plugins));
  }

  lemma DialogIsNoApplet(id: nat)
    ensures PanelApplets([DialogSection(id)], id) == []
  {
    NoPanelApplets([DialogSection(id)], id);
  }

  /** The k-th number in the order is that of an applet section with the k-th widget's plugin. */
  lemma {:induction false} AppletOfWidgetThere(panel: nat, location: string, ws: seq<Widget>, first: nat, n: nat,
                                               plugins: seq<string>, k: nat)
    requires k < n <= |ws| && panel < first
    ensures Section(Applet(panel, AppletIds(ws, first, n, plugins)[k]), AppletEntries(ws[k].plugin))
            in SectionsAfter(panel, location, ws, first, n, plugins)
  {
    hide WidgetSections, AppletEntries, AppletIdOf, IdsTaken;
    var id := IdAfter(ws, first, n - 1, plugins);
    var last := WidgetSections(panel, location, id, ws[n - 1], plugins);
    if k == n - 1 {
      PanelAppletOfWidget(panel, location, id, ws[k], plugins, 0);
      assert last[0] in last;
    } else {
      AppletOfWidgetThere(panel, location, ws, first, n - 1, plugins, k);
    }
  }

  // ---- The trays ----

  predicate IsTrayContainment(s: Section, id: nat) {
    s.header == Containment(id) && s.entries.Get("plugin") == Some("org.kde.plasma.private.systemtray")
  }

  /** A reference from an applet to a tray containment that is there. */
  ghost predicate RefersToTray(s: seq<Section>, ref: Section) {
    exists id: nat, t :: t in s && IsTrayContainment(t, id)
      && ref.entries.Get("SystrayContainmentId") == Some(Decimal(id))
  }

  lemma TrayEntries(location: string, id: nat)
    ensures TrayReference(id).Get("SystrayContainmentId") == Some(Decimal(id))
    ensures ContainmentEntries("2", location, "org.kde.plasma.private.systemtray").Get("plugin") ==
            Some("org.kde.plasma.private.systemtray")
  {
    var pairs := [("PreloadWeight", "100"), ("SystrayContainmentId", Decimal(id))];
    assert pairs[..|pairs| - 1] == [("PreloadWeight", "100")];
  }

  /** Every tray reference in the sections of one widget names that widget's tray containment. */
  lemma TrayOfWidget(panel: nat, location: string, id: nat, w: Widget, plugins: seq<string>)
    ensures var s := WidgetSections(panel, location, id, w, plugins);
            forall r :: r in s && r.header.AppletConfig? ==> RefersToTray(s, r)
  {
    hide AppletEntries, TrayReference, ContainmentEntries, Entries;
    if w.plugin == SYSTEM_TRAY {
      TrayEntries(location, id);
      var s := TraySections(panel, location, id, plugins);
      assert s[2] in s && IsTrayContainment(s[2], id);
    }
  }

  lemma {:induction false} TraysOfWidgets(panel: nat, location: string, ws: seq<Widget>, first: nat, n: nat,
                                          plugins: seq<string>)
    requires n <= |ws|
    ensures var s := SectionsAfter(panel, location, ws, first, n, plugins);
            forall r :: r in s && r.header.AppletConfig? ==> RefersToTray(s, r)
  {
    hide WidgetSections, IdsTaken;
    if n > 0 {
      TraysOfWidgets(panel, location, ws, first, n - 1, plugins);
      TrayOfWidget(panel, location, IdAfter(ws, first, n - 1, plugins), ws[n - 1], plugins);
    }
  }

  lemma NoReferenceElsewhere(panel: Panel, first: nat, general: Dict<string>)
    ensures forall x :: x in Prologue(panel, first, general) + [DialogSection(first + 1)] ==> !x.header.AppletConfig?
  {
    hide ContainmentEntries, Entries;
  }

  /** Each `SystrayContainmentId` names a system-tray containment of the same file. */
  lemma TrayReferencesExist(panel: Panel, first: nat, plugins: seq<string>)
    ensures var s := Built(panel, first, plugins);
            forall r :: r in s && r.header.AppletConfig? ==> RefersToTray(s, r)
  {
    hide SectionsAfter, FinalGeneral, Prologue, DialogSection;
    var general := FinalGeneral(panel, first, plugins);
    var s, widgets := Built(panel, first, plugins), WidgetPart(panel, first, plugins);
    NoReferenceElsewhere(panel, first, general);
    TraysOfWidgets(first + 1, Decimal(panel.location), panel.widgets, first + 2, |panel.widgets|, plugins);
    forall r | r in s && r.header.AppletConfig? ensures RefersToTray(s, r) {
      assert r in Prologue(panel, first, general) + [DialogSection(first + 1)] || r in widgets;
      assert RefersToTray(widgets, r);
    }
  }
}
