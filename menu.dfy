/**
 * DebugInitializer: the menu controller. Each frame it reads two key releases:
 * F1 builds the menu the first time and toggles its visibility, Escape closes a
 * visible menu. Building scans the debug assembly, opens one tab and panel per
 * tab key, fills each panel with header labels and action buttons, and selects
 * the first tab. Clicking a button resolves a receiver through the registry and
 * invokes the action.
 *
 * The canvas, panels, buttons and labels are plain state here: `initialized`
 * stands for a non-null canvas view, `visible` for its visibility, `tabs` for the
 * tab buttons in creation order, `tabPanels` for each panel's active flag and
 * `panels` for each panel's contents.
 */
module Menu {
  import opened Wrappers
  import opened Seqs
  import opened Reflection
  import opened Grouping
  import opened Registry
  import opened Layout
  import Resolver

  /** The keys released during one frame. */
  datatype FrameInput = FrameInput(f1Up: bool, escUp: bool)

  /** An exception that escapes Update while the menu is being built. */
  datatype Fault =
    | MissingAssembly(error: Resolver.ResolveError)  // the dereference of the missing assembly
    | NoTabs                                         // First() on an empty grouping

  class DebugInitializer {
    /** The loaded assemblies and the serialized assembly name to scan. */
    const assemblies: seq<AssemblyInfo>
    const assemblyName: string
    /** The process-wide instance registry. */
    const registry: InstanceRegistry

    var initialized: bool
    var visible: bool
    var tabs: seq<string>
    var selected: Option<string>
    var tabPanels: map<string, bool>
    var panels: map<string, seq<Widget>>
    /** The action methods invoked so far, with their receivers. */
    var invocations: seq<Invocation>
    /** The errors logged while scanning. */
    var errors: seq<Resolver.ResolveError>

    /** One panel per tab, tab names unique, nothing built before initialisation. */
    ghost predicate Consistent()
      reads this, registry
    {
      && registry.Valid()
      && Distinct(tabs)
      && tabPanels.Keys == Elements(tabs)
      && panels.Keys == Elements(tabs)
      && (selected.Some? ==> selected.value in tabPanels)
      && (!initialized ==> tabs == [] && !visible && selected == None)
    }

    /** Never are two panels shown at once. */
    ghost predicate AtMostOneActive()
      reads this
    {
      forall k, k' :: k in tabPanels && k' in tabPanels && tabPanels[k] && tabPanels[k'] ==> k == k'
    }

    ghost predicate Valid()
      reads this, registry
    {
      Consistent() && AtMostOneActive()
    }

    /** The tabs and panels are those of `actions`: one tab per tab group, in first-seen order. */
    ghost predicate Built(actions: seq<DebugAction>)
      reads this
    {
      var groups := TabGroups(actions);
      && tabs == Keys(groups)
      && forall i :: 0 <= i < |groups| ==> groups[i].key in panels && panels[groups[i].key] == PanelWidgets(groups[i].items)
    }

    /**
     * What building the menu leaves behind, given the errors logged before:
     * with no matching assembly, the error is logged and nothing is built; with
     * no actions, nothing is built and First() throws; otherwise the tree is
     * built and the first tab is the selected and only active one.
     */
    ghost predicate InitOutcome(fault: Option<Fault>, errorsBefore: seq<Resolver.ResolveError>)
      reads this
    {
      && initialized
      && match Resolver.GetDebugActions(assemblies, assemblyName)
         case Failure(e) =>
           fault == Some(MissingAssembly(e)) && errors == errorsBefore + [e] && tabs == [] && selected == None
         case Success(actions) =>
           && errors == errorsBefore
           && Built(actions)
           && (actions == [] ==> fault == Some(NoTabs) && tabs == [] && selected == None)
           && (actions != [] ==>
                 && fault == None && |tabs| > 0
                 && tabs[0] == TabKey(actions[0])
                 && selected == Some(tabs[0])
                 && forall k :: k in tabPanels ==> tabPanels[k] == (k == tabs[0]))
    }

    constructor (assemblies: seq<AssemblyInfo>, assemblyName: string, registry: InstanceRegistry)
      requires registry.Valid()
      ensures Valid()
      ensures this.assemblies == assemblies && this.assemblyName == assemblyName && this.registry == registry
      ensures !initialized && !visible && tabs == [] && selected == None
      ensures tabPanels == map[] && panels == map[] && invocations == [] && errors == []
    {
      this.assemblies, this.assemblyName, this.registry := assemblies, assemblyName, registry;
      initialized, visible, tabs, selected := false, false, [], None;
      tabPanels, panels, invocations, errors := map[], map[], [], [];
    }

    /** One frame of input handling. */
    method Update(input: FrameInput) returns (fault: Option<Fault>)
      requires Valid()
      modifies this
      ensures Valid()
      ensures invocations == old(invocations)
      // F1 on a menu not yet built: build it, then show it unless building threw
      ensures input.f1Up && !old(initialized) ==> InitOutcome(fault, old(errors)) && visible == fault.None?
      // F1 later: only toggle
      ensures input.f1Up && old(initialized) ==> fault == None && visible == !old(visible)
      // Escape without F1 closes a visible menu; nothing else happens
      ensures !input.f1Up ==> fault == None && initialized == old(initialized) && visible == (old(visible) && !input.escUp)
      // once built, the tree is never rebuilt or changed here
      ensures old(initialized) || !input.f1Up ==>
                && tabs == old(tabs) && panels == old(panels) && tabPanels == old(tabPanels)
                && selected == old(selected) && errors == old(errors)
      ensures old(initialized) ==> initialized
    {
      fault := None;
      if input.f1Up {
        if !initialized {
          fault := Initialize();
          if fault.Some? {
            return;
          }
        }
        visible := !visible;
      } else if initialized && visible && input.escUp {
        visible := false;
      }
    }

    /** Builds the menu from the scanned actions (the canvas is instantiated first). */
    method Initialize() returns (fault: Option<Fault>)
      requires Valid() && !initialized
      modifies this
      ensures Valid()
      ensures InitOutcome(fault, old(errors))
      ensures visible == old(visible) && invocations == old(invocations)
    {
      initialized := true;
      var found := Resolver.GetDebugActions(assemblies, assemblyName);
      if found.Failure? {
        errors := errors + [found.error];
        return Some(MissingAssembly(found.error));
      }
      fault := BuildMenu(found.value);
    }

    /** The part of Initialize after a successful scan: the tabs and panels, then the first tab. */
    method BuildMenu(actions: seq<DebugAction>) returns (fault: Option<Fault>)
      requires tabs == [] && tabPanels == map[] && panels == map[] && selected == None
      modifies this`tabs, this`tabPanels, this`panels, this`selected
      ensures Built(actions)
      ensures Distinct(tabs) && tabPanels.Keys == Elements(tabs) && panels.Keys == Elements(tabs)
      ensures selected.Some? ==> selected.value in tabPanels
      ensures actions == [] ==> fault == Some(NoTabs) && tabs == [] && selected == None
      ensures actions != [] ==>
                && fault == None && |tabs| > 0
                && tabs[0] == TabKey(actions[0])
                && selected == Some(tabs[0])
                && forall k :: k in tabPanels ==> tabPanels[k] == (k == tabs[0])
    {
      var groups := TabGroups(actions);
      FirstTab(actions);
      BuildTabs(groups);
      if groups != [] {
        assert Keys(groups)[0] == groups[0].key;
      }
      fault := SelectFirstTab(groups);
    }

    /** The loop over tab groups, on a menu with no tabs yet. */
    method BuildTabs(groups: seq<Group<string, DebugAction>>)
      requires Distinct(Keys(groups))
      requires tabs == [] && tabPanels == map[] && panels == map[]
      modifies this`tabs, this`tabPanels, this`panels
      ensures tabs == Keys(groups)
      ensures tabPanels.Keys == Elements(tabs) && panels.Keys == Elements(tabs)
      ensures forall k :: k in tabPanels ==> tabPanels[k]
      ensures forall i :: 0 <= i < |groups| ==> groups[i].key in panels && panels[groups[i].key] == PanelWidgets(groups[i].items)
    {
      var g := 0;
      while g < |groups|
        invariant 0 <= g <= |groups|
        invariant tabs == Keys(groups[..g])
        invariant tabPanels.Keys == Elements(tabs) && panels.Keys == Elements(tabs)
        invariant forall k :: k in tabPanels ==> tabPanels[k]
        invariant forall i :: 0 <= i < g ==> groups[i].key in panels && panels[groups[i].key] == PanelWidgets(groups[i].items)
      {
        assert Keys(groups[..g]) == Keys(groups)[..g];
        assert Keys(groups)[g] == groups[g].key;
        BuildTab(groups[g]);
        assert tabs == Keys(groups[..g + 1]);
        g := g + 1;
      }
      assert groups[..g] == groups;
    }

    /** One pass of the loop over tab groups: a tab and its panel, filled header group by header group. */
    method BuildTab(group: Group<string, DebugAction>)
      requires group.key !in tabs && group.key !in tabPanels
      modifies this`tabs, this`tabPanels, this`panels
      ensures tabs == old(tabs) + [group.key]
      ensures tabPanels == old(tabPanels)[group.key := true]
      ensures panels == old(panels)[group.key := PanelWidgets(group.items)]
    {
      CreateTab(group.key);
      FillPanel(group.key, HeaderGroups(group.items));
      assert [] + HeaderRun(HeaderGroups(group.items)) == PanelWidgets(group.items);
    }

    /** The loop over a tab's header groups, appending each group's widgets to the panel. */
    method FillPanel(tab: string, headers: seq<Group<Option<string>, DebugAction>>)
      requires tab in panels
      modifies this`panels
      ensures panels == old(panels)[tab := old(panels)[tab] + HeaderRun(headers)]
    {
      ghost var before := panels[tab];
      var h := 0;
      assert before + HeaderRun(headers[..0]) == before;
      while h < |headers|
        invariant 0 <= h <= |headers|
        invariant panels == old(panels)[tab := before + HeaderRun(headers[..h])]
      {
        ghost var filled := before + HeaderRun(headers[..h]);
        BuildHeaderGroup(tab, headers[h]);
        assert panels == old(panels)[tab := filled + GroupWidgets(headers[h])];
        PrefixRunStep(before, headers, h);
        h := h + 1;
      }
      assert headers[..h] == headers;
    }

    /** One pass of the loop over header groups: the header label, if any, then one button per action. */
    method BuildHeaderGroup(tab: string, header: Group<Option<string>, DebugAction>)
      requires tab in panels
      modifies this`panels
      ensures panels == old(panels)[tab := old(panels)[tab] + GroupWidgets(header)]
    {
      CreateHeader(tab, header.key);
      ghost var labelled := old(panels)[tab] + HeaderWidgets(header.key);
      var items := header.items;
      var m := 0;
      assert labelled + Buttons(items[..m]) == labelled;
      while m < |items|
        invariant 0 <= m <= |items|
        invariant panels == old(panels)[tab := labelled + Buttons(items[..m])]
      {
        CreateDebugActions(tab, items[m]);
        assert Buttons(items[..m + 1]) == Buttons(items[..m]) + [ActionButton(ButtonLabel(items[m]), items[m])];
        assert labelled + Buttons(items[..m + 1]) == labelled + Buttons(items[..m]) + [ActionButton(ButtonLabel(items[m]), items[m])];
        m := m + 1;
      }
      assert items[..m] == items;
      assert labelled + Buttons(items) == old(panels)[tab] + GroupWidgets(header);
    }

    /** Selects the first tab; First() throws when there is none. */
    method SelectFirstTab(groups: seq<Group<string, DebugAction>>) returns (fault: Option<Fault>)
      requires forall i :: 0 <= i < |groups| ==> groups[i].key in tabPanels
      modifies this`selected, this`tabPanels
      ensures groups == [] ==> fault == Some(NoTabs) && selected == old(selected) && tabPanels == old(tabPanels)
      ensures groups != [] ==>
                && fault == None && selected == Some(groups[0].key)
                && tabPanels.Keys == old(tabPanels).Keys
                && forall k :: k in tabPanels ==> tabPanels[k] == (k == groups[0].key)
    {
      if groups == [] {
        return Some(NoTabs);
      }
      selected := Some(groups[0].key);
      ChangeTab(groups[0].key);
      return None;
    }

    /** Adds a button for action `a` at the end of panel `tab`. */
    method CreateDebugActions(tab: string, a: DebugAction)
      requires tab in panels
      modifies this`panels
      ensures panels == old(panels)[tab := old(panels)[tab] + [ActionButton(ButtonLabel(a), a)]]
    {
      panels := panels[tab := panels[tab] + [ActionButton(ButtonLabel(a), a)]];
    }

    /** Adds a header label to panel `tab`, unless the header name is null or empty. */
    method CreateHeader(tab: string, key: Option<string>)
      requires tab in panels
      modifies this`panels
      ensures panels == old(panels)[tab := old(panels)[tab] + HeaderWidgets(key)]
    {
      if IsNullOrEmpty(key) {
        assert panels[tab] + HeaderWidgets(key) == panels[tab];
        assert panels[tab := panels[tab]] == panels;
        return;
      }
      panels := panels[tab := panels[tab] + [HeaderLabel(key.value)]];
    }

    /** Opens a tab button and an empty, active panel for `name`. */
    method CreateTab(name: string)
      requires name !in tabs && name !in tabPanels  // the two Dictionary.Add calls
      modifies this`tabs, this`tabPanels, this`panels
      ensures tabs == old(tabs) + [name]
      ensures tabPanels == old(tabPanels)[name := true]
      ensures panels == old(panels)[name := []]
    {
      tabs := tabs + [name];
      tabPanels := tabPanels[name := true];
      panels := panels[name := []];
    }

    /** Activates the panel of `tabName` and deactivates every other one. */
    method ChangeTab(tabName: string)
      modifies this`tabPanels
      ensures tabPanels.Keys == old(tabPanels).Keys
      ensures forall k :: k in tabPanels ==> tabPanels[k] == (k == tabName)
    {
      var pending := tabPanels.Keys;
      while pending != {}
        invariant pending <= tabPanels.Keys == old(tabPanels).Keys
        invariant forall k :: k in tabPanels && k !in pending ==> tabPanels[k] == (k == tabName)
        decreases pending
      {
        var k :| k in pending;
        tabPanels := tabPanels[k := k == tabName];
        pending := pending - {k};
      }
    }

    /** The listener of a tab button: switches to that tab. */
    method ClickTab(tabName: string)
      requires Valid() && tabName in tabs
      modifies this`tabPanels
      ensures Valid()
      ensures tabPanels.Keys == old(tabPanels).Keys
      ensures tabPanels[tabName] && forall k :: k in tabPanels && k != tabName ==> !tabPanels[k]
    {
      ChangeTab(tabName);
    }

    /**
     * The listener of an action button: the registry is asked for an instance of
     * the method's declaring type first, whether the method is static or not;
     * then the method is invoked as ClickEffect says.
     */
    method ClickAction(tab: string, index: nat, constructs: bool) returns (outcome: ClickOutcome)
      requires Valid()
      requires tab in panels && index < |panels[tab]| && panels[tab][index].ActionButton?
      modifies this`invocations, registry
      ensures Valid()
      ensures var t := panels[tab][index].action.target.declaringType;
        && (t in old(registry.instances) ==>
              registry.instances == old(registry.instances) && registry.attempts == old(registry.attempts)
              && registry.errors == old(registry.errors))
        && (t !in old(registry.instances) ==> registry.attempts == old(registry.attempts) + [t])
        && (t !in old(registry.instances) && constructs ==>
              t in registry.instances && fresh(registry.instances[t])
              && registry.instances == old(registry.instances)[t := registry.instances[t]]
              && registry.errors == old(registry.errors))
        && (t !in old(registry.instances) && !constructs ==>
              registry.instances == old(registry.instances) && registry.errors == old(registry.errors) + [t])
      ensures var m := panels[tab][index].action.target;
        outcome == ClickEffect(m, if m.declaringType in registry.instances then Some(registry.instances[m.declaringType]) else None)
      ensures invocations == old(invocations) + Calls(outcome)
    {
      var m := panels[tab][index].action.target;
      var instance := registry.GetInstance(m.declaringType, constructs);
      outcome := ClickEffect(m, instance);
      invocations := invocations + Calls(outcome);
    }
  }

  /** Filling one more header group extends a panel by that group's widgets. */
  lemma PrefixRunStep(before: seq<Widget>, headers: seq<Group<Option<string>, DebugAction>>, h: nat)
    requires h < |headers|
    ensures before + HeaderRun(headers[..h + 1]) == before + HeaderRun(headers[..h]) + GroupWidgets(headers[h])
  {
    HeaderRunAppend(headers[..h], headers[h]);
    assert headers[..h + 1] == headers[..h] + [headers[h]];
  }

  /**
   * Once the menu is built, every discovered action has a button on the panel
   * of its own tab, and on no other tab's panel.
   */
  lemma BuiltMenuShowsEachActionOnce(menu: DebugInitializer, actions: seq<DebugAction>, a: DebugAction)
    requires menu.Built(actions) && a in actions
    ensures TabKey(a) in menu.panels && a in ButtonActions(menu.panels[TabKey(a)])
    ensures forall k :: k in menu.tabs && k in menu.panels && a in ButtonActions(menu.panels[k]) ==> k == TabKey(a)
  {
    var groups := TabGroups(actions);
    ActionOnExactlyOnePanel(actions, a);
    var i :| 0 <= i < |groups| && groups[i].key == TabKey(a) && a in ButtonActions(PanelWidgets(groups[i].items));
    forall k | k in menu.tabs && k in menu.panels && a in ButtonActions(menu.panels[k])
      ensures k == TabKey(a)
    {
      var j :| 0 <= j < |groups| && Keys(groups)[j] == k;
      assert menu.panels[k] == PanelWidgets(groups[j].items);
    }
  }
}
