/**
 * The decisions DebugInitializer takes without changing any state: which tab an
 * action belongs to, how a tab's actions are grouped under headers, what the
 * header and button labels read, what a panel shows, and what clicking an
 * action invokes.
 */
module Layout {
  import opened Wrappers
  import opened Seqs
  import opened Reflection
  import opened Grouping
  import opened Registry

  /** The tab of actions whose type carries no tab attribute. */
  const Unassigned: string := "N/A"

  /** The tab key: the TabName of the method's declaring type, or "N/A" when that type has no tab attribute. */
  function TabKey(a: DebugAction): string {
    match a.target.declaringType.tabAttr
    case Some(name) => name
    case None => Unassigned
  }

  /** The header key: the action's HeaderName, which may be null. */
  function HeaderKey(a: DebugAction): Option<string> {
    a.attr.headerName
  }

  /** The tabs, grouped by tab key in first-seen order. */
  function TabGroups(actions: seq<DebugAction>): seq<Group<string, DebugAction>> {
    GroupBy(actions, TabKey)
  }

  /** Within one tab, the actions grouped by header name in first-seen order. */
  function HeaderGroups(items: seq<DebugAction>): seq<Group<Option<string>, DebugAction>> {
    GroupBy(items, HeaderKey)
  }

  /** What a panel shows, top to bottom. */
  datatype Widget = HeaderLabel(text: string) | ActionButton(caption: string, action: DebugAction)

  /** The text of a header label, or None when the header name is null or empty and no label is made. */
  function HeaderText(key: Option<string>): (text: Option<string>)
    ensures text.Some? <==> !IsNullOrEmpty(key)
    ensures text.Some? ==> key == text && text.value != ""
  {
    if IsNullOrEmpty(key) then None else key
  }

  /** The button label: the DisplayName unless it is null or empty, else the method's name. */
  function ButtonLabel(a: DebugAction): (caption: string)
    ensures !IsNullOrEmpty(a.attr.displayName) ==> caption == a.attr.displayName.value
    ensures IsNullOrEmpty(a.attr.displayName) ==> caption == a.target.name
    ensures caption == "" ==> a.target.name == ""
  {
    if IsNullOrEmpty(a.attr.displayName) then a.target.name else a.attr.displayName.value
  }

  function HeaderWidgets(key: Option<string>): seq<Widget> {
    match HeaderText(key)
    case None => []
    case Some(text) => [HeaderLabel(text)]
  }

  /** One button per action, in order. */
  function Buttons(items: seq<DebugAction>): seq<Widget> {
    seq(|items|, i requires 0 <= i < |items| => ActionButton(ButtonLabel(items[i]), items[i]))
  }

  /** A header group: its label, if any, then its actions' buttons. */
  function GroupWidgets(g: Group<Option<string>, DebugAction>): seq<Widget> {
    HeaderWidgets(g.key) + Buttons(g.items)
  }

  function HeaderRun(hs: seq<Group<Option<string>, DebugAction>>): seq<Widget> {
    if hs == [] then [] else GroupWidgets(hs[0]) + HeaderRun(hs[1..])
  }

  /** The contents of the panel of a tab holding `items`. */
  function PanelWidgets(items: seq<DebugAction>): seq<Widget> {
    HeaderRun(HeaderGroups(items))
  }

  /** The actions behind the buttons of a panel, in order. */
  function ButtonActions(ws: seq<Widget>): seq<DebugAction> {
    if ws == [] then []
    else (if ws[0].ActionButton? then [ws[0].action] else []) + ButtonActions(ws[1..])
  }

  /** A method call the menu performs; a None receiver is a null receiver. */
  datatype Invocation = Invoked(target: MethodInfo, receiver: Option<Instance>)

  /** What one click does once the registry has answered. */
  datatype ClickOutcome =
    | Called(call: Invocation)
    | Skipped                 // an instance method with no receiver: nothing happens
    | ParameterCountMismatch  // Invoke with no arguments on a method that takes some throws

  /**
   * The outcome of one click once the registry has answered `resolved`: a
   * static method is called with a null receiver whatever the registry said,
   * an instance method on the resolved instance, and not at all when there is
   * none; a call to a method that takes parameters throws instead.
   */
  function ClickEffect(m: MethodInfo, resolved: Option<Instance>): (outcome: ClickOutcome)
    ensures outcome.Called? ==>
              outcome.call.target == m && |m.parameterTypes| == 0 && (outcome.call.receiver.None? <==> m.isStatic)
    ensures outcome.Called? && !m.isStatic ==> outcome.call.receiver == resolved
    ensures outcome.Skipped? <==> !m.isStatic && resolved.None?
    ensures outcome.ParameterCountMismatch? <==> |m.parameterTypes| > 0 && (m.isStatic || resolved.Some?)
  {
    if m.isStatic then
      (if |m.parameterTypes| == 0 then Called(Invoked(m, None)) else ParameterCountMismatch)
    else if resolved.None? then Skipped
    else if |m.parameterTypes| == 0 then Called(Invoked(m, resolved))
    else ParameterCountMismatch
  }

  /** The calls an outcome performs. */
  function Calls(outcome: ClickOutcome): seq<Invocation> {
    if outcome.Called? then [outcome.call] else []
  }

  lemma {:induction false} HeaderRunAppend(hs: seq<Group<Option<string>, DebugAction>>, g: Group<Option<string>, DebugAction>)
    ensures HeaderRun(hs + [g]) == HeaderRun(hs) + GroupWidgets(g)
  {
    if hs == [] {
      assert hs + [g] == [g];
    } else {
      assert (hs + [g])[1..] == hs[1..] + [g];
      HeaderRunAppend(hs[1..], g);
    }
  }

  lemma {:induction false} ButtonActionsAppend(a: seq<Widget>, b: seq<Widget>)
    ensures ButtonActions(a + b) == ButtonActions(a) + ButtonActions(b)
  {
    if a == [] {
      assert a + b == b;
    } else {
      var w := a[0];
      assert (a + b)[0] == w && (a + b)[1..] == a[1..] + b;
      ButtonActionsAppend(a[1..], b);
      assert ButtonActions(a + b) == (if w.ActionButton? then [w.action] else []) + ButtonActions(a[1..] + b);
    }
  }

  lemma {:induction false} ButtonActionsOfButtons(items: seq<DebugAction>)
    ensures ButtonActions(Buttons(items)) == items
  {
    if items != [] {
      assert Buttons(items)[1..] == Buttons(items[1..]);
      ButtonActionsOfButtons(items[1..]);
    }
  }

  /** The buttons of a run of header groups are the groups' actions, group after group. */
  lemma {:induction false} ButtonActionsOfRun(hs: seq<Group<Option<string>, DebugAction>>)
    ensures ButtonActions(HeaderRun(hs)) == Flatten(hs)
  {
    if hs != [] {
      ButtonActionsOfRun(hs[1..]);
      ButtonActionsOfButtons(hs[0].items);
      ButtonActionsAppend(HeaderWidgets(hs[0].key), Buttons(hs[0].items));
      ButtonActionsAppend(GroupWidgets(hs[0]), HeaderRun(hs[1..]));
    }
  }

  /**
   * A panel has one button per action of its tab: the actions behind its
   * buttons are a permutation of the tab's actions, whatever their headers.
   */
  lemma PanelHoldsEveryActionOnce(items: seq<DebugAction>)
    ensures multiset(ButtonActions(PanelWidgets(items))) == multiset(items)
  {
    ButtonActionsOfRun(HeaderGroups(items));
    GroupByPermutation(items, HeaderKey);
  }

  lemma {:induction false} HeaderLabelInRun(hs: seq<Group<Option<string>, DebugAction>>, h: string)
    ensures HeaderLabel(h) in HeaderRun(hs) <==> h != "" && Some(h) in Keys(hs)
  {
    if hs != [] {
      HeaderLabelInRun(hs[1..], h);
      assert Keys(hs) == [hs[0].key] + Keys(hs[1..]);
      assert HeaderLabel(h) !in Buttons(hs[0].items);
      assert HeaderLabel(h) in HeaderRun(hs) <==>
        HeaderLabel(h) in HeaderWidgets(hs[0].key) || HeaderLabel(h) in HeaderRun(hs[1..]);
    }
  }

  /**
   * A panel shows a label for header `h` exactly when `h` is neither null nor
   * empty and some action of the tab declares it.
   */
  lemma HeaderShown(items: seq<DebugAction>, h: string)
    ensures HeaderLabel(h) in PanelWidgets(items) <==>
              h != "" && exists a :: a in items && a.attr.headerName == Some(h)
  {
    var hs := HeaderGroups(items);
    HeaderLabelInRun(hs, h);
    GroupBySpec(items, HeaderKey);
    FirstSeenSpec(KeysOf(items, HeaderKey));
    if exists a :: a in items && a.attr.headerName == Some(h) {
      var a :| a in items && a.attr.headerName == Some(h);
      var p :| 0 <= p < |items| && items[p] == a;
      assert HeaderKey(items[p]) == Some(h);
      assert KeysOf(items, HeaderKey)[p] == Some(h);
    }
    if Some(h) in KeysOf(items, HeaderKey) {
      var p :| 0 <= p < |items| && KeysOf(items, HeaderKey)[p] == Some(h);
      assert items[p] in items;
    }
  }

  /** Tab keys are unique, and there is a first tab exactly when there is an action: the first action's tab. */
  lemma FirstTab(actions: seq<DebugAction>)
    ensures Distinct(Keys(TabGroups(actions)))
    ensures TabGroups(actions) == [] <==> actions == []
    ensures actions != [] ==> TabGroups(actions)[0].key == TabKey(actions[0])
  {
    GroupBySpec(actions, TabKey);
    FirstSeenSpec(KeysOf(actions, TabKey));
    assert |Keys(TabGroups(actions))| == |TabGroups(actions)|;
    if actions != [] {
      assert KeysOf(actions, TabKey)[0] == TabKey(actions[0]);
      assert Keys(TabGroups(actions))[0] == TabGroups(actions)[0].key;
    }
  }

  /**
   * Every discovered action has a button on exactly one tab's panel, the panel
   * of the tab named by its declaring type's tab attribute (or "N/A").
   */
  lemma ActionOnExactlyOnePanel(actions: seq<DebugAction>, a: DebugAction)
    requires a in actions
    ensures exists i :: 0 <= i < |TabGroups(actions)| && TabGroups(actions)[i].key == TabKey(a)
                        && a in ButtonActions(PanelWidgets(TabGroups(actions)[i].items))
    ensures forall i, j ::
              (0 <= i < |TabGroups(actions)| && 0 <= j < |TabGroups(actions)|
               && a in ButtonActions(PanelWidgets(TabGroups(actions)[i].items))
               && a in ButtonActions(PanelWidgets(TabGroups(actions)[j].items))) ==> i == j
  {
    var gs := TabGroups(actions);
    ExactlyOneGroup(actions, TabKey, a);
    forall i | 0 <= i < |gs|
      ensures a in ButtonActions(PanelWidgets(gs[i].items)) <==> a in gs[i].items
    {
      PanelHoldsEveryActionOnce(gs[i].items);
      assert a in multiset(ButtonActions(PanelWidgets(gs[i].items))) <==> a in multiset(gs[i].items);
    }
  }
}
