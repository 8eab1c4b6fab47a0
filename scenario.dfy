/**
 * A worked example: an assembly whose type `Cheats` carries the tab "Player",
 * a static action `Heal` with neither display name nor header, and an instance
 * action `Kill` labelled "Kill Player" under the header "Combat".
 */
module Scenario {
  import opened Wrappers
  import opened Reflection
  import opened Grouping
  import opened Layout
  import Resolver

  const CheatsId: TypeId := TypeId("Game.Cheats", Some("Player"))
  const Heal: MethodInfo := MethodInfo("Heal", CheatsId, [], true, true, Some(ActionAttr(None, None)))
  const Kill: MethodInfo := MethodInfo("Kill", CheatsId, [], true, false, Some(ActionAttr(Some("Kill Player"), Some("Combat"))))
  const Update: MethodInfo := MethodInfo("Update", CheatsId, [], false, false, None)
  const Cheats: TypeInfo := TypeInfo(CheatsId, [Heal, Update, Kill])
  const Game: AssemblyInfo := AssemblyInfo("Game.Debug, Version=1.0.0.0", [Cheats])
  const Engine: AssemblyInfo := AssemblyInfo("Engine", [])

  /** A name shorter than the requested one never contains it. */
  lemma {:induction false} ShorterNeverContains(s: string, sub: string)
    requires |s| < |sub|
    ensures !Resolver.Contains(s, sub)
  {
    if |s| > 0 {
      ShorterNeverContains(s[1..], sub);
    }
  }

  const HealAction: DebugAction := DebugAction(Heal, ActionAttr(None, None))
  const KillAction: DebugAction := DebugAction(Kill, ActionAttr(Some("Kill Player"), Some("Combat")))

  /** The scan skips the engine assembly and the unattributed method, and keeps the order reflection listed. */
  lemma CheatsScan()
    ensures Resolver.GetDebugActions([Engine, Game], "Game.Debug") == Success([HealAction, KillAction])
  {
    assert Resolver.StartsWith(Game.fullName, "Game.Debug");
    ShorterNeverContains(Engine.fullName, "Game.Debug");
    assert Resolver.FirstMatch([Game], "Game.Debug") == Some(0);
    assert [Engine, Game][1..] == [Game];
    assert Resolver.FirstMatch([Engine, Game], "Game.Debug") == Some(1);
    assert Resolver.ActionsOfMethods([Kill]) == [KillAction];
    assert Resolver.ActionsOfMethods([Update, Kill]) == [KillAction];
    assert Resolver.ActionsOfTypes(Game.types) == [HealAction, KillAction];
  }

  /** Both actions land on the one tab "Player". */
  lemma CheatsTabs()
    ensures TabGroups([HealAction, KillAction]) == [Group("Player", [HealAction, KillAction])]
  {
    var actions := [HealAction, KillAction];
    assert actions[..1] == [HealAction] && [HealAction][..0] == [];
    assert GroupBy([HealAction], TabKey) == [Group("Player", [HealAction])];
    assert [Group("Player", [HealAction])][1..] == [] && [HealAction] + [KillAction] == actions;
  }

  /**
   * The panel shows Heal's button with no label above it (its header is null),
   * then the "Combat" label and Kill's button.
   */
  lemma CheatsPanel()
    ensures PanelWidgets([HealAction, KillAction])
              == [ActionButton("Heal", HealAction), HeaderLabel("Combat"), ActionButton("Kill Player", KillAction)]
  {
    var actions := [HealAction, KillAction];
    assert actions[..1] == [HealAction] && [HealAction][..0] == [];
    assert GroupBy([HealAction], HeaderKey) == [Group(None, [HealAction])];
    assert GroupBy(actions, HeaderKey) == Insert([Group(None, [HealAction])], Some("Combat"), KillAction);
    assert Insert([Group(None, [HealAction])], Some("Combat"), KillAction)
        == [Group(None, [HealAction])] + Insert([], Some("Combat"), KillAction);
    var hs := [Group(None, [HealAction]), Group(Some("Combat"), [KillAction])];
    assert HeaderGroups(actions) == hs;
    assert hs[1..] == [Group(Some("Combat"), [KillAction])] && hs[1..][1..] == [];
    assert Buttons([HealAction]) == [ActionButton("Heal", HealAction)];
    assert Buttons([KillAction]) == [ActionButton("Kill Player", KillAction)];
    assert HeaderWidgets(None) == [] && HeaderWidgets(Some("Combat")) == [HeaderLabel("Combat")];
    assert HeaderRun(hs[1..]) == [HeaderLabel("Combat"), ActionButton("Kill Player", KillAction)];
    assert HeaderRun(hs) == [ActionButton("Heal", HealAction)] + HeaderRun(hs[1..]);
  }

  /**
   * Clicking Heal calls it with a null receiver whatever the registry answered;
   * clicking Kill calls it on the resolved instance, and not at all without one.
   */
  lemma CheatsClicks(resolved: Option<Registry.Instance>)
    ensures ClickEffect(Heal, resolved) == Called(Invoked(Heal, None))
    ensures resolved.Some? ==> ClickEffect(Kill, resolved) == Called(Invoked(Kill, resolved))
    ensures resolved.None? ==> ClickEffect(Kill, resolved) == Skipped
  {
  }

  const BaseId: TypeId := TypeId("Game.BaseCheats", Some("Base"))
  const DerivedId: TypeId := TypeId("Game.MoreCheats", None)
  /** Declared by the base type; GetMethods lists it for the derived type too. */
  const Reset: MethodInfo := MethodInfo("Reset", BaseId, [], true, false, Some(ActionAttr(None, None)))
  const Give: MethodInfo := MethodInfo("Give", DerivedId, ["System.Int32"], true, true, Some(ActionAttr(None, None)))
  const ResetAction: DebugAction := DebugAction(Reset, ActionAttr(None, None))
  const GiveAction: DebugAction := DebugAction(Give, ActionAttr(None, None))

  /** An inherited action is yielded once for the base type and once more for the derived type. */
  lemma InheritedActions()
    ensures Resolver.ActionsOfTypes([TypeInfo(BaseId, [Reset]), TypeInfo(DerivedId, [Reset, Give])])
              == [ResetAction, ResetAction, GiveAction]
  {
    var types := [TypeInfo(BaseId, [Reset]), TypeInfo(DerivedId, [Reset, Give])];
    assert Resolver.ActionsOfMethods([Give]) == [GiveAction];
    assert Resolver.ActionsOfMethods([Reset, Give]) == [ResetAction, GiveAction];
    assert Resolver.ActionsOfMethods([Reset]) == [ResetAction];
    assert types[1..] == [TypeInfo(DerivedId, [Reset, Give])] && types[1..][1..] == [];
    assert Resolver.ActionsOfTypes(types[1..]) == [ResetAction, GiveAction];
    assert Resolver.ActionsOfTypes(types) == [ResetAction] + [ResetAction, GiveAction];
  }

  /** Both buttons of the inherited action go to the base type's tab; the derived type's own action goes to "N/A". */
  lemma InheritedTabs()
    ensures TabGroups([ResetAction, ResetAction, GiveAction])
              == [Group("Base", [ResetAction, ResetAction]), Group("N/A", [GiveAction])]
  {
    var actions := [ResetAction, ResetAction, GiveAction];
    assert actions[..2] == [ResetAction, ResetAction] && actions[..2][..1] == [ResetAction] && [ResetAction][..0] == [];
    assert GroupBy([ResetAction], TabKey) == [Group("Base", [ResetAction])];
    assert [ResetAction, ResetAction][..1] == [ResetAction];
    assert GroupBy([ResetAction, ResetAction], TabKey) == Insert([Group("Base", [ResetAction])], "Base", ResetAction);
    assert [Group("Base", [ResetAction])][1..] == [] && [ResetAction] + [ResetAction] == [ResetAction, ResetAction];
    assert Insert([Group("Base", [ResetAction, ResetAction])], "N/A", GiveAction)
        == [Group("Base", [ResetAction, ResetAction])] + Insert([], "N/A", GiveAction);
  }

  /**
   * Clicking the inherited action looks up the base type in the registry;
   * clicking Give, which takes an argument, throws instead of calling it.
   */
  lemma InheritedClicks(resolved: Option<Registry.Instance>)
    ensures ResetAction.target.declaringType == BaseId
    ensures ClickEffect(Give, resolved) == ParameterCountMismatch
  {
  }
}
