# Debug menu core, modelled in Dafny

This project models the runtime core of a Unity debug menu: how debug actions
are discovered, how the menu groups and lays them out, and how clicks are dispatched.

- **Discovery** (`DebugResolver.GetDebugActions`). The scan picks the first loaded
  assembly whose full name contains the configured name. It then walks that
  assembly's types, and the methods reflection lists for each type (of every
  visibility and staticness, inherited ones included),
  yielding every method that carries a `DebugActionAttribute` together with
  that attribute.
- **Instance registry** (`DebugInstanceRegistry.GetInstance`). This is a
  process-wide cache from a type to the one object default-constructed for it.
  A failed construction is logged and not cached, so the next lookup tries again.
- **Menu controller** (`DebugInitializer`).
  - Per-frame input: F1 builds the menu the first time it is pressed and toggles
    it every time; Escape closes a visible menu.
  - Building: actions are grouped into tabs by their declaring type's `TabName` ("N/A"
    when the type has no tab attribute). Within a tab they are grouped by header
    name, with groups in first-seen order. Each header group gets a label, unless
    its name is null or empty, followed by one button per action. The first tab
    is then selected.
  - Clicking a tab shows only that tab's panel.
  - Clicking an action asks the registry for an instance of the method's declaring type.
    A static method is then invoked with no receiver, and an instance method on
    the resolved instance if there is one.

Modules, one per file:

- `Wrappers` (Option, Result) and `Seqs` (distinctness) are shared vocabulary.
- `Reflection` holds assemblies, types, methods and attributes as plain values.
- `Resolver` is the scan, a pure function.
- `Grouping` is LINQ `GroupBy` together with its specification.
- `Registry` is the instance cache, a class whose map is updated in place.
- `Layout` holds the state-free decisions of the controller: tab and header keys, labels, panel contents and the click decision.
- `Menu` is the controller as a class. Its fields are the canvas state, the tab list, the panel-activity map, the panel contents and an invocation log. Its methods follow the source's loops and dictionary updates.
- `Scenario` works through one example assembly end to end.

Points where the code's behaviour is easy to misread:

- **Static actions.** A static action's click still calls `GetInstance` for
  the method's declaring type first (DebugInitializer.cs:73), so
  `Menu.DebugInitializer.ClickAction` does the same. A failed construction is
  logged by the registry, and the static method is invoked anyway.
- **Declaring type.** `GetMethods` is called without `DeclaredOnly`
  (DebugResolver.cs:16), so a type's list includes the methods it inherits.
  The tab (DebugInitializer.cs:36) and the registry lookup
  (DebugInitializer.cs:73) both use the method's `DeclaringType`, not the
  type being scanned. Each `MethodInfo` therefore carries its declaring type.
  An inherited attributed method is yielded once for every type that lists
  it, and all of its buttons go to the declaring type's tab
  (`Resolver.ActionCount`, `Scenario.InheritedActions`, `Scenario.InheritedTabs`).
- **Missing assembly.** The scan logs an error and then dereferences the
  missing assembly. This happens while the menu is being built, after the
  canvas has been created. The model therefore has `GetDebugActions` return
  `Failure(AssemblyNotFound(name))`. `Initialize` logs that error and returns
  the fault, which stands for the exception escaping `Update`. The canvas
  counts as created, so that frame's toggle is skipped and the next F1 only
  toggles.
- **Zero actions.** `First()` on an empty grouping throws. This is the `NoTabs` fault.
- **Methods with parameters.** The listener invokes with a null argument
  array (DebugInitializer.cs:75, 78). On a method that takes parameters this
  throws, and nothing is called: `ParameterCountMismatch`.
- **Headers.** An action with a null header name and an action under
  "Combat" on the same tab form two header groups. The first group has no
  label (`Scenario.CheatsPanel`).

## Model

| member | source | states |
|---|---|---|
| Resolver.ContainsAt | Assets/Debug.Unity/Runtime/DebugResolver.cs:10 | `string.Contains` holds exactly when the name occurs at some position of the full name |
| Resolver.FirstMatch | Assets/Debug.Unity/Runtime/DebugResolver.cs:10 | `FirstOrDefault`: the result is the index of a matching assembly, and no earlier assembly matches; None exactly when no assembly matches |
| Resolver.GetDebugActions | Assets/Debug.Unity/Runtime/DebugResolver.cs:9-23 | fails with `AssemblyNotFound(name)` exactly when no assembly matches; otherwise it yields the scan of the first matching assembly's types |
| Resolver.ActionsOfMethods | Assets/Debug.Unity/Runtime/DebugResolver.cs:16-20 | every yielded pair holds a method listed for the type together with that method's own attribute |
| Resolver.ActionsOfTypes | Assets/Debug.Unity/Runtime/DebugResolver.cs:15-22 | every yielded pair holds a method listed for one of the scanned types, declared there or inherited, with that method's own attribute |
| Resolver.MethodActionMembership | Assets/Debug.Unity/Runtime/DebugResolver.cs:16-20 | within a type, a pair is yielded if and only if its method is listed and carries exactly that attribute |
| Resolver.ActionMembership | Assets/Debug.Unity/Runtime/DebugResolver.cs:15-22 | a pair is yielded if and only if its method is listed for some scanned type (declared there or inherited) and carries exactly that attribute; unattributed methods never appear |
| Resolver.EveryAttributedMethodYielded | Assets/Debug.Unity/Runtime/DebugResolver.cs:16 | every attributed method listed for a scanned type is yielded, public or not and static or not |
| Resolver.ActionsOfMethodsAppend | Assets/Debug.Unity/Runtime/DebugResolver.cs:16-20 | scanning two runs of methods yields the two results in sequence |
| Resolver.ActionsOfTypesAppend | Assets/Debug.Unity/Runtime/DebugResolver.cs:15-22 | scanning two runs of types yields the two results in sequence |
| Resolver.TypeOrder | Assets/Debug.Unity/Runtime/DebugResolver.cs:15-22 | the output goes type by type: each type's actions form one contiguous block, and an earlier type's block ends before a later type's block begins |
| Resolver.MethodOrder | Assets/Debug.Unity/Runtime/DebugResolver.cs:16-20 | with distinct methods, every action of an earlier listed method comes before every action of a later one |
| Resolver.MethodActionsDistinct | Assets/Debug.Unity/Runtime/DebugResolver.cs:16-20 | distinct methods yield distinct pairs |
| Resolver.ActionsDistinct | Assets/Debug.Unity/Runtime/DebugResolver.cs:15-22 | when no type lists a method twice and no method is listed under two types, no pair is yielded twice |
| Resolver.NoDropsNoDuplicates | Assets/Debug.Unity/Runtime/DebugResolver.cs:15-22 | when no method is listed twice, not even under two types, the yielded pairs are exactly the attributed methods, each once, so the count equals the number of attributed methods |
| Resolver.MethodActionCount | Assets/Debug.Unity/Runtime/DebugResolver.cs:16-20 | within a type, a pair is yielded as many times as its method is listed if the pair holds the method's own attribute, and never otherwise |
| Resolver.ActionCount | Assets/Debug.Unity/Runtime/DebugResolver.cs:15-22 | a pair is yielded exactly as many times as its attributed method is listed over all scanned types, so an inherited method is yielded once per type that lists it; any other pair is never yielded |
| Resolver.TypeBlock | Assets/Debug.Unity/Runtime/DebugResolver.cs:15-22 | the actions of type `i` sit in the output right after those of all earlier types |
| Grouping.FirstSeenSpec | Assets/Debug.Unity/Runtime/DebugInitializer.cs:35-38 | the group keys hold each input key once and drop none, and the first key comes first |
| Grouping.InsertSpec | Assets/Debug.Unity/Runtime/DebugInitializer.cs:35-38 | adding an element extends only the group with its key, or opens a new last group |
| Grouping.GroupBySpec | Assets/Debug.Unity/Runtime/DebugInitializer.cs:35-38 | `GroupBy`'s keys are the distinct input keys in first-seen order, and each group holds exactly the elements with its key, in input order |
| Grouping.GroupByPermutation | Assets/Debug.Unity/Runtime/DebugInitializer.cs:47 | the groups together hold a permutation of the input |
| Grouping.ExactlyOneGroup | Assets/Debug.Unity/Runtime/DebugInitializer.cs:40-53 | every element lies in exactly one group, the one for its own key |
| Layout.HeaderText | Assets/Debug.Unity/Runtime/DebugInitializer.cs:84-89 | a header label exists exactly when the header name is neither null nor empty, and it reads that name |
| Layout.ButtonLabel | Assets/Debug.Unity/Runtime/DebugInitializer.cs:69 | the label is the DisplayName when that is non-null and non-empty, otherwise the method's name |
| Layout.ClickEffect | Assets/Debug.Unity/Runtime/DebugInitializer.cs:74-79 | a static method is called with a null receiver whatever the registry answered, and an instance method on the resolved instance. An instance method with nothing resolved is skipped silently. A call is made only to a method without parameters; any other call attempt throws |
| Layout.ButtonActionsOfRun | Assets/Debug.Unity/Runtime/DebugInitializer.cs:48-53 | the buttons of a tab's header groups are those groups' actions, group after group |
| Layout.PanelHoldsEveryActionOnce | Assets/Debug.Unity/Runtime/DebugInitializer.cs:47-53 | a panel has one button per action of its tab: the actions behind its buttons are a permutation of the tab's actions, header or no header |
| Layout.HeaderShown | Assets/Debug.Unity/Runtime/DebugInitializer.cs:48-51 | a panel shows the label `h` if and only if `h` is non-empty and some action of the tab declares header `h` |
| Layout.FirstTab | Assets/Debug.Unity/Runtime/DebugInitializer.cs:56-63 | tab keys are unique (so the dictionary `Add` calls cannot clash); there is a first tab exactly when there is an action, and it is the first action's tab |
| Layout.ActionOnExactlyOnePanel | Assets/Debug.Unity/Runtime/DebugInitializer.cs:35-53 | every action has a button on the panel of its declaring type's tab ("N/A" without a tab attribute), and on no other panel |
| Registry.Instance.constructor | Assets/Debug.Unity/Runtime/DebugInstanceRegistry.cs:14 | default construction makes an object of the requested type |
| Registry.InstanceRegistry.constructor | Assets/Debug.Unity/Runtime/DebugInstanceRegistry.cs:6 | the cache starts empty |
| Registry.InstanceRegistry.GetInstance | Assets/Debug.Unity/Runtime/DebugInstanceRegistry.cs:8-22 | hit: the cached object, no construction, nothing changes. Miss: exactly one construction attempt. On success a fresh object is cached under the type and returned. On failure: null, one logged error, cache unchanged. Existing entries are never replaced or removed. Every cached object was made for its key |
| Registry.InstanceRegistry.GetInstanceTwice | Assets/Debug.Unity/Runtime/DebugInstanceRegistry.cs:9-16 | once a lookup produced an object, a second lookup of that type returns the identical object; two failing lookups make two attempts |
| Registry.InstanceRegistry.Add | Assets/Debug.Unity/Runtime/DebugInstanceRegistry.cs:15 | adds the one entry for a type not yet cached |
| Menu.DebugInitializer.constructor | Assets/Debug.Unity/Runtime/DebugInitializer.cs:15-18 | a fresh controller has no canvas, no tabs and empty dictionaries |
| Menu.DebugInitializer.Update | Assets/Debug.Unity/Runtime/DebugInitializer.cs:20-27 | on the first F1 the menu is built once and then shown, unless building threw. Later F1 presses only toggle. Escape without F1 closes a visible menu. Nothing else changes the built tree, and `IsInitialized` never reverts |
| Menu.DebugInitializer.Initialize | Assets/Debug.Unity/Runtime/DebugInitializer.cs:29-57 | the canvas exists afterwards. A missing assembly: one logged error, no tabs, a fault. No actions: no tabs, a `First()` fault. Otherwise: one tab and panel per tab group in first-seen order, each panel laid out as `PanelWidgets`, the first action's tab selected and its panel the only active one |
| Menu.DebugInitializer.BuildMenu | Assets/Debug.Unity/Runtime/DebugInitializer.cs:35-56 | the tree built from a successful scan and the first-tab selection, with unique tab names and one panel per tab |
| Menu.DebugInitializer.BuildTabs | Assets/Debug.Unity/Runtime/DebugInitializer.cs:40-54 | the loop over tab groups creates the tabs in group order, each with the panel of its group's actions |
| Menu.DebugInitializer.BuildTab | Assets/Debug.Unity/Runtime/DebugInitializer.cs:42-53 | one pass: a new tab and a panel holding its header groups, each as label then buttons |
| Menu.DebugInitializer.FillPanel | Assets/Debug.Unity/Runtime/DebugInitializer.cs:48-53 | the loop over a tab's header groups appends to the panel exactly the widgets of those groups, in group order |
| Menu.DebugInitializer.BuildHeaderGroup | Assets/Debug.Unity/Runtime/DebugInitializer.cs:48-52 | one header group appends its label, if any, then one button per action in order, to its panel |
| Menu.DebugInitializer.SelectFirstTab | Assets/Debug.Unity/Runtime/DebugInitializer.cs:59-63 | no groups: `First()` throws and nothing changes. Otherwise the first group's tab is selected and its panel is the only active one |
| Menu.DebugInitializer.CreateDebugActions | Assets/Debug.Unity/Runtime/DebugInitializer.cs:65-70 | appends one button, labelled by `ButtonLabel`, for the action to the panel |
| Menu.DebugInitializer.CreateHeader | Assets/Debug.Unity/Runtime/DebugInitializer.cs:83-90 | appends a header label unless the name is null or empty, in which case the panel is unchanged |
| Menu.DebugInitializer.CreateTab | Assets/Debug.Unity/Runtime/DebugInitializer.cs:92-102 | adds the tab name once to the tab buttons and panels, with a new empty panel |
| Menu.DebugInitializer.ChangeTab | Assets/Debug.Unity/Runtime/DebugInitializer.cs:104-108 | each panel is active exactly when its key equals the argument (so for an unknown name none is), and the key set is unchanged |
| Menu.DebugInitializer.ClickTab | Assets/Debug.Unity/Runtime/DebugInitializer.cs:98 | clicking a tab makes its panel the only active one |
| Menu.DebugInitializer.ClickAction | Assets/Debug.Unity/Runtime/DebugInitializer.cs:71-80 | the registry is asked for the method's declaring type first, for every action static or not, with the effects `GetInstance` states. The outcome is then the `ClickEffect` of the method and the registry's answer, and the invocation log grows by exactly that call, if any |
| Menu.BuiltMenuShowsEachActionOnce | Assets/Debug.Unity/Runtime/DebugInitializer.cs:40-54 | in a built menu, every discovered action has a button on its declaring type's tab and on no other tab |
| Scenario.CheatsScan | Assets/Debug.Unity/Runtime/DebugResolver.cs:9-23 | in the example, the non-matching assembly and the unattributed method are skipped, and the two actions come in the order reflection lists them |
| Scenario.CheatsTabs | Assets/Debug.Unity/Runtime/DebugInitializer.cs:35-38 | in the example, both actions land on the one tab "Player" |
| Scenario.CheatsPanel | Assets/Debug.Unity/Runtime/DebugInitializer.cs:47-53 | in the example, the panel shows: a "Heal" button with no label above it, then the "Combat" label and a "Kill Player" button |
| Scenario.CheatsClicks | Assets/Debug.Unity/Runtime/DebugInitializer.cs:74-79 | in the example, static Heal is called with a null receiver; instance Kill is called on the resolved instance, and skipped without one |
| Scenario.InheritedActions | Assets/Debug.Unity/Runtime/DebugResolver.cs:15-22 | a method declared by a base type and listed again for a scanned derived type is yielded twice |
| Scenario.InheritedTabs | Assets/Debug.Unity/Runtime/DebugInitializer.cs:35-38 | both buttons of the inherited action go to the base type's tab, and the derived type's own action (its type has no tab attribute) goes to "N/A" |
| Scenario.InheritedClicks | Assets/Debug.Unity/Runtime/DebugInitializer.cs:73-78 | the inherited action's registry key is the base type; clicking a static action that takes an argument throws |

## Left out

- Unity object creation and component lookups are plain state here: `Instantiate`, `GetComponent`, prefabs, text assignment and `Button.Select`. A created canvas is `initialized`, panel activity is a `map<string, bool>`, panel contents are a sequence of widgets, and the tab selection is `selected`.
- Canvas visibility internals (`ToggleDebugCanvas`, `CloseDebugCanvas`, `IsVisible`) are one `visible` flag. A newly created canvas is taken to be hidden and a newly created panel active; the prefabs' own initial state is not part of this model.
- `Input.GetKeyUp` polling is the `FrameInput` parameter of `Update`.
- .NET reflection and `AppDomain.GetAssemblies` are the assembly list given to the controller. Each type carries the list `GetMethods` returns for it. Which inherited members appear in that list, and in what order, is reflection's business: the model takes the list as given. `GetCustomAttribute` is the optional attribute carried by each method. A `TabName` is taken to be non-null.
- A method listed under two types is one value here. .NET returns two `MethodInfo` objects that differ only in `ReflectedType`, which the core never reads.
- Parameter types stand for a method's signature: two overloads with the same parameter types cannot occur. Generic methods, whose `Invoke` also throws, are not modelled.
- `Activator.CreateInstance` is the `constructs` parameter, an oracle saying whether construction succeeds on that call. Constructor side effects are not modelled.
- `MethodInfo.Invoke` is an entry in the `invocations` log. The invoked method's side effects and its own exceptions are not modelled. The parameter-count exception is `ParameterCountMismatch`; where Unity reports an exception that escapes a listener is not modelled.
- `Debug.LogError` is an entry in an error log. The scan's log is kept on the controller and the registry's log on the registry. Message texts are not modelled.
- The lazy re-enumeration is not modelled: `groupedMethods` is enumerated twice (the loop and `First()`), and each enumeration re-runs the scan. The scan is deterministic, so the model evaluates it once.
- The registry is a `static` dictionary shared by the whole process. The model passes one `InstanceRegistry` object to the controller. Concurrency is not modelled, because the host is single-threaded.
- The tab button's listener passes the tab label's text, which is always that tab's name, so `ClickTab` is stated for created tabs. `ChangeTab` itself takes any name.
