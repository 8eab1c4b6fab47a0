/**
 * DebugResolver.GetDebugActions: pick the first loaded assembly whose full
 * name contains the requested name, then walk its types in order and, within
 * each type, its methods in order, yielding every method that carries a
 * DebugActionAttribute together with that attribute.
 */
module Resolver {
  import opened Wrappers
  import opened Seqs
  import opened Reflection

  /** The scan cannot start: no loaded assembly matches the requested name. */
  datatype ResolveError = AssemblyNotFound(name: string)

  predicate StartsWith(s: string, prefix: string) {
    |prefix| <= |s| && s[..|prefix|] == prefix
  }

  /** string.Contains (ordinal): `sub` occurs somewhere in `s`; the empty string occurs everywhere. */
  predicate Contains(s: string, sub: string)
    decreases |s|
  {
    StartsWith(s, sub) || (|s| > 0 && Contains(s[1..], sub))
  }

  /** `sub` occurs in `s` starting at position `i`. */
  predicate OccursAt(s: string, sub: string, i: nat) {
    i + |sub| <= |s| && s[i..i + |sub|] == sub
  }

  /** Contains agrees with the positional definition of a substring. */
  lemma {:induction false} ContainsAt(s: string, sub: string)
    ensures Contains(s, sub) <==> exists i: nat :: OccursAt(s, sub, i)
  {
    if StartsWith(s, sub) {
      assert OccursAt(s, sub, 0);
    } else if |s| > 0 {
      ContainsAt(s[1..], sub);
      if Contains(s[1..], sub) {
        var i: nat :| OccursAt(s[1..], sub, i);
        assert s[i + 1..i + 1 + |sub|] == s[1..][i..i + |sub|];
        assert OccursAt(s, sub, i + 1);
      }
      if exists i: nat :: OccursAt(s, sub, i) {
        var i: nat :| OccursAt(s, sub, i);
        if i != 0 {
          assert s[1..][i - 1..i - 1 + |sub|] == s[i..i + |sub|];
          assert OccursAt(s[1..], sub, i - 1);
        }
      }
    }
  }

  /**
   * FirstOrDefault over the loaded assemblies: the index of the first one whose
   * full name contains `name`, or None when there is none.
   */
  function FirstMatch(assemblies: seq<AssemblyInfo>, name: string): (r: Option<nat>)
    ensures r.Some? ==> r.value < |assemblies| && Contains(assemblies[r.value].fullName, name)
    ensures r.Some? ==> forall j :: 0 <= j < r.value ==> !Contains(assemblies[j].fullName, name)
    ensures r.None? <==> forall j :: 0 <= j < |assemblies| ==> !Contains(assemblies[j].fullName, name)
  {
    if assemblies == [] then None
    else if Contains(assemblies[0].fullName, name) then Some(0)
    else
      match FirstMatch(assemblies[1..], name)
      case None => None
      case Some(k) => Some(k + 1)
  }

  /** The inner loop: the attributed methods among those listed for one type, in the order listed. */
  function ActionsOfMethods(methods: seq<MethodInfo>): (r: seq<DebugAction>)
    ensures forall a :: a in r ==> a.target in methods && a.target.attr == Some(a.attr)
  {
    if methods == [] then []
    else
      var m := methods[0];
      (if m.attr.Some? then [DebugAction(m, m.attr.value)] else []) + ActionsOfMethods(methods[1..])
  }

  /** The outer loop: the actions of every type, type after type. */
  function ActionsOfTypes(types: seq<TypeInfo>): (r: seq<DebugAction>)
    ensures forall a :: a in r ==> (exists t :: t in types && a.target in t.methods) && a.target.attr == Some(a.attr)
  {
    if types == [] then []
    else ActionsOfMethods(types[0].methods) + ActionsOfTypes(types[1..])
  }

  /**
   * GetDebugActions. The source logs an error when no assembly matches and then
   * dereferences the missing assembly; here that is an explicit failure.
   */
  function GetDebugActions(assemblies: seq<AssemblyInfo>, name: string): (r: Result<seq<DebugAction>, ResolveError>)
    ensures r.Failure? <==> forall j :: 0 <= j < |assemblies| ==> !Contains(assemblies[j].fullName, name)
    ensures r.Failure? ==> r.error == AssemblyNotFound(name)
    ensures r.Success? ==> exists k :: 0 <= k < |assemblies| && Contains(assemblies[k].fullName, name)
                                     && (forall j :: 0 <= j < k ==> !Contains(assemblies[j].fullName, name))
                                     && r.value == ActionsOfTypes(assemblies[k].types)
  {
    match FirstMatch(assemblies, name)
    case None => Failure(AssemblyNotFound(name))
    case Some(k) => Success(ActionsOfTypes(assemblies[k].types))
  }

  /** A listed method is yielded exactly when it carries an action attribute, paired with that attribute. */
  lemma {:induction false} MethodActionMembership(methods: seq<MethodInfo>, a: DebugAction)
    ensures a in ActionsOfMethods(methods) <==> a.target in methods && a.target.attr == Some(a.attr)
  {
    if methods != [] {
      MethodActionMembership(methods[1..], a);
      assert a.target in methods <==> a.target == methods[0] || a.target in methods[1..];
    }
  }

  /**
   * An action is yielded exactly when its method is listed for one of the types
   * (declared there or inherited) and carries an attribute, which is the
   * action's own; visibility and staticness play no part.
   */
  lemma {:induction false} ActionMembership(types: seq<TypeInfo>, a: DebugAction)
    ensures a in ActionsOfTypes(types) <==> (exists t :: t in types && a.target in t.methods) && a.target.attr == Some(a.attr)
  {
    if types != [] {
      ActionMembership(types[1..], a);
      MethodActionMembership(types[0].methods, a);
      if a.target in types[0].methods {
        assert types[0] in types;
      }
      if exists t :: t in types[1..] && a.target in t.methods {
        var t :| t in types[1..] && a.target in t.methods;
        assert t in types;
      }
      if exists t :: t in types && a.target in t.methods {
        var t :| t in types && a.target in t.methods;
        if t != types[0] {
          assert t in types[1..];
        }
      }
    }
  }

  /**
   * Every attributed method listed for a scanned type is yielded, with its own
   * attribute, whether it is public or not and static or not.
   */
  lemma EveryAttributedMethodYielded(types: seq<TypeInfo>, t: TypeInfo, m: MethodInfo)
    requires t in types && m in t.methods && m.attr.Some?
    ensures DebugAction(m, m.attr.value) in ActionsOfTypes(types)
  {
    ActionMembership(types, DebugAction(m, m.attr.value));
  }

  /** How many times reflection lists method `m`, over all the types. */
  function Listings(types: seq<TypeInfo>, m: MethodInfo): nat {
    if types == [] then 0 else multiset(types[0].methods)[m] + Listings(types[1..], m)
  }

  lemma {:induction false} MethodActionCount(methods: seq<MethodInfo>, a: DebugAction)
    ensures multiset(ActionsOfMethods(methods))[a] == if a.target.attr == Some(a.attr) then multiset(methods)[a.target] else 0
  {
    if methods != [] {
      MethodActionCount(methods[1..], a);
      assert methods == [methods[0]] + methods[1..];
    }
  }

  /**
   * An attributed method is yielded once for every time it is listed: an
   * inherited one once under its declaring type and once more under every
   * scanned type that inherits it. Nothing else is yielded.
   */
  lemma {:induction false} ActionCount(types: seq<TypeInfo>, a: DebugAction)
    ensures multiset(ActionsOfTypes(types))[a] == if a.target.attr == Some(a.attr) then Listings(types, a.target) else 0
  {
    if types != [] {
      ActionCount(types[1..], a);
      MethodActionCount(types[0].methods, a);
    }
  }

  /** Scanning two runs of methods one after the other yields the two results one after the other. */
  lemma {:induction false} ActionsOfMethodsAppend(m1: seq<MethodInfo>, m2: seq<MethodInfo>)
    ensures ActionsOfMethods(m1 + m2) == ActionsOfMethods(m1) + ActionsOfMethods(m2)
  {
    if m1 == [] {
      assert m1 + m2 == m2;
    } else {
      assert (m1 + m2)[1..] == m1[1..] + m2;
      ActionsOfMethodsAppend(m1[1..], m2);
    }
  }

  /** Scanning two runs of types one after the other yields the two results one after the other. */
  lemma {:induction false} ActionsOfTypesAppend(t1: seq<TypeInfo>, t2: seq<TypeInfo>)
    ensures ActionsOfTypes(t1 + t2) == ActionsOfTypes(t1) + ActionsOfTypes(t2)
  {
    if t1 == [] {
      assert t1 + t2 == t2;
    } else {
      assert (t1 + t2)[1..] == t1[1..] + t2;
      ActionsOfTypesAppend(t1[1..], t2);
    }
  }

  /** Where the actions of type `i` start in the output: after those of all earlier types. */
  function Offset(types: seq<TypeInfo>, i: nat): nat
    requires i <= |types|
  {
    |ActionsOfTypes(types[..i])|
  }

  lemma TypeBlock(types: seq<TypeInfo>, i: nat)
    requires i < |types|
    ensures Offset(types, i) + |ActionsOfMethods(types[i].methods)| == Offset(types, i + 1) <= |ActionsOfTypes(types)|
    ensures ActionsOfTypes(types)[Offset(types, i)..Offset(types, i + 1)] == ActionsOfMethods(types[i].methods)
  {
    assert types[..i + 1] == types[..i] + [types[i]];
    assert [types[i]][1..] == [];
    ActionsOfTypesAppend(types[..i], [types[i]]);
    assert types == types[..i + 1] + types[i + 1..];
    ActionsOfTypesAppend(types[..i + 1], types[i + 1..]);
  }

  lemma OffsetMonotone(types: seq<TypeInfo>, i: nat, j: nat)
    requires i <= j <= |types|
    ensures Offset(types, i) <= Offset(types, j)
  {
    assert types[..j] == types[..i] + types[i..j];
    ActionsOfTypesAppend(types[..i], types[i..j]);
  }

  /**
   * The output is type by type: the actions of each type form one contiguous
   * block, and the block of an earlier type ends before the block of a later
   * type starts.
   */
  lemma TypeOrder(types: seq<TypeInfo>, i: nat, j: nat)
    requires i < j < |types|
    ensures Offset(types, i) <= Offset(types, i + 1) <= Offset(types, j) <= Offset(types, j + 1) <= |ActionsOfTypes(types)|
    ensures ActionsOfTypes(types)[Offset(types, i)..Offset(types, i + 1)] == ActionsOfMethods(types[i].methods)
    ensures ActionsOfTypes(types)[Offset(types, j)..Offset(types, j + 1)] == ActionsOfMethods(types[j].methods)
  {
    TypeBlock(types, i);
    TypeBlock(types, j);
    OffsetMonotone(types, i + 1, j);
  }

  /** Within one type, every action of an earlier listed method comes before every action of a later one. */
  lemma MethodOrder(methods: seq<MethodInfo>, i: nat, j: nat, p: nat, q: nat)
    requires Distinct(methods) && i < j < |methods|
    requires p < |ActionsOfMethods(methods)| && ActionsOfMethods(methods)[p].target == methods[i]
    requires q < |ActionsOfMethods(methods)| && ActionsOfMethods(methods)[q].target == methods[j]
    ensures p < q
  {
    var front, back := ActionsOfMethods(methods[..j]), ActionsOfMethods(methods[j..]);
    assert methods == methods[..j] + methods[j..];
    ActionsOfMethodsAppend(methods[..j], methods[j..]);
    assert methods[j] !in methods[..j];
    assert methods[i] !in methods[j..];
  }

  /** No type lists a method twice, and no method is listed under two types. */
  predicate NoRepeatedMethod(types: seq<TypeInfo>) {
    && (forall t :: t in types ==> Distinct(t.methods))
    && (forall i, j, m :: 0 <= i < j < |types| && m in types[i].methods ==> m !in types[j].methods)
  }

  /** The attributed methods listed for the input, each paired with its attribute. */
  ghost function AttributedMethods(types: seq<TypeInfo>): set<DebugAction> {
    set t, m | t in types && m in t.methods && m.attr.Some? :: DebugAction(m, m.attr.value)
  }

  lemma {:induction false} MethodActionsDistinct(methods: seq<MethodInfo>)
    requires Distinct(methods)
    ensures Distinct(ActionsOfMethods(methods))
  {
    if methods != [] {
      MethodActionsDistinct(methods[1..]);
      var m := methods[0];
      var head: seq<DebugAction> := if m.attr.Some? then [DebugAction(m, m.attr.value)] else [];
      forall a | a in head ensures a !in ActionsOfMethods(methods[1..]) {
        assert m !in methods[1..];
      }
      DistinctConcat(head, ActionsOfMethods(methods[1..]));
    }
  }

  lemma {:induction false} ActionsDistinct(types: seq<TypeInfo>)
    requires NoRepeatedMethod(types)
    ensures Distinct(ActionsOfTypes(types))
  {
    if types != [] {
      var rest := types[1..];
      assert forall i, j, m :: 0 <= i < j < |rest| && m in rest[i].methods ==> m !in rest[j].methods by {
        forall i, j, m | 0 <= i < j < |rest| && m in rest[i].methods ensures m !in rest[j].methods {
          assert rest[i] == types[i + 1] && rest[j] == types[j + 1];
        }
      }
      ActionsDistinct(rest);
      MethodActionsDistinct(types[0].methods);
      forall a | a in ActionsOfMethods(types[0].methods)
        ensures a !in ActionsOfTypes(rest)
      {
        MethodActionMembership(types[0].methods, a);
        ActionMembership(rest, a);
        forall t | t in rest ensures a.target !in t.methods {
          var k :| 0 <= k < |rest| && rest[k] == t;
          assert types[k + 1] == t;
        }
      }
      DistinctConcat(ActionsOfMethods(types[0].methods), ActionsOfTypes(rest));
    }
  }

  /**
   * No drops and no duplicates: when no method is listed twice, not even under
   * two types, the scan yields every attributed method exactly once, so its
   * length is the number of attributed methods.
   */
  lemma NoDropsNoDuplicates(types: seq<TypeInfo>)
    requires NoRepeatedMethod(types)
    ensures Distinct(ActionsOfTypes(types))
    ensures Elements(ActionsOfTypes(types)) == AttributedMethods(types)
    ensures |ActionsOfTypes(types)| == |AttributedMethods(types)|
  {
    var r := ActionsOfTypes(types);
    ActionsDistinct(types);
    forall a ensures a in Elements(r) <==> a in AttributedMethods(types) {
      ActionMembership(types, a);
    }
    DistinctCardinality(r);
  }
}
