/**
 * The reflection data the debug menu works on, as plain values: a loaded
 * assembly is a name and its types, a type carries its optional tab
 * attribute and the methods reflection lists for it, a method carries its
 * declaring type, its parameter types and its optional action attribute.
 * A C# string that may be null is an Option<string>.
 */
module Reflection {
  import opened Wrappers

  /** DebugActionAttribute: an optional button label and an optional header. */
  datatype ActionAttr = ActionAttr(displayName: Option<string>, headerName: Option<string>)

  /** A System.Type as an identity: its full name and the TabName of its DebugTabAttribute, if any. */
  datatype TypeId = TypeId(fullName: string, tabAttr: Option<string>)

  /**
   * A MethodInfo: its name, the type that declares it (which differs from the
   * type it was listed for when it is inherited), the types of its parameters,
   * its visibility and staticness, and its action attribute if any.
   */
  datatype MethodInfo = MethodInfo(
    name: string,
    declaringType: TypeId,
    parameterTypes: seq<string>,
    isPublic: bool,
    isStatic: bool,
    attr: Option<ActionAttr>)

  /**
   * A Type as the scan sees it: its identity and the methods GetMethods lists
   * for it, in the order reflection returns them; inherited methods are listed
   * too, each with its own declaring type.
   */
  datatype TypeInfo = TypeInfo(id: TypeId, methods: seq<MethodInfo>)

  /** A loaded Assembly: its FullName and the types it defines. */
  datatype AssemblyInfo = AssemblyInfo(fullName: string, types: seq<TypeInfo>)

  /** One discovered action: the (method, attribute) pair the scan yields. */
  datatype DebugAction = DebugAction(target: MethodInfo, attr: ActionAttr)

  /** string.IsNullOrEmpty */
  predicate IsNullOrEmpty(s: Option<string>) {
    s.None? || s.value == ""
  }
}
