/**
 The textual forms of derived variables: `PARENT-<count>-<variable>` (optionally wrapped
 as `${...}`), and the `${VAR}/rest` macro form of a variable-relative path.
 */
module ParentVariables {
  import opened Wrappers
  import opened Strings
  import opened Paths

  /** The name under which the parent-variable provider is registered. */
  const PARENT_NAME := "PARENT"

  /** `isParentVariable`: the string starts with `PARENT-`. */
  predicate IsParentVariable(variableString: string) {
    StartsWith(variableString, PARENT_NAME + "-")
  }

  /** A string `isParentVariable` accepts splits on `-` into parts the first of which is `PARENT`. */
  lemma ParentVariableFirstPart(variableString: string)
    requires IsParentVariable(variableString)
    ensures |Split(variableString, '-')| > 0 && Split(variableString, '-')[0] == PARENT_NAME
  {
    var rest := variableString[|PARENT_NAME + "-"|..];
    assert variableString == PARENT_NAME + ['-'] + rest;
    SplitAllJoin(PARENT_NAME, '-', rest);
  }

  /**
   `getParentVariableCount`: the middle of exactly three dash-separated parts, as an integer,
   else -1. The middle part holds no dash, so the count is never below -1, and a count is
   found only where an argument is.
   */
  function GetParentVariableCount(variableString: string): (r: int)
    ensures -1 <= r <= INT_MAX
    ensures r >= 0 ==> GetParentVariableArgument(variableString).Some?
  {
    var items := Split(variableString, '-');
    if |items| == 3 then
      match ParseInt(items[1])
      case Some(count) => count
      case None => -1
    else -1
  }

  /** `getParentVariableArgument`: the last of exactly three dash-separated parts, else `null`; never empty, never with a dash. */
  function GetParentVariableArgument(variableString: string): (r: Option<string>)
    ensures r.Some? ==> r.value != "" && '-' !in r.value
  {
    var items := Split(variableString, '-');
    if |items| == 3 then Some(items[2]) else None
  }

  /** `buildParentPathVariable`: `PARENT-<difference>-<variable>`, wrapped in `${...}` unless a macro is generated. */
  function BuildParentPathVariable(variable: string, difference: int, generateMacro: bool): (r: string)
    ensures generateMacro ==> IsParentVariable(r)
    ensures !generateMacro ==> StartsWith(r, "${" + PARENT_NAME + "-") && r[|r| - 1] == '}'
    ensures !generateMacro ==> r == "${" + BuildParentPathVariable(variable, difference, true) + "}"
    decreases if generateMacro then 0 else 1
  {
    var newString := PARENT_NAME + "-" + IntToString(difference) + "-" + variable;
    assert newString[..7] == PARENT_NAME + "-";
    if !generateMacro then
      var wrapped := "${" + newString + "}";
      assert wrapped[..9] == "${" + PARENT_NAME + "-";
      wrapped
    else newString
  }

  /**
   Parsing inverts building: for a count from zero up to `Integer.MAX_VALUE` and a non-empty
   variable with no dash, the unwrapped form is a parent variable with that count and that
   argument.
   */
  lemma {:induction false} ParentVariableRoundTrip(variable: string, difference: nat)
    requires variable != "" && '-' !in variable && difference <= INT_MAX
    ensures var s := BuildParentPathVariable(variable, difference, true);
            && IsParentVariable(s)
            && GetParentVariableCount(s) == difference
            && GetParentVariableArgument(s) == Some(variable)
  {
    var digits := NatToString(difference);
    var s := BuildParentPathVariable(variable, difference, true);
    assert s == PARENT_NAME + ['-'] + digits + ['-'] + variable;
    SplitThree(PARENT_NAME, '-', digits, variable);
    ParseIntOfNatToString(difference);
  }

  /**
   The value a forced conversion stores, `${PARENT-k-V}`, holds between its braces the
   parent variable with that count and that argument.
   */
  lemma StoredParentValueRoundTrip(variable: string, difference: nat)
    requires variable != "" && '-' !in variable && difference <= INT_MAX
    ensures var stored := BuildParentPathVariable(variable, difference, false);
            var inner := stored[2..|stored| - 1];
            && stored == "${" + inner + "}"
            && IsParentVariable(inner)
            && GetParentVariableCount(inner) == difference
            && GetParentVariableArgument(inner) == Some(variable)
  {
    var s := BuildParentPathVariable(variable, difference, true);
    var stored := BuildParentPathVariable(variable, difference, false);
    assert stored[2..|stored| - 1] == s;
    ParentVariableRoundTrip(variable, difference);
  }

  /** A name with no dash (every cleaned variable name) is not a parent variable and does not parse as one. */
  lemma PlainNameIsNotParentVariable(name: string)
    requires '-' !in name
    ensures !IsParentVariable(name)
    ensures GetParentVariableCount(name) == -1 && GetParentVariableArgument(name) == None
  {
    assert (PARENT_NAME + "-")[6] == '-';
    assert |name| >= 7 ==> name[..7][6] == name[6];
  }

  /**
   `buildVariableMacro`: the first segment `seg` becomes `${seg}`; the rest follow unchanged.
   A path without segments has a `null` first segment, which Java prints as `null`.
   */
  function BuildVariableMacro(relativeSrcValue: Path): (r: Path)
    ensures |relativeSrcValue.segments| > 0 ==>
              && |r.segments| == |relativeSrcValue.segments|
              && r.segments[0] == "${" + relativeSrcValue.segments[0] + "}"
              && r.segments[1..] == relativeSrcValue.segments[1..]
  {
    var variable := if |relativeSrcValue.segments| > 0 then relativeSrcValue.segments[0] else "null";
    FromOSString("${" + variable + "}").Append(relativeSrcValue.RemoveFirstSegments(1))
  }

  /** The variable name inside a `${name}` segment. */
  function MacroVariable(segment: string): Option<string> {
    if |segment| >= 3 && segment[..2] == "${" && segment[|segment| - 1] == '}'
    then Some(segment[2..|segment| - 1])
    else None
  }

  /** The macro's first segment names exactly the original first segment. */
  lemma MacroNamesFirstSegment(p: Path)
    requires |p.segments| > 0 && p.segments[0] != ""
    ensures MacroVariable(BuildVariableMacro(p).segments[0]) == Some(p.segments[0])
  {
    var seg := BuildVariableMacro(p).segments[0];
    assert seg[2..|seg| - 1] == p.segments[0];
  }

  /** `wrapInProperFormat`: the macro form when a macro is generated, else the path as is. */
  function WrapInProperFormat(newPath: Path, generateMacro: bool): (r: Path)
    ensures !generateMacro ==> r == newPath
    ensures |newPath.segments| > 0 ==> |r.segments| == |newPath.segments| && r.segments[1..] == newPath.segments[1..]
  {
    if generateMacro then BuildVariableMacro(newPath) else newPath
  }
}
