/**
 `PathVariableUtil`'s conversions as methods over a `PathVariableManager`, written the way
 the code works (loops over the listed variable names, segment-by-segment appends, writes
 through `setValue`) and each proved to compute exactly the function of `RelativizeSpec`
 that describes it: the returned path and the manager's new state.
 */
module PathVariableUtil {
  import opened Wrappers
  import opened Strings
  import opened Paths
  import opened Manager
  import opened Names
  import opened ParentVariables
  import opened RelativizeSpec

  /** `getExistingVariable`: the first listed variable whose stored value prints as `newValue`. */
  method GetExistingVariable(newValue: string, manager: PathVariableManager, win32: bool) returns (r: Option<string>)
    requires manager.Valid()
    ensures r == ExistingVariable(manager.State(), newValue, win32)
    ensures r.Some? ==> r.value in manager.values && ToOSString(manager.values[r.value], win32) == newValue
    ensures r.None? ==> forall n :: n in manager.values ==> ToOSString(manager.values[n], win32) != newValue
  {
    var existingVariables := manager.GetPathVariableNames();
    for i := 0 to |existingVariables|
      invariant ExistingFrom(manager.values, existingVariables, newValue, win32, i)
                == ExistingVariable(manager.State(), newValue, win32)
    {
      var variable := existingVariables[i];
      var value := manager.GetValue(variable);
      if ToOSString(value, win32) == newValue {
        return Some(variable);
      }
    }
    return None;
  }

  /** Appends the segments of `originalPath` from index `from` on to `tmp`, one at a time. */
  method AppendRemaining(tmp: Path, originalPath: Path, from: nat) returns (r: Path)
    requires from <= |originalPath.segments|
    ensures r == Path(tmp.device, tmp.absolute, tmp.segments + originalPath.segments[from..])
  {
    r := tmp;
    for j := from to |originalPath.segments|
      invariant r == Path(tmp.device, tmp.absolute, tmp.segments + originalPath.segments[from..j])
    {
      assert originalPath.segments[from..j + 1] == originalPath.segments[from..j] + [originalPath.segments[j]];
      r := r.AppendSegment(originalPath.segments[j]);
    }
    assert originalPath.segments[from..|originalPath.segments|] == originalPath.segments[from..];
  }

  /**
   The forced branch of `makeRelativeToVariable`, once the common segments are counted:
   the `PARENT-k-VAR` value itself in macro mode, else a variable already holding it, else a
   new variable named after the last common segment (or the device, or `ROOT`).
   */
  method MakeRelativeToParent(manager: PathVariableManager, originalPath: Path, variableHint: string,
                              valueSegmentCount: nat, matchingFirstSegments: nat, generateMacro: bool, win32: bool)
    returns (r: Path)
    requires manager.Valid()
    requires matchingFirstSegments <= |originalPath.segments| && matchingFirstSegments <= valueSegmentCount
    modifies manager
    ensures manager.Valid()
    ensures (r, manager.State())
            == Derive(old(manager.State()), win32, originalPath, variableHint, valueSegmentCount, matchingFirstSegments,
                      generateMacro)
  {
    ghost var st := manager.State();
    var newValue := BuildParentPathVariable(variableHint, valueSegmentCount - matchingFirstSegments, generateMacro);
    var originalName;
    if generateMacro {
      originalName := newValue;
    } else {
      var existing := GetExistingVariable(newValue, manager, win32);
      if existing.Some? {
        DeriveReuses(st, win32, originalPath, variableHint, valueSegmentCount, matchingFirstSegments, existing.value);
        originalName := existing.value;
      } else {
        DeriveDefines(st, win32, originalPath, variableHint, valueSegmentCount, matchingFirstSegments);
        var name: Option<string>;
        if matchingFirstSegments > 0 {
          name := Some(originalPath.segments[matchingFirstSegments - 1]);
        } else {
          name := originalPath.device;
        }
        var raw := if name.None? then "ROOT" else name.value;
        assert raw == DerivedBaseName(originalPath, matchingFirstSegments);
        originalName := GetUniqueVariableName(raw, manager);
        manager.SetValue(originalName, FromOSString(newValue));
      }
    }
    r := AppendRemaining(FromOSString(originalName), originalPath, matchingFirstSegments);
  }

  /**
   `makeRelativeToVariable`: the path relative to the variable when its value is a prefix;
   when forced, relative to a `PARENT-k-VAR` value; otherwise the original path.
   */
  method MakeRelativeToVariable(manager: PathVariableManager, originalPath: Path, force: bool, variableHint: string,
                                generateMacro: bool, win32: bool) returns (r: Path)
    requires manager.Valid() && variableHint in manager.values
    modifies manager
    ensures manager.Valid()
    ensures (r, manager.State())
            == MakeRelative(old(manager.State()), manager.resolver, win32, originalPath, force, variableHint, generateMacro)
  {
    ghost var st := manager.State();
    var path := ConvertToProperCase(originalPath, win32);
    var value := manager.GetValue(variableHint);
    value := ConvertToProperCase(manager.ResolvePath(value), win32);
    var valueSegmentCount := value.SegmentCount();
    assert value == ResolvedValue(st, manager.resolver, win32, variableHint);
    if value.IsPrefixOf(path) {
      MakeRelativePrefixCase(st, manager.resolver, win32, originalPath, force, variableHint, generateMacro);
      r := AppendRemaining(FromOSString(variableHint), originalPath, valueSegmentCount);
      return;
    }
    if force {
      // the count of common segments is never negative, so the code's `>= 0` test always passes
      var matchingFirstSegments := path.MatchingFirstSegments(value);
      r := MakeRelativeToParent(manager, originalPath, variableHint, valueSegmentCount, matchingFirstSegments,
                                generateMacro, win32);
      return;
    }
    r := originalPath;
  }

  /**
   The first loop of `convertToRelative`: among the listed variables (never `PARENT`, and not
   the workspace while it is skipped) whose resolved value is a prefix of `path`, the first
   with the most segments; each improvement makes the path relative to it, which writes nothing.
   */
  method LongestPrefixMatch(manager: PathVariableManager, originalPath: Path, path: Path,
                            existingVariables: seq<string>, force: bool, skipWorkspace: bool, generateMacro: bool,
                            win32: bool)
    returns (newPath: Option<Path>)
    requires manager.Valid() && existingVariables == manager.names
    requires path == ConvertToProperCase(originalPath, win32)
    modifies manager
    ensures manager.State() == old(manager.State())
    ensures var st := old(manager.State());
            var best := BestPrefixVariable(st, manager.resolver, win32, path, skipWorkspace);
            && newPath.Some? == best.Some?
            && (best.Some? ==>
                  (newPath.value, st) == MakeRelative(st, manager.resolver, win32, originalPath, force, best.value, generateMacro))
  {
    ghost var st := manager.State();
    newPath := None;
    var maxMatchLength: int := -1;
    ghost var best: Option<string> := None;
    for i := 0 to |existingVariables|
      invariant manager.State() == st
      invariant best.Some? ==> best.value in st.values
      invariant BestPrefixFrom(st, manager.resolver, win32, path, existingVariables, skipWorkspace, i, maxMatchLength, best)
                == BestPrefixVariable(st, manager.resolver, win32, path, skipWorkspace)
      invariant newPath.Some? == best.Some?
      invariant best.Some? ==>
                  (newPath.value, st) == MakeRelative(st, manager.resolver, win32, originalPath, force, best.value, generateMacro)
    {
      var variable := existingVariables[i];
      if skipWorkspace && variable == WORKSPACE_LOC {
        continue;
      }
      if variable == PARENT_NAME {
        continue;
      }
      var value := manager.GetValue(variable);
      value := ConvertToProperCase(manager.ResolvePath(value), win32);
      assert value == ResolvedValue(st, manager.resolver, win32, variable);
      if value.IsPrefixOf(path) {
        var matchLength := value.SegmentCount();
        if matchLength > maxMatchLength {
          maxMatchLength := matchLength;
          MakeRelativePrefixCase(st, manager.resolver, win32, originalPath, force, variable, generateMacro);
          var p := MakeRelativeToVariable(manager, originalPath, force, variable, generateMacro, win32);
          newPath := Some(p);
          best := Some(variable);
        }
      }
    }
  }

  /**
   One variable of a pass of the forced search: when its value lies at or below
   `matchingPath` and is closer to the original path than the best so far, the path is
   made relative to it (which may define a variable); the workspace (while skipped) and
   `PARENT` are passed over.
   */
  method ScanVariable(manager: PathVariableManager, originalPath: Path, matchingPath: Path, variable: string,
                      skipWorkspace: bool, generateMacro: bool, win32: bool, minDifference: int, newPath: Option<Path>)
    returns (minDifference': int, newPath': Option<Path>)
    requires manager.Valid() && variable in manager.values
    modifies manager
    ensures manager.Valid()
    ensures (manager.State(), minDifference', newPath')
            == ScanStep(old(manager.State()), manager.resolver, win32, originalPath, matchingPath, variable,
                        skipWorkspace, generateMacro, minDifference, newPath)
  {
    ghost var current := manager.State();
    minDifference', newPath' := minDifference, newPath;
    if !(skipWorkspace && variable == WORKSPACE_LOC) && variable != PARENT_NAME {
      var value := manager.GetValue(variable);
      value := ConvertToProperCase(manager.ResolvePath(value), win32);
      assert value == ResolvedValue(current, manager.resolver, win32, variable);
      var difference := value.SegmentCount() - originalPath.SegmentCount();
      assert difference == MatchLength(current, manager.resolver, win32, variable) - |originalPath.segments|;
      if matchingPath.IsPrefixOf(value) && difference < minDifference {
        ScanStepTakes(current, manager.resolver, win32, originalPath, matchingPath, variable, skipWorkspace,
                      generateMacro, minDifference, newPath);
        minDifference' := difference;
        var p := MakeRelativeToVariable(manager, originalPath, true, variable, generateMacro, win32);
        newPath' := Some(p);
      } else {
        ScanStepPasses(current, manager.resolver, win32, originalPath, matchingPath, variable, skipWorkspace,
                       generateMacro, minDifference, newPath);
      }
    } else {
      ScanStepPasses(current, manager.resolver, win32, originalPath, matchingPath, variable, skipWorkspace,
                     generateMacro, minDifference, newPath);
    }
  }

  /** One pass of the forced search at a truncation level, over every listed variable. */
  method ClosestAncestorAtLevel(manager: PathVariableManager, originalPath: Path, matchingPath: Path,
                                existingVariables: seq<string>, skipWorkspace: bool, generateMacro: bool, win32: bool)
    returns (newPath: Option<Path>)
    requires manager.Valid()
    requires forall n :: n in existingVariables ==> n in manager.values
    modifies manager
    ensures manager.Valid()
    ensures (newPath, manager.State())
            == ForcedScan(old(manager.State()), manager.resolver, win32, originalPath, matchingPath, existingVariables,
                          skipWorkspace, generateMacro, 0, INT_MAX, None)
  {
    ghost var st := manager.State();
    var minDifference := INT_MAX;
    newPath := None;
    for k := 0 to |existingVariables|
      invariant manager.Valid()
      invariant forall n :: n in existingVariables ==> n in manager.values
      invariant ForcedScan(manager.State(), manager.resolver, win32, originalPath, matchingPath, existingVariables,
                           skipWorkspace, generateMacro, k, minDifference, newPath)
                == ForcedScan(st, manager.resolver, win32, originalPath, matchingPath, existingVariables,
                              skipWorkspace, generateMacro, 0, INT_MAX, None)
    {
      minDifference, newPath := ScanVariable(manager, originalPath, matchingPath, existingVariables[k], skipWorkspace,
                                             generateMacro, win32, minDifference, newPath);
    }
  }

  /**
   The truncation levels of the forced search, from none to all segments: the first level
   that finds a variable wins.
   */
  method ClosestAncestor(manager: PathVariableManager, originalPath: Path, path: Path, existingVariables: seq<string>,
                         skipWorkspace: bool, generateMacro: bool, win32: bool)
    returns (newPath: Option<Path>)
    requires manager.Valid()
    requires forall n :: n in existingVariables ==> n in manager.values
    modifies manager
    ensures manager.Valid()
    ensures (newPath, manager.State())
            == ForcedLevels(old(manager.State()), manager.resolver, win32, originalPath, path, existingVariables,
                            skipWorkspace, generateMacro, 0)
  {
    ghost var st := manager.State();
    ghost var goal := ForcedLevels(st, manager.resolver, win32, originalPath, path, existingVariables, skipWorkspace,
                                   generateMacro, 0);
    var originalSegmentCount := originalPath.SegmentCount();
    for j := 0 to originalSegmentCount + 1
      invariant manager.State() == st
      invariant ForcedLevels(st, manager.resolver, win32, originalPath, path, existingVariables, skipWorkspace, generateMacro, j)
                == goal
    {
      var matchingPath := path.RemoveLastSegments(j);
      ghost var out := ForcedScan(st, manager.resolver, win32, originalPath, matchingPath, existingVariables,
                                  skipWorkspace, generateMacro, 0, INT_MAX, None);
      ForcedLevelsStep(st, manager.resolver, win32, originalPath, path, existingVariables, skipWorkspace, generateMacro, j);
      newPath := ClosestAncestorAtLevel(manager, originalPath, matchingPath, existingVariables, skipWorkspace,
                                        generateMacro, win32);
      assert (newPath, manager.State()) == out;
      if newPath.Some? {
        return;
      }
    }
    newPath := None;
  }

  /**
   The forced part of `convertToRelative`: the closest ancestor search, and then, for a path
   without segments, the project location, whose absence makes the code fail.
   */
  method ForcedConversion(manager: PathVariableManager, originalPath: Path, path: Path, existingVariables: seq<string>,
                          skipWorkspace: bool, generateMacro: bool, win32: bool)
    returns (newPath: Result<Option<Path>>)
    requires manager.Valid()
    requires forall n :: n in existingVariables ==> n in manager.values
    modifies manager
    ensures manager.Valid()
    ensures (newPath, manager.State())
            == ForcedSearch(old(manager.State()), manager.resolver, win32, originalPath, path, existingVariables,
                            skipWorkspace, generateMacro)
  {
    ghost var st := manager.State();
    var found := ClosestAncestor(manager, originalPath, path, existingVariables, skipWorkspace, generateMacro, win32);
    if found.Some? {
      return Success(found);
    }
    assert manager.State() == st;
    newPath := Success(None);
    if originalPath.SegmentCount() == 0 {
      var variable := PROJECT_LOC;
      if !manager.IsDefined(variable) {
        return Failure(PROJECT_LOC_UNDEFINED);
      }
      var value := manager.GetValue(variable);
      value := ConvertToProperCase(manager.ResolvePath(value), win32);
      assert value == ResolvedValue(st, manager.resolver, win32, variable);
      if originalPath.IsPrefixOf(value) {
        var p := MakeRelativeToVariable(manager, originalPath, true, variable, generateMacro, win32);
        newPath := Success(Some(p));
      }
    }
  }

  /**
   The private `convertToRelative`: a defined hint first, then the longest prefix, then (when
   forced) the closest ancestor; failing all of these with the workspace skipped, once more
   with the workspace allowed; failing again, the original path. The null dereference on a
   missing `PROJECT_LOC` is returned as a failure, with nothing written.
   */
  method ConvertWithOptions(manager: PathVariableManager, originalPath: Path, force: bool, variableHint: Option<string>,
                            skipWorkspace: bool, generateMacro: bool, win32: bool)
    returns (r: Result<Path>)
    requires manager.Valid()
    modifies manager
    ensures manager.Valid()
    ensures (r, manager.State())
            == Convert(old(manager.State()), manager.resolver, win32, originalPath, force, variableHint, skipWorkspace,
                       generateMacro)
    decreases skipWorkspace
  {
    ghost var st := manager.State();
    if variableHint.Some? && manager.IsDefined(variableHint.value) {
      var p := MakeRelativeToVariable(manager, originalPath, force, variableHint.value, generateMacro, win32);
      return Success(WrapInProperFormat(p, generateMacro));
    }
    var path := ConvertToProperCase(originalPath, win32);
    var existingVariables := manager.GetPathVariableNames();
    var newPath := LongestPrefixMatch(manager, originalPath, path, existingVariables, force, skipWorkspace,
                                      generateMacro, win32);
    if newPath.Some? {
      return Success(WrapInProperFormat(newPath.value, generateMacro));
    }
    if force {
      var forced := ForcedConversion(manager, originalPath, path, existingVariables, skipWorkspace, generateMacro, win32);
      if forced.Failure? {
        return Failure(forced.error);
      }
      if forced.value.Some? {
        return Success(WrapInProperFormat(forced.value.value, generateMacro));
      }
    }
    if skipWorkspace {
      r := ConvertWithOptions(manager, originalPath, force, variableHint, false, generateMacro, win32);
      return;
    }
    r := Success(originalPath);
  }

  /** `convertToRelative`: the converted path in plain form, with variables defined as needed. */
  method ConvertToRelative(manager: PathVariableManager, originalPath: Path, force: bool, variableHint: Option<string>,
                           win32: bool)
    returns (r: Result<Path>)
    requires manager.Valid()
    modifies manager
    ensures manager.Valid()
    ensures (r, manager.State())
            == Convert(old(manager.State()), manager.resolver, win32, originalPath, force, variableHint, true, false)
    ensures Grows(manager.State(), old(manager.State()))
  {
    r := ConvertWithOptions(manager, originalPath, force, variableHint, true, false, win32);
  }

  /** `convertToPathRelativeMacro`: the converted path with its first segment written as a `${...}` macro. */
  method ConvertToPathRelativeMacro(manager: PathVariableManager, originalPath: Path, force: bool,
                                    variableHint: Option<string>, win32: bool)
    returns (r: Result<Path>)
    requires manager.Valid()
    modifies manager
    ensures manager.Valid()
    ensures (r, manager.State())
            == Convert(old(manager.State()), manager.resolver, win32, originalPath, force, variableHint, true, true)
    ensures manager.State() == old(manager.State())
  {
    ConvertMacroWritesNothing(manager.State(), manager.resolver, win32, originalPath, force, variableHint, true);
    r := ConvertWithOptions(manager, originalPath, force, variableHint, true, true, win32);
  }
}
