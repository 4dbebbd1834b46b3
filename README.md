# PathVariableUtil, modelled and proved in Dafny

Eclipse's `PathVariableUtil` (org.eclipse.core.resources) rewrites a filesystem path in
terms of the path variables a manager defines. It does this in up to three phases:

1. **Prefix phase.** It looks for the defined variable whose resolved value is the longest
   prefix of the path. The path `/a/b/c` becomes `V/c` when `V` resolves to `/a/b`.
2. **Forced phase.** With `force` set and no prefix match, it looks for the closest
   variable at or below an ancestor of the path. It then expresses the path through a
   derived `PARENT-k-V` value, "k levels above `V`". Outside macro mode it reuses or
   creates an ordinary variable holding `${PARENT-k-V}`.
3. **Retry.** If both phases fail while the workspace location is skipped, it runs them
   once more with the workspace location allowed.

In macro mode (`convertToPathRelativeMacro`) the first segment comes back as `${NAME}`.
The class also cleans raw strings into valid variable names, makes them unique in the
manager, and builds and parses the `PARENT-COUNT-ARGUMENT` grammar.

The project has eight modules:

- `Wrappers`: `Option`, for Java's `null`, and `Result`, for a call that can throw.
- `Strings`: the Java string operations the code relies on. These are `indexOf`,
  `trim`, `split("-")`, `"" + int`, `Integer.valueOf` (32-bit range) and `toLowerCase`.
- `Paths`: the slice of `IPath` the code uses. A path is a device, an absolute flag and
  segments, with `isPrefixOf`, `matchingFirstSegments`, `append`, `toOSString`,
  `fromOSString` and the platform case folding (`convertToProperCase`).
- `Manager`: the path-variable manager as a class.
  - Its fields are `values` (name to stored path) and `names` (the order
    `getPathVariableNames` lists them in).
  - `setValue` updates them in place.
  - `Vars` is the same state as a value.
- `Names`: `getValidVariableName` and `getUniqueVariableName`. Each is a method with
  its loop, proved against a function.
- `ParentVariables`:
  - `isParentVariable`, `getParentVariableCount`, `getParentVariableArgument`;
  - `buildParentPathVariable`, `buildVariableMacro`, `wrapInProperFormat`.
- `RelativizeSpec`: the conversion as functions from the manager's state to the
  returned path and the state afterwards. The properties the code promises are proved
  about these functions.
- `PathVariableUtil`: the conversion methods over a `PathVariableManager`.
  - They are written as the code works: loops over the listed names, segment-by-segment
    appends, and writes through `setValue`.
  - Each is proved to return exactly the path, and leave exactly the manager state,
    that the matching `RelativizeSpec` function gives.
  - The Java `convertToRelative` and `makeRelativeToVariable` are split into several
    methods at their loop boundaries, so that each loop is proved on its own:
    - `LongestPrefixMatch` is the prefix loop;
    - `ClosestAncestor` is the truncation-level loop;
    - `ClosestAncestorAtLevel` is the per-level scan, and `ScanVariable` its body;
    - `ForcedConversion` is the forced phase with the project-location fallback;
    - `MakeRelativeToParent` is the forced branch of `makeRelativeToVariable`;
    - `AppendRemaining` is the append loop.

Operating-system dependence (`Platform.getOS()`) is a `win32` parameter. A `null`
variable hint is `None`. How the manager resolves variables nested inside stored values
(`resolvePath`) is an uninterpreted function, `resolver`, of the manager's bindings.

## Model

All source paths are under
`bundles/org.eclipse.core.resources/src/org/eclipse/core/internal/resources/`.

| member | source | states |
|---|---|---|
| Names.GetValidVariableName | bundles/org.eclipse.core.resources/src/org/eclipse/core/internal/resources/PathVariableUtil.java:39-60 | returns the cleaned name `ValidVariableName(raw)`, which is always a valid name: non-empty, led by a letter or `_`, then only letters, digits and `_` |
| Names.FilterNameChars | bundles/org.eclipse.core.resources/src/org/eclipse/core/internal/resources/PathVariableUtil.java:51-58 | the character loop keeps exactly the name characters of its input, in their order |
| Names.ValidVariableName | bundles/org.eclipse.core.resources/src/org/eclipse/core/internal/resources/PathVariableUtil.java:39-60 | cleaning any string, even one with an empty head, gives a valid variable name |
| Names.ValidNameIsFixpoint | bundles/org.eclipse.core.resources/src/org/eclipse/core/internal/resources/PathVariableUtil.java:39-60 | a string that is already a valid name comes out of cleaning unchanged |
| Names.CleaningIsIdempotent | bundles/org.eclipse.core.resources/src/org/eclipse/core/internal/resources/PathVariableUtil.java:39-60 | cleaning a cleaned name changes nothing |
| Names.NameIgnoresArgument | bundles/org.eclipse.core.resources/src/org/eclipse/core/internal/resources/PathVariableUtil.java:40-43 | for `VAR-ARG` with no dash in `VAR`, the argument part has no effect on the name |
| Names.KeepNameCharsFirst | bundles/org.eclipse.core.resources/src/org/eclipse/core/internal/resources/PathVariableUtil.java:46-57 | a leading letter or `_` (the `A` prefix included) survives the filter as the first character |
| Names.AsWrittenAgrees | bundles/org.eclipse.core.resources/src/org/eclipse/core/internal/resources/PathVariableUtil.java:45-58 | wherever the code as written does not fail, the corrected cleaning gives the same name |
| Names.EmptyHeadHasNoFirstChar | bundles/org.eclipse.core.resources/src/org/eclipse/core/internal/resources/PathVariableUtil.java:41-46 | for `-data` the trimmed text before the dash is empty, so `charAt(0)` fails; the corrected cleaning gives `A` |
| Names.ValidVariableNameAsWritten | bundles/org.eclipse.core.resources/src/org/eclipse/core/internal/resources/PathVariableUtil.java:39-60 | the cleaning as written, on the inputs where it does not fail, gives a valid variable name |
| Names.GetUniqueVariableName | bundles/org.eclipse.core.resources/src/org/eclipse/core/internal/resources/PathVariableUtil.java:27-37 | the name returned is not defined in the manager, and it is `UniqueVariableName` of the raw name and the defined names |
| Names.UniqueVariableName | bundles/org.eclipse.core.resources/src/org/eclipse/core/internal/resources/PathVariableUtil.java:27-37 | the name chosen for a raw name is never one of the defined names |
| Names.CandidateInjective | bundles/org.eclipse.core.resources/src/org/eclipse/core/internal/resources/PathVariableUtil.java:32-35 | different suffix indices give different names, so every defined name is tried at most once and the loop ends |
| Names.FreeIndexIsLeastFree | bundles/org.eclipse.core.resources/src/org/eclipse/core/internal/resources/PathVariableUtil.java:32-35 | the search stops at a free candidate and every candidate before it is defined |
| Names.TryNext | bundles/org.eclipse.core.resources/src/org/eclipse/core/internal/resources/PathVariableUtil.java:32-35 | one step of the loop past a defined candidate keeps every later defined candidate tracked, and leaves one name fewer to try |
| Names.UniqueVariableNameIsLeastFree | bundles/org.eclipse.core.resources/src/org/eclipse/core/internal/resources/PathVariableUtil.java:27-37 | the unique name is undefined; it is the cleaned name when that is free, and otherwise the cleaned name followed by the least index whose name is free |
| Names.LeastFreeIsUnique | bundles/org.eclipse.core.resources/src/org/eclipse/core/internal/resources/PathVariableUtil.java:27-37 | the unique name is the one candidate that is free with every earlier candidate defined |
| Names.EmptyHeadNamesA | bundles/org.eclipse.core.resources/src/org/eclipse/core/internal/resources/PathVariableUtil.java:27-49 | a raw name with nothing before its first `-` cleans to `A`, and its unique form is the least free of `A`, `A1`, ... |
| Names.UniqueVariableNameIsValid | bundles/org.eclipse.core.resources/src/org/eclipse/core/internal/resources/PathVariableUtil.java:27-37 | the unique name is still a valid variable name, since the suffix is digits |
| Names.FreeValidNameIsKept | bundles/org.eclipse.core.resources/src/org/eclipse/core/internal/resources/PathVariableUtil.java:27-37 | a valid name that is not yet defined is returned as it is |
| Strings.ParseInt | bundles/org.eclipse.core.resources/src/org/eclipse/core/internal/resources/PathVariableUtil.java:220-225 | `Integer.valueOf` yields only values in the range of a Java `int`; anything else is the exception path |
| Strings.Split | bundles/org.eclipse.core.resources/src/org/eclipse/core/internal/resources/PathVariableUtil.java:218 | no part of `split("-")` contains a dash |
| Strings.SplitThree | bundles/org.eclipse.core.resources/src/org/eclipse/core/internal/resources/PathVariableUtil.java:218-219 | three dash-free words, the last non-empty, joined by dashes split back into exactly those three words |
| ParentVariables.BuildParentPathVariable | bundles/org.eclipse.core.resources/src/org/eclipse/core/internal/resources/PathVariableUtil.java:238-244 | the macro form is a parent variable (starts with `PARENT-`); the other form is exactly the macro form wrapped in `${` and `}` |
| ParentVariables.ParentVariableFirstPart | bundles/org.eclipse.core.resources/src/org/eclipse/core/internal/resources/PathVariableUtil.java:212-214 | a string `isParentVariable` accepts starts with `PARENT-`, so the first part `split("-")` gives is `PARENT` |
| ParentVariables.GetParentVariableCount | bundles/org.eclipse.core.resources/src/org/eclipse/core/internal/resources/PathVariableUtil.java:217-228 | the count is -1 (not three parts, or no number) or a number from 0 to `Integer.MAX_VALUE`: the middle part holds no dash, so it is never negative; a count is found only where an argument is |
| ParentVariables.GetParentVariableArgument | bundles/org.eclipse.core.resources/src/org/eclipse/core/internal/resources/PathVariableUtil.java:231-236 | an argument found is the last of exactly three parts: never empty and never holding a dash |
| ParentVariables.ParentVariableRoundTrip | bundles/org.eclipse.core.resources/src/org/eclipse/core/internal/resources/PathVariableUtil.java:212-244 | building `PARENT-k-V` and parsing it back gives a parent variable with count `k` and argument `V` (count up to `Integer.MAX_VALUE`, `V` non-empty with no dash) |
| ParentVariables.PlainNameIsNotParentVariable | bundles/org.eclipse.core.resources/src/org/eclipse/core/internal/resources/PathVariableUtil.java:212-236 | a dash-free string (every cleaned name) is not a parent variable: count -1, no argument |
| ParentVariables.StoredParentValueRoundTrip | bundles/org.eclipse.core.resources/src/org/eclipse/core/internal/resources/PathVariableUtil.java:238-244 | the stored value `${PARENT-k-V}` is `${...}` around the parent variable that parses back to count `k` and argument `V` |
| ParentVariables.BuildVariableMacro | bundles/org.eclipse.core.resources/src/org/eclipse/core/internal/resources/PathVariableUtil.java:246-250 | the first segment `s` becomes `${s}`; the segment count and every later segment are unchanged |
| ParentVariables.MacroNamesFirstSegment | bundles/org.eclipse.core.resources/src/org/eclipse/core/internal/resources/PathVariableUtil.java:246-250 | the macro's first segment names exactly the original first segment |
| ParentVariables.WrapInProperFormat | bundles/org.eclipse.core.resources/src/org/eclipse/core/internal/resources/PathVariableUtil.java:143-147 | without a macro the path is untouched; with one, only the first segment changes |
| Paths.ConvertToProperCase | bundles/org.eclipse.core.resources/src/org/eclipse/core/internal/resources/PathVariableUtil.java:206-210 | case folding keeps the segment count, the absolute flag and the presence of a device |
| Paths.ProperCaseIdempotent | bundles/org.eclipse.core.resources/src/org/eclipse/core/internal/resources/PathVariableUtil.java:206-210 | folding twice is folding once, and outside Windows the path is returned as is |
| Paths.OSStringRoundTrip | bundles/org.eclipse.core.resources/src/org/eclipse/core/internal/resources/PathVariableUtil.java:182-200 | a `${PARENT-...}` value stored with `fromOSString` prints back as itself, so `getExistingVariable` finds it later |
| Manager.Vars.Define | bundles/org.eclipse.core.resources/src/org/eclipse/core/internal/resources/PathVariableUtil.java:182 | binding a name updates exactly that binding and keeps every name listed once |
| Manager.PathVariableManager.SetValue | bundles/org.eclipse.core.resources/src/org/eclipse/core/internal/resources/PathVariableUtil.java:182 | the manager's new state is the old one with the binding set; a new name is listed last |
| RelativizeSpec.ExistingVariable | bundles/org.eclipse.core.resources/src/org/eclipse/core/internal/resources/PathVariableUtil.java:195-204 | a name found is defined and its stored value prints as the value sought; when none is found, no defined variable's value prints so |
| PathVariableUtil.GetExistingVariable | bundles/org.eclipse.core.resources/src/org/eclipse/core/internal/resources/PathVariableUtil.java:195-204 | the loop returns the first listed variable whose value prints as the value sought, or none, exactly as `ExistingVariable` |
| RelativizeSpec.ExistingAfterDefine | bundles/org.eclipse.core.resources/src/org/eclipse/core/internal/resources/PathVariableUtil.java:195-204 | after a new binding holding the value, a search that found nothing before finds the new name |
| RelativizeSpec.MakeRelative | bundles/org.eclipse.core.resources/src/org/eclipse/core/internal/resources/PathVariableUtil.java:149-193 | making a path relative keeps every existing binding; anything it adds is a single `${PARENT-...}` segment |
| RelativizeSpec.MakeRelativePrefixCase | bundles/org.eclipse.core.resources/src/org/eclipse/core/internal/resources/PathVariableUtil.java:154-161 | when the value is a prefix, the result is the variable followed by the original path's remaining segments, and nothing is written |
| RelativizeSpec.PrefixRelativeRoundTrip | bundles/org.eclipse.core.resources/src/org/eclipse/core/internal/resources/PathVariableUtil.java:154-161 | putting the variable's value back in place of its name gives the original device and segments |
| RelativizeSpec.MakeRelativeUnforcedMismatch | bundles/org.eclipse.core.resources/src/org/eclipse/core/internal/resources/PathVariableUtil.java:154-192 | with no prefix and no force, the original path comes back and nothing is written |
| RelativizeSpec.MakeRelativeForceCase | bundles/org.eclipse.core.resources/src/org/eclipse/core/internal/resources/PathVariableUtil.java:163-167 | when forced, the common segment count `M` is at most the value's and the path's segment counts (the parent count is never negative), and the result is the derivation at `M` |
| RelativizeSpec.Derive | bundles/org.eclipse.core.resources/src/org/eclipse/core/internal/resources/PathVariableUtil.java:165-189 | a derivation keeps every existing binding; a new one holds a single `${PARENT-...}` segment |
| RelativizeSpec.DeriveShape | bundles/org.eclipse.core.resources/src/org/eclipse/core/internal/resources/PathVariableUtil.java:165-189 | the result is one name and then the original segments from `M` on. In macro mode the name is `PARENT-(V-M)-VAR` and nothing is written. Otherwise the name holds a value printing as `${PARENT-(V-M)-VAR}`. It is reused when some variable already holds that value; only when none does is exactly one fresh name, the least free one, bound |
| RelativizeSpec.DeriveReuses | bundles/org.eclipse.core.resources/src/org/eclipse/core/internal/resources/PathVariableUtil.java:172-188 | a variable already holding the derived value is used, and nothing is written |
| RelativizeSpec.DeriveDefines | bundles/org.eclipse.core.resources/src/org/eclipse/core/internal/resources/PathVariableUtil.java:173-188 | with no holder, the unique name made from the last common segment (else the device, else `ROOT`) is bound to the derived value and used |
| RelativizeSpec.DeriveNamedAfterSegment | bundles/org.eclipse.core.resources/src/org/eclipse/core/internal/resources/PathVariableUtil.java:174-181 | when the last common segment is a valid, free name, the new variable carries exactly that name |
| RelativizeSpec.DefineFreshGrows | bundles/org.eclipse.core.resources/src/org/eclipse/core/internal/resources/PathVariableUtil.java:181-182 | binding a fresh name to a `${PARENT-...}` value only adds to the manager |
| RelativizeSpec.DeriveCleansEmptyHead | bundles/org.eclipse.core.resources/src/org/eclipse/core/internal/resources/PathVariableUtil.java:172-182 | where the last common segment has nothing before its first `-`, the model binds the least free of `A`, `A1`, ... to the derived value and returns it followed by the rest of the path; the code as written throws there (see "## Left out") |
| RelativizeSpec.DeriveIsIdempotent | bundles/org.eclipse.core.resources/src/org/eclipse/core/internal/resources/PathVariableUtil.java:167-188 | deriving again on the state a derivation left gives the same path and writes nothing more |
| RelativizeSpec.ForcedDerivationIsIdempotent | bundles/org.eclipse.core.resources/src/org/eclipse/core/internal/resources/PathVariableUtil.java:163-190 | a forced conversion against one variable, repeated, reuses the variable it bound and writes nothing more |
| PathVariableUtil.AppendRemaining | bundles/org.eclipse.core.resources/src/org/eclipse/core/internal/resources/PathVariableUtil.java:185-188 | the append loop yields the first path followed by the original segments from the given index on |
| PathVariableUtil.MakeRelativeToParent | bundles/org.eclipse.core.resources/src/org/eclipse/core/internal/resources/PathVariableUtil.java:165-189 | returns the path, and leaves the manager in the state, that `Derive` gives |
| PathVariableUtil.MakeRelativeToVariable | bundles/org.eclipse.core.resources/src/org/eclipse/core/internal/resources/PathVariableUtil.java:149-193 | returns the path, and leaves the manager in the state, that `MakeRelative` gives |
| RelativizeSpec.BestPrefixFrom | bundles/org.eclipse.core.resources/src/org/eclipse/core/internal/resources/PathVariableUtil.java:77-97 | the variable the prefix loop ends with is a defined one |
| RelativizeSpec.BestPrefixVariable | bundles/org.eclipse.core.resources/src/org/eclipse/core/internal/resources/PathVariableUtil.java:75-97 | the variable the prefix phase picks is defined, searchable (never `PARENT`, nor the workspace while it is skipped) and resolves to a prefix of the path |
| RelativizeSpec.BestPrefixFromIsLongestFirst | bundles/org.eclipse.core.resources/src/org/eclipse/core/internal/resources/PathVariableUtil.java:77-97 | from any point of the loop that has kept its invariant, the loop ends with the longest match, the first listed among equally long ones, and with none exactly when nothing matches |
| RelativizeSpec.BestPrefixVariableIsLongestFirst | bundles/org.eclipse.core.resources/src/org/eclipse/core/internal/resources/PathVariableUtil.java:75-97 | the prefix phase picks the longest match, the first listed among equally long ones. It never picks `PARENT`, nor the workspace while that is skipped, and it picks nothing only when no variable matches |
| PathVariableUtil.LongestPrefixMatch | bundles/org.eclipse.core.resources/src/org/eclipse/core/internal/resources/PathVariableUtil.java:73-97 | the loop leaves the manager unchanged; it finds a path exactly when `BestPrefixVariable` picks a variable, and then the path is the one made relative to it |
| RelativizeSpec.ScanStep | bundles/org.eclipse.core.resources/src/org/eclipse/core/internal/resources/PathVariableUtil.java:107-122 | one variable of the forced scan only adds derived bindings, never loses a found path, and writes nothing unless it finds one |
| PathVariableUtil.ScanVariable | bundles/org.eclipse.core.resources/src/org/eclipse/core/internal/resources/PathVariableUtil.java:107-122 | one iteration of the forced scan computes exactly `ScanStep`: its new best difference, its path and the manager's state |
| RelativizeSpec.ForcedScan | bundles/org.eclipse.core.resources/src/org/eclipse/core/internal/resources/PathVariableUtil.java:105-123 | a pass of the forced scan only adds derived bindings, and writes nothing when it finds nothing |
| PathVariableUtil.ClosestAncestorAtLevel | bundles/org.eclipse.core.resources/src/org/eclipse/core/internal/resources/PathVariableUtil.java:104-123 | the scan over all variables at one truncation level computes exactly `ForcedScan` |
| RelativizeSpec.ForcedLevels | bundles/org.eclipse.core.resources/src/org/eclipse/core/internal/resources/PathVariableUtil.java:103-126 | the truncation levels only add derived bindings, and write nothing when no level finds a variable |
| RelativizeSpec.ForcedLevelsStep | bundles/org.eclipse.core.resources/src/org/eclipse/core/internal/resources/PathVariableUtil.java:103-126 | the first level that finds a variable decides the result; a level that finds none leaves the state as it was |
| RelativizeSpec.ForcedScanFindsFrom | bundles/org.eclipse.core.resources/src/org/eclipse/core/internal/resources/PathVariableUtil.java:105-123 | from any index on, a pass finds a path exactly when some later listed variable is a candidate: searchable, its value at or below the truncated path, and its difference below `Integer.MAX_VALUE` |
| RelativizeSpec.ForcedScanFinds | bundles/org.eclipse.core.resources/src/org/eclipse/core/internal/resources/PathVariableUtil.java:105-123 | a pass over all variables finds a path exactly when some variable is a candidate at that level |
| RelativizeSpec.ForcedLevelsSkip | bundles/org.eclipse.core.resources/src/org/eclipse/core/internal/resources/PathVariableUtil.java:103-126 | a level with no candidate is passed over and writes nothing |
| RelativizeSpec.ForcedLevelsStop | bundles/org.eclipse.core.resources/src/org/eclipse/core/internal/resources/PathVariableUtil.java:103-126 | a level with a candidate ends the search with that level's scan |
| RelativizeSpec.FirstCandidateLevel | bundles/org.eclipse.core.resources/src/org/eclipse/core/internal/resources/PathVariableUtil.java:103-126 | the first truncation level, from a given one on, that has a candidate (or one past the last level) |
| RelativizeSpec.NoCandidateBeforeFirst | bundles/org.eclipse.core.resources/src/org/eclipse/core/internal/resources/PathVariableUtil.java:103-126 | no level before that first one has a candidate |
| RelativizeSpec.ForcedLevelsSettle | bundles/org.eclipse.core.resources/src/org/eclipse/core/internal/resources/PathVariableUtil.java:103-126 | the truncation levels settle at the first level with a candidate, fewest segments removed first, and give that level's scan; with no such level they find nothing and write nothing |
| RelativizeSpec.ClosestVariable | bundles/org.eclipse.core.resources/src/org/eclipse/core/internal/resources/PathVariableUtil.java:105-123 | the variable a level settles on, judged in the state the level starts from, is a defined one |
| RelativizeSpec.ClosestFromIsClosestFirst | bundles/org.eclipse.core.resources/src/org/eclipse/core/internal/resources/PathVariableUtil.java:105-123 | from any point of the scan that has kept its invariant, the choice is the candidate with the least difference, the first listed among equally close ones, and none exactly when there is no candidate |
| RelativizeSpec.ClosestVariableIsClosestFirst | bundles/org.eclipse.core.resources/src/org/eclipse/core/internal/resources/PathVariableUtil.java:116-121 | a level chooses the candidate with the least `value.segmentCount() - originalSegmentCount`, the first listed among ties, and nothing only when no variable is a candidate |
| RelativizeSpec.ForcedScanFollowsClosest | bundles/org.eclipse.core.resources/src/org/eclipse/core/internal/resources/PathVariableUtil.java:106-123 | the scan as the code runs it, on the state its own earlier bindings left, ends with the path made relative to the variable `ClosestFrom` chooses, in the state reached just before that variable was taken |
| RelativizeSpec.ForcedScanSettlesOnClosest | bundles/org.eclipse.core.resources/src/org/eclipse/core/internal/resources/PathVariableUtil.java:105-123 | the path a level returns is the one `makeRelativeToVariable` gives for the closest, first-listed candidate; with no candidate nothing is found and nothing written; in macro mode it is made in the starting state |
| PathVariableUtil.ClosestAncestor | bundles/org.eclipse.core.resources/src/org/eclipse/core/internal/resources/PathVariableUtil.java:101-126 | the loop over truncation levels, from none removed to all removed, computes exactly `ForcedLevels` |
| RelativizeSpec.ForcedSearch | bundles/org.eclipse.core.resources/src/org/eclipse/core/internal/resources/PathVariableUtil.java:101-136 | the forced phase only adds derived bindings, and writes nothing when it finds nothing or fails. The model fails, with `PROJECT_LOC_UNDEFINED` for the `null` that `isPrefixOf` dereferences, exactly when the path has no segments, no truncation level finds a variable and `PROJECT_LOC` is undefined. New names are cleaned with the total `ValidVariableName` (see "## Left out") |
| PathVariableUtil.ForcedConversion | bundles/org.eclipse.core.resources/src/org/eclipse/core/internal/resources/PathVariableUtil.java:101-136 | the forced phase, then the project location for a path without segments, computes exactly `ForcedSearch`: the same path or failure, and the same manager state |
| RelativizeSpec.Convert | bundles/org.eclipse.core.resources/src/org/eclipse/core/internal/resources/PathVariableUtil.java:70-141 | a conversion keeps every binding and the listing order; every binding it adds holds a single `${PARENT-...}` segment. The model fails only when forced on a path without segments while `PROJECT_LOC` is undefined, and then writes nothing. New names are cleaned with the total `ValidVariableName` (see "## Left out") |
| PathVariableUtil.ConvertWithOptions | bundles/org.eclipse.core.resources/src/org/eclipse/core/internal/resources/PathVariableUtil.java:70-141 | the private `convertToRelative` returns the path (or raises the failure), and leaves the manager in the state, that `Convert` gives. The order is hint, then prefix phase, then forced phase, then one retry with the workspace allowed |
| PathVariableUtil.ConvertToRelative | bundles/org.eclipse.core.resources/src/org/eclipse/core/internal/resources/PathVariableUtil.java:66-68 | computes `Convert` without a macro, skipping the workspace first; the manager only gains derived bindings |
| PathVariableUtil.ConvertToPathRelativeMacro | bundles/org.eclipse.core.resources/src/org/eclipse/core/internal/resources/PathVariableUtil.java:62-64 | computes `Convert` in macro mode, and the manager is left exactly as it was |
| RelativizeSpec.ConvertUsesDefinedHint | bundles/org.eclipse.core.resources/src/org/eclipse/core/internal/resources/PathVariableUtil.java:71-72 | a hint naming a defined variable is used, however well it matches |
| RelativizeSpec.ConvertPrefixPhase | bundles/org.eclipse.core.resources/src/org/eclipse/core/internal/resources/PathVariableUtil.java:73-99 | when the prefix phase finds a variable, the result is that variable followed by the rest of the path, and nothing is written |
| RelativizeSpec.ConvertGivesUp | bundles/org.eclipse.core.resources/src/org/eclipse/core/internal/resources/PathVariableUtil.java:70-141 | unforced, with no variable other than `PARENT` matching, both passes fail: the original path comes back and nothing is written |
| RelativizeSpec.WorkspaceOnlyOnRetry | bundles/org.eclipse.core.resources/src/org/eclipse/core/internal/resources/PathVariableUtil.java:79-139 | the workspace location is passed over in the first pass even when it is the only match, and it is chosen in the retry |
| RelativizeSpec.MakeRelativeMacroWritesNothing | bundles/org.eclipse.core.resources/src/org/eclipse/core/internal/resources/PathVariableUtil.java:163-170 | in macro mode, making a path relative to a variable writes nothing |
| RelativizeSpec.ForcedScanMacroWritesNothing | bundles/org.eclipse.core.resources/src/org/eclipse/core/internal/resources/PathVariableUtil.java:106-123 | in macro mode, a pass of the forced scan writes nothing |
| RelativizeSpec.ForcedLevelsMacroWritesNothing | bundles/org.eclipse.core.resources/src/org/eclipse/core/internal/resources/PathVariableUtil.java:103-126 | in macro mode, the truncation levels write nothing |
| RelativizeSpec.ForcedSearchMacroWritesNothing | bundles/org.eclipse.core.resources/src/org/eclipse/core/internal/resources/PathVariableUtil.java:101-136 | in macro mode, the whole forced phase writes nothing |
| RelativizeSpec.ConvertMacroWritesNothing | bundles/org.eclipse.core.resources/src/org/eclipse/core/internal/resources/PathVariableUtil.java:62-141 | `convertToPathRelativeMacro` never defines a variable |
| RelativizeSpec.ForcedAncestorIsDerived | bundles/org.eclipse.core.resources/src/org/eclipse/core/internal/resources/PathVariableUtil.java:163-167 | forcing an ancestor of a variable's value (outside Windows): every segment of the path is common, and the parent count is the number of segments the value has beyond it |
| RelativizeSpec.ForcedAncestorMacro | bundles/org.eclipse.core.resources/src/org/eclipse/core/internal/resources/PathVariableUtil.java:163-189 | in macro mode an ancestor `k` levels above `V`'s value becomes the single segment `PARENT-k-V`, and nothing is written |
| RelativizeSpec.ForcedAncestorDefines | bundles/org.eclipse.core.resources/src/org/eclipse/core/internal/resources/PathVariableUtil.java:163-189 | otherwise, with no holder yet and a valid, free last segment, that segment is bound to `${PARENT-k-V}` and is the whole result |
| RelativizeSpec.SoleAncestorSettlesFirstLevel | bundles/org.eclipse.core.resources/src/org/eclipse/core/internal/resources/PathVariableUtil.java:73-126 | with `V` the only variable and its value `k` segments below the path, the prefix phase finds nothing and the forced phase settles on `V` at the first level |
| RelativizeSpec.ConvertForcedAncestorMacro | bundles/org.eclipse.core.resources/src/org/eclipse/core/internal/resources/PathVariableUtil.java:62-141 | a forced ancestor through the whole conversion: `/a/b/c` with only `V = /a/b/c/d/e` becomes the single segment `${PARENT-2-V}` in macro mode, and nothing is written |
| RelativizeSpec.ConvertForcedAncestorDefines | bundles/org.eclipse.core.resources/src/org/eclipse/core/internal/resources/PathVariableUtil.java:66-141 | the same outside macro mode binds the path's last segment to `${PARENT-k-V}` and returns that name alone |
| RelativizeSpec.RootLevelCandidates | bundles/org.eclipse.core.resources/src/org/eclipse/core/internal/resources/PathVariableUtil.java:101-126 | for a path without segments, the first level's candidates are exactly the searchable variables on the path's device (with fewer than `Integer.MAX_VALUE` segments) |
| RelativizeSpec.ConvertFailsOnlyInForcedSearch | bundles/org.eclipse.core.resources/src/org/eclipse/core/internal/resources/PathVariableUtil.java:70-141 | without a usable hint, the forced conversion fails exactly when the prefix phase finds nothing and the forced phase of the first pass fails |
| RelativizeSpec.ConvertRootFailsExactly | bundles/org.eclipse.core.resources/src/org/eclipse/core/internal/resources/PathVariableUtil.java:101-136 | for a path without segments the forced conversion fails exactly when `PROJECT_LOC` is undefined and no searchable variable lies on the path's device. So converting `/` with `FOO = /a` among the variables succeeds whether or not `PROJECT_LOC` is defined |

## Left out

- `resolvePath`: how the manager expands variables nested in a stored value is an
  uninterpreted function of its bindings. The model cannot say which values hold
  variables. `IPathVariableManager`'s implementation, its persistence and its
  variable-provider registry (which supplies `PROJECT_LOC`, `WORKSPACE_LOC` and
  `PARENT`) are not part of this model.
- `IPath` is a device, an absolute flag and segments. Canonicalisation (`.`, `..`),
  trailing separators and UNC paths are not modelled. `fromOSString` is modelled only
  for the strings the code gives it (variable names and `${...}` values). Those are
  taken to hold no separator, so they parse to one segment.
- Characters: `Character.isLetter`, `isDigit`, `isWhitespace` and `toLowerCase` are
  modelled on ASCII only. Non-ASCII letters are dropped by the model's name cleaning
  where Java would keep them.
- `Platform.getOS()` is the `win32` parameter. The variable hint's `null` is `None`.
- The `PROJECT_LOC` fallback on a path without segments: when that variable is not
  defined, the code dereferences `null`. The model returns the failure
  `PROJECT_LOC_UNDEFINED` there, with the manager unchanged; which exception Java
  raises, and its message, are not modelled.
- RelativizeSpec.ForcedSearch: where a forced, non-macro derivation names the new
  variable after a segment with nothing before its first `-` (a folder `-data`), the
  code throws `StringIndexOutOfBoundsException` in `getValidVariableName` (lines 45-49,
  reached through lines 176 and 181). The model cleans with the corrected
  `Names.ValidVariableName` instead and binds the least free `A`, `A1`, ... to the
  derived value (`RelativizeSpec.DeriveCleansEmptyHead`), so that exception is not among
  its failures. The code as written is modelled by `Names.ValidVariableNameAsWritten`
  (see "## Findings").
- RelativizeSpec.Convert: the same; its failures are only the `PROJECT_LOC` one, and
  `PathVariableUtil.ForcedConversion`, `ConvertWithOptions` and `ConvertToRelative`
  follow it.
- Paths.Path.IsPrefixOf: compares device names exactly, where `IPath.isPrefixOf`
  ignores their case. On Windows `convertToProperCase` has lower-cased both sides
  before they are compared, so only a device spelt in two cases elsewhere differs.
- `CoreException`s from `setValue` (the real manager validates names and values) are
  not modelled. A write always succeeds.
- Java `int` arithmetic: segment counts and differences are unbounded integers. Only
  `Integer.valueOf`'s range and `Integer.MAX_VALUE` as the starting best difference
  are modelled, since realistic segment counts cannot overflow.
- Concurrency: the manager is assumed not to change during a call, other than through
  the call's own `setValue`.
- RelativizeSpec.ForcedScanSettlesOnClosest: outside macro mode it requires that the
  bindings the scan adds do not change how the listed variables resolve
  (`ResolutionUnaffected`). `RelativizeSpec.ForcedScanFollowsClosest` rests on the
  same assumption. Without a model of
  `resolvePath` the model cannot show it.
- RelativizeSpec.ForcedDerivationIsIdempotent: requires that the new binding does not
  change how the variable's own value resolves. The model cannot show this without a
  model of `resolvePath`.
- Difference from the comment at PathVariableUtil.java:164, which shows
  `${PARENT-1-BAR_CHILD}` as the first segment of the result. That is the macro-mode
  result only. A forced, non-macro conversion does not return a `PARENT-k-V` segment:
  it creates a variable
  named after the last common segment (else the device, else `ROOT`), holding the
  value `${PARENT-k-V}` (source lines 172-182). The model follows the code
  (`RelativizeSpec.ForcedAncestorDefines`). The prefix loop likewise calls
  `makeRelativeToVariable` on every improvement, not only on the final best match;
  the model does the same, and each of those calls writes nothing.

## Findings

| source | as written | input that shows it | evidently intended | confidence | as-written member | corrected member |
|---|---|---|---|---|---|---|
| bundles/org.eclipse.core.resources/src/org/eclipse/core/internal/resources/PathVariableUtil.java:45-49 | `getValidVariableName` takes `charAt(0)` of the trimmed text before the first `-` without checking that it is non-empty | `"-data"`, `"   "` or `""`. A forced conversion reaches this through `getUniqueVariableName` when the last common segment is such a name, e.g. a folder `-data` | cleaning never fails: an empty head is treated like one starting with a non-letter, giving `A` | not executed | Names.ValidVariableNameAsWritten, Names.EmptyHeadHasNoFirstChar | Names.ValidVariableName, Names.GetValidVariableName |
