/**
 Cleaning a raw string into a path-variable name (`getValidVariableName`) and making it
 unique in a manager (`getUniqueVariableName`).
 */
module Names {
  import opened Strings
  import opened Manager

  /** `Character.isLetter`, restricted to ASCII letters. */
  predicate IsLetter(c: char) {
    'A' <= c <= 'Z' || 'a' <= c <= 'z'
  }

  /** `Character.isWhitespace` over the ASCII range. */
  predicate IsJavaWhitespace(c: char) {
    c == ' ' || '\t' <= c <= '\r' || '\U{1C}' <= c <= '\U{1F}'
  }

  /** The characters a variable name keeps. */
  predicate IsNameChar(c: char) {
    (IsLetter(c) || IsDigit(c) || c == '_') && !IsJavaWhitespace(c)
  }

  predicate IsNameStart(c: char) {
    IsLetter(c) || c == '_'
  }

  /** A well-formed variable name: non-empty, led by a letter or `_`, then letters, digits, `_`. */
  predicate IsValidName(s: string) {
    |s| > 0 && IsNameStart(s[0]) && forall i :: 0 <= i < |s| ==> IsNameChar(s[i])
  }

  /** The argument part `-ARG` of `VAR-ARG` cut off, then trimmed. */
  function NameHead(raw: string): string {
    var i := IndexOf(raw, '-');
    Trim(if i == -1 then raw else raw[..i])
  }

  /** The name characters of `s`, in order. */
  function KeepNameChars(s: string): (r: string)
    ensures |r| <= |s|
    ensures forall i :: 0 <= i < |r| ==> IsNameChar(r[i])
  {
    if s == [] then []
    else KeepNameChars(s[..|s| - 1]) + (if IsNameChar(s[|s| - 1]) then [s[|s| - 1]] else [])
  }

  /** Filtering keeps a leading name character in front. */
  lemma {:induction false} KeepNameCharsFirst(s: string)
    requires |s| > 0 && IsNameChar(s[0])
    ensures |KeepNameChars(s)| > 0 && KeepNameChars(s)[0] == s[0]
  {
    if |s| > 1 {
      KeepNameCharsFirst(s[..|s| - 1]);
    }
  }

  /**
   `getValidVariableName` as written: `charAt(0)` is taken of the trimmed head, so the
   head must not be empty.
   */
  function ValidVariableNameAsWritten(raw: string): (r: string)
    requires NameHead(raw) != ""
    ensures IsValidName(r)
  {
    var head := NameHead(raw);
    var prefixed := if !IsNameStart(head[0]) then "A" + head else head;
    KeepNameCharsFirst(prefixed);
    KeepNameChars(prefixed)
  }

  /** `getValidVariableName` with an empty head treated like one that starts with a non-letter. */
  function ValidVariableName(raw: string): (r: string)
    ensures IsValidName(r)
  {
    var head := NameHead(raw);
    var prefixed := if head == "" || !IsNameStart(head[0]) then "A" + head else head;
    KeepNameCharsFirst(prefixed);
    KeepNameChars(prefixed)
  }

  /** Wherever the code as written does not fail, the total version agrees with it. */
  lemma AsWrittenAgrees(raw: string)
    requires NameHead(raw) != ""
    ensures ValidVariableNameAsWritten(raw) == ValidVariableName(raw)
  {
  }

  /**
   A raw name whose text before the first `-` is empty, such as the path segment `-data`,
   leaves nothing to take the first character of, so the code as written fails on it.
   */
  lemma EmptyHeadHasNoFirstChar()
    ensures NameHead("-data") == ""
    ensures ValidVariableName("-data") == "A"
  {
    assert IndexOf("-data", '-') == 0;
    assert "A"[..0] == "";
  }

  /** Nothing from the first `-` onward reaches the name. */
  lemma {:induction false} NameIgnoresArgument(name: string, argument: string)
    requires '-' !in name
    ensures ValidVariableName(name + "-" + argument) == ValidVariableName(name)
  {
    IndexOfSeparator(name, '-', argument);
    assert (name + "-" + argument)[..|name|] == name;
  }

  /** Filtering a string of name characters leaves it as it is. */
  lemma {:induction false} KeepNameCharsOfNameChars(s: string)
    requires forall i :: 0 <= i < |s| ==> IsNameChar(s[i])
    ensures KeepNameChars(s) == s
  {
    if s != [] {
      KeepNameCharsOfNameChars(s[..|s| - 1]);
      assert s[..|s| - 1] + [s[|s| - 1]] == s;
    }
  }

  /** A valid name comes out of cleaning unchanged. */
  lemma ValidNameIsFixpoint(s: string)
    requires IsValidName(s)
    ensures ValidVariableName(s) == s
  {
    assert '-' !in s by {
      forall i | 0 <= i < |s| ensures s[i] != '-' {
        assert IsNameChar(s[i]);
      }
    }
    assert TrimLeft(s) == s;
    assert TrimRight(s) == s by {
      assert IsNameChar(s[|s| - 1]);
    }
    KeepNameCharsOfNameChars(s);
  }

  /** Cleaning is idempotent. */
  lemma CleaningIsIdempotent(raw: string)
    ensures ValidVariableName(ValidVariableName(raw)) == ValidVariableName(raw)
  {
    ValidNameIsFixpoint(ValidVariableName(raw));
  }

  /** The character loop of `getValidVariableName`: the name characters of `s`, appended one by one. */
  method FilterNameChars(s: string) returns (r: string)
    ensures r == KeepNameChars(s)
  {
    r := "";
    for i := 0 to |s|
      invariant r == KeepNameChars(s[..i])
    {
      var c := s[i];
      assert s[..i + 1][..i] == s[..i];
      if IsNameChar(c) {
        r := r + [c];
      }
    }
    assert s[..|s|] == s;
  }

  /** `getValidVariableName`. */
  method GetValidVariableName(raw: string) returns (r: string)
    ensures r == ValidVariableName(raw)
    ensures IsValidName(r)
  {
    var variable := raw;
    var argumentIndex := IndexOf(variable, '-');
    if argumentIndex != -1 {
      variable := variable[..argumentIndex];
    }
    variable := Trim(variable);
    ghost var head := variable;
    assert head == NameHead(raw);
    if variable == "" || !IsNameStart(variable[0]) {
      variable := "A" + variable;
    }
    r := FilterNameChars(variable);
    assert r == ValidVariableName(raw);
  }

  /** The k-th name tried for `base`: `base`, then `base1`, `base2`, ... */
  function Candidate(base: string, k: nat): string {
    if k == 0 then base else base + NatToString(k)
  }

  lemma CandidateInjective(base: string, j: nat, k: nat)
    requires Candidate(base, j) == Candidate(base, k)
    ensures j == k
  {
    if j != 0 && k != 0 {
      assert NatToString(j) == Candidate(base, j)[|base|..];
      assert NatToString(k) == Candidate(base, k)[|base|..];
      NatToStringInjective(j, k);
    }
  }

  /** The first index, from `k` on, whose candidate is not in `taken`; tried candidates are dropped. */
  function FreeIndex(base: string, taken: set<string>, k: nat): nat
    decreases |taken|
  {
    if Candidate(base, k) !in taken then k
    else FreeIndex(base, taken - {Candidate(base, k)}, k + 1)
  }

  /** Every defined candidate from index `k` on is still in `taken`. */
  ghost predicate Tracked(base: string, defined: set<string>, taken: set<string>, k: nat) {
    taken <= defined && forall j :: k <= j && Candidate(base, j) in defined ==> Candidate(base, j) in taken
  }

  /** Every candidate before index `k` is defined. */
  ghost predicate TakenBelow(base: string, defined: set<string>, k: nat) {
    forall j :: 0 <= j < k ==> Candidate(base, j) in defined
  }

  /** Dropping the k-th candidate once tried loses none of the later ones. */
  lemma DropTried(base: string, defined: set<string>, taken: set<string>, k: nat)
    requires Tracked(base, defined, taken, k)
    ensures Tracked(base, defined, taken - {Candidate(base, k)}, k + 1)
  {
    var c := Candidate(base, k);
    forall j | k + 1 <= j && Candidate(base, j) in defined
      ensures Candidate(base, j) in taken - {c}
    {
      if Candidate(base, j) == c {
        CandidateInjective(base, j, k);
      }
    }
  }

  /** A tried candidate that is defined: the search moves on to the next index with one name fewer to track. */
  lemma TryNext(base: string, defined: set<string>, taken: set<string>, k: nat)
    requires Tracked(base, defined, taken, k) && TakenBelow(base, defined, k)
    requires Candidate(base, k) in defined
    ensures Tracked(base, defined, taken - {Candidate(base, k)}, k + 1)
    ensures TakenBelow(base, defined, k + 1)
    ensures |taken - {Candidate(base, k)}| < |taken|
  {
    DropTried(base, defined, taken, k);
  }

  lemma {:induction false} FreeIndexIsLeastFree(base: string, defined: set<string>, taken: set<string>, k: nat)
    requires Tracked(base, defined, taken, k) && TakenBelow(base, defined, k)
    ensures k <= FreeIndex(base, taken, k)
    ensures Candidate(base, FreeIndex(base, taken, k)) !in defined
    ensures TakenBelow(base, defined, FreeIndex(base, taken, k))
    decreases |taken|
  {
    var c := Candidate(base, k);
    if c in taken {
      DropTried(base, defined, taken, k);
      FreeIndexIsLeastFree(base, defined, taken - {c}, k + 1);
    }
  }

  /** `getUniqueVariableName` as a value: the cleaned name with the least suffix not yet defined. */
  function UniqueVariableName(raw: string, defined: set<string>): (r: string)
    ensures r !in defined
  {
    var base := ValidVariableName(raw);
    FreeIndexIsLeastFree(base, defined, defined, 0);
    Candidate(base, FreeIndex(base, defined, 0))
  }

  /**
   The unique name is not defined; it is the cleaned name itself when that is free, and
   otherwise the cleaned name followed by the least positive number not yet taken.
   */
  lemma UniqueVariableNameIsLeastFree(raw: string, defined: set<string>)
    ensures var base := ValidVariableName(raw);
            var k := FreeIndex(base, defined, 0);
            && UniqueVariableName(raw, defined) == Candidate(base, k)
            && UniqueVariableName(raw, defined) !in defined
            && (base !in defined ==> UniqueVariableName(raw, defined) == base)
            && (forall j :: 0 <= j < k ==> Candidate(base, j) in defined)
  {
    FreeIndexIsLeastFree(ValidVariableName(raw), defined, defined, 0);
  }

  /** A valid name that is still free is taken as it is. */
  lemma FreeValidNameIsKept(name: string, defined: set<string>)
    requires IsValidName(name) && name !in defined
    ensures UniqueVariableName(name, defined) == name
  {
    ValidNameIsFixpoint(name);
    UniqueVariableNameIsLeastFree(name, defined);
  }

  /** The least free candidate is the only candidate that is free with every earlier one taken. */
  lemma LeastFreeIsUnique(raw: string, defined: set<string>, k: nat)
    requires Candidate(ValidVariableName(raw), k) !in defined
    requires forall j :: 0 <= j < k ==> Candidate(ValidVariableName(raw), j) in defined
    ensures UniqueVariableName(raw, defined) == Candidate(ValidVariableName(raw), k)
  {
    var base := ValidVariableName(raw);
    var f := FreeIndex(base, defined, 0);
    UniqueVariableNameIsLeastFree(raw, defined);
  }

  /**
   A raw name with nothing before its first `-` cleans to `A`, so its unique form is the
   least free of `A`, `A1`, `A2`, ...
   */
  lemma EmptyHeadNamesA(raw: string, defined: set<string>)
    requires NameHead(raw) == ""
    ensures ValidVariableName(raw) == "A"
    ensures UniqueVariableName(raw, defined) == UniqueVariableName("A", defined)
    ensures UniqueVariableName("A", defined)[0] == 'A'
  {
    assert "A" + NameHead(raw) == "A";
    ValidNameIsFixpoint("A");
    UniqueVariableNameIsLeastFree("A", defined);
  }

  /** A unique name is still a well-formed variable name: the suffix is digits. */
  lemma UniqueVariableNameIsValid(raw: string, defined: set<string>)
    ensures IsValidName(UniqueVariableName(raw, defined))
  {
    var base := ValidVariableName(raw);
    var k := FreeIndex(base, defined, 0);
    if k != 0 {
      var r := base + NatToString(k);
      forall i | 0 <= i < |r| ensures IsNameChar(r[i]) {
        if i >= |base| {
          assert r[i] == NatToString(k)[i - |base|];
        }
      }
    }
  }

  /** `getUniqueVariableName`: appends 1, 2, ... to the cleaned name until the manager has no such variable. */
  method GetUniqueVariableName(raw: string, manager: PathVariableManager) returns (r: string)
    ensures r !in manager.values
    ensures r == UniqueVariableName(raw, manager.values.Keys)
  {
    var index := 1;
    var variable := GetValidVariableName(raw);
    r := variable;
    ghost var defined := manager.values.Keys;
    ghost var remaining := defined;
    while manager.IsDefined(r)
      invariant 1 <= index
      invariant r == Candidate(variable, index - 1)
      invariant defined == manager.values.Keys
      invariant Tracked(variable, defined, remaining, index - 1)
      invariant TakenBelow(variable, defined, index - 1)
      decreases |remaining|
    {
      TryNext(variable, defined, remaining, index - 1);
      remaining := remaining - {r};
      r := variable + NatToString(index);
      index := index + 1;
    }
    LeastFreeIsUnique(raw, defined, index - 1);
  }
}
