/** Export targets of a package manifest: whether one can be imported, and which file it resolves to. */
module ExportTargets {
  import opened Common

  // The value of an exports entry: a path, a list of alternatives, conditions, or anything else.
  datatype Target = Path(path: string) | Alternatives(entries: seq<Target>) | Conditions(fields: map<string, Target>) | Other

  // The conditions a runtime import tries, in order.
  const RUNTIME: seq<string> := ["bun", "import", "require", "default"]

  predicate Supported(condition: string, typeOnly: bool) {
    condition in RUNTIME || (typeOnly && condition == "types")
  }

  predicate Supports(target: Target, typeOnly: bool) {
    match target
    case Path(_) => true
    case Alternatives(entries) => exists i :: 0 <= i < |entries| && Supports(entries[i], typeOnly)
    case Conditions(fields) => exists c :: c in fields && Supported(c, typeOnly) && Supports(fields[c], typeOnly)
    case Other => false
  }

  function RuntimeTarget(target: Target): Option<string>
    decreases target, 1
  {
    match target
    case Path(path) => Some(path)
    case Alternatives(entries) => FirstOf(target, 0)
    case Conditions(fields) => FirstCondition(target, 0)
    case Other => None
  }

  /** The first alternative from `i` on that resolves. */
  function FirstOf(target: Target, i: nat): Option<string>
    requires target.Alternatives? && i <= |target.entries|
    decreases target, 0, |target.entries| - i
  {
    if i == |target.entries| then None
    else if RuntimeTarget(target.entries[i]).Some? then RuntimeTarget(target.entries[i])
    else FirstOf(target, i + 1)
  }

  /** The first runtime condition from `i` on that is present and resolves. */
  function FirstCondition(target: Target, i: nat): Option<string>
    requires target.Conditions? && i <= |RUNTIME|
    decreases target, 0, |RUNTIME| - i
  {
    if i == |RUNTIME| then None
    else
      var condition := RUNTIME[i];
      if condition in target.fields && RuntimeTarget(target.fields[condition]).Some?
      then RuntimeTarget(target.fields[condition])
      else FirstCondition(target, i + 1)
  }

  lemma {:induction false} FirstOfIff(target: Target, i: nat)
    requires target.Alternatives? && i <= |target.entries|
    ensures FirstOf(target, i).Some? <==> exists j :: i <= j < |target.entries| && RuntimeTarget(target.entries[j]).Some?
    decreases |target.entries| - i
  {
    if i < |target.entries| {
      FirstOfIff(target, i + 1);
    }
  }

  lemma {:induction false} FirstConditionIff(target: Target, i: nat)
    requires target.Conditions? && i <= |RUNTIME|
    ensures FirstCondition(target, i).Some? <==>
      exists j :: i <= j < |RUNTIME| && RUNTIME[j] in target.fields && RuntimeTarget(target.fields[RUNTIME[j]]).Some?
    decreases |RUNTIME| - i
  {
    if i < |RUNTIME| {
      FirstConditionIff(target, i + 1);
    }
  }

  /** A runtime import is allowed exactly when it resolves to a file. */
  lemma {:induction false} ResolvesIffSupported(target: Target)
    ensures RuntimeTarget(target).Some? <==> Supports(target, false)
  {
    match target
    case Path(_) =>
    case Alternatives(entries) =>
      FirstOfIff(target, 0);
      forall i | 0 <= i < |entries| ensures RuntimeTarget(entries[i]).Some? <==> Supports(entries[i], false) {
        ResolvesIffSupported(entries[i]);
      }
    case Conditions(fields) =>
      FirstConditionIff(target, 0);
      forall c | c in fields ensures RuntimeTarget(fields[c]).Some? <==> Supports(fields[c], false) {
        ResolvesIffSupported(fields[c]);
      }
      forall c | c in fields && Supported(c, false) && Supports(fields[c], false)
        ensures exists j :: 0 <= j < |RUNTIME| && RUNTIME[j] in fields && RuntimeTarget(fields[RUNTIME[j]]).Some?
      {
        var j :| 0 <= j < |RUNTIME| && RUNTIME[j] == c;
      }
    case Other =>
  }

  /** What a runtime import may use, a type-only import may use as well. */
  lemma {:induction false} TypeOnlySupportsMore(target: Target)
    requires Supports(target, false)
    ensures Supports(target, true)
  {
    match target
    case Path(_) =>
    case Alternatives(entries) =>
      var i :| 0 <= i < |entries| && Supports(entries[i], false);
      TypeOnlySupportsMore(entries[i]);
    case Conditions(fields) =>
      var c :| c in fields && Supported(c, false) && Supports(fields[c], false);
      TypeOnlySupportsMore(fields[c]);
    case Other =>
  }

  // Which file a target resolves to.

  /** The place of a condition among those a runtime import tries. */
  ghost predicate Earlier(c: string, d: string) {
    || (c == "bun" && d in {"import", "require", "default"})
    || (c == "import" && d in {"require", "default"})
    || (c == "require" && d == "default")
  }

  /** `path` is reached by always taking the first alternative, or the earliest condition, that resolves at all. */
  ghost predicate Leads(target: Target, path: string)
    decreases target
  {
    match target
    case Path(p) => p == path
    case Alternatives(entries) =>
      exists i :: 0 <= i < |entries| && Leads(entries[i], path) && forall j :: 0 <= j < i ==> !Supports(entries[j], false)
    case Conditions(fields) =>
      exists c :: c in fields && c in {"bun", "import", "require", "default"} && Leads(fields[c], path)
        && forall d :: d in fields && Earlier(d, c) ==> !Supports(fields[d], false)
    case Other => false
  }

  lemma {:induction false} FirstOfFound(target: Target, i: nat, k: nat)
    requires target.Alternatives? && i <= k < |target.entries|
    requires RuntimeTarget(target.entries[k]).Some? && forall j :: i <= j < k ==> RuntimeTarget(target.entries[j]).None?
    ensures FirstOf(target, i) == RuntimeTarget(target.entries[k])
    decreases k - i
  {
    if i < k {
      FirstOfFound(target, i + 1, k);
    }
  }

  lemma {:induction false} FirstConditionFound(target: Target, i: nat, k: nat)
    requires target.Conditions? && i <= k < |RUNTIME|
    requires RUNTIME[k] in target.fields && RuntimeTarget(target.fields[RUNTIME[k]]).Some?
    requires forall j :: i <= j < k ==> RUNTIME[j] in target.fields ==> RuntimeTarget(target.fields[RUNTIME[j]]).None?
    ensures FirstCondition(target, i) == RuntimeTarget(target.fields[RUNTIME[k]])
    decreases k - i
  {
    if i < k {
      FirstConditionFound(target, i + 1, k);
    }
  }

  lemma RuntimePlaces(i: nat, j: nat)
    requires i < |RUNTIME| && j < |RUNTIME|
    ensures Earlier(RUNTIME[i], RUNTIME[j]) <==> i < j
    ensures RUNTIME[i] in {"bun", "import", "require", "default"}
  {
  }

  lemma RuntimePlace(c: string) returns (k: nat)
    requires c in {"bun", "import", "require", "default"}
    ensures k < |RUNTIME| && RUNTIME[k] == c
  {
    k := if c == "bun" then 0 else if c == "import" then 1 else if c == "require" then 2 else 3;
  }

  /** The first alternative that resolves, and its place. */
  lemma FirstResolving(entries: seq<Target>) returns (k: nat)
    requires exists i :: 0 <= i < |entries| && RuntimeTarget(entries[i]).Some?
    ensures k < |entries| && RuntimeTarget(entries[k]).Some? && forall j :: 0 <= j < k ==> RuntimeTarget(entries[j]).None?
  {
    k := 0;
    while RuntimeTarget(entries[k]).None?
      invariant k < |entries| && forall j :: 0 <= j < k ==> RuntimeTarget(entries[j]).None?
      decreases |entries| - k
    {
      k := k + 1;
    }
  }

  /** A target resolves to a file exactly when the first ways that resolve lead there. */
  lemma {:induction false} ResolvesToIff(target: Target, path: string)
    ensures RuntimeTarget(target) == Some(path) <==> Leads(target, path)
    decreases target, 1
  {
    match target
    case Path(_) =>
    case Alternatives(entries) => AlternativesResolve(target, path);
    case Conditions(fields) => ConditionsResolve(target, path);
    case Other =>
  }

  lemma {:induction false} AlternativesResolve(target: Target, path: string)
    requires target.Alternatives?
    ensures RuntimeTarget(target) == Some(path) <==> Leads(target, path)
    decreases target, 0
  {
    var entries := target.entries;
    forall i | 0 <= i < |entries|
      ensures RuntimeTarget(entries[i]) == Some(path) <==> Leads(entries[i], path)
      ensures RuntimeTarget(entries[i]).Some? <==> Supports(entries[i], false)
    {
      ResolvesToIff(entries[i], path);
      ResolvesIffSupported(entries[i]);
    }
    FirstOfIff(target, 0);
    if exists i :: 0 <= i < |entries| && RuntimeTarget(entries[i]).Some? {
      var k := FirstResolving(entries);
      FirstOfFound(target, 0, k);
    }
  }

  lemma {:induction false} ConditionsResolve(target: Target, path: string)
    requires target.Conditions?
    ensures RuntimeTarget(target) == Some(path) <==> Leads(target, path)
    decreases target, 0
  {
    var fields := target.fields;
    forall c | c in fields
      ensures RuntimeTarget(fields[c]) == Some(path) <==> Leads(fields[c], path)
      ensures RuntimeTarget(fields[c]).Some? <==> Supports(fields[c], false)
    {
      ResolvesToIff(fields[c], path);
      ResolvesIffSupported(fields[c]);
    }
    FirstConditionIff(target, 0);
    if RuntimeTarget(target).Some? {
      var k := FirstRuntime(target);
      FirstConditionFound(target, 0, k);
      if RuntimeTarget(target) == Some(path) {
        forall d | d in fields && Earlier(d, RUNTIME[k]) ensures !Supports(fields[d], false) {
          EarlierPlace(d, k);
        }
        RuntimePlaces(k, k);
      }
    }
    if Leads(target, path) {
      var c :| c in fields && c in {"bun", "import", "require", "default"} && Leads(fields[c], path)
               && forall d :: d in fields && Earlier(d, c) ==> !Supports(fields[d], false);
      var k := RuntimePlace(c);
      forall j | 0 <= j < k && RUNTIME[j] in fields ensures RuntimeTarget(fields[RUNTIME[j]]).None? {
        RuntimePlaces(j, k);
      }
      FirstConditionFound(target, 0, k);
    }
  }

  lemma EarlierPlace(d: string, k: nat)
    requires k < |RUNTIME| && Earlier(d, RUNTIME[k])
    ensures exists j :: 0 <= j < k && RUNTIME[j] == d
  {
    var j := RuntimePlace(d);
    RuntimePlaces(j, k);
  }

  lemma FirstRuntime(target: Target) returns (k: nat)
    requires target.Conditions? && RuntimeTarget(target).Some?
    ensures k < |RUNTIME| && RUNTIME[k] in target.fields && RuntimeTarget(target.fields[RUNTIME[k]]).Some?
    ensures forall j :: 0 <= j < k ==> RUNTIME[j] in target.fields ==> RuntimeTarget(target.fields[RUNTIME[j]]).None?
  {
    FirstConditionIff(target, 0);
    k := 0;
    while !(RUNTIME[k] in target.fields && RuntimeTarget(target.fields[RUNTIME[k]]).Some?)
      invariant k < |RUNTIME|
      invariant forall j :: 0 <= j < k ==> RUNTIME[j] in target.fields ==> RuntimeTarget(target.fields[RUNTIME[j]]).None?
      decreases |RUNTIME| - k
    {
      k := k + 1;
    }
  }

  /** A condition for types alone leads nowhere at run time, and is enough for a type-only import. */
  lemma TypesOnly(path: string)
    ensures var target := Conditions(map["types" := Path(path)]);
      RuntimeTarget(target) == None && Supports(target, true) && !Supports(target, false)
  {
    var target := Conditions(map["types" := Path(path)]);
    assert "types" in target.fields && Supports(target.fields["types"], true);
    FirstConditionIff(target, 0);
  }
}
