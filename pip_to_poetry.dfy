/** src/pyprojectconverter/pip_to_poetry.py: translate a pip `[project]` table back into
    a Poetry document. `convert_version` and `get_packages` are functions; the dependency
    collectors and `create_poetry_metadata` are methods that fill ordered dicts in loops. */
module PipToPoetry {
  import opened PyStr
  import opened OrderedDict
  import opened Toml

  /** `convert_version`: a pip constraint as a Poetry constraint. */
  function ConvertVersion(pipVersion: string): (r: string)
    ensures Contains(pipVersion, "==") ==> !Contains(r, "==")
  {
    if pipVersion == "" || pipVersion == "*" then "*"
    else if Contains(pipVersion, "==") then
      RemoveLeavesNoPair(pipVersion, '=');
      Remove(pipVersion, "==")
    else if Contains(pipVersion, ">=") && Contains(pipVersion, "<") then
      "^" + Remove(Split(pipVersion, ",")[0], ">=")
    else pipVersion
  }

  /** No constraint, written as nothing or as `*`, is Poetry's `*`. */
  lemma ConvertVersionUnconstrained(pipVersion: string)
    requires pipVersion == "" || pipVersion == "*"
    ensures ConvertVersion(pipVersion) == "*"
  {
  }

  /** A pinned constraint loses every `==`: it becomes the pieces between the `==`
      occurrences put back together, and no `==` is left in it. */
  lemma ConvertVersionPinned(pipVersion: string)
    requires pipVersion != "" && pipVersion != "*" && Contains(pipVersion, "==")
    ensures ConvertVersion(pipVersion) == Remove(pipVersion, "==")
    ensures ConvertVersion(pipVersion) == Join("", Split(pipVersion, "=="))
    ensures !Contains(ConvertVersion(pipVersion), "==")
  {
    RemoveIsJoinOfSplit(pipVersion, "==");
    RemoveLeavesNoPair(pipVersion, '=');
  }

  /** A range with a lower bound and an upper bound becomes a caret on the text before the
      first comma, with `>=` deleted from it; the result holds no comma. */
  lemma ConvertVersionCaret(pipVersion: string)
    requires pipVersion != "" && pipVersion != "*" && !Contains(pipVersion, "==")
    requires Contains(pipVersion, ">=") && Contains(pipVersion, "<")
    ensures var lower := if Find(pipVersion, ",") >= 0 then pipVersion[..Find(pipVersion, ",")] else pipVersion;
            ConvertVersion(pipVersion) == "^" + Remove(lower, ">=")
    ensures ConvertVersion(pipVersion)[0] == '^' && ',' !in ConvertVersion(pipVersion)
  {
    var first := Split(pipVersion, ",")[0];
    assert ',' !in first by {
      if ',' in first {
        var j :| 0 <= j < |first| && first[j] == ',';
        assert first[j..j + 1] == ",";
        assert OccursAt(first, ",", j);
      }
    }
  }

  /** Any other constraint is kept as written. */
  lemma ConvertVersionPassThrough(pipVersion: string)
    requires pipVersion != "" && pipVersion != "*" && !Contains(pipVersion, "==")
    requires !(Contains(pipVersion, ">=") && Contains(pipVersion, "<"))
    ensures ConvertVersion(pipVersion) == pipVersion
  {
  }

  /** `dep.split(">=") if ">=" in dep else dep.split("==")`. */
  function EntryParts(dep: string): (parts: seq<string>)
    ensures |parts| >= 1
    ensures !Contains(parts[0], ">=")
    ensures !Contains(dep, ">=") ==> !Contains(parts[0], "==")
  {
    if Contains(dep, ">=") then Split(dep, ">=")
    else
      if Find(dep, "==") >= 0 then
        SliceFree(dep, 0, Find(dep, "=="), ">=");
        Split(dep, "==")
      else Split(dep, "==")
  }

  /** The name and Poetry constraint one requirement string assigns:
      `name.strip()` and `convert_version(">=".join(version).strip()) if version else "*"`. */
  function ParseEntry(dep: string): (r: (string, string))
    ensures !Contains(r.0, ">=")
    ensures !Contains(dep, ">=") ==> !Contains(r.0, "==")
  {
    var parts := EntryParts(dep);
    (Strip(parts[0]), if |parts| > 1 then ConvertVersion(Strip(Join(">=", parts[1..]))) else "*")
  }

  /** A requirement with neither `>=` nor `==` is the stripped name with constraint `*`. */
  lemma EntryUnconstrained(dep: string)
    requires !Contains(dep, ">=") && !Contains(dep, "==")
    ensures ParseEntry(dep) == (Strip(dep), "*")
  {
  }

  /** `name == V` splits into the name and `V` at the operator. */
  lemma SplitAtOperator(name: string, op: string, v: string)
    requires |op| == 2 && op[0] != op[1]
    requires !Contains(name, op) && !Contains(v, op)
    ensures Split(name + op + v, op) == [name, v]
  {
    var dep := name + op + v;
    FindOperator(name, op, v);
    assert dep[..|name|] == name;
    assert dep[|name| + 2..] == v;
  }

  /** A stripped constraint that holds neither `==` nor `>=` comes back from
      `convert_version` unchanged, or as `*` when nothing is left. */
  lemma ConvertPlain(v: string)
    requires !Contains(v, "==") && !Contains(v, ">=")
    ensures ConvertVersion(Strip(v)) == if Strip(v) == "" then "*" else Strip(v)
  {
  }

  /** `name==V` maps the stripped name to `V.strip()`, or to `*` when `V` is blank. The
      name holds neither operator and does not end in `>` or `=`, which would move the
      operator the split finds; `V` holds neither operator but may hold single `=`, `>`,
      `!=`, `<`, commas and markers. */
  lemma EntryPinned(name: string, v: string)
    requires !Contains(name, ">=") && !Contains(name, "==")
    requires |name| > 0 ==> name[|name| - 1] != '>' && name[|name| - 1] != '='
    requires !Contains(v, ">=") && !Contains(v, "==")
    ensures ParseEntry(name + "==" + v) == (Strip(name), if Strip(v) == "" then "*" else Strip(v))
  {
    var dep := name + "==" + v;
    assert ">=" == ['>', '='];
    AbsentChar("==", ">=", 0);
    PairFreeConcat(name, "==", '>', '=');
    PairFreeConcat(name + "==", v, '>', '=');
    SplitAtOperatorEq(name, v);
    assert EntryParts(dep)[1..] == [v];
    ConvertPlain(v);
  }

  /** The split on `==` when the name neither holds `==` nor ends in `=`. */
  lemma SplitAtOperatorEq(name: string, v: string)
    requires !Contains(name, "==") && !Contains(v, "==")
    requires |name| > 0 ==> name[|name| - 1] != '='
    ensures Split(name + "==" + v, "==") == [name, v]
  {
    var dep := name + "==" + v;
    FindOperator(name, "==", v);
    assert dep[..|name|] == name;
    assert dep[|name| + 2..] == v;
  }

  /** `pkg==1.0,!=1.5` maps `pkg` to `1.0,!=1.5`: only the first `==` is the operator. */
  lemma PinnedExclusionExample(dep: string)
    requires dep == "pkg==1.0,!=1.5"
    ensures ParseEntry(dep) == ("pkg", "1.0,!=1.5")
  {
    PinnedExclusionText();
    EntryPinned("pkg", "1.0,!=1.5");
  }

  /** The pieces of the pinned example. */
  lemma PinnedExclusionText()
    ensures "pkg==1.0,!=1.5" == "pkg" + "==" + "1.0,!=1.5"
    ensures !Contains("pkg", ">=") && !Contains("pkg", "==")
    ensures !Contains("1.0,!=1.5", ">=") && !Contains("1.0,!=1.5", "==")
    ensures Strip("pkg") == "pkg" && Strip("1.0,!=1.5") == "1.0,!=1.5"
  {
    AbsentChar("pkg", ">=", 0);
    AbsentChar("pkg", "==", 0);
    AbsentChar("1.0,!=1.5", ">=", 0);
    assert "==" == ['=', '='];
    AbsentChar("1.0,!", "==", 0);
    AbsentChar("1.5", "==", 0);
    PairFreeConcat("=", "1.5", '=', '=');
    assert "1.0,!=1.5" == "1.0,!" + ("=" + "1.5");
    PairFreeConcat("1.0,!", "=" + "1.5", '=', '=');
  }

  /** `name>=REST` with no `==` and no further `>=` maps the stripped name to `REST.strip()`
      (or `*` when blank): the `>=` is consumed by the split, so the caret rule never fires. */
  lemma EntryLowerBound(name: string, rest: string)
    requires !Contains(name, ">=") && !Contains(rest, ">=") && !Contains(rest, "==")
    ensures ParseEntry(name + ">=" + rest) == (Strip(name), if Strip(rest) == "" then "*" else Strip(rest))
  {
    var dep := name + ">=" + rest;
    FindOperator(name, ">=", rest);
    SplitAtOperator(name, ">=", rest);
    assert EntryParts(dep)[1..] == [rest];
    ConvertPlain(rest);
  }

  /** `numpy>=1.20.0,<2.0.0` maps `numpy` to `1.20.0,<2.0.0`, not to `^1.20.0`. */
  lemma NumpyExample(dep: string)
    requires dep == "numpy>=1.20.0,<2.0.0"
    ensures ParseEntry(dep) == ("numpy", "1.20.0,<2.0.0")
  {
    NumpyExampleText();
    EntryLowerBound("numpy", "1.20.0,<2.0.0");
  }

  /** The pieces of the `numpy` example. */
  lemma NumpyExampleText()
    ensures "numpy>=1.20.0,<2.0.0" == "numpy" + ">=" + "1.20.0,<2.0.0"
    ensures !Contains("numpy", ">=") && !Contains("1.20.0,<2.0.0", ">=") && !Contains("1.20.0,<2.0.0", "==")
    ensures Strip("numpy") == "numpy" && Strip("1.20.0,<2.0.0") == "1.20.0,<2.0.0"
  {
    AbsentChar("numpy", ">=", 0);
    AbsentChar("1.20.0,<2.0.0", ">=", 0);
    AbsentChar("1.20.0,<2.0.0", "==", 0);
  }

  /** The pairs a list of requirement strings assigns, in list order. */
  function ParsedEntries(deps: seq<string>): (ps: seq<(string, string)>)
    ensures |ps| == |deps| && forall i :: 0 <= i < |deps| ==> ps[i] == ParseEntry(deps[i])
  {
    seq(|deps|, i requires 0 <= i < |deps| => ParseEntry(deps[i]))
  }

  /** The loop of `get_dependencies` and `get_dev_dependencies`: each requirement string
      assigns its name in turn, which builds `FromPairs` of the parsed pairs. */
  method CollectEntries(entries: seq<string>) returns (deps: seq<(string, string)>)
    ensures deps == FromPairs(ParsedEntries(entries))
  {
    ghost var ps := ParsedEntries(entries);
    deps := [];
    var i := 0;
    while i < |entries|
      invariant i <= |entries|
      invariant deps == FromPairs(ps[..i])
    {
      var entry := ParseEntry(entries[i]);
      FromPairsSnoc(ps, i);
      deps := Insert(deps, entry.0, entry.1);
      i := i + 1;
    }
    assert ps[..i] == ps;
  }

  /** A value that iterates to strings: an array of strings, a string (its characters)
      or a table (its keys). */
  predicate IteratesToStrings(v: Value) {
    Iterate(v).Some? && AllStr(Iterate(v).value)
  }

  /** The strings a `for` loop over `v` visits. */
  function IteratedStrings(v: Value): (r: seq<string>)
    requires IteratesToStrings(v)
  {
    Strings(Iterate(v).value)
  }

  /** What the two collectors read without raising: `dependencies`, when present,
      iterates to strings; `optional-dependencies`, when present, answers `"dev" in`, and when
      it holds `dev` it is a table whose `dev` iterates to strings. */
  predicate DependenciesWellFormed(pip: seq<(string, Value)>) {
    && ("dependencies" in Keys(pip) ==> IteratesToStrings(Get(pip, "dependencies")))
    && ("optional-dependencies" in Keys(pip) ==> OptionalWellFormed(Get(pip, "optional-dependencies")))
  }

  predicate OptionalWellFormed(v: Value) {
    && Member("dev", v).Some?
    && (Member("dev", v) == Some(true) ==> v.Table? && IteratesToStrings(Get(v.entries, "dev")))
  }

  /** `"dev" in optional_deps`, with `optional_deps` defaulting to an empty table. */
  predicate HasDevList(pip: seq<(string, Value)>)
    requires DependenciesWellFormed(pip)
  {
    "optional-dependencies" in Keys(pip) && Member("dev", Get(pip, "optional-dependencies")) == Some(true)
  }

  /** `pip_metadata.get("dependencies", [])`, as the loop visits it. */
  function DependencyList(pip: seq<(string, Value)>): (r: seq<string>)
    requires DependenciesWellFormed(pip)
  {
    if "dependencies" in Keys(pip) then IteratedStrings(Get(pip, "dependencies")) else []
  }

  /** `optional_deps["dev"]` when present, and nothing otherwise. */
  function DevDependencyList(pip: seq<(string, Value)>): (r: seq<string>)
    requires DependenciesWellFormed(pip)
  {
    if HasDevList(pip) then IteratedStrings(Get(Get(pip, "optional-dependencies").entries, "dev")) else []
  }

  /** The dict `get_dependencies` returns. */
  function DependencyMap(pip: seq<(string, Value)>): (r: seq<(string, string)>)
    requires DependenciesWellFormed(pip)
  {
    FromPairs(ParsedEntries(DependencyList(pip)))
  }

  /** The dict `get_dev_dependencies` returns. */
  function DevDependencyMap(pip: seq<(string, Value)>): (r: seq<(string, string)>)
    requires DependenciesWellFormed(pip)
  {
    FromPairs(ParsedEntries(DevDependencyList(pip)))
  }

  /** `get_dependencies`. */
  method GetDependencies(pip: seq<(string, Value)>) returns (deps: seq<(string, string)>)
    requires DependenciesWellFormed(pip)
    ensures deps == DependencyMap(pip)
    ensures UniqueKeys(deps) && Keys(deps) == Distinct(Keys(ParsedEntries(DependencyList(pip))))
    ensures forall k :: Lookup(deps, k) == LastValue(ParsedEntries(DependencyList(pip)), k)
  {
    var listed := GetOr(pip, "dependencies", Array([]));
    deps := CollectEntries(IteratedStrings(listed));
    FromPairsDict(ParsedEntries(DependencyList(pip)));
  }

  /** `get_dev_dependencies`: empty unless `optional-dependencies` holds `dev`. */
  method GetDevDependencies(pip: seq<(string, Value)>) returns (devDeps: seq<(string, string)>)
    requires DependenciesWellFormed(pip)
    ensures devDeps == DevDependencyMap(pip)
    ensures UniqueKeys(devDeps) && Keys(devDeps) == Distinct(Keys(ParsedEntries(DevDependencyList(pip))))
    ensures forall k :: Lookup(devDeps, k) == LastValue(ParsedEntries(DevDependencyList(pip)), k)
    ensures !HasDevList(pip) ==> devDeps == []
  {
    var optional := GetOr(pip, "optional-dependencies", Table([]));
    devDeps := [];
    if Member("dev", optional) == Some(true) {
      devDeps := CollectEntries(IteratedStrings(Get(optional.entries, "dev")));
    }
    FromPairsDict(ParsedEntries(DevDependencyList(pip)));
  }

  /** What `get_packages` reads without raising: `tool`, when present, is a table; its
      `setuptools`, when present, answers `"packages" in`, and is a table when it holds
      `packages`; that value answers `"find" in`, and is a table when it holds `find`; and
      `find` is a table whose `where` can be indexed at 0. */
  predicate PackagesWellFormed(doc: seq<(string, Value)>) {
    "tool" in Keys(doc) ==>
      && Get(doc, "tool").Table?
      && ("setuptools" in Keys(Get(doc, "tool").entries) ==> SetuptoolsWellFormed(Get(Get(doc, "tool").entries, "setuptools")))
  }

  predicate SetuptoolsWellFormed(setuptools: Value) {
    && Member("packages", setuptools).Some?
    && (Member("packages", setuptools) == Some(true) ==>
          setuptools.Table? && PackagesValueWellFormed(Get(setuptools.entries, "packages")))
  }

  predicate PackagesValueWellFormed(packages: Value) {
    && Member("find", packages).Some?
    && (Member("find", packages) == Some(true) ==> packages.Table? && FindWellFormed(Get(packages.entries, "find")))
  }

  predicate FindWellFormed(find: Value) {
    && find.Table?
    && "where" in Keys(find.entries)
    && WhereWellFormed(Get(find.entries, "where"))
  }

  /** `where[0]` does not raise: a non-empty array or a non-empty string. */
  predicate WhereWellFormed(where: Value) {
    (where.Array? && |where.items| > 0) || (where.Str? && |where.s| > 0)
  }

  /** The `tool.setuptools` value, when there is one. */
  function Setuptools(doc: seq<(string, Value)>): (r: Option<Value>)
    requires PackagesWellFormed(doc)
  {
    if "tool" in Keys(doc) && "setuptools" in Keys(Get(doc, "tool").entries) then
      Some(Get(Get(doc, "tool").entries, "setuptools"))
    else None
  }

  /** `"packages" in setuptools_data and "find" in setuptools_data["packages"]`. */
  predicate HasFind(doc: seq<(string, Value)>)
    requires PackagesWellFormed(doc)
  {
    && Setuptools(doc).Some?
    && Member("packages", Setuptools(doc).value) == Some(true)
    && Member("find", Get(Setuptools(doc).value.entries, "packages")) == Some(true)
  }

  /** The `where` value of `setuptools_data["packages"]["find"]`. */
  function Where(doc: seq<(string, Value)>): (where: Value)
    requires PackagesWellFormed(doc) && HasFind(doc)
    ensures WhereWellFormed(where)
  {
    Get(Get(Get(Setuptools(doc).value.entries, "packages").entries, "find").entries, "where")
  }

  /** `where[0]`: the first directory of a list, or the first character of a string. */
  function FirstWhere(doc: seq<(string, Value)>): (from: Value)
    requires PackagesWellFormed(doc) && HasFind(doc)
  {
    var where := Where(doc);
    if where.Array? then where.items[0] else Str(where.s[..1])
  }

  /** The one Poetry package entry `get_packages` builds. */
  function PackageEntry(from: Value): (r: Value) {
    Table([("include", Str("docktuna")), ("from", from)])
  }

  /** `get_packages`: one entry for `docktuna` taken from the first `where` directory of
      setuptools' package discovery, or nothing. */
  function GetPackages(doc: seq<(string, Value)>): (packages: seq<Value>)
    requires PackagesWellFormed(doc)
    ensures |packages| <= 1
    ensures packages != [] <==> HasFind(doc)
    ensures packages != [] ==> packages[0] == PackageEntry(FirstWhere(doc))
  {
    if HasFind(doc) then [PackageEntry(FirstWhere(doc))] else []
  }

  /** A package entry is a two-key table: `include` is `docktuna`, `from` the directory. */
  lemma PackageEntryContents(from: Value)
    ensures PackageEntry(from).Table?
    ensures var e := PackageEntry(from).entries;
            && UniqueKeys(e) && Keys(e) == ["include", "from"]
            && Get(e, "include") == Str("docktuna") && Get(e, "from") == from
  {
    var e := PackageEntry(from).entries;
    assert Keys(e) == ["include", "from"];
    LookupAt(e, 0);
    LookupAt(e, 1);
  }

  /** The fixed `[build-system]` of the Poetry document. */
  const PoetryBuildSystem: Value :=
    Table([("requires", StrArray(["poetry-core"])), ("build-backend", Str("poetry.core.masonry.api"))])

  /** `{"python": "^3.11", **dependencies}`. */
  function WithPython(dependencies: seq<(string, string)>): (r: seq<(string, string)>)
    ensures UniqueKeys(r) && |r| > 0 && r[0].0 == "python"
  {
    var ps := [("python", "^3.11")] + dependencies;
    FromPairsUnique(ps);
    FromPairsKeys(ps);
    assert Keys(ps)[0] == "python";
    DistinctHead(Keys(ps));
    FromPairs(ps)
  }

  /** The keys of the dependency table are `python` and then the pip keys, each once, in
      order of first appearance, so `python` is first; its constraint is `^3.11` unless
      the pip list itself names `python`, and every other key keeps its constraint. */
  lemma PythonFirst(dependencies: seq<(string, string)>)
    requires UniqueKeys(dependencies)
    ensures var table := WithPython(dependencies);
            && UniqueKeys(table)
            && Keys(table) == Distinct(Keys([("python", "^3.11")] + dependencies))
            && |table| > 0 && table[0].0 == "python"
            && Lookup(table, "python") == Some(if "python" in Keys(dependencies) then Get(dependencies, "python") else "^3.11")
            && forall k :: k != "python" ==> Lookup(table, k) == Lookup(dependencies, k)
  {
    var ps := [("python", "^3.11")] + dependencies;
    FromPairsUnique(ps);
    FromPairsKeys(ps);
    assert Keys(ps)[0] == "python";
    DistinctHead(Keys(ps));
    forall k ensures Lookup(WithPython(dependencies), k) == MergedValue(dependencies, k) {
      FromPairsLookup(ps, k);
      LastValueAfter(ps, dependencies, k);
    }
  }

  /** The value of `k` in `{"python": "^3.11", **dependencies}`. */
  function MergedValue(dependencies: seq<(string, string)>, k: string): (r: Option<string>)
  {
    if k in Keys(dependencies) then Lookup(dependencies, k) else if k == "python" then Some("^3.11") else None
  }

  /** The last pair for a key in `[p] + d`, with `d` a dict. */
  lemma LastValueAfter(ps: seq<(string, string)>, dependencies: seq<(string, string)>, k: string)
    requires ps == [("python", "^3.11")] + dependencies && UniqueKeys(dependencies)
    ensures LastValue(ps, k) == MergedValue(dependencies, k)
  {
    LastValueSplit([("python", "^3.11")], dependencies, k);
    LastValueUnique(dependencies, k);
  }

  /** The six entries the `tool.poetry` table always starts with, in order. */
  function PoetryFields(name: Value, version: Value, description: Value, authors: Value, license: Value,
                        dependencies: seq<(string, string)>): (r: seq<(string, Value)>)
  {
    [("name", name), ("version", version), ("description", description), ("authors", authors),
     ("license", license), ("dependencies", StrTable(dependencies))]
  }

  /** `{"dev": {"dependencies": dev_dependencies}}`. */
  function GroupTable(devDependencies: seq<(string, string)>): (r: Value) {
    Table([("dev", Table([("dependencies", StrTable(devDependencies))]))])
  }

  /** The two optional keys: `group` when there are dev dependencies, then `packages`
      when `get_packages` found something. */
  function WithOptionalKeys(fields: seq<(string, Value)>, devDependencies: seq<(string, string)>,
                            packages: seq<Value>): (r: seq<(string, Value)>)
  {
    InsertIf(InsertIf(fields, "group", GroupTable(devDependencies), devDependencies != []),
             "packages", Array(packages), packages != [])
  }

  /** The six fixed keys are distinct and come in display order. */
  lemma PoetryFieldsKeys(name: Value, version: Value, description: Value, authors: Value, license: Value,
                         dependencies: seq<(string, string)>)
    ensures var fields := PoetryFields(name, version, description, authors, license, dependencies);
            && Keys(fields) == ["name", "version", "description", "authors", "license", "dependencies"]
            && UniqueKeys(fields)
  {
  }

  /** Each optional key is appended exactly when its content is non-empty. */
  lemma WithOptionalKeysContents(fields: seq<(string, Value)>, devDependencies: seq<(string, string)>,
                                 packages: seq<Value>)
    requires UniqueKeys(fields) && "group" !in Keys(fields) && "packages" !in Keys(fields)
    ensures var table := WithOptionalKeys(fields, devDependencies, packages);
            && table == fields
                        + (if devDependencies != [] then [("group", GroupTable(devDependencies))] else [])
                        + (if packages != [] then [("packages", Array(packages))] else [])
            && UniqueKeys(table)
  {
    InsertOptionalTwice(fields, "group", GroupTable(devDependencies), devDependencies != [],
                        "packages", Array(packages), packages != []);
  }

  /** What `create_poetry_metadata` reads: the four descriptive keys of `[project]`
      and well-formed dependency lists, and a well-formed setuptools section. */
  predicate PipWellFormed(pip: seq<(string, Value)>) {
    && "name" in Keys(pip)
    && "version" in Keys(pip)
    && "description" in Keys(pip)
    && "authors" in Keys(pip)
    && DependenciesWellFormed(pip)
  }

  /** The `tool.poetry` table `create_poetry_metadata` builds. */
  function PoetrySection(pip: seq<(string, Value)>, original: seq<(string, Value)>): (r: seq<(string, Value)>)
    requires PipWellFormed(pip) && PackagesWellFormed(original)
  {
    var fields := PoetryFields(Get(pip, "name"), Get(pip, "version"), Get(pip, "description"), Get(pip, "authors"),
                               GetOr(pip, "license", Str("")), WithPython(DependencyMap(pip)));
    WithOptionalKeys(fields, DevDependencyMap(pip), GetPackages(original))
  }

  /** `original_toml.get("tool", {})`. */
  function SourceTools(original: seq<(string, Value)>): (r: seq<(string, Value)>)
    requires PackagesWellFormed(original)
  {
    if "tool" in Keys(original) then Get(original, "tool").entries else []
  }

  /** The tool-copy loop: every source entry but `setuptools` assigned into `tool`, in order. */
  function CopyTools(tool: seq<(string, Value)>, source: seq<(string, Value)>): (r: seq<(string, Value)>)
    ensures "setuptools" !in Keys(tool) ==> "setuptools" !in Keys(r)
    decreases |source|
  {
    if source == [] then tool
    else
      var n := |source| - 1;
      var before := CopyTools(tool, source[..n]);
      if source[n].0 != "setuptools" then Insert(before, source[n].0, source[n].1) else before
  }

  /** The `tool` table: the built `poetry` table, then the copied tool sections. */
  function PoetryTool(pip: seq<(string, Value)>, original: seq<(string, Value)>): (r: seq<(string, Value)>)
    requires PipWellFormed(pip) && PackagesWellFormed(original)
  {
    CopyTools([("poetry", Table(PoetrySection(pip, original)))], SourceTools(original))
  }

  /** A Poetry document around a given `tool` table. */
  function DocumentOf(tool: seq<(string, Value)>): (r: seq<(string, Value)>)
  {
    [("tool", Table(tool)), ("build-system", PoetryBuildSystem)]
  }

  /** The document `create_poetry_metadata` returns. */
  function PoetryDocument(pip: seq<(string, Value)>, original: seq<(string, Value)>): (r: seq<(string, Value)>)
    requires PipWellFormed(pip) && PackagesWellFormed(original)
  {
    DocumentOf(PoetryTool(pip, original))
  }

  /** Assigning into `poetry_metadata["tool"]` replaces the `tool` table where it stands. */
  lemma DocumentOfReplace(before: seq<(string, Value)>, after: seq<(string, Value)>)
    ensures Insert(DocumentOf(before), "tool", Table(after)) == DocumentOf(after)
  {
    var doc := DocumentOf(before);
    assert UniqueKeys(doc) && doc[0].0 == "tool";
  }

  /** The loop at the end of `create_poetry_metadata`: every source tool section other
      than `setuptools` assigned into `poetry_metadata["tool"]`, in order. */
  method CopyToolSections(start: seq<(string, Value)>, source: seq<(string, Value)>)
    returns (tool: seq<(string, Value)>)
    ensures tool == CopyTools(start, source)
  {
    tool := start;
    var i := 0;
    while i < |source|
      invariant i <= |source|
      invariant tool == CopyTools(start, source[..i])
    {
      assert source[..i + 1][..i] == source[..i];
      if source[i].0 != "setuptools" {
        tool := Insert(tool, source[i].0, source[i].1);
      }
      i := i + 1;
    }
    assert source[..i] == source;
  }

  /** `create_poetry_metadata`. */
  method CreatePoetryMetadata(pip: seq<(string, Value)>, original: seq<(string, Value)>)
    returns (doc: seq<(string, Value)>)
    requires PipWellFormed(pip) && PackagesWellFormed(original)
    ensures doc == PoetryDocument(pip, original)
  {
    var dependencies := GetDependencies(pip);
    var devDependencies := GetDevDependencies(pip);
    var packages := GetPackages(original);

    var poetry := PoetryFields(Get(pip, "name"), Get(pip, "version"), Get(pip, "description"), Get(pip, "authors"),
                               GetOr(pip, "license", Str("")), WithPython(dependencies));
    if devDependencies != [] {
      poetry := Insert(poetry, "group", GroupTable(devDependencies));
    }
    if packages != [] {
      poetry := Insert(poetry, "packages", Array(packages));
    }
    assert poetry == PoetrySection(pip, original);
    var start := [("poetry", Table(poetry))];
    doc := DocumentOf(start);

    var tool := CopyToolSections(start, SourceTools(original));
    DocumentOfReplace(start, tool);
    doc := Insert(doc, "tool", Table(tool));
  }

  /** The Poetry document has the `tool` table first and the fixed Poetry build system second. */
  lemma PoetryDocumentSections(pip: seq<(string, Value)>, original: seq<(string, Value)>)
    requires PipWellFormed(pip) && PackagesWellFormed(original)
    ensures var doc := PoetryDocument(pip, original);
            && UniqueKeys(doc) && Keys(doc) == ["tool", "build-system"]
            && Get(doc, "tool") == Table(PoetryTool(pip, original))
            && Get(doc, "build-system") == PoetryBuildSystem
  {
    DocumentOfSections(PoetryTool(pip, original));
  }

  lemma DocumentOfSections(tool: seq<(string, Value)>)
    ensures var doc := DocumentOf(tool);
            && UniqueKeys(doc) && Keys(doc) == ["tool", "build-system"]
            && Get(doc, "tool") == Table(tool)
            && Get(doc, "build-system") == PoetryBuildSystem
  {
    var doc := DocumentOf(tool);
    assert Keys(doc) == ["tool", "build-system"];
    LookupAt(doc, 0);
    LookupAt(doc, 1);
  }

  /** What the copy loop leaves in `r` after starting from `tool` and copying `source`:
      distinct keys, the keys of `tool` still in front, exactly the keys of `tool` and the
      copied source keys, each copied key holding its source value and every other key its
      old value. */
  ghost predicate Copied(tool: seq<(string, Value)>, source: seq<(string, Value)>, r: seq<(string, Value)>) {
    && UniqueKeys(r)
    && |r| >= |tool| && Keys(r)[..|tool|] == Keys(tool)
    && (forall k :: k in Keys(r) <==> k in Keys(tool) || (k in Keys(source) && k != "setuptools"))
    && (forall k :: k in Keys(source) && k != "setuptools" ==> Lookup(r, k) == Lookup(source, k))
    && (forall k :: k !in Keys(source) || k == "setuptools" ==> Lookup(r, k) == Lookup(tool, k))
  }

  /** The copy loop keeps the keys already there in front, adds the source keys other than
      `setuptools`, and gives each copied key its source value. */
  lemma {:induction false} CopyToolsContents(tool: seq<(string, Value)>, source: seq<(string, Value)>)
    requires UniqueKeys(tool) && UniqueKeys(source)
    ensures Copied(tool, source, CopyTools(tool, source))
    decreases |source|
  {
    if source == [] {
      assert Keys(tool)[..|tool|] == Keys(tool);
    } else {
      var n := |source| - 1;
      assert UniqueKeys(source[..n]);
      CopyToolsContents(tool, source[..n]);
      CopyStep(tool, source, CopyTools(tool, source[..n]));
    }
  }

  /** One turn of the copy loop keeps `Copied`. */
  lemma CopyStep(tool: seq<(string, Value)>, source: seq<(string, Value)>, before: seq<(string, Value)>)
    requires UniqueKeys(source) && |source| > 0
    requires Copied(tool, source[..|source| - 1], before)
    ensures var last := source[|source| - 1];
            Copied(tool, source, if last.0 != "setuptools" then Insert(before, last.0, last.1) else before)
  {
    var n := |source| - 1;
    var init := source[..n];
    KeysPrefix(source, n);
    SplitLast(Keys(source));
    LastKeyFresh(source);
    LookupAt(source, n);
    forall k | k in Keys(init) ensures Lookup(source, k) == Lookup(init, k) {
      LookupPrefix(source, n, k);
    }
    if source[n].0 != "setuptools" {
      CopyInsert(tool, init, source[n].0, source[n].1, source, before);
    } else {
      CopySkip(tool, init, source, before);
    }
  }

  /** A copied key other than `setuptools` is assigned. */
  lemma CopyInsert(tool: seq<(string, Value)>, init: seq<(string, Value)>, k0: string, v0: Value,
                   source: seq<(string, Value)>, before: seq<(string, Value)>)
    requires Copied(tool, init, before) && k0 != "setuptools"
    requires Keys(source) == Keys(init) + [k0] && k0 !in Keys(init) && Lookup(source, k0) == Some(v0)
    requires forall k :: k in Keys(init) ==> Lookup(source, k) == Lookup(init, k)
    ensures Copied(tool, source, Insert(before, k0, v0))
  {
    var r := Insert(before, k0, v0);
    assert Keys(r)[..|tool|] == Keys(before)[..|tool|];
    forall k | k in Keys(source) && k != "setuptools" ensures Lookup(r, k) == Lookup(source, k) {
      if k != k0 {
        assert k in Keys(init);
      }
    }
    forall k | k !in Keys(source) || k == "setuptools" ensures Lookup(r, k) == Lookup(tool, k) {
      assert k != k0;
      assert k !in Keys(init) || k == "setuptools";
    }
  }

  /** The `setuptools` section is skipped. */
  lemma CopySkip(tool: seq<(string, Value)>, init: seq<(string, Value)>,
                 source: seq<(string, Value)>, before: seq<(string, Value)>)
    requires Copied(tool, init, before)
    requires Keys(source) == Keys(init) + ["setuptools"]
    requires forall k :: k in Keys(init) ==> Lookup(source, k) == Lookup(init, k)
    ensures Copied(tool, source, before)
  {
    forall k | k in Keys(source) && k != "setuptools" ensures Lookup(before, k) == Lookup(source, k) {
      assert k in Keys(init);
    }
  }

  /** The `tool` table of the Poetry document: `poetry` first, every source tool except
      `setuptools` copied with its value (a source `tool.poetry` replacing the built one),
      and nothing else. */
  lemma ToolTableContents(pip: seq<(string, Value)>, original: seq<(string, Value)>)
    requires PipWellFormed(pip) && PackagesWellFormed(original)
    requires UniqueKeys(SourceTools(original))
    ensures var tool := PoetryTool(pip, original);
            var source := SourceTools(original);
            && UniqueKeys(tool)
            && |tool| > 0 && tool[0].0 == "poetry"
            && "setuptools" !in Keys(tool)
            && (forall k :: k in Keys(tool) <==> k == "poetry" || (k in Keys(source) && k != "setuptools"))
            && (forall k :: k in Keys(source) && k != "setuptools" ==> Lookup(tool, k) == Lookup(source, k))
            && ("poetry" !in Keys(source) ==> Lookup(tool, "poetry") == Some(Table(PoetrySection(pip, original))))
  {
    ToolTableOf(Table(PoetrySection(pip, original)), SourceTools(original));
  }

  /** The same, for any built `poetry` value. */
  lemma ToolTableOf(poetry: Value, source: seq<(string, Value)>)
    requires UniqueKeys(source)
    ensures var tool := CopyTools([("poetry", poetry)], source);
            && UniqueKeys(tool)
            && |tool| > 0 && tool[0].0 == "poetry"
            && "setuptools" !in Keys(tool)
            && (forall k :: k in Keys(tool) <==> k == "poetry" || (k in Keys(source) && k != "setuptools"))
            && (forall k :: k in Keys(source) && k != "setuptools" ==> Lookup(tool, k) == Lookup(source, k))
            && ("poetry" !in Keys(source) ==> Lookup(tool, "poetry") == Some(poetry))
  {
    var start := [("poetry", poetry)];
    CopyToolsContents(start, source);
    var tool := CopyTools(start, source);
    assert Keys(tool)[..1] == ["poetry"];
    assert Keys(tool)[0] == "poetry";
    LookupAt(start, 0);
  }

  /** The `tool.poetry` table: the four descriptive keys copied from `[project]`, the
      license (empty when absent), the dependency table, then `group` exactly when there are
      dev dependencies and `packages` exactly when `get_packages` found the package. */
  lemma PoetrySectionContents(pip: seq<(string, Value)>, original: seq<(string, Value)>)
    requires PipWellFormed(pip) && PackagesWellFormed(original)
    ensures var section := PoetrySection(pip, original);
            && UniqueKeys(section)
            && section
               == [("name", Get(pip, "name")), ("version", Get(pip, "version")),
                   ("description", Get(pip, "description")), ("authors", Get(pip, "authors")),
                   ("license", GetOr(pip, "license", Str(""))),
                   ("dependencies", StrTable(WithPython(DependencyMap(pip))))]
                  + (if DevDependencyMap(pip) != [] then [("group", GroupTable(DevDependencyMap(pip)))] else [])
                  + (if GetPackages(original) != [] then [("packages", Array(GetPackages(original)))] else [])
  {
    SectionOf(Get(pip, "name"), Get(pip, "version"), Get(pip, "description"), Get(pip, "authors"),
              GetOr(pip, "license", Str("")), WithPython(DependencyMap(pip)), DevDependencyMap(pip), GetPackages(original));
  }

  /** The six fixed fields followed by the optional keys, for arbitrary field values. */
  lemma SectionOf(name: Value, version: Value, description: Value, authors: Value, license: Value,
                  dependencies: seq<(string, string)>, devDependencies: seq<(string, string)>, packages: seq<Value>)
    ensures var table := WithOptionalKeys(PoetryFields(name, version, description, authors, license, dependencies),
                                          devDependencies, packages);
            && UniqueKeys(table)
            && table
               == [("name", name), ("version", version), ("description", description), ("authors", authors),
                   ("license", license), ("dependencies", StrTable(dependencies))]
                  + (if devDependencies != [] then [("group", GroupTable(devDependencies))] else [])
                  + (if packages != [] then [("packages", Array(packages))] else [])
  {
    PoetryFieldsKeys(name, version, description, authors, license, dependencies);
    WithOptionalKeysContents(PoetryFields(name, version, description, authors, license, dependencies),
                             devDependencies, packages);
  }

  /** The dev group is there exactly when `optional-dependencies.dev` names at least one requirement. */
  lemma DevGroupPresence(pip: seq<(string, Value)>)
    requires DependenciesWellFormed(pip)
    ensures DevDependencyMap(pip) != [] <==> DevDependencyList(pip) != []
  {
    var ps := ParsedEntries(DevDependencyList(pip));
    FromPairsKeys(ps);
    if ps != [] {
      DistinctHead(Keys(ps));
    }
  }
}
