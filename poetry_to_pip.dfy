/** poetry_to_pip.py: translate a Poetry `[tool.poetry]` table into a pip
    `[project]` document. Every operation here is a pure function. */
module PoetryToPip {
  import opened PyStr
  import opened OrderedDict
  import opened Toml

  /** `version.startswith(c)` for a one-character prefix. */
  predicate Lead(version: string, c: char) {
    |version| > 0 && version[0] == c
  }

  /** What `convert_version_specifier` needs in order not to raise: after a caret,
      the text before the first dot goes through `int()`; after a tilde, unpacking
      needs at least two dot components, and a non-empty minor goes through `int()`. */
  predicate Convertible(version: string) {
    if version == "*" then true
    else if Lead(version, '^') then CaretAccepts(version[1..])
    else if Lead(version, '~') then TildeAccepts(version[1..])
    else true
  }

  /** `major, *rest = base.split(".")` followed by `int(major)` does not raise. */
  predicate CaretAccepts(base: string) {
    IsNumeral(Split(base, ".")[0])
  }

  /** `major, minor, *rest = base.split(".")` followed by `int(minor) if minor` does not raise. */
  predicate TildeAccepts(base: string) {
    var parts := Split(base, ".");
    |parts| >= 2 && (parts[1] == "" || IsNumeral(parts[1]))
  }

  /** `convert_version_specifier`: a Poetry constraint as a pip constraint. */
  function ConvertVersionSpecifier(version: string): (r: string)
    requires Convertible(version)
    ensures r == "" <==> version == "*" || version == ""
  {
    if version == "*" then ""
    else if Lead(version, '^') then CaretSpecifier(version[1..])
    else if Lead(version, '~') then TildeSpecifier(version[1..])
    else version
  }

  /** The caret branch on the version after the `^`. */
  function CaretSpecifier(base: string): (r: string)
    requires CaretAccepts(base)
  {
    var major := Split(base, ".")[0];
    ">=" + base + ",<" + NatToString(ParseNat(major) + 1) + ".0.0"
  }

  /** The tilde branch on the version after the `~`. */
  function TildeSpecifier(base: string): (r: string)
    requires TildeAccepts(base)
  {
    var parts := Split(base, ".");
    ">=" + base + ",<" + parts[0] + "." + NextMinor(parts[1]) + ".0"
  }

  /** `next_minor`: the numeral one past a non-empty minor, and `0` for an empty one. */
  function NextMinor(minor: string): (r: string)
    requires minor == "" || IsNumeral(minor)
    ensures IsNumeral(r)
    ensures minor == "" ==> ParseNat(r) == 0
    ensures minor != "" ==> ParseNat(r) == ParseNat(minor) + 1
  {
    if minor != "" then
      ParseNatToString(ParseNat(minor) + 1);
      NatToString(ParseNat(minor) + 1)
    else "0"
  }

  /** Any string that is not `*` and does not start with a caret or a tilde is returned as it is. */
  lemma SpecifierPassThrough(version: string)
    requires version != "*" && !StartsWith(version, "^") && !StartsWith(version, "~")
    ensures Convertible(version) && ConvertVersionSpecifier(version) == version
  {
    StartsWithChar(version, '^');
    StartsWithChar(version, '~');
  }

  /** `"a.b.c".split(".")` when no piece contains a dot. */
  lemma SplitDotted(a: string, rest: string)
    requires '.' !in a
    ensures Split(a + "." + rest, ".") == [a] + Split(rest, ".")
  {
    FindChar(a, '.', rest);
    assert (a + "." + rest)[..|a|] == a;
    assert (a + "." + rest)[|a| + 1..] == rest;
  }

  /** Two dot-free pieces split back apart. */
  lemma SplitTwo(a: string, b: string)
    requires '.' !in a && '.' !in b
    ensures Split(a + "." + b, ".") == [a, b]
  {
    SplitDotted(a, b);
    AbsentChar(b, ".", 0);
  }

  /** A caret constraint becomes the range from its version up to the next major version:
      the upper bound is a numeral one more than the version's major, then `.0.0`. */
  lemma CaretRange(version: string)
    requires Lead(version, '^') && Convertible(version)
    ensures var v := version[1..];
            var major := Split(v, ".")[0];
            var next := NatToString(ParseNat(major) + 1);
            && ConvertVersionSpecifier(version) == ">=" + v + ",<" + next + ".0.0"
            && IsNumeral(next) && ParseNat(next) == ParseNat(major) + 1
  {
    assert ConvertVersionSpecifier(version) == CaretSpecifier(version[1..]);
    CaretBound(version[1..]);
  }

  /** The caret branch in terms of the major component. */
  lemma CaretBound(base: string)
    requires CaretAccepts(base)
    ensures var major := Split(base, ".")[0];
            var next := NatToString(ParseNat(major) + 1);
            && CaretSpecifier(base) == ">=" + base + ",<" + next + ".0.0"
            && IsNumeral(next) && ParseNat(next) == ParseNat(major) + 1
  {
    ParseNatToString(ParseNat(Split(base, ".")[0]) + 1);
  }

  /** A tilde constraint becomes the range up to the next minor version of the same major
      (minor `0` when the minor is empty). */
  lemma TildeRange(version: string)
    requires Lead(version, '~') && Convertible(version)
    ensures var v := version[1..];
            var parts := Split(v, ".");
            && |parts| >= 2
            && ConvertVersionSpecifier(version) == ">=" + v + ",<" + parts[0] + "." + NextMinor(parts[1]) + ".0"
  {
    assert ConvertVersionSpecifier(version) == TildeSpecifier(version[1..]);
  }

  /** A caret constraint written as a numeral major, a dot and the rest of the version
      is accepted: its major is that numeral. */
  lemma CaretConvertible(major: string, rest: string, version: string)
    requires IsNumeral(major) && '.' !in major
    requires version == "^" + major + "." + rest
    ensures Lead(version, '^') && version[1..] == major + "." + rest
    ensures Split(version[1..], ".")[0] == major
    ensures Convertible(version)
  {
    assert version[0] == '^' && version[1..] == major + "." + rest;
    assert Split(version[1..], ".")[0] == major by {
      SplitDotted(major, rest);
    }
  }

  /** The caret rule on a version whose major is given: `>=V,<(M+1).0.0`. */
  lemma CaretOf(major: string, rest: string, version: string)
    requires IsNumeral(major) && '.' !in major
    requires version == "^" + major + "." + rest
    ensures Convertible(version)
    ensures ConvertVersionSpecifier(version) == ">=" + (major + "." + rest) + ",<" + NatToString(ParseNat(major) + 1) + ".0.0"
  {
    CaretConvertible(major, rest, version);
    CaretRange(version);
  }

  /** `^1.2.3` gives `>=1.2.3,<2.0.0`. */
  lemma CaretExample(version: string)
    requires version == "^1.2.3"
    ensures Convertible(version) && ConvertVersionSpecifier(version) == ">=1.2.3,<2.0.0"
  {
    CaretExampleText();
    CaretOf("1", "2.3", version);
  }

  /** The pieces of the caret example put together. */
  lemma CaretExampleText()
    ensures "^1.2.3" == "^" + "1" + "." + "2.3"
    ensures ">=" + ("1" + "." + "2.3") + ",<" + NatToString(ParseNat("1") + 1) + ".0.0" == ">=1.2.3,<2.0.0"
  {
    assert ParseNat("1") == 1;
    assert NatToString(2) == "2";
    assert "1" + "." + "2.3" == "1.2.3";
    assert ">=" + "1.2.3" == ">=1.2.3";
    assert ">=1.2.3" + ",<" == ">=1.2.3,<";
    assert ">=1.2.3,<" + "2" == ">=1.2.3,<2";
    assert ">=1.2.3,<2" + ".0.0" == ">=1.2.3,<2.0.0";
  }

  /** The tilde rule on a two-component version `M.N`: `>=M.N,<M.(N+1).0`, or `<M.0.0`
      when the minor is empty. */
  lemma TildeOf(major: string, minor: string, version: string)
    requires '.' !in major && '.' !in minor && (minor == "" || IsNumeral(minor))
    requires version == "~" + major + "." + minor
    ensures Convertible(version)
    ensures ConvertVersionSpecifier(version) == ">=" + (major + "." + minor) + ",<" + major + "." + NextMinor(minor) + ".0"
  {
    TildeConvertible(major, minor, version);
    assert ConvertVersionSpecifier(version) == TildeSpecifier(version[1..]);
    TildeSpecifierOf(major, minor, version[1..]);
  }

  /** The tilde branch on a base already split into its major and minor. */
  lemma TildeSpecifierOf(major: string, minor: string, base: string)
    requires Split(base, ".") == [major, minor] && (minor == "" || IsNumeral(minor))
    ensures TildeAccepts(base)
    ensures TildeSpecifier(base) == ">=" + base + ",<" + major + "." + NextMinor(minor) + ".0"
  {
  }

  /** A tilde constraint `~M.N` with dot-free components is accepted, and splits into `M` and `N`. */
  lemma TildeConvertible(major: string, minor: string, version: string)
    requires '.' !in major && '.' !in minor && (minor == "" || IsNumeral(minor))
    requires version == "~" + major + "." + minor
    ensures Lead(version, '~') && version[1..] == major + "." + minor
    ensures Split(version[1..], ".") == [major, minor]
    ensures Convertible(version)
  {
    assert version[0] == '~' && version[1..] == major + "." + minor;
    assert Split(version[1..], ".") == [major, minor] by {
      SplitTwo(major, minor);
    }
  }

  /** `~1.2` gives `>=1.2,<1.3.0`. */
  lemma TildeExample(version: string)
    requires version == "~1.2"
    ensures Convertible(version) && ConvertVersionSpecifier(version) == ">=1.2,<1.3.0"
  {
    TildeExampleText();
    TildeOf("1", "2", version);
  }

  /** The pieces of the tilde example put together. */
  lemma TildeExampleText()
    ensures "~1.2" == "~" + "1" + "." + "2"
    ensures ">=" + ("1" + "." + "2") + ",<" + "1" + "." + NextMinor("2") + ".0" == ">=1.2,<1.3.0"
  {
    assert ParseNat("2") == 2;
    assert NatToString(3) == "3";
    assert "1" + "." + "2" == "1.2";
    assert ">=" + "1.2" == ">=1.2";
    assert ">=1.2" + ",<" == ">=1.2,<";
    assert ">=1.2,<" + "1" == ">=1.2,<1";
    assert ">=1.2,<1" + "." == ">=1.2,<1.";
    assert ">=1.2,<1." + "3" == ">=1.2,<1.3";
    assert ">=1.2,<1.3" + ".0" == ">=1.2,<1.3.0";
  }

  /** The `python` entry, recognised with ASCII case folding as `pkg.lower() != "python"` does. */
  predicate IsPythonKey(name: string) {
    Lower(name) == "python"
  }

  /** The entries of a dependency table other than `python`, in table order. */
  function WithoutPython(t: seq<(string, Value)>): (r: seq<(string, Value)>)
    ensures |r| <= |t|
  {
    if t == [] then []
    else (if IsPythonKey(t[0].0) then [] else [t[0]]) + WithoutPython(t[1..])
  }

  /** The kept entries are exactly the entries whose key is not `python`. */
  lemma {:induction false} WithoutPythonMembers(t: seq<(string, Value)>)
    ensures forall e :: e in WithoutPython(t) <==> e in t && !IsPythonKey(e.0)
    decreases |t|
  {
    if t != [] {
      WithoutPythonMembers(t[1..]);
      assert t == [t[0]] + t[1..];
    }
  }

  /** `WithoutPython` works entry by entry, keeping order. */
  lemma {:induction false} WithoutPythonAppend(a: seq<(string, Value)>, b: seq<(string, Value)>)
    ensures WithoutPython(a + b) == WithoutPython(a) + WithoutPython(b)
    decreases |a|
  {
    if a == [] {
      assert a + b == b;
    } else {
      WithoutPythonAppend(a[1..], b);
      var head := if IsPythonKey(a[0].0) then [] else [a[0]];
      assert (a + b)[0] == a[0];
      assert (a + b)[1..] == a[1..] + b;
      assert WithoutPython(a + b) == head + WithoutPython(a[1..] + b);
      assert WithoutPython(a) == head + WithoutPython(a[1..]);
    }
  }

  /** A table with no `python` entry is kept whole. */
  lemma {:induction false} WithoutPythonNoop(t: seq<(string, Value)>)
    requires forall i :: 0 <= i < |t| ==> !IsPythonKey(t[i].0)
    ensures WithoutPython(t) == t
    decreases |t|
  {
    if t != [] {
      WithoutPythonNoop(t[1..]);
    }
  }

  /** A `python` entry, in any ASCII letter case, is dropped. */
  lemma WithoutPythonDrops(t: seq<(string, Value)>)
    requires |t| > 0 && IsPythonKey(t[0].0)
    ensures WithoutPython(t) == WithoutPython(t[1..])
  {
  }

  /** A value `convert_version_specifier` accepts. */
  predicate Translatable(v: Value) {
    v.Str? && Convertible(v.s)
  }

  predicate AllTranslatable(t: seq<(string, Value)>) {
    forall i :: 0 <= i < |t| ==> Translatable(t[i].1)
  }

  /** Every entry that the `python` filter keeps holds a translatable value. */
  predicate TranslatableExceptPython(t: seq<(string, Value)>) {
    forall i :: 0 <= i < |t| && !IsPythonKey(t[i].0) ==> Translatable(t[i].1)
  }

  lemma KeptAreTranslatable(t: seq<(string, Value)>)
    requires TranslatableExceptPython(t)
    ensures AllTranslatable(WithoutPython(t))
  {
    var r := WithoutPython(t);
    WithoutPythonMembers(t);
    forall i | 0 <= i < |r| ensures Translatable(r[i].1) {
      assert r[i] in t;
      var j :| 0 <= j < |t| && t[j] == r[i];
    }
  }

  /** `f"{pkg}{convert_version_specifier(ver)}"` for every entry of a table, in order. */
  function Requirements(t: seq<(string, Value)>): (r: seq<string>)
    requires AllTranslatable(t)
    ensures |r| == |t|
  {
    seq(|t|, i requires 0 <= i < |t| => t[i].0 + ConvertVersionSpecifier(t[i].1.s))
  }

  /** What `create_pip_metadata` reads from `[tool.poetry]` without raising: the four
      descriptive keys and a `dependencies` table whose non-`python` values are
      translatable specifier strings; `group`, when present, a value `"dev" in` accepts; and
      when it holds `dev`, a table whose `dev` is a table with a `dependencies` table of
      translatable strings. */
  predicate WellFormed(poetry: seq<(string, Value)>) {
    && "name" in Keys(poetry)
    && "version" in Keys(poetry)
    && "description" in Keys(poetry)
    && "authors" in Keys(poetry)
    && "dependencies" in Keys(poetry)
    && Get(poetry, "dependencies").Table?
    && TranslatableExceptPython(Get(poetry, "dependencies").entries)
    && ("group" in Keys(poetry) ==> Member("dev", Get(poetry, "group")).Some?)
    && (HasDevGroup(poetry) ==> Get(poetry, "group").Table? && DevGroupWellFormed(Get(Get(poetry, "group").entries, "dev")))
  }

  /** `"group" in poetry_metadata and "dev" in poetry_metadata["group"]`; on a string
      `group` the second test is a substring test. */
  predicate HasDevGroup(poetry: seq<(string, Value)>) {
    && "group" in Keys(poetry)
    && Member("dev", Get(poetry, "group")) == Some(true)
  }

  predicate DevGroupWellFormed(dev: Value) {
    && dev.Table?
    && "dependencies" in Keys(dev.entries)
    && Get(dev.entries, "dependencies").Table?
    && AllTranslatable(Get(dev.entries, "dependencies").entries)
  }

  /** The `group.dev.dependencies` table. */
  function DevTable(poetry: seq<(string, Value)>): (r: seq<(string, Value)>)
    requires WellFormed(poetry) && HasDevGroup(poetry)
  {
    Get(Get(Get(poetry, "group").entries, "dev").entries, "dependencies").entries
  }

  /** `get_dependencies`: the requirement strings of every dependency except `python`. */
  function GetDependencies(poetry: seq<(string, Value)>): (r: seq<string>)
    requires WellFormed(poetry)
    ensures |r| <= |Get(poetry, "dependencies").entries|
  {
    var deps := Get(poetry, "dependencies").entries;
    KeptAreTranslatable(deps);
    Requirements(WithoutPython(deps))
  }

  /** `get_dev_dependencies`: the requirement strings of the dev group, `python` included;
      empty when there is no dev group. */
  function GetDevDependencies(poetry: seq<(string, Value)>): (r: seq<string>)
    requires WellFormed(poetry)
    ensures HasDevGroup(poetry) ==> |r| == |DevTable(poetry)|
  {
    if HasDevGroup(poetry) then Requirements(DevTable(poetry)) else []
  }

  /** `get_dependencies` gives one string per non-`python` entry, in table order,
      each the name followed by its pip constraint. */
  lemma DependenciesPerEntry(poetry: seq<(string, Value)>)
    requires WellFormed(poetry)
    ensures var kept := WithoutPython(Get(poetry, "dependencies").entries);
            && AllTranslatable(kept)
            && |GetDependencies(poetry)| == |kept|
            && (forall i :: 0 <= i < |kept| ==>
                  GetDependencies(poetry)[i] == kept[i].0 + ConvertVersionSpecifier(kept[i].1.s))
            && (forall i :: 0 <= i < |kept| ==> !IsPythonKey(kept[i].0))
  {
    var kept := WithoutPython(Get(poetry, "dependencies").entries);
    KeptAreTranslatable(Get(poetry, "dependencies").entries);
    WithoutPythonMembers(Get(poetry, "dependencies").entries);
    forall i | 0 <= i < |kept| ensures !IsPythonKey(kept[i].0) {
      assert kept[i] in kept;
    }
  }

  /** Without a dev group there are no dev requirements; with one, exactly one string per
      entry of the dev table and no `python` filtering. */
  lemma DevDependenciesPerEntry(poetry: seq<(string, Value)>)
    requires WellFormed(poetry)
    ensures !HasDevGroup(poetry) ==> GetDevDependencies(poetry) == []
    ensures HasDevGroup(poetry) ==>
              && |GetDevDependencies(poetry)| == |DevTable(poetry)|
              && forall i :: 0 <= i < |DevTable(poetry)| ==>
                   GetDevDependencies(poetry)[i] == DevTable(poetry)[i].0 + ConvertVersionSpecifier(DevTable(poetry)[i].1.s)
  {
  }

  /** The fixed `[build-system]` of the pip document. */
  const PipBuildSystem: Value :=
    Table([("requires", StrArray(["setuptools", "wheel"])), ("build-backend", Str("setuptools.build_meta"))])

  /** The five entries `create_pip_metadata` always writes into `[project]`, in order. */
  function ProjectFields(name: Value, version: Value, description: Value, authors: Value, dependencies: Value)
    : (r: seq<(string, Value)>)
  {
    [("name", name), ("version", version), ("description", description), ("authors", authors),
     ("dependencies", dependencies)]
  }

  /** `if dev_dependencies: project["optional-dependencies"] = {"dev": dev_dependencies}`. */
  function WithOptional(fields: seq<(string, Value)>, devDependencies: seq<string>): (r: seq<(string, Value)>)
  {
    InsertIf(fields, "optional-dependencies", Table([("dev", StrArray(devDependencies))]), devDependencies != [])
  }

  /** Adding `optional-dependencies` appends it after the five fields, and only when
      there are dev requirements; the keys stay distinct. */
  lemma WithOptionalContents(name: Value, version: Value, description: Value, authors: Value, dependencies: Value,
                             devDependencies: seq<string>)
    ensures var fields := ProjectFields(name, version, description, authors, dependencies);
            var project := WithOptional(fields, devDependencies);
            && project == fields + (if devDependencies != [] then [("optional-dependencies", Table([("dev", StrArray(devDependencies))]))] else [])
            && UniqueKeys(project)
  {
    var fields := ProjectFields(name, version, description, authors, dependencies);
    assert Keys(fields) == ["name", "version", "description", "authors", "dependencies"];
    InsertOptional(fields, "optional-dependencies", Table([("dev", StrArray(devDependencies))]), devDependencies != []);
  }

  /** The `[project]` table of `create_pip_metadata`. */
  function PipProject(poetry: seq<(string, Value)>): (r: seq<(string, Value)>)
    requires WellFormed(poetry)
  {
    var fields := ProjectFields(Get(poetry, "name"), Get(poetry, "version"), Get(poetry, "description"),
                                Get(poetry, "authors"), StrArray(GetDependencies(poetry)));
    WithOptional(fields, GetDevDependencies(poetry))
  }

  /** `create_pip_metadata`: the `[project]` table and the setuptools `[build-system]`. */
  function CreatePipMetadata(poetry: seq<(string, Value)>): (doc: seq<(string, Value)>)
    requires WellFormed(poetry)
    ensures Keys(doc) == ["project", "build-system"]
  {
    [("project", Table(PipProject(poetry))), ("build-system", PipBuildSystem)]
  }

  /** The pip document holds the project table built from `[tool.poetry]` and the fixed
      setuptools build system. */
  lemma PipMetadataSections(poetry: seq<(string, Value)>)
    requires WellFormed(poetry)
    ensures UniqueKeys(CreatePipMetadata(poetry))
    ensures Get(CreatePipMetadata(poetry), "project") == Table(PipProject(poetry))
    ensures Get(CreatePipMetadata(poetry), "build-system") == PipBuildSystem
    ensures PipBuildSystem.entries == [("requires", StrArray(["setuptools", "wheel"])), ("build-backend", Str("setuptools.build_meta"))]
  {
    var doc := CreatePipMetadata(poetry);
    LookupAt(doc, 0);
    LookupAt(doc, 1);
  }

  /** The project table copies name, version, description and authors, holds the converted
      dependencies, and ends with `optional-dependencies` exactly when the dev list is non-empty. */
  lemma PipProjectContents(poetry: seq<(string, Value)>)
    requires WellFormed(poetry)
    ensures UniqueKeys(PipProject(poetry))
    ensures PipProject(poetry)
            == [("name", Get(poetry, "name")), ("version", Get(poetry, "version")),
                ("description", Get(poetry, "description")), ("authors", Get(poetry, "authors")),
                ("dependencies", StrArray(GetDependencies(poetry)))]
               + (if GetDevDependencies(poetry) != [] then [("optional-dependencies", Table([("dev", StrArray(GetDevDependencies(poetry)))]))]
                  else [])
  {
    WithOptionalContents(Get(poetry, "name"), Get(poetry, "version"), Get(poetry, "description"),
                         Get(poetry, "authors"), StrArray(GetDependencies(poetry)), GetDevDependencies(poetry));
  }
}
