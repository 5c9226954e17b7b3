# pyprojectconverter, modelled in Dafny

pyprojectconverter rewrites a `pyproject.toml` in one of two directions.

- **Poetry to pip** (`poetry_to_pip.py`) reads `[tool.poetry]` and writes a PEP 621 `[project]` table.
  - Each Poetry constraint becomes a pip specifier: `*` becomes nothing, `^V` becomes `>=V,<(M+1).0.0` and `~M.N` becomes `>=M.N,<M.(N+1).0`.
  - The `python` pseudo-dependency is dropped.
  - The dev group becomes `optional-dependencies.dev`.
- **pip to Poetry** (`src/pyprojectconverter/pip_to_poetry.py`) reads `[project]` and writes `[tool.poetry]`.
  - Each requirement string is split into a name and a constraint, and the constraint is converted back.
  - `python = "^3.11"` is put in front of the dependencies.
  - The setuptools package-discovery directory becomes a Poetry `packages` entry.
  - Every other `[tool.*]` section is copied through, except `setuptools`.

The model has six modules.

- `PyStr` (`pystr.dfy`): the Python `str` operations the converters use. These are `find`, `in`, `startswith`, `split`, `join`, `replace(p, "")`, `strip`, `lower`, `int` and `str`.
- `OrderedDict` (`ordered_dict.dfy`): Python's insertion-ordered `dict` as a sequence of pairs.
  - Assigning to a present key overwrites it where it stands; assigning to a new key appends it.
  - `dict(pairs)` and `{**d}` are a left fold of that assignment.
- `Toml` (`toml.dfy`): parsed TOML values. A value is a string, an array, a table of ordered pairs, or an opaque scalar.
- `PoetryToPip` (`poetry_to_pip.dfy`): the Poetry-to-pip direction. All of it is pure functions, as in the source.
- `PipToPoetry` (`pip_to_poetry.dfy`): the pip-to-Poetry direction.
  - `convert_version` and `get_packages` are functions.
  - The two dependency collectors and `create_poetry_metadata` are methods. Their loops fill ordered dicts, and each method is proved equal to a specification function.
- `RoundTrip` (`round_trip.dfy`): what happens to a constraint that goes to pip and comes back.

The source raises on some inputs: `int()` of a non-numeral, too few values to unpack, a missing required key, or a value whose TOML type does not support the operation applied to it. Each of these is a precondition of the model.

A value of an unexpected type is modelled, not excluded, wherever Python's `in`, `for` and indexing accept it (`Toml.Member`, `Toml.Iterate`):

- a string `group` in `[tool.poetry]` gets a substring test, so without `dev` in it there are no dev requirements;
- a list or string `optional-dependencies` gets a membership test, so without `dev` there are no dev dependencies;
- a string `dependencies` list in `[project]` is iterated character by character, and a table by its keys;
- a list or string `setuptools` or `packages` gets a membership test, so without `packages` or `find` there are no packages;
- a string `where` gives its first character as `from`.

Where the converters' documentation and their code disagree, the model follows the code:

- The pip-to-Poetry dependency reader splits each requirement on `>=` before it calls `convert_version`, so the operator is gone by then.
  - `numpy>=1.20.0,<2.0.0` is therefore read as `numpy = "1.20.0,<2.0.0"`, not `^1.20.0`.
  - The caret rule of `convert_version` only fires when the function is called directly.
  - `PipToPoetry.NumpyExample` and `RoundTrip.CaretDependencyLosesCaret` state this.
- The documentation says the pip-to-Poetry reader looks for `==` before `>=`. The code tests for `>=` first (`pip_to_poetry.py:37`), so `a==1>=0` is read as the name `a==1` with the constraint `0`. `PipToPoetry.EntryParts` follows the code.
- A bare Poetry version such as `requests = "2.31.0"` passes through the specifier conversion unchanged. It is then concatenated to the name as `requests2.31.0`, with no operator.
- A caret constraint whose major component is not a numeral has no translation: the source raises.
- A tilde constraint with fewer than two dot components has no translation either.
- The documentation says that unrelated `[tool.*]` sections are copied through in both directions. `create_pip_metadata` (`poetry_to_pip.py:55-77`) builds a document holding only `project` and `build-system`, so the Poetry-to-pip direction copies no other section. Only `create_poetry_metadata` copies tool sections.

## Model

| member | source | states |
|---|---|---|
| PoetryToPip.ConvertVersionSpecifier | poetry_to_pip.py:16-33 | `convert_version_specifier`; its own contract: the pip specifier is empty iff the Poetry constraint is `*` (or already empty). The caret, tilde and pass-through branches are stated by `CaretRange`, `TildeRange` and `SpecifierPassThrough` |
| PoetryToPip.CaretRange | poetry_to_pip.py:23-27 | `^V` becomes `>=V,<N.0.0` where N is a numeral whose value is one more than V's major component |
| PoetryToPip.CaretOf | poetry_to_pip.py:23-27 | for `^M.REST` with a numeral M: the constraint is accepted and becomes `>=M.REST,<str(M+1).0.0` |
| PoetryToPip.CaretExample | poetry_to_pip.py:19-27 | `^1.2.3` becomes `>=1.2.3,<2.0.0` |
| PoetryToPip.NextMinor | poetry_to_pip.py:31 | `next_minor` is a numeral: one more than a non-empty minor, `0` for an empty one |
| PoetryToPip.TildeRange | poetry_to_pip.py:28-32 | `~V` with at least two dot components M, N becomes `>=V,<M.N'.0`; N' is the number after N, or `0` when N is empty |
| PoetryToPip.TildeOf | poetry_to_pip.py:28-32 | for `~M.N`: the constraint is accepted and becomes `>=M.N,<M.str(N+1).0`, or `>=M.,<M.0.0` for an empty N |
| PoetryToPip.TildeExample | poetry_to_pip.py:28-32 | `~1.2` becomes `>=1.2,<1.3.0` |
| PoetryToPip.SpecifierPassThrough | poetry_to_pip.py:33 | anything that is not `*` and does not start with `^` or `~` is accepted and returned unchanged |
| PoetryToPip.WithoutPython | poetry_to_pip.py:40-41 | the `python` filter; its own contract: no longer than the table. Which entries are kept is stated by `WithoutPythonMembers`, and that order is kept by `WithoutPythonAppend` |
| PoetryToPip.WithoutPythonMembers | poetry_to_pip.py:41 | the filtered table holds exactly the entries whose key, lower-cased, is not `python` |
| PoetryToPip.WithoutPythonAppend | poetry_to_pip.py:40-41 | filtering a concatenation filters each part, so table order is kept |
| PoetryToPip.WithoutPythonNoop | poetry_to_pip.py:41 | a table with no `python` key, in any letter case, is not changed by the filter |
| PoetryToPip.WithoutPythonDrops | poetry_to_pip.py:41 | a leading `python`, `Python`, ... entry is dropped |
| PoetryToPip.KeptAreTranslatable | poetry_to_pip.py:39-41 | every entry kept by the filter has a constraint that converts without raising |
| PoetryToPip.GetDependencies | poetry_to_pip.py:36-42 | `get_dependencies`; its own contract: at most one requirement per table entry. `DependenciesPerEntry` states each requirement |
| PoetryToPip.GetDevDependencies | poetry_to_pip.py:45-52 | `get_dev_dependencies`; its own contract: one requirement per dev entry when there is a dev group. `DevDependenciesPerEntry` states each requirement and the empty case |
| PoetryToPip.DependenciesPerEntry | poetry_to_pip.py:36-42 | one requirement per non-`python` dependency, in table order, each name + converted constraint, and no kept key is `python` |
| PoetryToPip.DevDependenciesPerEntry | poetry_to_pip.py:45-52 | no dev group gives `[]`; otherwise one requirement per dev entry, in order, with no `python` filtering |
| PoetryToPip.WithOptionalContents | poetry_to_pip.py:74-75 | `optional-dependencies` = `{dev: list}` is appended after the five fields exactly when the dev list is non-empty; keys stay distinct |
| PoetryToPip.CreatePipMetadata | poetry_to_pip.py:60-72 | the pip document has exactly the sections `project` and `build-system`, in that order |
| PoetryToPip.PipMetadataSections | poetry_to_pip.py:60-72 | `project` is the built project table and `build-system` requires `setuptools`, `wheel` with backend `setuptools.build_meta` |
| PoetryToPip.PipProjectContents | poetry_to_pip.py:60-77 | the project table is name, version, description, authors copied, the converted dependency list, then `optional-dependencies` iff there are dev requirements |
| PipToPoetry.ConvertVersion | src/pyprojectconverter/pip_to_poetry.py:13-30 | `convert_version`; its own contract: a pinned constraint comes out with no `==` left. The four branches are stated by `ConvertVersionUnconstrained`, `ConvertVersionPinned`, `ConvertVersionCaret` and `ConvertVersionPassThrough` |
| PipToPoetry.ConvertVersionUnconstrained | src/pyprojectconverter/pip_to_poetry.py:20-21 | `""` and `*` both become `*` |
| PipToPoetry.ConvertVersionPinned | src/pyprojectconverter/pip_to_poetry.py:23-24 | a constraint containing `==` loses every `==`; the result is the pieces between them joined, and holds no `==` |
| PipToPoetry.ConvertVersionCaret | src/pyprojectconverter/pip_to_poetry.py:26-28 | with `>=` and `<` and no `==`: `^` followed by the text before the first comma with `>=` deleted; the result has no comma |
| PipToPoetry.ConvertVersionPassThrough | src/pyprojectconverter/pip_to_poetry.py:30 | any other constraint is returned unchanged |
| PipToPoetry.EntryParts | src/pyprojectconverter/pip_to_poetry.py:37 | a requirement always splits into at least the name part; the name part never holds `>=`, and holds no `==` when the split was on `==` |
| PipToPoetry.ParseEntry | src/pyprojectconverter/pip_to_poetry.py:37-38 | the name and constraint one requirement assigns; its own contract: the stripped name holds no `>=`, and no `==` when the requirement has no `>=`. `EntryUnconstrained`, `EntryPinned` and `EntryLowerBound` state the constraint |
| PipToPoetry.EntryUnconstrained | src/pyprojectconverter/pip_to_poetry.py:37-38 | a requirement with neither `>=` nor `==` maps its stripped text to `*` |
| PipToPoetry.EntryPinned | src/pyprojectconverter/pip_to_poetry.py:37-38 | `name==V` maps the stripped name to `V.strip()`, or to `*` when V is blank, for every V without `>=` or `==` (markers, `!=`, `<` and commas included) and every name without either operator that does not end in `>` or `=` |
| PipToPoetry.PinnedExclusionExample | src/pyprojectconverter/pip_to_poetry.py:37-38 | `pkg==1.0,!=1.5` maps `pkg` to `1.0,!=1.5` |
| PipToPoetry.EntryLowerBound | src/pyprojectconverter/pip_to_poetry.py:37-38 | `name>=REST` with no further `>=` or `==` maps the stripped name to `REST.strip()` (or `*`): the caret rule never fires |
| PipToPoetry.NumpyExample | src/pyprojectconverter/pip_to_poetry.py:36-38 | `numpy>=1.20.0,<2.0.0` maps `numpy` to `1.20.0,<2.0.0` |
| PipToPoetry.CollectEntries | src/pyprojectconverter/pip_to_poetry.py:35-39 | the loop leaves the dict that assigning each parsed requirement in turn builds, `dict(pairs)` (`FromPairsDict` states what that dict holds) |
| PipToPoetry.GetDependencies | src/pyprojectconverter/pip_to_poetry.py:33-39 | the dict for `dependencies`, which defaults to an empty list: each name is a key once, keys in order of first appearance, the last requirement for a name wins |
| PipToPoetry.GetDevDependencies | src/pyprojectconverter/pip_to_poetry.py:42-50 | the same for `optional_deps["dev"]`; empty unless `optional-dependencies` holds `dev` (a key of a table, an element of a list, a substring of a string) |
| PipToPoetry.GetPackages | src/pyprojectconverter/pip_to_poetry.py:53-59 | at most one entry; one exactly when `setuptools` holds `packages` and that holds `find`, and it is built from `where[0]`: the first directory of a list, the first character of a string |
| PipToPoetry.PackageEntryContents | src/pyprojectconverter/pip_to_poetry.py:58 | the package entry has exactly the keys `include` = `docktuna` and `from` = the directory |
| PipToPoetry.WithPython | src/pyprojectconverter/pip_to_poetry.py:85 | `{"python": "^3.11", **dependencies}`; its own contract: keys distinct and `python` first. `PythonFirst` states the values |
| PipToPoetry.PythonFirst | src/pyprojectconverter/pip_to_poetry.py:85 | the keys are the distinct keys of `python` followed by the pip keys, in order of first appearance, so `python` is first, with `^3.11` unless the pip list defines `python`; all other keys keep their constraint; keys stay distinct |
| PipToPoetry.PoetryFieldsKeys | src/pyprojectconverter/pip_to_poetry.py:80-85 | the fixed keys are name, version, description, authors, license, dependencies, distinct and in that order |
| PipToPoetry.WithOptionalKeysContents | src/pyprojectconverter/pip_to_poetry.py:87-94 | `group` is appended exactly when there are dev dependencies, then `packages` exactly when packages were found; keys stay distinct |
| PipToPoetry.SectionOf | src/pyprojectconverter/pip_to_poetry.py:77-94 | for any field values, the six fixed keys in display order followed by the optional `group` and `packages`, all distinct |
| PipToPoetry.PoetrySectionContents | src/pyprojectconverter/pip_to_poetry.py:77-94 | `tool.poetry` copies name, version, description, authors, has `license` (default `""`) and the dependency table, then the optional `group` and `packages` |
| PipToPoetry.DevGroupPresence | src/pyprojectconverter/pip_to_poetry.py:88-91 | the dev dependency dict is non-empty iff the pip dev list is non-empty, so `group` appears iff there are dev requirements |
| PipToPoetry.CopyTools | src/pyprojectconverter/pip_to_poetry.py:102-104 | the tool-copy fold; its own contract: it never introduces a `setuptools` key. `CopyToolsContents` states the whole result |
| PipToPoetry.CopyToolSections | src/pyprojectconverter/pip_to_poetry.py:102-104 | the copy loop assigns every source tool section except `setuptools` into `tool`, in order |
| PipToPoetry.CopyToolsContents | src/pyprojectconverter/pip_to_poetry.py:102-104 | after copying, the keys already present stay in front and the source keys other than `setuptools` are added with their source values; keys stay distinct |
| PipToPoetry.ToolTableOf | src/pyprojectconverter/pip_to_poetry.py:102-104 | the `tool` table starts with `poetry`, never holds `setuptools`, holds exactly `poetry` and the copied keys, and a source `poetry` section replaces the built one |
| PipToPoetry.ToolTableContents | src/pyprojectconverter/pip_to_poetry.py:75-104 | the same for the `tool` table of the Poetry document |
| PipToPoetry.DocumentOfReplace | src/pyprojectconverter/pip_to_poetry.py:104 | assigning into `poetry_metadata["tool"]` replaces the tool table where it stands |
| PipToPoetry.CreatePoetryMetadata | src/pyprojectconverter/pip_to_poetry.py:71-106 | the method's document equals the specified Poetry document |
| PipToPoetry.PoetryDocumentSections | src/pyprojectconverter/pip_to_poetry.py:75-99 | the Poetry document is `tool` then `build-system`, which requires `poetry-core` with backend `poetry.core.masonry.api` |
| PipToPoetry.DocumentOfSections | src/pyprojectconverter/pip_to_poetry.py:75-99 | the same for any tool table |
| RoundTrip.RangeToCaret | src/pyprojectconverter/pip_to_poetry.py:26-28 | `convert_version(">=V,<B")` is `^V` when V has no `,` or `=` and B has no `=` |
| RoundTrip.CaretRoundTrip | src/pyprojectconverter/pip_to_poetry.py:26-28 | a caret constraint with no `,` or `=` comes back unchanged from `convert_version(convert_version_specifier(c))` |
| RoundTrip.CaretRoundTripExample | src/pyprojectconverter/pip_to_poetry.py:26-28 | `^1.2.3` goes to pip and comes back as `^1.2.3` |
| RoundTrip.TildeReturnsAsCaret | src/pyprojectconverter/pip_to_poetry.py:26-28 | a tilde constraint on a version without `,` or `=` comes back as a caret on the same version |
| RoundTrip.LowerBoundEntry | src/pyprojectconverter/pip_to_poetry.py:37-38 | `pkg>=REST`, with `pkg` free of `>=` and REST free of `=` and of edge whitespace, is read back as the stripped `pkg` with constraint REST |
| RoundTrip.CaretDependencyLosesCaret | src/pyprojectconverter/pip_to_poetry.py:37-38 | for a caret version without `=` and a name without `>=`, the pip requirement is read back as the stripped name with the requirement's text after `>=` as its constraint, not as the caret |
| PyStr.Split | src/pyprojectconverter/pip_to_poetry.py:37 | `str.split`: at least one piece, one piece iff the separator is absent, and the first piece is the text before the first separator |
| PyStr.JoinSplit | src/pyprojectconverter/pip_to_poetry.py:38 | joining the pieces of a split with the separator gives the string back |
| PyStr.RemoveIsJoinOfSplit | src/pyprojectconverter/pip_to_poetry.py:24 | `replace(p, "")` is the pieces of `split(p)` joined with nothing |
| PyStr.RemoveLeavesNoPair | src/pyprojectconverter/pip_to_poetry.py:24 | after deleting every doubled character, none is left |
| PyStr.Strip | src/pyprojectconverter/pip_to_poetry.py:38 | `str.strip`: a slice of `s` with only whitespace before and after it and no whitespace at either of its ends (which determines it), empty iff `s` is all whitespace |
| PyStr.NatToString | poetry_to_pip.py:26 | `str(n)` is a decimal numeral without a leading zero |
| PyStr.ParseNatToString | poetry_to_pip.py:26 | `int(str(n)) == n` |
| OrderedDict.Insert | src/pyprojectconverter/pip_to_poetry.py:38 | `d[k] = v`: overwrites in place or appends, sets k to v, leaves other keys alone and keeps keys distinct |
| OrderedDict.FromPairsDict | src/pyprojectconverter/pip_to_poetry.py:38 | `dict(pairs)` has each key once, its keys are the distinct keys of the pairs in order of first appearance, and the last pair for a key wins |
| OrderedDict.FromPairsKeys | src/pyprojectconverter/pip_to_poetry.py:38 | the keys of `dict(pairs)` are the distinct keys of the pairs, in order of first appearance |
| OrderedDict.FromPairsLookup | src/pyprojectconverter/pip_to_poetry.py:38 | in `dict(pairs)` the last pair for a key wins |
| Toml.Member | src/pyprojectconverter/pip_to_poetry.py:46 | Python's `key in v`: defined on strings, arrays and tables, and raising exactly on the other scalars |
| Toml.Iterate | src/pyprojectconverter/pip_to_poetry.py:36 | Python's `for x in v`: defined exactly on strings, arrays and tables; a string or a table yields only strings |
| Toml.GetOr | src/pyprojectconverter/pip_to_poetry.py:36 | `t.get(k, default)` is `t[k]` when k is present and the default otherwise |

## Left out

- `main` and argument parsing in both scripts, and the success message, are not modelled. They are command-line plumbing.
- Reading and writing TOML files is not modelled. This covers `get_toml_doc`, `write_to_pyproject_toml` and the `toml_utils` helpers. The model starts from parsed documents and ends with documents.
- `get_poetry_metadata` in `poetry_to_pip.py` is not modelled; it is a single lookup. The model takes the `[tool.poetry]` table directly.
- tomlkit formatting (multi-line arrays, document objects) and `toml_utils.format_list_multiline` are not modelled. `toml_utils` is not part of this model, and `requires` is a plain list.
- `old_pip_to_poetry.py` is not modelled. It is a script that runs at import time, and its rule is a subset of `convert_version`.
- `int()` is modelled on ASCII digit strings only. Signs, spaces and underscores, which Python also accepts, are crashes in the model.
- `strip()` and `lower()` are ASCII only. Unicode whitespace and Unicode case folding are not modelled.
- Integers, booleans, dates and other TOML scalars are opaque values. The converters only copy them.
- A table is a sequence of pairs and could in principle hold a key twice; parsed TOML never does. `PipToPoetry.ToolTableContents` requires the source `tool` table to have distinct keys.
- A `tool` value in the pip document that is not a table is excluded by `PackagesWellFormed`. The source survives an empty string or array there, which it only tests and iterates, and an array of small integers, which `tool[tool_key]` then indexes by position; other non-table values make it raise.
- `PoetryToPip.DependenciesPerEntry`: states the requirement strings, not that pip could parse them. For example, a bare version gives `requests2.31.0`.
- `RoundTrip.CaretRoundTrip`: holds for versions without `,` or `=`. Those characters shift the comma split or trigger the `==` rule.
- `RoundTrip.TildeReturnsAsCaret`: holds for versions without `,` or `=`, for the same reason: `~1,2.3` becomes `>=1,2.3,<1,2.4.0`, which is read back as `^1`.
- `RoundTrip.CaretDependencyLosesCaret`: holds for versions without `=` and names without `>=`. A `=` in the version triggers the `==` rule, so `^1.0==2` is read back differently; a `>=` in the name moves the split.
