/** The two converters composed: what a Poetry constraint looks like after a trip to pip
    and back. */
module RoundTrip {
  import opened PyStr
  import PoetryToPip
  import PipToPoetry

  /** `>=` followed by text free of `=` holds no `==`. */
  lemma NoDoubleEquals(rest: string)
    requires '=' !in rest
    ensures !Contains(">=" + rest, "==")
  {
    var s := ">=" + rest;
    forall j: nat | j <= |s| ensures !OccursAt(s, "==", j) {
      OccursAtPair(s, '=', '=', j);
      if 0 < j && j + 2 <= |s| {
        assert s[j + 1] == rest[j - 1];
      }
    }
  }

  /** `convert_version(">=V,<B") == "^V"` for a version `V` free of `,` and `=`
      and an upper bound `B` free of `=`. */
  lemma RangeToCaret(v: string, bound: string)
    requires ',' !in v && '=' !in v && '=' !in bound
    ensures PipToPoetry.ConvertVersion(">=" + v + ",<" + bound) == "^" + v
  {
    var lower := ">=" + v;
    var upper := "<" + bound;
    var s := ">=" + v + ",<" + bound;
    assert s == lower + [','] + upper;
    assert s == ">=" + (v + ",<" + bound);
    FindChar(lower, ',', upper);
    assert s[..|lower|] == lower;
    NoDoubleEquals(v + ",<" + bound);
    assert OccursAt(s, ">=", 0);
    assert OccursAt(s, "<", |lower| + 1);
    assert Remove(lower, ">=") == v by {
      assert OccursAt(lower, ">=", 0);
      FindAt(lower, ">=", 0);
      assert lower[2..] == v;
      AbsentChar(v, ">=", 1);
      RemoveAbsent(v, ">=");
    }
  }

  /** Digits hold no `=`. */
  lemma NumeralHasNoEquals(n: string)
    requires IsNumeral(n)
    ensures '=' !in n
  {
  }

  /** The text of a bound `N.0.0`, grouped as the range is built. */
  lemma CaretBoundText(v: string, next: string)
    ensures ">=" + v + ",<" + next + ".0.0" == ">=" + v + ",<" + (next + ".0.0")
  {
  }

  /** A caret constraint sent to pip and brought back by `convert_version` is the
      constraint it started from, when its version holds no `,` and no `=`. */
  lemma CaretRoundTrip(version: string)
    requires PoetryToPip.Lead(version, '^') && PoetryToPip.Convertible(version)
    requires ',' !in version && '=' !in version
    ensures PipToPoetry.ConvertVersion(PoetryToPip.ConvertVersionSpecifier(version)) == version
  {
    var v := version[1..];
    var next := NatToString(ParseNat(Split(v, ".")[0]) + 1);
    PoetryToPip.CaretRange(version);
    NumeralHasNoEquals(next);
    CaretBoundText(v, next);
    RangeToCaret(v, next + ".0.0");
    assert version == "^" + v;
  }

  /** `^1.2.3` goes to `>=1.2.3,<2.0.0` and comes back. */
  lemma CaretRoundTripExample(version: string)
    requires version == "^1.2.3"
    ensures PoetryToPip.Convertible(version)
    ensures PipToPoetry.ConvertVersion(PoetryToPip.ConvertVersionSpecifier(version)) == "^1.2.3"
  {
    PoetryToPip.CaretExample(version);
    CaretRoundTrip(version);
  }

  /** The text of a bound `M.N.0`, grouped as the range is built. */
  lemma TildeBoundText(v: string, major: string, nextMinor: string)
    ensures ">=" + v + ",<" + major + "." + nextMinor + ".0" == ">=" + v + ",<" + (major + "." + nextMinor + ".0")
  {
  }

  /** The first piece of a split holds only characters of the whole. */
  lemma SplitHeadChars(s: string, sep: string, c: char)
    requires |sep| > 0 && c !in s
    ensures c !in Split(s, sep)[0]
  {
    if Find(s, sep) >= 0 {
      assert forall x :: x in s[..Find(s, sep)] ==> x in s;
    }
  }

  /** A tilde constraint does not survive the trip: it comes back as a caret on the same
      version, which allows the next minor versions the tilde excluded. */
  lemma TildeReturnsAsCaret(version: string)
    requires PoetryToPip.Lead(version, '~') && PoetryToPip.Convertible(version)
    requires ',' !in version && '=' !in version
    ensures PipToPoetry.ConvertVersion(PoetryToPip.ConvertVersionSpecifier(version)) == "^" + version[1..]
  {
    var v := version[1..];
    var parts := Split(v, ".");
    PoetryToPip.TildeRange(version);
    var nextMinor := PoetryToPip.NextMinor(parts[1]);
    assert '=' !in v;
    SplitHeadChars(v, ".", '=');
    NumeralHasNoEquals(nextMinor);
    TildeBoundText(v, parts[0], nextMinor);
    RangeToCaret(v, parts[0] + "." + nextMinor + ".0");
  }

  /** The two halves of a concatenation. */
  lemma ConcatSlices(a: string, b: string)
    ensures (a + b)[..|a|] == a && (a + b)[|a|..] == b
  {
  }

  /** Regrouping a concatenation of three strings. */
  lemma ConcatAssoc(a: string, b: string, c: string)
    ensures a + (b + c) == a + b + c
  {
  }

  /** `pkg>=REST` with `REST` free of `=` and of edge whitespace is read back as `pkg`
      with the constraint `REST`. */
  lemma LowerBoundEntry(pkg: string, rest: string, dep: string)
    requires !Contains(pkg, ">=") && '=' !in rest
    requires |rest| > 0 && !IsSpace(rest[0]) && !IsSpace(rest[|rest| - 1])
    requires dep == pkg + ">=" + rest
    ensures PipToPoetry.ParseEntry(dep) == (Strip(pkg), rest)
  {
    AbsentChar(rest, ">=", 1);
    AbsentChar(rest, "==", 0);
    PipToPoetry.EntryLowerBound(pkg, rest);
  }

  /** At list level the caret is lost: the requirement `pkg>=V,<N.0.0` that a caret
      dependency becomes is read back by `get_dependencies` as `pkg` with the constraint
      `V,<N.0.0`, the requirement's own text after `>=`, since the split on `>=` removes
      the operator before `convert_version` could see it. */
  lemma CaretDependencyLosesCaret(pkg: string, version: string)
    requires PoetryToPip.Lead(version, '^') && PoetryToPip.Convertible(version)
    requires '=' !in version && !Contains(pkg, ">=")
    ensures var req := PoetryToPip.ConvertVersionSpecifier(version);
            && |req| >= 2 && req[..2] == ">="
            && PipToPoetry.ParseEntry(pkg + req) == (Strip(pkg), req[2..])
  {
    var v := version[1..];
    var major := Split(v, ".")[0];
    PoetryToPip.CaretRange(version);
    assert v[0] == major[0] by {
      if Find(v, ".") >= 0 {
        assert major == v[..Find(v, ".")];
      }
    }
    RangeRequirementEntry(pkg, v, NatToString(ParseNat(major) + 1), PoetryToPip.ConvertVersionSpecifier(version));
  }

  /** A requirement `pkg>=V,<N.0.0` built from a version that starts with a digit is read
      back as `pkg` with the text after `>=`. */
  lemma RangeRequirementEntry(pkg: string, v: string, next: string, req: string)
    requires !Contains(pkg, ">=") && |v| > 0 && IsDigit(v[0]) && '=' !in v && IsNumeral(next)
    requires req == ">=" + v + ",<" + next + ".0.0"
    ensures |req| >= 2 && req[..2] == ">="
    ensures PipToPoetry.ParseEntry(pkg + req) == (Strip(pkg), req[2..])
  {
    var rest := v + ",<" + next + ".0.0";
    NumeralHasNoEquals(next);
    CaretRest(v, next);
    CaretBoundText(v, next);
    ConcatAssoc(">=", v, ",<" + next + ".0.0");
    ConcatAssoc(v, ",<", next + ".0.0");
    ConcatAssoc(v + ",<", next, ".0.0");
    assert req == ">=" + rest;
    ConcatSlices(">=", rest);
    ConcatAssoc(pkg, ">=", rest);
    LowerBoundEntry(pkg, rest, pkg + req);
  }

  /** `V,<N.0.0` for a version starting with a digit holds no `=` and no edge whitespace. */
  lemma CaretRest(v: string, next: string)
    requires |v| > 0 && IsDigit(v[0]) && '=' !in v && '=' !in next
    ensures var rest := v + ",<" + next + ".0.0";
            && '=' !in rest && |rest| > 0 && !IsSpace(rest[0]) && !IsSpace(rest[|rest| - 1])
  {
  }
}
