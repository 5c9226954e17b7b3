/** The operations of Python's `str` that the two converters use, on `seq<char>`:
    `in`, `find`, `startswith`, `split`, `join`, `replace(p, "")`, `strip()`,
    `lower()`, `int()` on decimal numerals and `str()` on naturals. */
module PyStr {

  /** `p` occurs in `s` starting at index `i`. */
  predicate OccursAt(s: string, p: string, i: nat) {
    i + |p| <= |s| && s[i..i + |p|] == p
  }

  /** Python's `p in s`. */
  predicate Contains(s: string, p: string) {
    exists i: nat :: i <= |s| && OccursAt(s, p, i)
  }

  /** Python's `s.startswith(p)`. */
  predicate StartsWith(s: string, p: string) {
    OccursAt(s, p, 0)
  }

  /** Starting with a one-character string is having that character first. */
  lemma StartsWithChar(s: string, c: char)
    ensures StartsWith(s, [c]) <==> |s| > 0 && s[0] == c
  {
    if |s| > 0 {
      assert s[0..1] == [s[0]];
    }
  }

  /** The first occurrence of `p` in `s` at or after index `i`, or -1. */
  function FindFrom(s: string, p: string, i: nat): (r: int)
    ensures r == -1 || (i <= r && OccursAt(s, p, r))
    ensures forall j: nat :: i <= j && (r == -1 || j < r) ==> !OccursAt(s, p, j)
    decreases |s| - i
  {
    if i + |p| > |s| then -1
    else if OccursAt(s, p, i) then i
    else FindFrom(s, p, i + 1)
  }

  /** Python's `s.find(p)`: the index of the leftmost occurrence, or -1. */
  function Find(s: string, p: string): (r: int)
    ensures r == -1 <==> !Contains(s, p)
    ensures r >= 0 ==> OccursAt(s, p, r)
    ensures forall j: nat :: j < r ==> !OccursAt(s, p, j)
  {
    FindFrom(s, p, 0)
  }

  /** An occurrence with none before it is the one `Find` reports. */
  lemma FindAt(s: string, p: string, i: nat)
    requires OccursAt(s, p, i)
    requires forall j: nat :: j < i ==> !OccursAt(s, p, j)
    ensures Find(s, p) == i
  {
  }

  /** A two-character pattern occurs at `j` exactly when its two characters stand there. */
  lemma OccursAtPair(s: string, c: char, d: char, j: nat)
    ensures OccursAt(s, [c, d], j) <==> j + 2 <= |s| && s[j] == c && s[j + 1] == d
  {
    if j + 2 <= |s| {
      assert s[j..j + 2] == [s[j], s[j + 1]];
    }
  }

  /** A pattern one of whose characters never appears in `s` does not occur in `s`. */
  lemma AbsentChar(s: string, p: string, k: nat)
    requires k < |p| && p[k] !in s
    ensures !Contains(s, p)
  {
    forall j: nat | j <= |s| ensures !OccursAt(s, p, j) {
      if j + |p| <= |s| {
        assert s[j..j + |p|][k] == s[j + k];
      }
    }
  }

  /** An occurrence inside a slice is an occurrence in the whole string. */
  lemma OccursInSlice(s: string, lo: nat, hi: nat, p: string, j: nat)
    requires lo <= hi <= |s|
    requires OccursAt(s[lo..hi], p, j)
    ensures OccursAt(s, p, lo + j)
  {
    var inner, outer := s[lo..hi][j..j + |p|], s[lo + j..lo + j + |p|];
    forall k | 0 <= k < |p| ensures inner[k] == outer[k] {
    }
    assert inner == outer;
  }

  /** An occurrence in a slice is an occurrence in the whole. */
  lemma ContainsSlice(s: string, lo: nat, hi: nat, p: string)
    requires lo <= hi <= |s|
    requires Contains(s[lo..hi], p)
    ensures Contains(s, p)
  {
    var j: nat :| j <= |s[lo..hi]| && OccursAt(s[lo..hi], p, j);
    OccursInSlice(s, lo, hi, p, j);
  }

  /** A slice of a string free of `p` is free of `p`. */
  lemma SliceFree(s: string, lo: nat, hi: nat, p: string)
    requires lo <= hi <= |s| && !Contains(s, p)
    ensures !Contains(s[lo..hi], p)
  {
    if Contains(s[lo..hi], p) {
      ContainsSlice(s, lo, hi, p);
    }
  }

  /** The text before the first occurrence of `p` does not contain `p`. */
  lemma PrefixBeforeFind(s: string, p: string)
    requires |p| > 0 && Find(s, p) >= 0
    ensures !Contains(s[..Find(s, p)], p)
  {
    var i := Find(s, p);
    if Contains(s[..i], p) {
      var j: nat :| j <= i && OccursAt(s[..i], p, j);
      OccursInSlice(s, 0, i, p, j);
    }
  }

  /** `a + p + b` with `p` of length two and `p` not in `a`: the first `p` is the one after `a`,
      unless `p` is a doubled character that the end of `a` can start early. */
  lemma FindOperator(a: string, p: string, b: string)
    requires |p| == 2 && !Contains(a, p)
    requires |a| > 0 && p[0] == p[1] ==> a[|a| - 1] != p[0]
    ensures Find(a + p + b, p) == |a|
  {
    var s := a + p + b;
    assert p == [p[0], p[1]];
    OccursAtPair(s, p[0], p[1], |a|);
    forall j: nat | j < |a| ensures !OccursAt(s, p, j) {
      OccursAtPair(s, p[0], p[1], j);
      if j + 2 <= |a| {
        OccursAtPair(a, p[0], p[1], j);
        assert !OccursAt(a, p, j);
      }
    }
    FindAt(s, p, |a|);
  }

  /** A single separator character absent from `a`: the first one in `a + [c] + b` is at `|a|`. */
  lemma FindChar(a: string, c: char, b: string)
    requires c !in a
    ensures Find(a + [c] + b, [c]) == |a|
  {
    var s := a + [c] + b;
    forall j: nat | j < |a| ensures !OccursAt(s, [c], j) {
      assert s[j..j + 1] == [a[j]];
    }
    assert s[|a|..|a| + 1] == [c];
    FindAt(s, [c], |a|);
  }

  /** Python's `s.split(sep)` for a non-empty separator: the pieces between the
      non-overlapping occurrences of `sep`, found left to right. */
  function Split(s: string, sep: string): (parts: seq<string>)
    requires |sep| > 0
    ensures |parts| >= 1
    ensures |parts| == 1 <==> !Contains(s, sep)
    ensures !Contains(parts[0], sep)
    ensures Find(s, sep) >= 0 ==> parts[0] == s[..Find(s, sep)]
    ensures Find(s, sep) < 0 ==> parts == [s]
    decreases |s|
  {
    var i := Find(s, sep);
    if i < 0 then [s]
    else
      PrefixBeforeFind(s, sep);
      [s[..i]] + Split(s[i + |sep|..], sep)
  }

  /** Python's `sep.join(parts)`. */
  function Join(sep: string, parts: seq<string>): (r: string)
  {
    if |parts| == 0 then ""
    else if |parts| == 1 then parts[0]
    else parts[0] + sep + Join(sep, parts[1..])
  }

  /** Splitting and joining with the same separator give back the string. */
  lemma {:induction false} JoinSplit(s: string, sep: string)
    requires |sep| > 0
    ensures Join(sep, Split(s, sep)) == s
    decreases |s|
  {
    var i := Find(s, sep);
    if i >= 0 {
      var rest := s[i + |sep|..];
      SplitFound(s, sep);
      JoinSplit(rest, sep);
      JoinCons(sep, s[..i], Split(rest, sep));
      assert OccursAt(s, sep, i);
      SliceAround(s, i, i + |sep|);
    }
  }

  /** A string is its three slices around `[i, j)` put back together. */
  lemma SliceAround(s: string, i: nat, j: nat)
    requires i <= j <= |s|
    ensures s == s[..i] + s[i..j] + s[j..]
  {
  }

  /** When the separator occurs, the split is the text before it followed by the split of the rest. */
  lemma SplitFound(s: string, sep: string)
    requires |sep| > 0 && Find(s, sep) >= 0
    ensures Split(s, sep) == [s[..Find(s, sep)]] + Split(s[Find(s, sep) + |sep|..], sep)
  {
  }

  /** Joining a piece in front of at least one more. */
  lemma JoinCons(sep: string, first: string, rest: seq<string>)
    requires |rest| > 0
    ensures Join(sep, [first] + rest) == first + sep + Join(sep, rest)
  {
    assert ([first] + rest)[1..] == rest;
  }

  /** Python's `s.replace(p, "")`: every non-overlapping occurrence of `p`,
      found left to right, deleted. */
  function Remove(s: string, p: string): (r: string)
    requires |p| > 0
    ensures |r| <= |s|
    ensures forall c :: c in r ==> c in s
    decreases |s|
  {
    var i := Find(s, p);
    if i < 0 then s
    else
      var rest := Remove(s[i + |p|..], p);
      assert forall c :: c in s[..i] ==> c in s;
      assert forall c :: c in s[i + |p|..] ==> c in s;
      s[..i] + rest
  }

  /** A string without `p` is left as it is. */
  lemma RemoveAbsent(s: string, p: string)
    requires |p| > 0 && !Contains(s, p)
    ensures Remove(s, p) == s
  {
  }

  /** Deleting `p` is joining the pieces of the split on `p` with nothing between them. */
  lemma {:induction false} RemoveIsJoinOfSplit(s: string, p: string)
    requires |p| > 0
    ensures Remove(s, p) == Join("", Split(s, p))
    decreases |s|
  {
    var i := Find(s, p);
    if i >= 0 {
      var rest := s[i + |p|..];
      RemoveIsJoinOfSplit(rest, p);
      assert Split(s, p)[1..] == Split(rest, p);
    }
  }

  /** Neither half has a doubled `c` and the left half does not end in `c`:
      neither does their concatenation. */
  lemma NoPairAcross(a: string, b: string, c: char)
    requires !Contains(a, [c, c]) && !Contains(b, [c, c])
    requires |a| > 0 ==> a[|a| - 1] != c
    ensures !Contains(a + b, [c, c])
  {
    var s := a + b;
    forall j: nat | j <= |s| ensures !OccursAt(s, [c, c], j) {
      OccursAtPair(s, c, c, j);
      if j + 2 <= |a| {
        OccursAtPair(a, c, c, j);
      } else if j >= |a| {
        OccursAtPair(b, c, c, j - |a|);
      }
    }
  }

  /** Two strings free of a two-character pattern whose junction does not spell it:
      their concatenation is free of it too. */
  lemma PairFreeConcat(a: string, b: string, c: char, d: char)
    requires !Contains(a, [c, d]) && !Contains(b, [c, d])
    requires |a| > 0 && |b| > 0 ==> a[|a| - 1] != c || b[0] != d
    ensures !Contains(a + b, [c, d])
  {
    var s := a + b;
    forall j: nat | j <= |s| ensures !OccursAt(s, [c, d], j) {
      OccursAtPair(s, c, d, j);
      if j + 2 <= |a| {
        OccursAtPair(a, c, d, j);
      } else if j >= |a| {
        OccursAtPair(b, c, d, j - |a|);
      }
    }
  }

  /** Deleting a doubled character (`"=="`) leaves no doubled character behind:
      the left-to-right scan would have matched any pair that deletion brings together. */
  lemma {:induction false} RemoveLeavesNoPair(s: string, c: char)
    ensures !Contains(Remove(s, [c, c]), [c, c])
    decreases |s|
  {
    var p := [c, c];
    var i := Find(s, p);
    if i >= 0 {
      var rest := s[i + 2..];
      RemoveLeavesNoPair(rest, c);
      PrefixBeforeFind(s, p);
      if i > 0 {
        OccursAtPair(s, c, c, i - 1);
        OccursAtPair(s, c, c, i);
      }
      NoPairAcross(s[..i], Remove(rest, p), c);
    }
  }

  /** Python's `str.isspace()` on one character, restricted to ASCII:
      tab, line feed, vertical tab, form feed, carriage return, the four
      separator controls 0x1C-0x1F and space. */
  predicate IsSpace(c: char) {
    9 <= c as int <= 13 || 28 <= c as int <= 32
  }

  /** The first index at or after `i` that is not whitespace (or `|s|`). */
  function SkipSpaces(s: string, i: nat): (r: nat)
    requires i <= |s|
    ensures i <= r <= |s|
    ensures forall k :: i <= k < r ==> IsSpace(s[k])
    ensures r < |s| ==> !IsSpace(s[r])
    decreases |s| - i
  {
    if i < |s| && IsSpace(s[i]) then SkipSpaces(s, i + 1) else i
  }

  /** The end of `s[lo..j]` once trailing whitespace is cut off. */
  function TrimEnd(s: string, lo: nat, j: nat): (r: nat)
    requires lo <= j <= |s|
    ensures lo <= r <= j
    ensures forall k :: r <= k < j ==> IsSpace(s[k])
    ensures r > lo ==> !IsSpace(s[r - 1])
    decreases j
  {
    if j > lo && IsSpace(s[j - 1]) then TrimEnd(s, lo, j - 1) else j
  }

  /** Python's `s.strip()`: the longest slice without leading or trailing whitespace. */
  function Strip(s: string): (r: string)
    ensures |r| > 0 ==> !IsSpace(r[0]) && !IsSpace(r[|r| - 1])
    ensures r == "" <==> forall k :: 0 <= k < |s| ==> IsSpace(s[k])
    ensures forall p :: Contains(r, p) ==> Contains(s, p)
    ensures forall c :: c in r ==> c in s
    ensures |s| == 0 || (!IsSpace(s[0]) && !IsSpace(s[|s| - 1])) ==> r == s
    ensures exists lo: nat, hi: nat :: lo <= hi <= |s| && r == s[lo..hi]
              && (forall k :: 0 <= k < lo ==> IsSpace(s[k])) && (forall k :: hi <= k < |s| ==> IsSpace(s[k]))
  {
    var lo := SkipSpaces(s, 0);
    var hi := TrimEnd(s, lo, |s|);
    forall p | Contains(s[lo..hi], p) ensures Contains(s, p) {
      ContainsSlice(s, lo, hi, p);
    }
    assert forall c :: c in s[lo..hi] ==> c in s;
    s[lo..hi]
  }

  /** ASCII case folding of one character, as Python's `lower()` does for ASCII. */
  function LowerChar(c: char): (r: char) {
    if 'A' <= c <= 'Z' then (c as int + 32) as char else c
  }

  /** Python's `s.lower()`, restricted to ASCII letters. */
  function Lower(s: string): (r: string)
    ensures |r| == |s| && forall i :: 0 <= i < |s| ==> r[i] == LowerChar(s[i])
  {
    seq(|s|, i requires 0 <= i < |s| => LowerChar(s[i]))
  }

  predicate IsDigit(c: char) {
    '0' <= c <= '9'
  }

  predicate AllDigits(s: string) {
    forall i :: 0 <= i < |s| ==> IsDigit(s[i])
  }

  /** A non-empty string of ASCII decimal digits: what `int()` accepts here. */
  predicate IsNumeral(s: string) {
    |s| > 0 && AllDigits(s)
  }

  /** Python's `int(s)` on a string of ASCII digits (leading zeros allowed). */
  function ParseNat(s: string): (r: nat)
    requires AllDigits(s)
    decreases |s|
  {
    if |s| == 0 then 0
    else 10 * ParseNat(s[..|s| - 1]) + (s[|s| - 1] as int - '0' as int)
  }

  /** The digit character for `d`. */
  function Digit(d: nat): (c: char)
    requires d < 10
    ensures IsDigit(c) && c as int - '0' as int == d
  {
    ('0' as int + d) as char
  }

  /** Python's `str(n)` for a natural number: its decimal digits without leading zeros. */
  function NatToString(n: nat): (r: string)
    ensures IsNumeral(r)
    ensures n > 0 ==> r[0] != '0'
    decreases n
  {
    if n < 10 then [Digit(n)] else NatToString(n / 10) + [Digit(n % 10)]
  }

  /** `int(str(n)) == n`. */
  lemma {:induction false} ParseNatToString(n: nat)
    ensures ParseNat(NatToString(n)) == n
    decreases n
  {
    if n >= 10 {
      ParseNatToString(n / 10);
      var s := NatToString(n);
      assert s[..|s| - 1] == NatToString(n / 10);
    }
  }
}
