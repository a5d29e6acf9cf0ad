/**
 * The pure helpers of main/updater.py: reading a release version as a tuple of numbers,
 * comparing two versions, and picking the installer asset of a release. The network,
 * download and installer steps are not part of this model; the platform's suffix list
 * is a parameter instead of being read from `sys.platform`.
 */
module Updater {
  import opened Wrappers
  import Text

  /** A version as `_normalize_version` returns it: a tuple of non-negative integers. */
  type Version = seq<nat>

  /** `lstrip("vV")`: drop every leading `v` and `V`. */
  function StripV(s: string): (r: string)
    ensures |r| <= |s| && r == s[|s| - |r|..]
    ensures r == [] || (r[0] != 'v' && r[0] != 'V')
    ensures forall i :: 0 <= i < |s| - |r| ==> s[i] == 'v' || s[i] == 'V'
  {
    if |s| > 0 && (s[0] == 'v' || s[0] == 'V') then StripV(s[1..]) else s
  }

  /** `value.strip().lstrip("vV")`. */
  function Cleaned(value: string): string
  {
    StripV(Text.Strip(value))
  }

  /** The separators of the pattern `[._-]`. */
  predicate IsSeparator(c: char)
  {
    c == '.' || c == '_' || c == '-'
  }

  /** The position of the first separator, or `|s|` when there is none. */
  function SeparatorAt(s: string): (k: nat)
    ensures k <= |s|
    ensures k < |s| ==> IsSeparator(s[k])
    ensures forall i :: 0 <= i < k ==> !IsSeparator(s[i])
  {
    if s == [] then 0 else if IsSeparator(s[0]) then 0 else 1 + SeparatorAt(s[1..])
  }

  /** `re.split(r"[._-]", s)`: the pieces between separators, empty pieces included. */
  function Split(s: string): (parts: seq<string>)
    ensures |parts| >= 1
    decreases |s|
  {
    var k := SeparatorAt(s);
    if k == |s| then [s] else [s[..k]] + Split(s[k + 1..])
  }

  /** The loop of `_normalize_version`: keep, in order, the value of every part that is all digits. */
  function DigitParts(parts: seq<string>): Version
  {
    if parts == [] then []
    else
      var rest := DigitParts(parts[1..]);
      if Text.IsDigits(parts[0]) then [Text.DigitsValue(parts[0])] + rest else rest
  }

  /** `_normalize_version`. */
  function VersionOf(value: string): Version
  {
    VersionOfCleaned(Cleaned(value))
  }

  /** `_normalize_version` after the stripping: the empty tuple when nothing is left. */
  function VersionOfCleaned(cleaned: string): Version
  {
    if cleaned == [] then [] else DigitParts(Split(cleaned))
  }

  /** `_normalize_version` as the source writes it: strip, split, then keep the digit parts. */
  method NormalizeVersion(value: string) returns (normalized: Version)
    ensures normalized == VersionOf(value)
  {
    var cleaned := Cleaned(value);
    if cleaned == [] {
      return [];
    }
    normalized := KeepDigitParts(Split(cleaned));
  }

  /** The loop of `_normalize_version`: append the value of every all-digit part, in order. */
  method KeepDigitParts(parts: seq<string>) returns (normalized: Version)
    ensures normalized == DigitParts(parts)
  {
    normalized := [];
    var i := 0;
    while i < |parts|
      invariant 0 <= i <= |parts|
      invariant normalized + DigitParts(parts[i..]) == DigitParts(parts)
    {
      var part := parts[i];
      assert parts[i..][1..] == parts[i + 1..];
      if Text.IsDigits(part) {
        normalized := normalized + [Text.DigitsValue(part)];
      }
      i := i + 1;
    }
    assert parts[i..] == [];
  }

  /** Every number kept is the value of a digit part, and every digit part is kept, in order. */
  lemma {:induction false} DigitPartsSpec(parts: seq<string>)
    ensures |DigitParts(parts)| <= |parts|
    ensures (forall i :: 0 <= i < |parts| ==> !Text.IsDigits(parts[i])) <==> DigitParts(parts) == []
    ensures (forall i :: 0 <= i < |parts| ==> Text.IsDigits(parts[i])) ==>
      |DigitParts(parts)| == |parts| && forall i :: 0 <= i < |parts| ==> DigitParts(parts)[i] == Text.DigitsValue(parts[i])
  {
    if parts != [] {
      DigitPartsSpec(parts[1..]);
      assert forall i :: 1 <= i < |parts| ==> parts[1..][i - 1] == parts[i];
    }
  }

  /** Dots between numerals: how a version such as `2.0.1` is written. */
  function Join(v: Version): string
  {
    if v == [] then []
    else if |v| == 1 then Text.NatToDigits(v[0])
    else Text.NatToDigits(v[0]) + "." + Join(v[1..])
  }

  lemma DigitsNoSeparator(s: string)
    requires Text.AllDigits(s)
    ensures forall i :: 0 <= i < |s| ==> !IsSeparator(s[i])
  {
  }

  /** A separator-free head splits off at the first separator. */
  lemma SplitHead(a: string, sep: char, rest: string)
    requires IsSeparator(sep) && forall i :: 0 <= i < |a| ==> !IsSeparator(a[i])
    ensures Split(a + [sep] + rest) == [a] + Split(rest)
  {
    var s := a + [sep] + rest;
    assert forall i :: 0 <= i < |a| ==> s[i] == a[i];
    assert s[|a|] == sep;
    SeparatorFirst(s, |a|);
    assert s[..|a|] == a;
    assert s[|a| + 1..] == rest;
  }

  lemma {:induction false} SeparatorFirst(s: string, k: nat)
    requires k < |s| && IsSeparator(s[k]) && forall i :: 0 <= i < k ==> !IsSeparator(s[i])
    ensures SeparatorAt(s) == k
  {
    if k > 0 {
      SeparatorFirst(s[1..], k - 1);
    }
  }

  lemma {:induction false} SplitNone(s: string)
    requires forall i :: 0 <= i < |s| ==> !IsSeparator(s[i])
    ensures Split(s) == [s]
  {
    NoSeparator(s);
  }

  lemma {:induction false} NoSeparator(s: string)
    requires forall i :: 0 <= i < |s| ==> !IsSeparator(s[i])
    ensures SeparatorAt(s) == |s|
  {
    if s != [] {
      NoSeparator(s[1..]);
    }
  }

  /** The numerals of the numbers of `v`, in order. */
  function Numerals(v: Version): (nums: seq<string>)
    ensures |nums| == |v|
  {
    if v == [] then [] else [Text.NatToDigits(v[0])] + Numerals(v[1..])
  }

  /** The numerals of the numbers of `v` read back as `v`. */
  lemma {:induction false} NumeralsRead(v: Version)
    ensures DigitParts(Numerals(v)) == v
  {
    if v != [] {
      NumeralsRead(v[1..]);
      assert Numerals(v)[1..] == Numerals(v[1..]);
    }
  }

  /** A dotted version splits into the numerals of its parts. */
  lemma {:induction false} SplitJoin(v: Version)
    requires |v| >= 1
    ensures Split(Join(v)) == Numerals(v)
  {
    if |v| == 1 {
      var head := Text.NatToDigits(v[0]);
      DigitsNoSeparator(head);
      SplitNone(head);
    } else {
      SplitJoin(v[1..]);
      var head := Text.NatToDigits(v[0]);
      DigitsNoSeparator(head);
      assert Join(v) == head + "." + Join(v[1..]);
      SplitHead(head, '.', Join(v[1..]));
    }
  }

  lemma {:induction false} JoinEnds(v: Version)
    requires |v| >= 1
    ensures var s := Join(v); |s| > 0 && Text.IsDigit(s[0]) && Text.IsDigit(s[|s| - 1])
  {
    var head := Text.NatToDigits(v[0]);
    if |v| > 1 {
      JoinEnds(v[1..]);
      var s := Join(v);
      assert s[0] == head[0];
      assert s[|s| - 1] == Join(v[1..])[|Join(v[1..])| - 1];
    }
  }

  /** Neither surrounding whitespace nor a leading `v` is found around a dotted version. */
  lemma CleanedJoin(v: Version)
    requires v != []
    ensures Cleaned(Join(v)) == Join(v)
    ensures Cleaned("v" + Join(v)) == Join(v)
  {
    var s := Join(v);
    JoinEnds(v);
    Text.StripUnpadded(s);
    var t := "v" + s;
    assert t[|t| - 1] == s[|s| - 1];
    Text.StripUnpadded(t);
    assert t[1..] == s;
  }

  /** The numerals of a dotted version read back as its numbers. */
  lemma JoinedDigits(v: Version)
    ensures VersionOfCleaned(Join(v)) == v
  {
    if v != [] {
      JoinEnds(v);
      SplitJoin(v);
      NumeralsRead(v);
    }
  }

  /** Reading back a version written with dots gives the same numbers. */
  lemma VersionOfJoin(v: Version)
    ensures VersionOf(Join(v)) == v
  {
    JoinedDigits(v);
    if v != [] {
      CleanedJoin(v);
    }
  }

  /** Leading `v`s in front of a dotted version are ignored. */
  lemma VersionOfPrefixedJoin(v: Version)
    requires v != []
    ensures VersionOf("v" + Join(v)) == v
  {
    CleanedJoin(v);
    JoinedDigits(v);
  }

  lemma {:induction false} DigitPartsAppend(p: seq<string>, q: seq<string>)
    ensures DigitParts(p + q) == DigitParts(p) + DigitParts(q)
  {
    if p != [] {
      assert (p + q)[1..] == p[1..] + q;
      DigitPartsAppend(p[1..], q);
    } else {
      assert p + q == q;
    }
  }

  /** A dotted version followed by a separator and a word splits into its numerals and the word. */
  lemma {:induction false} SplitJoinSuffix(v: Version, sep: char, w: string)
    requires v != [] && IsSeparator(sep) && forall i :: 0 <= i < |w| ==> !IsSeparator(w[i])
    ensures Split(Join(v) + [sep] + w) == Numerals(v) + [w]
  {
    var head := Text.NatToDigits(v[0]);
    if |v| == 1 {
      SplitSuffixSingle(v, sep, w);
    } else {
      SplitJoinSuffix(v[1..], sep, w);
      SplitSuffixStep(v, sep, w);
      assert Numerals(v) == [head] + Numerals(v[1..]);
      assert [head] + (Numerals(v[1..]) + [w]) == Numerals(v) + [w];
    }
  }

  lemma SplitSuffixSingle(v: Version, sep: char, w: string)
    requires |v| == 1 && IsSeparator(sep) && forall i :: 0 <= i < |w| ==> !IsSeparator(w[i])
    ensures Split(Join(v) + [sep] + w) == Numerals(v) + [w]
  {
    var head := Text.NatToDigits(v[0]);
    DigitsNoSeparator(head);
    SplitHead(head, sep, w);
    SplitNone(w);
    assert Numerals(v) == [head] + Numerals([]);
  }

  lemma SplitSuffixStep(v: Version, sep: char, w: string)
    requires |v| >= 2 && IsSeparator(sep)
    ensures Split(Join(v) + [sep] + w) == [Text.NatToDigits(v[0])] + Split(Join(v[1..]) + [sep] + w)
  {
    var head := Text.NatToDigits(v[0]);
    DigitsNoSeparator(head);
    var rest := Join(v[1..]) + [sep] + w;
    assert Join(v) + [sep] + w == head + "." + rest;
    SplitHead(head, '.', rest);
  }

  /**
   * A trailing word such as `-beta` after a dotted version is dropped: `1.2-beta` reads as
   * (1, 2).
   */
  lemma VersionOfSuffixed(v: Version, sep: char, w: string)
    requires v != [] && IsSeparator(sep) && forall i :: 0 <= i < |w| ==> !IsSeparator(w[i])
    requires w != [] && !Text.IsDigit(w[0]) && !Text.IsSpace(w[|w| - 1])
    ensures VersionOf(Join(v) + [sep] + w) == v
  {
    var s := Join(v) + [sep] + w;
    JoinEnds(v);
    assert s[0] == Join(v)[0] && s[|s| - 1] == w[|w| - 1];
    CleanedUnpadded(s);
    SuffixedDigits(v, sep, w);
  }

  /** A string that starts with a digit and does not end in whitespace is left alone by the stripping. */
  lemma CleanedUnpadded(s: string)
    requires s != [] && Text.IsDigit(s[0]) && !Text.IsSpace(s[|s| - 1])
    ensures Cleaned(s) == s
  {
    Text.StripUnpadded(s);
  }

  lemma SuffixedDigits(v: Version, sep: char, w: string)
    requires v != [] && IsSeparator(sep) && forall i :: 0 <= i < |w| ==> !IsSeparator(w[i])
    requires w != [] && !Text.IsDigit(w[0])
    ensures VersionOfCleaned(Join(v) + [sep] + w) == v
  {
    SplitJoinSuffix(v, sep, w);
    DigitPartsAppend(Numerals(v), [w]);
    assert DigitParts([w]) == [];
    NumeralsRead(v);
  }

  /** A string with nothing but whitespace and `v`s reads as the empty version. */
  lemma EmptyVersion(value: string)
    requires Cleaned(value) == []
    ensures VersionOf(value) == []
  {
  }

  /** Python's `<` on tuples of integers. */
  function LexLess(a: Version, b: Version): bool
  {
    if b == [] then false
    else if a == [] then true
    else if a[0] != b[0] then a[0] < b[0]
    else LexLess(a[1..], b[1..])
  }

  /**
   * Tuple order as its definition reads: either `a` is a proper prefix of `b`, or at the first
   * position where they differ `a` holds the smaller number.
   */
  predicate LexBefore(a: Version, b: Version)
  {
    (|a| < |b| && a == b[..|a|])
    || exists k :: 0 <= k < |a| && k < |b| && a[..k] == b[..k] && a[k] < b[k]
  }

  lemma {:induction false} LexLessIff(a: Version, b: Version)
    ensures LexLess(a, b) <==> LexBefore(a, b)
  {
    if b == [] {
    } else if a == [] {
      assert a == b[..0];
    } else if a[0] != b[0] {
      assert a[..0] == b[..0];
      PrefixHeads(a, b);
    } else {
      LexLessIff(a[1..], b[1..]);
      if LexBefore(a[1..], b[1..]) {
        if |a[1..]| < |b[1..]| && a[1..] == b[1..][..|a[1..]|] {
          assert a == b[..|a|];
        } else {
          var k :| 0 <= k < |a[1..]| && k < |b[1..]| && a[1..][..k] == b[1..][..k] && a[1..][k] < b[1..][k];
          assert a[..k + 1] == [a[0]] + a[1..][..k];
          assert b[..k + 1] == [b[0]] + b[1..][..k];
        }
      }
      if LexBefore(a, b) {
        if |a| < |b| && a == b[..|a|] {
          assert a[1..] == b[1..][..|a[1..]|];
        } else {
          var k :| 0 <= k < |a| && k < |b| && a[..k] == b[..k] && a[k] < b[k];
          assert k > 0;
          assert a[1..][..k - 1] == a[..k][1..];
          assert b[1..][..k - 1] == b[..k][1..];
        }
      }
    }
  }

  /** Sequences that share a non-empty prefix share their first element. */
  lemma PrefixHeads(a: Version, b: Version)
    requires a != [] && b != []
    ensures |a| < |b| && a == b[..|a|] ==> a[0] == b[0]
    ensures forall k :: 0 < k <= |a| && k <= |b| && a[..k] == b[..k] ==> a[0] == b[0]
  {
    forall k | 0 < k <= |a| && k <= |b| && a[..k] == b[..k]
      ensures a[0] == b[0]
    {
      assert a[0] == a[..k][0];
      assert b[0] == b[..k][0];
    }
  }

  /** `is_newer_version`: the latest version's tuple is greater than the current one's. */
  function IsNewerVersion(current: string, latest: string): bool
  {
    LexLess(VersionOf(current), VersionOf(latest))
  }

  /** Tuple order is irreflexive and asymmetric. */
  lemma {:induction false} LexLessStrict(a: Version, b: Version)
    ensures !LexLess(a, a)
    ensures LexLess(a, b) ==> !LexLess(b, a)
  {
    if a != [] {
      LexLessStrict(a[1..], a[1..]);
      if b != [] && a[0] == b[0] {
        LexLessStrict(a[1..], b[1..]);
      }
    }
  }

  /** Tuple order is transitive. */
  lemma {:induction false} LexLessTransitive(a: Version, b: Version, c: Version)
    requires LexLess(a, b) && LexLess(b, c)
    ensures LexLess(a, c)
  {
    if a != [] && a[0] == b[0] && b[0] == c[0] {
      LexLessTransitive(a[1..], b[1..], c[1..]);
    }
  }

  /** Two different tuples are always ordered one way or the other. */
  lemma {:induction false} LexLessTotal(a: Version, b: Version)
    requires a != b
    ensures LexLess(a, b) || LexLess(b, a)
  {
    if a != [] && b != [] && a[0] == b[0] {
      assert a == [a[0]] + a[1..] && b == [b[0]] + b[1..];
      LexLessTotal(a[1..], b[1..]);
    }
  }

  /** A tuple that strictly extends another is greater. */
  lemma {:induction false} LexLessExtension(a: Version, t: Version)
    requires t != []
    ensures LexLess(a, a + t)
  {
    if a != [] {
      assert (a + t)[1..] == a[1..] + t;
      LexLessExtension(a[1..], t);
    }
  }

  /** A version is never newer than itself, and of two versions at most one is newer. */
  lemma IsNewerVersionStrict(v1: string, v2: string)
    ensures !IsNewerVersion(v1, v1)
    ensures IsNewerVersion(v1, v2) ==> !IsNewerVersion(v2, v1)
  {
    LexLessStrict(VersionOf(v1), VersionOf(v2));
  }

  /** A version that adds parts to another is newer, "2.0.1" than "2.0" or than "v2.0". */
  lemma NewerWhenExtended(a: Version, t: Version)
    requires a != [] && t != []
    ensures IsNewerVersion(Join(a), Join(a + t))
    ensures IsNewerVersion("v" + Join(a), Join(a + t))
  {
    VersionOfJoin(a);
    VersionOfPrefixedJoin(a);
    VersionOfJoin(a + t);
    LexLessExtension(a, t);
  }

  /**
   * An asset of a release; `name` is `None` where the entry has no name or a null one. The choice
   * looks only at `name`, but the asset is returned whole: its `browser_download_url` (`url`) is
   * what the download step, not part of this model, reads from the chosen asset.
   */
  datatype Asset = Asset(name: Option<string>, url: Option<string>)

  /** `asset.get("name") or ""`. */
  function NameOf(a: Asset): string
  {
    a.name.GetOr("")
  }

  predicate EndsWith(s: string, suffix: string)
  {
    |suffix| <= |s| && s[|s| - |suffix|..] == suffix
  }

  predicate Matches(a: Asset, suffix: string)
  {
    EndsWith(NameOf(a), suffix)
  }

  /** Some asset's name ends with `suffix`. */
  predicate AnyMatches(assets: seq<Asset>, suffix: string)
  {
    exists i :: 0 <= i < |assets| && Matches(assets[i], suffix)
  }

  /**
   * The choice `select_best_asset` makes, as positions: the first suffix that some asset
   * matches, and the first asset that matches it.
   */
  predicate BestChoice(assets: seq<Asset>, suffixes: seq<string>, k: nat, i: nat)
  {
    k < |suffixes| && i < |assets| && Matches(assets[i], suffixes[k])
    && (forall j :: 0 <= j < k ==> !AnyMatches(assets, suffixes[j]))
    && (forall m :: 0 <= m < i ==> !Matches(assets[m], suffixes[k]))
  }

  /**
   * `select_best_asset`: suffixes in priority order, assets in release order, the first hit
   * returned; `None` when nothing matches (and so when there are no assets).
   */
  method SelectBestAsset(assets: seq<Asset>, suffixes: seq<string>) returns (best: Option<Asset>)
    ensures best.None? <==> forall k :: 0 <= k < |suffixes| ==> !AnyMatches(assets, suffixes[k])
    ensures best.Some? ==> exists k: nat, i: nat :: BestChoice(assets, suffixes, k, i) && best.value == assets[i]
  {
    var k := 0;
    while k < |suffixes|
      invariant 0 <= k <= |suffixes|
      invariant forall j :: 0 <= j < k ==> !AnyMatches(assets, suffixes[j])
    {
      var suffix := suffixes[k];
      var i := 0;
      while i < |assets|
        invariant 0 <= i <= |assets|
        invariant forall m :: 0 <= m < i ==> !Matches(assets[m], suffix)
      {
        var name := NameOf(assets[i]);
        if EndsWith(name, suffix) {
          assert BestChoice(assets, suffixes, k, i);
          return Some(assets[i]);
        }
        i := i + 1;
      }
      k := k + 1;
    }
    return None;
  }

  /** The choice is unique: two best choices name the same suffix and the same asset. */
  lemma BestChoiceUnique(assets: seq<Asset>, suffixes: seq<string>, k1: nat, i1: nat, k2: nat, i2: nat)
    requires BestChoice(assets, suffixes, k1, i1) && BestChoice(assets, suffixes, k2, i2)
    ensures k1 == k2 && i1 == i2
  {
    if k1 < k2 {
      assert AnyMatches(assets, suffixes[k1]);
    } else if k2 < k1 {
      assert AnyMatches(assets, suffixes[k2]);
    }
  }
}
