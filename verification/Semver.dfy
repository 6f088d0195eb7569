/** Semantic versions: their order, when it is one, and the in-place sort. */
module Semver {
  import opened Text

  datatype Version = Version(major: int, minor: int, patch: int, prerelease: string, metadata: string)

  // Numeric identifiers

  predicate IsDecimal(s: string) {
    forall i :: 0 <= i < |s| ==> '0' <= s[i] <= '9'
  }

  predicate IsNumeric(s: string) {
    s != "" && IsDecimal(s)
  }

  function Digits(s: string): string {
    var t := TrimLeft(s, '0');
    if t == "" then "0" else t
  }

  function CompareText(a: string, b: string): int {
    if Less(b, a) then 1 else if Less(a, b) then -1 else 0
  }

  function CompareNumericIdentifier(a: string, b: string): int {
    var x, y := Digits(a), Digits(b);
    if |x| > |y| then 1 else if |x| < |y| then -1 else CompareText(x, y)
  }

  function Sign(n: int): int {
    if n > 0 then 1 else if n < 0 then -1 else 0
  }

  ghost function Pow10(n: nat): nat {
    if n == 0 then 1 else 10 * Pow10(n - 1)
  }

  /** The number a string of decimal digits stands for. */
  ghost function Decimal(s: string): int
    requires IsDecimal(s)
  {
    if s == "" then 0 else (s[0] as int - '0' as int) * Pow10(|s| - 1) + Decimal(s[1..])
  }

  lemma {:induction false} DecimalBound(s: string)
    requires IsDecimal(s)
    ensures 0 <= Decimal(s) < Pow10(|s|)
    ensures s != "" && s[0] != '0' ==> Decimal(s) >= Pow10(|s| - 1)
  {
    if s != "" {
      DecimalBound(s[1..]);
      Multiples(s[0] as int - '0' as int, Pow10(|s| - 1));
    }
  }

  lemma Multiples(d: nat, p: nat)
    ensures d <= 9 ==> d * p <= 9 * p
    ensures d >= 1 ==> d * p >= p
  {
  }

  lemma {:induction false} PowGrows(m: nat, n: nat)
    requires m <= n
    ensures Pow10(m) <= Pow10(n)
  {
    if m < n {
      PowGrows(m, n - 1);
    }
  }

  lemma {:induction false} DecimalTrim(s: string)
    requires IsDecimal(s)
    ensures IsDecimal(TrimLeft(s, '0')) && Decimal(TrimLeft(s, '0')) == Decimal(s)
  {
    if s != "" && s[0] == '0' {
      DecimalTrim(s[1..]);
    }
  }

  lemma {:induction false} DecimalOrder(a: string, b: string)
    requires IsDecimal(a) && IsDecimal(b) && |a| == |b|
    ensures CompareText(a, b) == Sign(Decimal(a) - Decimal(b))
  {
    if a != "" {
      DecimalOrder(a[1..], b[1..]);
      DecimalBound(a[1..]);
      DecimalBound(b[1..]);
      var x, y, p := a[0] as int - '0' as int, b[0] as int - '0' as int, Pow10(|a| - 1);
      if x < y {
        Leading(x, y, p, Decimal(a[1..]), Decimal(b[1..]));
      } else if y < x {
        Leading(y, x, p, Decimal(b[1..]), Decimal(a[1..]));
      }
    }
  }

  lemma Leading(x: nat, y: nat, p: nat, u: int, v: int)
    requires x < y && u < p && 0 <= v
    ensures x * p + u < y * p + v
  {
    assert (x + 1) * p <= y * p;
  }

  lemma DigitsDecimal(a: string)
    requires IsDecimal(a)
    ensures var x := Digits(a);
            IsNumeric(x) && Canonical(x) && Decimal(x) == Decimal(a)
  {
    DecimalTrim(a);
    assert Decimal("0") == 0;
  }

  /** More digits without a leading zero mean a larger number. */
  lemma LongerIsLarger(x: string, y: string)
    requires IsDecimal(x) && IsDecimal(y) && |x| > |y| && x[0] != '0'
    ensures Decimal(x) > Decimal(y)
  {
    DecimalBound(x);
    DecimalBound(y);
    PowGrows(|y|, |x| - 1);
  }

  /** Comparing numeric identifiers compares the numbers, at any length. */
  lemma NumericIsNatural(a: string, b: string)
    requires IsDecimal(a) && IsDecimal(b)
    ensures CompareNumericIdentifier(a, b) == Sign(Decimal(a) - Decimal(b))
  {
    var x, y := Digits(a), Digits(b);
    DigitsDecimal(a);
    DigitsDecimal(b);
    if |x| > |y| {
      LongerIsLarger(x, y);
    } else if |x| < |y| {
      LongerIsLarger(y, x);
    } else {
      DecimalOrder(x, y);
    }
  }

  // Prerelease identifiers and lists of them

  /** Two different identifiers. */
  function CompareIdentifier(a: string, b: string): int {
    if IsNumeric(a) && IsNumeric(b) then CompareNumericIdentifier(a, b)
    else if IsNumeric(a) then -1
    else if IsNumeric(b) then 1
    else if Less(b, a) then 1
    else -1
  }

  function CompareParts(a: seq<string>, b: seq<string>): int {
    if a == [] || b == [] then Sign(|a| - |b|)
    else if a[0] == b[0] then CompareParts(a[1..], b[1..])
    else CompareIdentifier(a[0], b[0])
  }

  method ComparePrerelease(a: string, b: string) returns (c: int)
    ensures c == CompareParts(Split(a, '.'), Split(b, '.'))
  {
    var x, y := Split(a, '.'), Split(b, '.');
    var i := 0;
    while i < |x| && i < |y|
      invariant 0 <= i <= |x| && i <= |y|
      invariant CompareParts(x[i..], y[i..]) == CompareParts(x, y)
    {
      if x[i] != y[i] {
        return CompareIdentifier(x[i], y[i]);
      }
      i := i + 1;
    }
    return Sign(|x| - |y|);
  }

  function Compare(v: Version, w: Version): int {
    if v.major != w.major then Sign(v.major - w.major)
    else if v.minor != w.minor then Sign(v.minor - w.minor)
    else if v.patch != w.patch then Sign(v.patch - w.patch)
    else if v.prerelease == "" && w.prerelease != "" then 1
    else if v.prerelease != "" && w.prerelease == "" then -1
    else CompareParts(Split(v.prerelease, '.'), Split(w.prerelease, '.'))
  }

  // Antisymmetry, for all versions

  lemma IdentifierAntisymmetric(a: string, b: string)
    requires a != b
    ensures CompareIdentifier(a, b) == -CompareIdentifier(b, a)
    ensures CompareIdentifier(a, b) in {-1, 0, 1}
  {
    LessTrichotomy(a, b);
    LessTrichotomy(Digits(a), Digits(b));
  }

  lemma {:induction false} PartsAntisymmetric(a: seq<string>, b: seq<string>)
    ensures CompareParts(a, b) == -CompareParts(b, a) && CompareParts(a, b) in {-1, 0, 1}
  {
    if a != [] && b != [] {
      if a[0] == b[0] {
        PartsAntisymmetric(a[1..], b[1..]);
      } else {
        IdentifierAntisymmetric(a[0], b[0]);
      }
    }
  }

  lemma {:induction false} PartsReflexive(a: seq<string>)
    ensures CompareParts(a, a) == 0
  {
    if a != [] {
      PartsReflexive(a[1..]);
    }
  }

  /** The order is antisymmetric in sign, and a version equals itself whatever its metadata. */
  lemma CompareAntisymmetric(v: Version, w: Version)
    ensures Compare(v, w) == -Compare(w, v) && Compare(v, w) in {-1, 0, 1}
    ensures Compare(v, v.(metadata := w.metadata)) == 0
  {
    PartsAntisymmetric(Split(v.prerelease, '.'), Split(w.prerelease, '.'));
    PartsReflexive(Split(v.prerelease, '.'));
  }

  // Which order it is: item 11 of Semantic Versioning 2.0.0

  /** The precedence of two identifiers: numbers by value, below text, which goes by byte order. */
  ghost predicate IdentifierBelow(a: string, b: string) {
    if IsNumeric(a) && IsNumeric(b) then Decimal(a) < Decimal(b)
    else if IsNumeric(a) || IsNumeric(b) then IsNumeric(a)
    else Less(a, b)
  }

  /** The lists agree before `i` and differ there. */
  predicate FirstDifference(a: seq<string>, b: seq<string>, i: nat) {
    i < |a| && i < |b| && a[..i] == b[..i] && a[i] != b[i]
  }

  /** The precedence of two identifier lists: by the first difference, else the shorter is below. */
  ghost predicate ListBelow(a: seq<string>, b: seq<string>) {
    a < b || exists i: nat :: FirstDifference(a, b, i) && IdentifierBelow(a[i], b[i])
  }

  predicate CoreBelow(v: Version, w: Version) {
    || v.major < w.major
    || (v.major == w.major && v.minor < w.minor)
    || (v.major == w.major && v.minor == w.minor && v.patch < w.patch)
  }

  /** The precedence of two versions: by the core numbers; then a release is above every prerelease of its core. */
  ghost predicate Below(v: Version, w: Version) {
    || CoreBelow(v, w)
    || ((v.major, v.minor, v.patch) == (w.major, w.minor, w.patch) && v.prerelease != "" &&
        (w.prerelease == "" || ListBelow(Split(v.prerelease, '.'), Split(w.prerelease, '.'))))
  }

  lemma IdentifierDirection(a: string, b: string)
    requires a != b
    ensures CompareIdentifier(a, b) == -1 <==> IdentifierBelow(a, b)
  {
    LessTrichotomy(a, b);
    if IsNumeric(a) && IsNumeric(b) {
      NumericIsNatural(a, b);
    }
  }

  lemma {:induction false} ListDirection(a: seq<string>, b: seq<string>)
    ensures CompareParts(a, b) == -1 <==> ListBelow(a, b)
  {
    if a != [] && b != [] {
      assert a == [a[0]] + a[1..] && b == [b[0]] + b[1..];
      if a[0] == b[0] {
        ListDirection(a[1..], b[1..]);
        DifferenceBehind(a, b);
      } else {
        IdentifierDirection(a[0], b[0]);
        assert a[..0] == b[..0] == [] && FirstDifference(a, b, 0);
        forall i: nat | FirstDifference(a, b, i)
          ensures i == 0
        {
          if i > 0 {
            SameHead(a, b, i);
          }
        }
      }
    }
  }

  lemma SameHead(a: seq<string>, b: seq<string>, i: nat)
    requires 0 < i <= |a| && i <= |b| && a[..i] == b[..i]
    ensures a[0] == b[0]
  {
    assert a[..i][0] == b[..i][0];
  }

  lemma DifferenceAt(a: seq<string>, b: seq<string>, i: nat)
    requires a != [] && b != [] && a[0] == b[0]
    ensures FirstDifference(a, b, i + 1) <==> FirstDifference(a[1..], b[1..], i)
  {
    if i + 1 < |a| && i + 1 < |b| {
      assert a[..i + 1] == [a[0]] + a[1..][..i];
      assert b[..i + 1] == [b[0]] + b[1..][..i];
      assert a[..i + 1][1..] == a[1..][..i];
      assert b[..i + 1][1..] == b[1..][..i];
    }
  }

  /** Behind equal heads, the order of the lists is that of their tails. */
  lemma DifferenceBehind(a: seq<string>, b: seq<string>)
    requires a != [] && b != [] && a[0] == b[0]
    ensures ListBelow(a, b) <==> ListBelow(a[1..], b[1..])
  {
    assert a == [a[0]] + a[1..] && b == [b[0]] + b[1..];
    if i: nat :| FirstDifference(a[1..], b[1..], i) && IdentifierBelow(a[1..][i], b[1..][i]) {
      DifferenceAt(a, b, i);
    }
    if i: nat :| FirstDifference(a, b, i) && IdentifierBelow(a[i], b[i]) {
      DifferenceAt(a, b, i - 1);
    }
  }

  /** `Compare` puts a version below another exactly when the precedence rules do, for all versions. */
  lemma CompareIsPrecedence(v: Version, w: Version)
    ensures Compare(v, w) == -1 <==> Below(v, w)
    ensures Compare(v, w) == 1 <==> Below(w, v)
  {
    CompareAntisymmetric(v, w);
    OneDirection(v, w);
    OneDirection(w, v);
  }

  lemma OneDirection(v: Version, w: Version)
    ensures Compare(v, w) == -1 <==> Below(v, w)
  {
    ListDirection(Split(v.prerelease, '.'), Split(w.prerelease, '.'));
    if v.prerelease == "" && w.prerelease == "" {
      PartsReflexive(Split("", '.'));
    }
  }

  // Transitivity, when numeric identifiers have no leading zeros

  predicate Canonical(id: string) {
    IsNumeric(id) ==> id == "0" || id[0] != '0'
  }

  predicate AllCanonical(ids: seq<string>) {
    forall i :: 0 <= i < |ids| ==> Canonical(ids[i])
  }

  predicate WellFormed(v: Version) {
    AllCanonical(Split(v.prerelease, '.'))
  }

  lemma CanonicalDistinct(a: string, b: string)
    requires Canonical(a) && Canonical(b) && a != b
    ensures CompareIdentifier(a, b) != 0
  {
    LessTrichotomy(a, b);
    CanonicalDigits(a);
    CanonicalDigits(b);
  }

  lemma CanonicalDigits(a: string)
    requires Canonical(a)
    ensures IsNumeric(a) ==> Digits(a) == a
  {
    assert "0"[1..] == "";
    assert TrimLeft("0", '0') == TrimLeft("", '0');
  }

  lemma IdentifierTransitive(a: string, b: string, c: string)
    requires Canonical(a) && Canonical(b) && Canonical(c) && a != b && b != c
    requires CompareIdentifier(a, b) < 0 && CompareIdentifier(b, c) < 0
    ensures a != c && CompareIdentifier(a, c) < 0
  {
    LessTrichotomy(a, b);
    LessTrichotomy(b, c);
    LessTrichotomy(a, c);
    if IsNumeric(a) && IsNumeric(b) && IsNumeric(c) {
      NumericIsNatural(a, b);
      NumericIsNatural(b, c);
      NumericIsNatural(a, c);
    } else if !IsNumeric(a) && !IsNumeric(b) && !IsNumeric(c) {
      LessTransitive(a, b, c);
    }
  }

  lemma {:induction false} PartsTransitive(a: seq<string>, b: seq<string>, c: seq<string>)
    requires AllCanonical(a) && AllCanonical(b) && AllCanonical(c)
    requires CompareParts(a, b) <= 0 && CompareParts(b, c) <= 0
    ensures CompareParts(a, c) <= 0
    ensures CompareParts(a, c) == 0 ==> CompareParts(a, b) == 0 && CompareParts(b, c) == 0
  {
    if a != [] && b != [] && c != [] {
      if a[0] == b[0] == c[0] {
        PartsTransitive(a[1..], b[1..], c[1..]);
      } else if a[0] != b[0] && b[0] != c[0] {
        CanonicalDistinct(a[0], b[0]);
        CanonicalDistinct(b[0], c[0]);
        IdentifierTransitive(a[0], b[0], c[0]);
      } else if a[0] != b[0] {
        CanonicalDistinct(a[0], b[0]);
      } else {
        CanonicalDistinct(b[0], c[0]);
      }
    }
  }

  /** On well-formed versions the order is transitive, and strict steps stay strict. */
  lemma CompareTransitive(u: Version, v: Version, w: Version)
    requires WellFormed(u) && WellFormed(v) && WellFormed(w)
    requires Compare(u, v) <= 0 && Compare(v, w) <= 0
    ensures Compare(u, w) <= 0
    ensures Compare(u, w) == 0 ==> Compare(u, v) == 0 && Compare(v, w) == 0
  {
    var a, b, c := Split(u.prerelease, '.'), Split(v.prerelease, '.'), Split(w.prerelease, '.');
    if CompareParts(a, b) <= 0 && CompareParts(b, c) <= 0 {
      PartsTransitive(a, b, c);
    }
  }

  lemma {:induction false} PartsEqual(a: seq<string>, b: seq<string>)
    requires AllCanonical(a) && AllCanonical(b) && CompareParts(a, b) == 0
    ensures a == b
  {
    if a != [] && b != [] {
      if a[0] == b[0] {
        PartsEqual(a[1..], b[1..]);
        assert a == [a[0]] + a[1..] && b == [b[0]] + b[1..];
      } else {
        CanonicalDistinct(a[0], b[0]);
      }
    }
  }

  /** Well-formed versions are equal in the order exactly when they differ at most in metadata. */
  lemma CompareEqual(v: Version, w: Version)
    requires WellFormed(v) && WellFormed(w)
    ensures Compare(v, w) == 0 <==> v == w.(metadata := v.metadata)
  {
    PartsReflexive(Split(v.prerelease, '.'));
    if Compare(v, w) == 0 {
      PartsEqual(Split(v.prerelease, '.'), Split(w.prerelease, '.'));
      JoinSplit(v.prerelease, '.');
      JoinSplit(w.prerelease, '.');
    }
  }

  // ... and exactly then

  lemma {:induction false} SharedPrefix(shared: seq<string>, a: seq<string>, b: seq<string>)
    ensures CompareParts(shared + a, shared + b) == CompareParts(a, b)
  {
    if shared == [] {
      assert shared + a == a && shared + b == b;
    } else {
      assert (shared + a)[1..] == shared[1..] + a && (shared + b)[1..] == shared[1..] + b;
      SharedPrefix(shared[1..], a, b);
    }
  }

  lemma {:induction false} FirstIllFormed(ids: seq<string>) returns (k: nat)
    requires !AllCanonical(ids)
    ensures k < |ids| && !Canonical(ids[k]) && AllCanonical(ids[..k])
  {
    if !Canonical(ids[0]) {
      k := 0;
    } else {
      var rest := FirstIllFormed(ids[1..]);
      k := rest + 1;
      assert ids[..k] == [ids[0]] + ids[1..][..rest];
    }
  }

  /** A version with these identifiers in its prerelease. */
  function WithParts(v: Version, ids: seq<string>): Version {
    v.(prerelease := Join(ids, '.'))
  }

  lemma WithPartsSplit(v: Version, ids: seq<string>, k: nat)
    requires k < |ids| && ids[k] != "" && forall i :: 0 <= i < |ids| ==> '.' !in ids[i]
    ensures Split(WithParts(v, ids).prerelease, '.') == ids && WithParts(v, ids).prerelease != ""
  {
    SplitJoin(ids, '.');
    assert Split("", '.') == [""];
  }

  /** An identifier with leading zeros, and the same number without them. */
  lemma SameNumber(bad: string)
    requires !Canonical(bad)
    ensures var good := Digits(bad);
            good != bad && IsNumeric(good) && Canonical(good) && '.' !in good && CompareIdentifier(bad, good) == 0
  {
    DigitsDecimal(bad);
    CanonicalDigits(Digits(bad));
    NumericIsNatural(bad, Digits(bad));
  }

  /** After it, comparison stops: whatever follows is ignored. */
  lemma TiesWhatFollows(ids: seq<string>, k: nat, more: seq<string>)
    requires k < |ids| && !Canonical(ids[k])
    ensures CompareParts(ids, ids[..k] + ([Digits(ids[k])] + more)) == 0
  {
    SameNumber(ids[k]);
    assert ids == ids[..k] + ids[k..];
    SharedPrefix(ids[..k], ids[k..], [Digits(ids[k])] + more);
  }

  /** A version with a leading zero ties two well-formed versions that are not tied with each other. */
  lemma IllFormedTies(v: Version) returns (x: Version, y: Version)
    requires !WellFormed(v)
    ensures WellFormed(x) && WellFormed(y)
    ensures Compare(x, v) == 0 && Compare(v, y) == 0 && Compare(x, y) < 0
  {
    var ids := Split(v.prerelease, '.');
    JoinSplit(v.prerelease, '.');
    var k := FirstIllFormed(ids);
    var good := Digits(ids[k]);
    SameNumber(ids[k]);
    TiesWhatFollows(ids, k, []);
    TiesWhatFollows(ids, k, ["a"]);
    SharedPrefix(ids[..k], [good], [good] + ["a"]);
    x := TiedVersion(v, ids, k, []);
    y := TiedVersion(v, ids, k, ["a"]);
    assert [good] + [] == [good];
    assert [good][1..] == [] && ([good] + ["a"])[1..] == ["a"];
    CompareAntisymmetric(x, v);
    EmptyIsWellFormed(v);
  }

  lemma EmptyIsWellFormed(v: Version)
    ensures v.prerelease == "" ==> WellFormed(v)
  {
    assert Split("", '.') == [""];
  }

  lemma TiedVersion(v: Version, ids: seq<string>, k: nat, more: seq<string>) returns (x: Version)
    requires k < |ids| && !Canonical(ids[k]) && AllCanonical(ids[..k])
    requires forall i :: 0 <= i < |ids| ==> '.' !in ids[i]
    requires more == [] || more == ["a"]
    ensures x.prerelease != "" && Split(x.prerelease, '.') == ids[..k] + ([Digits(ids[k])] + more)
    ensures WellFormed(x) && x.major == v.major && x.minor == v.minor && x.patch == v.patch
  {
    var parts := ids[..k] + ([Digits(ids[k])] + more);
    SameNumber(ids[k]);
    assert parts[k] == Digits(ids[k]);
    x := WithParts(v, parts);
    WithPartsSplit(v, parts, k);
    forall i | 0 <= i < |parts|
      ensures Canonical(parts[i])
    {
      assert i < k ==> parts[i] == ids[..k][i];
    }
  }

  /** A version ties only versions that tie each other exactly when it is well-formed. */
  lemma TiesIffWellFormed(v: Version)
    ensures WellFormed(v) <==>
            forall x, y :: WellFormed(x) && WellFormed(y) && Compare(x, v) == 0 && Compare(v, y) == 0 ==> Compare(x, y) == 0
  {
    if WellFormed(v) {
      forall x, y | WellFormed(x) && WellFormed(y) && Compare(x, v) == 0 && Compare(v, y) == 0
        ensures Compare(x, y) == 0
      {
        CompareEqual(x, v);
        CompareEqual(v, y);
        CompareAntisymmetric(x, y);
      }
    } else {
      var x, y := IllFormedTies(v);
    }
  }

  // Sort

  predicate AllWellFormed(s: seq<Version>) {
    forall i :: 0 <= i < |s| ==> WellFormed(s[i])
  }

  /** The first `n` versions are in order, and none after them is smaller. */
  predicate Settled(s: seq<Version>, n: nat) {
    forall i, j {:trigger Compare(s[i], s[j])} :: 0 <= i < n && i < j < |s| ==> Compare(s[i], s[j]) <= 0
  }

  /** No version between `i` and `n` is smaller than the one at `i`. */
  predicate Least(s: seq<Version>, i: nat, n: nat) {
    forall k {:trigger Compare(s[i], s[k])} :: i < k < n && k < |s| ==> Compare(s[i], s[k]) <= 0
  }

  function Swapped(s: seq<Version>, i: nat, j: nat): seq<Version>
    requires i < j < |s|
  {
    s[i := s[j]][j := s[i]]
  }

  lemma SwapKeeps(s: seq<Version>, i: nat, j: nat)
    requires i < j < |s| && Settled(s, i)
    ensures Settled(Swapped(s, i, j), i)
  {
    var t := Swapped(s, i, j);
    forall p, q | 0 <= p < i && p < q < |t|
      ensures Compare(t[p], t[q]) <= 0
    {
      assert Compare(s[p], s[if q == i then j else if q == j then i else q]) <= 0;
    }
  }

  lemma SwapImproves(s: seq<Version>, i: nat, j: nat)
    requires i < j < |s| && AllWellFormed(s) && Least(s, i, j) && Compare(s[j], s[i]) < 0
    ensures Least(Swapped(s, i, j), i, j + 1) && AllWellFormed(Swapped(s, i, j))
  {
    var t := Swapped(s, i, j);
    forall k | i < k < j + 1
      ensures Compare(t[i], t[k]) <= 0
    {
      if k < j {
        assert Compare(s[i], s[k]) <= 0;
        CompareTransitive(s[j], s[i], s[k]);
      }
    }
  }

  lemma LeastStep(s: seq<Version>, i: nat, j: nat)
    requires i < j < |s| && Least(s, i, j) && Compare(s[j], s[i]) >= 0
    ensures Least(s, i, j + 1)
  {
    CompareAntisymmetric(s[i], s[j]);
  }

  /** One comparison of the inner loop, with the swap if there is one. */
  function Sifted(s: seq<Version>, i: nat, j: nat): (t: seq<Version>)
    requires i < j < |s|
    ensures multiset(t) == multiset(s) && |t| == |s|
  {
    if Compare(s[j], s[i]) < 0 then Swapped(s, i, j) else s
  }

  /** How far the inner loop has come. */
  predicate Sifting(s: seq<Version>, i: nat, j: nat) {
    AllWellFormed(s) && Settled(s, i) && Least(s, i, j)
  }

  lemma SiftStep(s: seq<Version>, i: nat, j: nat)
    requires i < j < |s| && Sifting(s, i, j)
    ensures Sifting(Sifted(s, i, j), i, j + 1)
  {
    if Compare(s[j], s[i]) < 0 {
      SwapKeeps(s, i, j);
      SwapImproves(s, i, j);
    } else {
      LeastStep(s, i, j);
    }
  }

  lemma SiftDone(s: seq<Version>, i: nat)
    requires i < |s| && Sifting(s, i, |s|)
    ensures Settled(s, i + 1)
  {
  }

  method Sift(a: array<Version>, i: nat, j: nat)
    requires i < j < a.Length
    modifies a
    ensures a[..] == Sifted(old(a[..]), i, j)
  {
    if Compare(a[j], a[i]) < 0 {
      a[i], a[j] := a[j], a[i];
    }
  }

  /** Puts the least of the versions from `i` on at `i`. */
  method Select(a: array<Version>, i: nat)
    requires i < a.Length
    modifies a
    ensures multiset(a[..]) == multiset(old(a[..]))
    ensures AllWellFormed(old(a[..])) && Settled(old(a[..]), i) ==> AllWellFormed(a[..]) && Settled(a[..], i + 1)
  {
    ghost var good := Sifting(a[..], i, i + 1);
    for j := i + 1 to a.Length
      invariant multiset(a[..]) == multiset(old(a[..]))
      invariant good ==> Sifting(a[..], i, j)
    {
      if good {
        SiftStep(a[..], i, j);
      }
      Sift(a, i, j);
    }
    if good {
      SiftDone(a[..], i);
    }
  }

  /** No version comes after one of higher precedence. */
  ghost predicate InPrecedence(s: seq<Version>) {
    forall i, j :: 0 <= i < j < |s| ==> !Below(s[j], s[i])
  }

  lemma SettledInPrecedence(s: seq<Version>)
    requires Settled(s, |s|)
    ensures InPrecedence(s)
  {
    forall i, j | 0 <= i < j < |s|
      ensures !Below(s[j], s[i])
    {
      assert Compare(s[i], s[j]) <= 0;
      CompareIsPrecedence(s[i], s[j]);
    }
  }

  /** Any versions are permuted; well-formed ones end up in order of precedence. */
  method Sort(a: array<Version>)
    modifies a
    ensures multiset(a[..]) == multiset(old(a[..]))
    ensures AllWellFormed(old(a[..])) ==> Settled(a[..], a.Length) && InPrecedence(a[..])
  {
    for i := 0 to a.Length
      invariant multiset(a[..]) == multiset(old(a[..]))
      invariant AllWellFormed(old(a[..])) ==> AllWellFormed(a[..]) && Settled(a[..], i)
    {
      Select(a, i);
    }
    if AllWellFormed(old(a[..])) {
      SettledInPrecedence(a[..]);
    }
  }
}
