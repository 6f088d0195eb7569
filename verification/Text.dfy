/**
 Byte strings and the few string-library operations the repository relies on.

 A Go string is a sequence of bytes. It is modelled as a Dafny `string` in which each
 `char` stands for one byte.
 */
module Text {

  datatype Option<+T> = None | Some(value: T)

  /** `strings.Join`. */
  function Join(parts: seq<string>, sep: char): string {
    if |parts| == 0 then ""
    else if |parts| == 1 then parts[0]
    else parts[0] + [sep] + Join(parts[1..], sep)
  }

  /** `strings.Split` on a one-byte separator. */
  function Split(s: string, sep: char): (parts: seq<string>)
    ensures |parts| >= 1
  {
    if s == "" then [""]
    else if s[0] == sep then [""] + Split(s[1..], sep)
    else
      var rest := Split(s[1..], sep);
      [[s[0]] + rest[0]] + rest[1..]
  }

  /** No part holds the separator, and joining the parts gives the string back. */
  lemma {:induction false} JoinSplit(s: string, sep: char)
    ensures forall i :: 0 <= i < |Split(s, sep)| ==> sep !in Split(s, sep)[i]
    ensures Join(Split(s, sep), sep) == s
  {
    if s != "" {
      JoinSplit(s[1..], sep);
      var rest := Split(s[1..], sep);
      assert ([""] + rest)[1..] == rest;
      assert ([[s[0]] + rest[0]] + rest[1..])[1..] == rest[1..];
    }
  }

  lemma {:induction false} SplitWhole(a: string, sep: char)
    requires sep !in a
    ensures Split(a, sep) == [a]
  {
    if a != "" {
      SplitWhole(a[1..], sep);
      assert a == [a[0]] + a[1..];
    }
  }

  lemma {:induction false} SplitCut(a: string, rest: string, sep: char)
    requires sep !in a
    ensures Split(a + [sep] + rest, sep) == [a] + Split(rest, sep)
  {
    var s := a + [sep] + rest;
    if a == "" {
      assert s[1..] == rest;
    } else {
      assert s[1..] == a[1..] + [sep] + rest;
      SplitCut(a[1..], rest, sep);
      assert a == [a[0]] + a[1..];
      assert ([a[1..]] + Split(rest, sep))[1..] == Split(rest, sep);
    }
  }

  /** Splitting undoes joining. */
  lemma {:induction false} SplitJoin(parts: seq<string>, sep: char)
    requires |parts| >= 1
    requires forall i :: 0 <= i < |parts| ==> sep !in parts[i]
    ensures Split(Join(parts, sep), sep) == parts
  {
    if |parts| == 1 {
      SplitWhole(parts[0], sep);
    } else {
      SplitJoin(parts[1..], sep);
      SplitCut(parts[0], Join(parts[1..], sep), sep);
    }
  }

  lemma {:induction false} JoinAppend(a: seq<string>, b: seq<string>, sep: char)
    requires |a| >= 1 && |b| >= 1
    ensures Join(a + b, sep) == Join(a, sep) + [sep] + Join(b, sep)
  {
    if |a| == 1 {
      assert (a + b)[1..] == b;
    } else {
      JoinAppend(a[1..], b, sep);
      assert (a + b)[1..] == a[1..] + b;
    }
  }

  lemma SplitAppend(a: string, b: string, sep: char)
    ensures Split(a + [sep] + b, sep) == Split(a, sep) + Split(b, sep)
  {
    JoinSplit(a, sep);
    JoinSplit(b, sep);
    JoinAppend(Split(a, sep), Split(b, sep), sep);
    SplitJoin(Split(a, sep) + Split(b, sep), sep);
  }

  function TrimLeft(s: string, c: char): (r: string)
    ensures r == "" || r[0] != c
  {
    if s != "" && s[0] == c then TrimLeft(s[1..], c) else s
  }

  function TrimRight(s: string, c: char): (r: string)
    ensures r == "" || r[|r| - 1] != c
  {
    if s != "" && s[|s| - 1] == c then TrimRight(s[..|s| - 1], c) else s
  }

  /** Trimming on the left leaves the last byte alone. */
  lemma {:induction false} TrimLeftLast(s: string, c: char)
    ensures TrimLeft(s, c) == "" || TrimLeft(s, c)[|TrimLeft(s, c)| - 1] == s[|s| - 1]
  {
    if s != "" && s[0] == c {
      TrimLeftLast(s[1..], c);
    }
  }

  /** Trimming on the right leaves a first byte that is kept alone. */
  lemma {:induction false} TrimRightFirst(s: string, c: char)
    requires s != "" && s[0] != c
    ensures TrimRight(s, c) != "" && TrimRight(s, c)[0] == s[0]
  {
    if s[|s| - 1] == c {
      TrimRightFirst(s[..|s| - 1], c);
    }
  }

  /** `strings.Trim` with a one-byte cutset. */
  function Trim(s: string, c: char): string {
    TrimLeft(TrimRight(s, c), c)
  }

  /** Go's `<` on strings: byte-wise lexicographic order. */
  predicate Less(a: string, b: string) {
    if b == "" then false
    else if a == "" then true
    else if a[0] != b[0] then a[0] < b[0]
    else Less(a[1..], b[1..])
  }

  /** Byte order: at the first difference the smaller byte, and a proper prefix before the longer string. */
  ghost predicate DiffersAt(a: string, b: string, i: nat) {
    i < |a| && i < |b| && a[..i] == b[..i] && a[i] < b[i]
  }

  lemma DiffersBehind(a: string, b: string, i: nat)
    requires a != "" && b != "" && a[0] == b[0]
    ensures DiffersAt(a, b, i + 1) <==> DiffersAt(a[1..], b[1..], i)
  {
    if i + 1 < |a| && i + 1 < |b| {
      assert a[..i + 1] == [a[0]] + a[1..][..i];
      assert b[..i + 1] == [b[0]] + b[1..][..i];
      assert a[..i + 1][1..] == a[1..][..i];
      assert b[..i + 1][1..] == b[1..][..i];
    }
  }

  lemma DiffersAtFirst(a: string, b: string, i: nat)
    requires DiffersAt(a, b, i)
    ensures i == 0 || a[0] == b[0]
  {
    if i > 0 {
      assert a[..i][0] == b[..i][0];
    }
  }

  lemma PrefixBehind(a: string, b: string)
    requires a != "" && b != "" && a[0] == b[0]
    ensures a < b <==> a[1..] < b[1..]
  {
    assert a == [a[0]] + a[1..] && b == [b[0]] + b[1..];
  }

  lemma {:induction false} LessIff(a: string, b: string)
    ensures Less(a, b) <==> a < b || exists i: nat :: DiffersAt(a, b, i)
  {
    if a != "" && b != "" && a[0] == b[0] {
      LessIff(a[1..], b[1..]);
      PrefixBehind(a, b);
      if i: nat :| DiffersAt(a[1..], b[1..], i) {
        DiffersBehind(a, b, i);
      }
      if i: nat :| DiffersAt(a, b, i) {
        DiffersBehind(a, b, i - 1);
      }
    } else if a != "" && b != "" {
      assert a[0] < b[0] ==> DiffersAt(a, b, 0);
      forall i: nat | DiffersAt(a, b, i)
        ensures a[0] < b[0]
      {
        DiffersAtFirst(a, b, i);
      }
    }
  }

  lemma {:induction false} LessTrichotomy(a: string, b: string)
    ensures a == b ==> !Less(a, b) && !Less(b, a)
    ensures a != b ==> Less(a, b) != Less(b, a)
  {
    if a != "" && b != "" && a[0] == b[0] {
      LessTrichotomy(a[1..], b[1..]);
      assert a == [a[0]] + a[1..] && b == [b[0]] + b[1..];
    }
  }

  lemma {:induction false} LessTransitive(a: string, b: string, c: string)
    requires Less(a, b) && Less(b, c)
    ensures Less(a, c)
  {
    if a != "" && a[0] == b[0] == c[0] {
      LessTransitive(a[1..], b[1..], c[1..]);
    }
  }
}
