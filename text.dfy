/**
 * The two pieces of .NET string behaviour the comparison relies on:
 * `String.Equals(_, StringComparison.OrdinalIgnoreCase)`, approximated by an
 * ASCII upper-case fold, and `String.Split(char)`, which keeps empty segments.
 */
module Text {
  import opened Wrappers

  /** Upper-case mapping of the ASCII letters; every other character maps to itself. */
  function ToUpper(c: char): char {
    if 'a' <= c <= 'z' then (c as int - 32) as char else c
  }

  function Fold(s: string): string {
    seq(|s|, i requires 0 <= i < |s| => ToUpper(s[i]))
  }

  /** Ordinal comparison ignoring case: equal lengths, and equal characters once folded. */
  predicate EqualsIgnoreCase(a: string, b: string)
  {
    Fold(a) == Fold(b)
  }

  lemma EqualsIgnoreCaseIff(a: string, b: string)
    ensures EqualsIgnoreCase(a, b) <==>
              |a| == |b| && forall i :: 0 <= i < |a| ==> ToUpper(a[i]) == ToUpper(b[i])
  {
    if |a| == |b| && forall i :: 0 <= i < |a| ==> ToUpper(a[i]) == ToUpper(b[i]) {
      assert forall i :: 0 <= i < |a| ==> Fold(a)[i] == Fold(b)[i];
    }
    if EqualsIgnoreCase(a, b) {
      assert |Fold(a)| == |a| && |Fold(b)| == |b|;
      forall i | 0 <= i < |a| ensures ToUpper(a[i]) == ToUpper(b[i]) {
        assert Fold(a)[i] == Fold(b)[i];
      }
    }
  }

  /** The position of the first `c` in `s`, if any. */
  function IndexOf(s: string, c: char): (r: Option<nat>)
    ensures r.None? <==> c !in s
    ensures r.Some? ==> r.value < |s| && s[r.value] == c && c !in s[..r.value]
  {
    if s == [] then None
    else if s[0] == c then Some(0)
    else match IndexOf(s[1..], c)
      case None => None
      case Some(k) =>
        assert s[..k + 1] == [s[0]] + s[1..][..k];
        Some(k + 1)
  }

  /** `s.Split(sep)`: the segments between occurrences of `sep`, empty ones included. */
  function Split(s: string, sep: char): (parts: seq<string>)
    ensures |parts| >= 1
    decreases |s|
  {
    match IndexOf(s, sep)
    case None => [s]
    case Some(k) => [s[..k]] + Split(s[k + 1..], sep)
  }

  /** `String.Join(sep, parts)`. */
  function Join(parts: seq<string>, sep: char): string
    requires |parts| >= 1
    decreases |parts|
  {
    if |parts| == 1 then parts[0] else parts[0] + [sep] + Join(parts[1..], sep)
  }

  /** Joining the segments again restores the string. */
  lemma {:induction false} SplitJoin(s: string, sep: char)
    ensures Join(Split(s, sep), sep) == s
    decreases |s|
  {
    match IndexOf(s, sep)
    case None =>
    case Some(k) =>
      var parts := Split(s, sep);
      assert parts[1..] == Split(s[k + 1..], sep);
      SplitJoin(s[k + 1..], sep);
      assert Join(parts, sep) == s[..k] + [sep] + s[k + 1..];
      assert s == s[..k] + [sep] + s[k + 1..];
  }

  /** No segment contains the separator. */
  lemma {:induction false} SplitSegments(s: string, sep: char)
    ensures forall i :: 0 <= i < |Split(s, sep)| ==> sep !in Split(s, sep)[i]
    decreases |s|
  {
    match IndexOf(s, sep)
    case None =>
    case Some(k) =>
      SplitSegments(s[k + 1..], sep);
      assert Split(s, sep)[1..] == Split(s[k + 1..], sep);
  }

  /** There is one more segment than there are separators. */
  lemma {:induction false} SplitCount(s: string, sep: char)
    ensures |Split(s, sep)| == multiset(s)[sep] + 1
    decreases |s|
  {
    match IndexOf(s, sep)
    case None =>
    case Some(k) =>
      SplitCount(s[k + 1..], sep);
      assert s == s[..k] + [sep] + s[k + 1..];
      assert multiset(s) == multiset(s[..k]) + multiset{sep} + multiset(s[k + 1..]);
      assert multiset(s[..k])[sep] == 0;
  }

  /** Splitting a join of separator-free segments gives back the segments. */
  lemma {:induction false} JoinSplit(parts: seq<string>, sep: char)
    requires |parts| >= 1
    requires forall i :: 0 <= i < |parts| ==> sep !in parts[i]
    ensures Split(Join(parts, sep), sep) == parts
    decreases |parts|
  {
    if |parts| == 1 {
      SplitWithout(parts[0], sep);
    } else {
      JoinSplit(parts[1..], sep);
      SplitAfter(parts[0], Join(parts[1..], sep), sep);
    }
  }

  lemma SplitWithout(s: string, sep: char)
    requires sep !in s
    ensures Split(s, sep) == [s]
  {
  }

  /** A separator-free prefix followed by the separator is exactly the first segment. */
  lemma SplitAfter(x: string, y: string, sep: char)
    requires sep !in x
    ensures Split(x + [sep] + y, sep) == [x] + Split(y, sep)
  {
    var s := x + [sep] + y;
    assert s[|x|] == sep;
    assert s[..|x|] == x && s[|x| + 1..] == y;
  }

  /** Prefixing a separator-free string extends the first segment and nothing else. */
  lemma {:induction false} FirstSegmentAppend(x: string, y: string, sep: char)
    requires sep !in x
    ensures Split(x + y, sep)[0] == x + Split(y, sep)[0]
  {
    var s := x + y;
    match IndexOf(y, sep)
    case None =>
    case Some(k) =>
      assert y == y[..k] + [sep] + y[k + 1..];
      assert s == (x + y[..k]) + [sep] + y[k + 1..];
      assert sep !in x + y[..k];
      SplitAfter(x + y[..k], y[k + 1..], sep);
      SplitAfter(y[..k], y[k + 1..], sep);
  }

  /** A character absent from `s` is absent from every segment of it. */
  lemma {:induction false} SplitKeepsAbsent(s: string, sep: char, c: char)
    requires c !in s
    ensures forall i :: 0 <= i < |Split(s, sep)| ==> c !in Split(s, sep)[i]
    decreases |s|
  {
    match IndexOf(s, sep)
    case None =>
    case Some(k) =>
      assert c !in s[k + 1..] by {
        assert s == s[..k + 1] + s[k + 1..];
      }
      SplitKeepsAbsent(s[k + 1..], sep, c);
  }

  /** The first segment is empty exactly when `s` is empty or starts with the separator. */
  lemma FirstSegmentEmpty(s: string, sep: char)
    ensures Split(s, sep)[0] == [] <==> s == [] || s[0] == sep
    ensures s != [] && s[0] != sep ==> Split(s, sep)[0][0] == s[0]
  {
  }
}
