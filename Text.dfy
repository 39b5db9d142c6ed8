/**
 * The string and path primitives of the .NET runtime that the service and the
 * controller rely on, on already-normalised paths whose separator is '/':
 * ToLowerInvariant, ordinal case-insensitive comparison, TrimEnd,
 * Path.GetExtension, Path.GetFileName and Path.Combine. Case mapping is ASCII.
 */
module Text {

  const Separator: char := '/'

  function LowerChar(c: char): char {
    if 'A' <= c <= 'Z' then (c as int + 32) as char else c
  }

  function UpperChar(c: char): char {
    if 'a' <= c <= 'z' then (c as int - 32) as char else c
  }

  /** String.ToLowerInvariant, restricted to ASCII letters. */
  function ToLower(s: string): (r: string)
    ensures |r| == |s|
    ensures forall i :: 0 <= i < |s| ==> r[i] == LowerChar(s[i])
  {
    seq(|s|, i requires 0 <= i < |s| => LowerChar(s[i]))
  }

  /** ASCII upper-casing: ordinal case-insensitive comparison compares upper-cased characters. */
  function ToUpper(s: string): (r: string)
    ensures |r| == |s|
    ensures forall i :: 0 <= i < |s| ==> r[i] == UpperChar(s[i])
  {
    seq(|s|, i requires 0 <= i < |s| => UpperChar(s[i]))
  }

  lemma ToUpperAppend(a: string, b: string)
    ensures ToUpper(a + b) == ToUpper(a) + ToUpper(b)
  {
    assert forall i :: 0 <= i < |a + b| ==> ToUpper(a + b)[i] == (ToUpper(a) + ToUpper(b))[i];
  }

  lemma ToLowerSlice(s: string, i: nat)
    requires i <= |s|
    ensures ToLower(s)[i..] == ToLower(s[i..])
  {
  }

  /** s.StartsWith(prefix, StringComparison.OrdinalIgnoreCase). */
  predicate StartsWithIgnoreCase(s: string, prefix: string) {
    |prefix| <= |s| && ToUpper(s[..|prefix|]) == ToUpper(prefix)
  }

  /** Ordinal lexicographic order on code points; a proper prefix comes first. */
  predicate OrdinalLeq(a: string, b: string) {
    if a == [] then true
    else if b == [] then false
    else if a[0] != b[0] then a[0] < b[0]
    else OrdinalLeq(a[1..], b[1..])
  }

  /** StringComparer.OrdinalIgnoreCase: a sorts no later than b. */
  predicate LeqIgnoreCase(a: string, b: string) {
    OrdinalLeq(ToUpper(a), ToUpper(b))
  }

  lemma {:induction false} OrdinalLeqTotal(a: string, b: string)
    ensures OrdinalLeq(a, b) || OrdinalLeq(b, a)
  {
    if a != [] && b != [] && a[0] == b[0] {
      OrdinalLeqTotal(a[1..], b[1..]);
    }
  }

  lemma {:induction false} OrdinalLeqTransitive(a: string, b: string, c: string)
    requires OrdinalLeq(a, b) && OrdinalLeq(b, c)
    ensures OrdinalLeq(a, c)
  {
    if a != [] && b != [] && c != [] && a[0] == b[0] && b[0] == c[0] {
      OrdinalLeqTransitive(a[1..], b[1..], c[1..]);
    }
  }

  /** The case-insensitive ordering is total and transitive, so sorting by it is well defined. */
  lemma LeqIgnoreCaseIsTotalPreorder(a: string, b: string, c: string)
    ensures LeqIgnoreCase(a, b) || LeqIgnoreCase(b, a)
    ensures LeqIgnoreCase(a, b) && LeqIgnoreCase(b, c) ==> LeqIgnoreCase(a, c)
  {
    OrdinalLeqTotal(ToUpper(a), ToUpper(b));
    if LeqIgnoreCase(a, b) && LeqIgnoreCase(b, c) {
      OrdinalLeqTransitive(ToUpper(a), ToUpper(b), ToUpper(c));
    }
  }

  /** s.TrimEnd(c): removes every trailing occurrence of c. */
  function TrimEnd(s: string, c: char): string
    decreases |s|
  {
    if |s| > 0 && s[|s| - 1] == c then TrimEnd(s[..|s| - 1], c) else s
  }

  lemma TrimEndUnchanged(s: string, c: char)
    requires |s| > 0 && s[|s| - 1] != c
    ensures TrimEnd(s, c) == s
  {
  }

  predicate HasNoSeparator(s: string) {
    forall i :: 0 <= i < |s| ==> s[i] != Separator
  }

  /**
   * Path.Combine(a, b): a alone when b is empty; b alone when it is rooted or a is empty;
   * otherwise a separator joins them.
   */
  function Combine(a: string, b: string): string {
    if |b| == 0 then a
    else if b[0] == Separator then b
    else if |a| == 0 then b
    else if a[|a| - 1] == Separator then a + b
    else a + [Separator] + b
  }

  /**
   * Path.GetExtension: from the last '.' that follows the last separator to the end;
   * empty when there is no such '.' or when it is the last character.
   */
  function GetExtension(p: string): string {
    ExtensionFrom(p, |p|)
  }

  /** GetExtension's backward scan over p[..i]. */
  function ExtensionFrom(p: string, i: nat): string
    requires i <= |p|
    decreases i
  {
    if i == 0 then ""
    else if p[i - 1] == '.' then (if i == |p| then "" else p[i - 1..])
    else if p[i - 1] == Separator then ""
    else ExtensionFrom(p, i - 1)
  }

  /** Path.GetFileName: what follows the last separator. */
  function GetFileName(p: string): string {
    FileNameFrom(p, |p|)
  }

  function FileNameFrom(p: string, i: nat): string
    requires i <= |p|
    decreases i
  {
    if i == 0 then p
    else if p[i - 1] == Separator then p[i..]
    else FileNameFrom(p, i - 1)
  }

  /** Lower-casing a path and taking its extension commute: neither '.' nor '/' has a case. */
  lemma {:induction false} ExtensionFromToLower(p: string, i: nat)
    requires i <= |p|
    ensures ExtensionFrom(ToLower(p), i) == ToLower(ExtensionFrom(p, i))
    decreases i
  {
    if i > 0 {
      if p[i - 1] == '.' {
        if i < |p| { ToLowerSlice(p, i - 1); }
      } else if p[i - 1] != Separator {
        ExtensionFromToLower(p, i - 1);
      }
    }
  }

  lemma GetExtensionToLower(p: string)
    ensures GetExtension(ToLower(p)) == ToLower(GetExtension(p))
  {
    ExtensionFromToLower(p, |p|);
  }

  /**
   * Lower-casing twice is lower-casing once; it leaves the dots and separators that the
   * path functions look for where they were; and upper-casing forgets it, so an ordinal
   * case-insensitive comparison cannot tell a string from its lower-cased form.
   */
  lemma ToLowerProperties(s: string)
    ensures ToLower(ToLower(s)) == ToLower(s)
    ensures forall i :: 0 <= i < |s| ==> (ToLower(s)[i] == '.' <==> s[i] == '.')
    ensures forall i :: 0 <= i < |s| ==> (ToLower(s)[i] == Separator <==> s[i] == Separator)
    ensures ToUpper(ToLower(s)) == ToUpper(s)
  {
    forall i | 0 <= i < |s| ensures UpperChar(LowerChar(s[i])) == UpperChar(s[i]) {
      var c := s[i];
      if 'A' <= c <= 'Z' {
        assert 'a' <= LowerChar(c) <= 'z';
        assert (LowerChar(c) as int - 32) as char == c;
      }
    }
  }

  /** Scanning a name placed after a separator never looks past the separator. */
  lemma {:induction false} ExtensionFromAfterSeparator(dir: string, name: string, j: nat)
    requires |dir| > 0 && dir[|dir| - 1] == Separator
    requires j <= |name| && HasNoSeparator(name)
    ensures ExtensionFrom(dir + name, |dir| + j) == ExtensionFrom(name, j)
    decreases j
  {
    var p := dir + name;
    if j > 0 {
      assert p[|dir| + j - 1] == name[j - 1];
      if name[j - 1] == '.' {
        assert p[|dir| + j - 1..] == name[j - 1..];
      } else {
        ExtensionFromAfterSeparator(dir, name, j - 1);
      }
    }
  }

  lemma {:induction false} FileNameFromAfterSeparator(dir: string, name: string, j: nat)
    requires |dir| > 0 && dir[|dir| - 1] == Separator
    requires j <= |name| && HasNoSeparator(name)
    ensures FileNameFrom(dir + name, |dir| + j) == name
    decreases j
  {
    var p := dir + name;
    if j == 0 {
      assert p[|dir|..] == name;
    } else {
      assert p[|dir| + j - 1] == name[j - 1];
      FileNameFromAfterSeparator(dir, name, j - 1);
    }
  }

  /**
   * Joining a folder and a plain file name and splitting them again gives back the
   * name, and the extension of the joined path is the name's own.
   */
  lemma CombineThenSplit(dir: string, name: string)
    requires |dir| > 0 && |name| > 0 && HasNoSeparator(name)
    ensures GetFileName(Combine(dir, name)) == name
    ensures GetExtension(Combine(dir, name)) == GetExtension(name)
  {
    var d := if dir[|dir| - 1] == Separator then dir else dir + [Separator];
    assert Combine(dir, name) == d + name;
    FileNameFromAfterSeparator(d, name, |name|);
    ExtensionFromAfterSeparator(d, name, |name|);
  }

  /** Two strings with a common beginning: starting with the other is decided by the rest. */
  lemma StartsWithIgnoreCaseAfterCommonPrefix(p: string, a: string, b: string)
    ensures StartsWithIgnoreCase(p + a, p + b) <==> StartsWithIgnoreCase(a, b)
  {
    if |b| <= |a| {
      assert (p + a)[..|p + b|] == p + a[..|b|];
      ToUpperAppend(p, a[..|b|]);
      ToUpperAppend(p, b);
      if ToUpper(p) + ToUpper(a[..|b|]) == ToUpper(p) + ToUpper(b) {
        assert ToUpper(a[..|b|]) == (ToUpper(p) + ToUpper(a[..|b|]))[|p|..];
      }
    }
  }
}
