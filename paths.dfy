/** String helpers the viewer relies on: ASCII case mapping as done by
    `str.lower`, `str.endswith`, and the POSIX forms of `os.path.join` and
    `os.path.basename`. Strings are sequences of characters. */
module Paths {

  const Sep: char := '/'

  predicate IsUpperAscii(c: char) {
    'A' <= c <= 'Z'
  }

  /** `str.lower` on one character, restricted to ASCII letters. */
  function LowerChar(c: char): (r: char)
    ensures !IsUpperAscii(r)
    ensures IsUpperAscii(c) ==> r as int == c as int + 32
    ensures !IsUpperAscii(c) ==> r == c
  {
    if IsUpperAscii(c) then (c as int + 32) as char else c
  }

  function UpperChar(c: char): (r: char)
    ensures LowerChar(r) == LowerChar(c)
  {
    if 'a' <= c <= 'z' then (c as int - 32) as char else c
  }

  function Lower(s: string): (r: string)
    ensures |r| == |s|
    ensures forall i :: 0 <= i < |s| ==> r[i] == LowerChar(s[i])
  {
    seq(|s|, i requires 0 <= i < |s| => LowerChar(s[i]))
  }

  function Upper(s: string): (r: string)
    ensures |r| == |s|
    ensures forall i :: 0 <= i < |s| ==> r[i] == UpperChar(s[i])
  {
    seq(|s|, i requires 0 <= i < |s| => UpperChar(s[i]))
  }

  /** `s.endswith(suffix)` */
  predicate EndsWith(s: string, suffix: string) {
    |suffix| <= |s| && s[|s| - |suffix|..] == suffix
  }

  /** A lower-cased string contains no upper-case ASCII letter. */
  lemma LowerHasNoUpper(s: string, i: int)
    requires 0 <= i < |s|
    ensures !IsUpperAscii(Lower(s)[i])
  {
  }

  /** Lower-casing ignores the case the input was written in. */
  lemma {:induction false} LowerOfUpper(s: string)
    ensures Lower(Upper(s)) == Lower(s)
  {
    assert forall i :: 0 <= i < |s| ==> Lower(Upper(s))[i] == LowerChar(UpperChar(s[i])) == Lower(s)[i];
  }

  /** `posixpath.join(root, name)` for two components: the result ends
      with `name`, and starts with `root` unless `name` is absolute. */
  function Join(root: string, name: string): (r: string)
    ensures EndsWith(r, name)
    ensures (|name| > 0 && name[0] == Sep) || (|root| <= |r| && r[..|root|] == root)
  {
    if |name| > 0 && name[0] == Sep then name
    else if |root| == 0 || root[|root| - 1] == Sep then root + name
    else root + [Sep] + name
  }

  /** `posixpath.basename(p)`: everything after the last separator. */
  function Basename(p: string): string {
    if |p| == 0 || p[|p| - 1] == Sep then []
    else Basename(p[..|p| - 1]) + [p[|p| - 1]]
  }

  /** The base name is the longest separator-free tail of the path. */
  lemma {:induction false} BasenameIsLastComponent(p: string)
    ensures var r := Basename(p);
      && Sep !in r
      && |r| <= |p| && p[|p| - |r|..] == r
      && (|r| == |p| || p[|p| - |r| - 1] == Sep)
  {
    if |p| > 0 && p[|p| - 1] != Sep {
      var init := p[..|p| - 1];
      BasenameIsLastComponent(init);
      var r0 := Basename(init);
      assert p[|p| - |r0| - 1..] == init[|init| - |r0|..] + [p[|p| - 1]];
    }
  }

  /** The name a join was given is what basename recovers, provided the name
      holds no separator (as every entry that a directory walk lists). */
  lemma {:induction false} BasenameOfJoin(root: string, name: string)
    requires Sep !in name
    ensures Basename(Join(root, name)) == name
  {
    var prefix := if |root| == 0 || root[|root| - 1] == Sep then root else root + [Sep];
    assert Join(root, name) == prefix + name;
    BasenameAfterSep(prefix, name);
  }

  lemma {:induction false} BasenameAfterSep(prefix: string, name: string)
    requires |prefix| == 0 || prefix[|prefix| - 1] == Sep
    requires Sep !in name
    ensures Basename(prefix + name) == name
  {
    var whole := prefix + name;
    if |name| == 0 {
      assert whole == prefix;
    } else {
      var init, last := name[..|name| - 1], name[|name| - 1];
      assert last != Sep;
      assert whole[|whole| - 1] == last;
      assert whole[..|whole| - 1] == prefix + init;
      assert Sep !in init by {
        forall i | 0 <= i < |init| ensures init[i] != Sep { assert init[i] == name[i]; }
      }
      BasenameAfterSep(prefix, init);
      assert Basename(whole) == Basename(prefix + init) + [last];
      assert init + [last] == name;
    }
  }
}
