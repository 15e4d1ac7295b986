/** Path names: cutting at slashes and putting together again. */
module Paths {
  import opened BitStream

  const SLASH: byte := 47

  type Name = seq<byte>
  type Path = seq<Name>

  /** How many characters lie before the first slash. */
  function UpToSlash(s: seq<byte>): (n: nat)
    ensures n <= |s| && SLASH !in s[..n] && (n < |s| ==> s[n] == SLASH)
  {
    if s == [] || s[0] == SLASH then 0 else
      var n := 1 + UpToSlash(s[1..]);
      assert s[..n] == [s[0]] + s[1..][..n - 1];
      n
  }

  /** The components between the slashes, at least one. */
  function Split(s: seq<byte>): (p: Path)
    ensures |p| > 0 && forall i | 0 <= i < |p| :: SLASH !in p[i]
  {
    var n := UpToSlash(s);
    if n == |s| then [s] else [s[..n]] + Split(s[n + 1..])
  }

  function Join(p: Path): seq<byte> {
    if p == [] then [] else if |p| == 1 then p[0] else p[0] + [SLASH] + Join(p[1..])
  }

  lemma {:induction false} UpToFirst(a: seq<byte>, b: seq<byte>)
    requires SLASH !in a && (b == [] || b[0] == SLASH)
    ensures UpToSlash(a + b) == |a|
  {
    if a != [] {
      assert (a + b)[1..] == a[1..] + b;
      UpToFirst(a[1..], b);
    }
  }

  lemma {:induction false} SplitJoin(p: Path)
    requires |p| > 0 && forall i | 0 <= i < |p| :: SLASH !in p[i]
    ensures Split(Join(p)) == p
  {
    if |p| == 1 {
      UpToFirst(p[0], []);
      assert p[0] + [] == p[0];
    } else {
      var rest := Join(p[1..]);
      UpToFirst(p[0], [SLASH] + rest);
      assert Join(p) == p[0] + ([SLASH] + rest);
      assert Join(p)[..|p[0]|] == p[0] && Join(p)[|p[0]| + 1..] == rest;
      SplitJoin(p[1..]);
    }
  }

  lemma {:induction false} JoinSplit(s: seq<byte>)
    ensures Join(Split(s)) == s
  {
    var n := UpToSlash(s);
    if n < |s| {
      JoinSplit(s[n + 1..]);
      hide UpToSlash;
      assert Split(s) == [s[..n]] + Split(s[n + 1..]);
      JoinCons(s[..n], Split(s[n + 1..]));
      assert s == s[..n] + [SLASH] + s[n + 1..];
    }
  }

  lemma JoinCons(c: Name, p: Path)
    requires |p| > 0
    ensures Join([c] + p) == c + [SLASH] + Join(p)
  {
    assert ([c] + p)[1..] == p;
  }

  /** What is split when the first component has been read up to i. */
  lemma SplitAt(s: seq<byte>, start: nat, i: nat)
    requires start <= i <= |s| && SLASH !in s[start..i]
    ensures i == |s| ==> Split(s[start..]) == [s[start..i]]
    ensures i < |s| && s[i] == SLASH ==> Split(s[start..]) == [s[start..i]] + Split(s[i + 1..])
  {
    var t := s[start..];
    assert t[..i - start] == s[start..i];
    if i == |s| || s[i] == SLASH {
      assert t == s[start..i] + s[i..];
      UpToFirst(s[start..i], s[i..]);
      if i < |s| {
        assert t[i - start + 1..] == s[i + 1..];
      } else {
        assert t == s[start..i];
      }
    }
  }
}
