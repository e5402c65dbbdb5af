/**
 An approximation of `System.IO.Path.HasExtension` as the .NET Framework
 defines it on Windows: scanning from the end of the path, the first
 character that is a `.` or a directory/volume separator decides. A `.`
 there means the path has an extension unless it is the final character;
 a separator, or reaching the start, means it has none.
 */
module Paths {

  /** Directory separator, alternative directory separator, volume separator. */
  predicate IsSeparatorChar(c: char) {
    c == '\\' || c == '/' || c == ':'
  }

  /** A character that stops the backward scan for an extension. */
  predicate IsStopChar(c: char) {
    c == '.' || IsSeparatorChar(c)
  }

  /**
   `k` is the dot that starts an extension of `path`: it is a `.`, some
   character follows it, and nothing after it is a dot or a separator.
   */
  ghost predicate IsExtensionDot(path: string, k: int) {
    && 0 <= k < |path| - 1
    && path[k] == '.'
    && forall j :: k < j < |path| ==> !IsStopChar(path[j])
  }

  /** The path's last file-name component carries a non-empty extension. */
  ghost predicate HasExtensionSpec(path: string) {
    exists k :: IsExtensionDot(path, k)
  }

  /**
   The backward scan over `path[..i]`, for a caller that has already
   passed over `path[i..]` without meeting a stop character.
   */
  function ScanForExtension(path: string, i: nat): (b: bool)
    requires i <= |path|
    requires forall j :: i <= j < |path| ==> !IsStopChar(path[j])
    ensures b <==> HasExtensionSpec(path)
  {
    if i == 0 then
      assert forall k :: 0 <= k < |path| ==> !IsStopChar(path[k]);
      false
    else if path[i - 1] == '.' then
      if i - 1 != |path| - 1 then
        assert IsExtensionDot(path, i - 1);
        true
      else
        assert forall k :: !IsExtensionDot(path, k) by {
          forall k | 0 <= k < |path| - 1 && path[k] == '.' ensures !IsExtensionDot(path, k) {
            assert IsStopChar(path[i - 1]);
          }
        }
        false
    else if IsSeparatorChar(path[i - 1]) then
      assert forall k :: !IsExtensionDot(path, k) by {
        forall k | 0 <= k < |path| - 1 && path[k] == '.' ensures !IsExtensionDot(path, k) {
          if k >= i - 1 {
            assert IsStopChar(path[k]);
          } else {
            assert IsStopChar(path[i - 1]);
          }
        }
      }
      false
    else
      ScanForExtension(path, i - 1)
  }

  /** `System.IO.Path.HasExtension(path)`. */
  function HasExtension(path: string): (b: bool)
    ensures b <==> HasExtensionSpec(path)
  {
    ScanForExtension(path, |path|)
  }

  /**
   Putting text without dots in front of a path does not change whether
   it has an extension: the scan either stops inside the original path or
   runs through the added text without finding a dot.
   */
  lemma {:induction false} HasExtensionIgnoresDotlessPrefix(p: string, x: string)
    requires forall i :: 0 <= i < |p| ==> p[i] != '.'
    ensures HasExtension(p + x) == HasExtension(x)
  {
    var px := p + x;
    if HasExtensionSpec(x) {
      var k :| IsExtensionDot(x, k);
      forall j | |p| + k < j < |px| ensures !IsStopChar(px[j]) {
        assert px[j] == x[j - |p|];
      }
      assert px[|p| + k] == x[k];
      assert IsExtensionDot(px, |p| + k);
    }
    if HasExtensionSpec(px) {
      var k :| IsExtensionDot(px, k);
      assert forall i :: 0 <= i < |p| ==> px[i] == p[i];
      forall j | k - |p| < j < |x| ensures !IsStopChar(x[j]) {
        assert x[j] == px[j + |p|];
      }
      assert x[k - |p|] == px[k];
      assert IsExtensionDot(x, k - |p|);
    }
  }

  /** A path without any dot has no extension. */
  lemma DotlessHasNoExtension(path: string)
    requires forall i :: 0 <= i < |path| ==> path[i] != '.'
    ensures !HasExtension(path)
  {
  }
}
