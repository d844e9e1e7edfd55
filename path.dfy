/** `last_name` of filesys.c: the final component of a path string. */
module Path {

  /** The characters after the last '/' of `s` (all of `s` when it has none). */
  function FinalComponent(s: string): (r: string)
    ensures |r| <= |s| && r == s[|s| - |r|..]
    ensures '/' !in r
    ensures |r| < |s| ==> s[|s| - |r| - 1] == '/'
  {
    if s == [] then []
    else if s[|s| - 1] == '/' then []
    else FinalComponent(s[..|s| - 1]) + [s[|s| - 1]]
  }

  /** What `last_name` leaves in `dest` for the path `src`: strings of length
      0 or 1 are copied unchanged, longer ones are cut after their last '/'. */
  function LastNameOf(src: string): (r: string)
    ensures |r| <= |src| && r == src[|src| - |r|..]
    ensures |src| > 1 ==> '/' !in r
  {
    if |src| <= 1 then src else FinalComponent(src)
  }

  /** `last_name(src, dest)`: scans `src` backwards for the last '/' and copies
      what follows it (or all of `src` when there is none, or when `src` is at
      most one character long). */
  method LastName(src: string) returns (name: string)
    ensures name == LastNameOf(src)
  {
    var size := |src|;
    if size > 1 {
      var i := size - 1;
      while i >= 0
        invariant -1 <= i < size
        invariant forall k :: i < k < size ==> src[k] != '/'
      {
        if src[i] == '/' {
          AfterLastSlash(src, i);
          name := src[i + 1..];
          return;
        }
        i := i - 1;
      }
      NoSlashUnchanged(src);
    }
    name := src;
  }

  /** A path without '/' is its own final component. */
  lemma {:induction false} NoSlashUnchanged(s: string)
    requires '/' !in s
    ensures FinalComponent(s) == s
  {
    if s != [] {
      NoSlashUnchanged(s[..|s| - 1]);
    }
  }

  /** When `i` is the position of the last '/', the final component is exactly
      the characters after it. */
  lemma AfterLastSlash(s: string, i: int)
    requires 0 <= i < |s| && s[i] == '/'
    requires forall k :: i < k < |s| ==> s[k] != '/'
    ensures FinalComponent(s) == s[i + 1..]
  {
    var r := FinalComponent(s);
    var start := |s| - |r|;
    InSuffix(s, start, i);
    assert i < start;
    assert s[start - 1] == '/';
  }

  /** The character at position `i` belongs to every suffix that starts at or before `i`. */
  lemma InSuffix(s: string, start: nat, i: nat)
    requires start <= |s|
    ensures start <= i < |s| ==> s[i] in s[start..]
  {
    if start <= i < |s| {
      assert s[start..][i - start] == s[i];
    }
  }

  /** A longer path with a '/' yields exactly what follows its last '/'. */
  lemma LastNameAfterLastSlash(src: string, i: int)
    requires |src| > 1 && 0 <= i < |src| && src[i] == '/'
    requires forall k :: i < k < |src| ==> src[k] != '/'
    ensures LastNameOf(src) == src[i + 1..]
  {
    AfterLastSlash(src, i);
  }

  /** A path without '/' comes back unchanged, whatever its length. */
  lemma LastNameWithoutSlash(src: string)
    requires '/' !in src
    ensures LastNameOf(src) == src
  {
    NoSlashUnchanged(src);
  }

  /** "/" (and every other string of length 0 or 1) is copied unchanged. */
  lemma LastNameOfShort(src: string)
    requires |src| <= 1
    ensures LastNameOf(src) == src
  {
  }

  /** A path longer than one character that ends in '/' has the empty name. */
  lemma LastNameTrailingSlash(src: string)
    requires |src| > 1 && src[|src| - 1] == '/'
    ensures LastNameOf(src) == []
  {
  }
}
