/** os.path.splitext as the POSIX standard library implements it: the
    extension starts at the last '.', unless that dot is preceded, within the
    last path component, by dots only. */
module PyPath {

  /** str.rfind(c): the index of the last c in s, or -1. */
  function RFind(s: string, c: char): (i: int)
    ensures -1 <= i < |s|
    ensures 0 <= i ==> s[i] == c
    ensures forall j :: i < j < |s| ==> s[j] != c
    decreases |s|
  {
    if s == [] then -1
    else if s[|s| - 1] == c then |s| - 1
    else RFind(s[..|s| - 1], c)
  }

  /** The leading-dot loop of splitext: does p[lo..hi] hold a character other than '.'? */
  function HasNonDot(p: string, lo: nat, hi: nat): (b: bool)
    requires lo <= hi <= |p|
    ensures b <==> exists k :: lo <= k < hi && p[k] != '.'
    decreases hi - lo
  {
    if lo == hi then false
    else if p[lo] != '.' then true
    else HasNonDot(p, lo + 1, hi)
  }

  /** splitext(p) == (root, ext): root + ext is p; ext is empty or one dot
      followed by neither dots nor separators; ext is non-empty exactly when
      the last component has a '.' with some non-dot character before it. */
  function SplitExt(p: string): (r: (string, string))
    ensures r.0 + r.1 == p
    ensures r.1 == [] || (r.1[0] == '.' && forall k :: 1 <= k < |r.1| ==> r.1[k] != '.' && r.1[k] != '/')
    ensures r.1 != [] <==> exists j, k :: RFind(p, '/') < j < k < |p| && p[j] != '.' && p[k] == '.'
  {
    var sepIndex := RFind(p, '/');
    var dotIndex := RFind(p, '.');
    if dotIndex > sepIndex && HasNonDot(p, sepIndex + 1, dotIndex) then
      (p[..dotIndex], p[dotIndex..])
    else
      (p, [])
  }
}
