/** Node's POSIX `path.extname`, which `ImageService.generateImageKey` uses to keep the
    original file extension. */
module NodePath {
  import opened JsText

  /** `p` without its trailing '/' characters. */
  function StripTrailingSlashes(p: string): (r: string)
    ensures StartsWith(p, r)
    ensures r == "" || r[|r| - 1] != '/'
    decreases |p|
  {
    if p != [] && p[|p| - 1] == '/' then StripTrailingSlashes(p[..|p| - 1]) else p
  }

  /** The last path component once trailing separators are dropped. */
  function LastComponent(p: string): (base: string)
    ensures '/' !in base
    ensures EndsWith(StripTrailingSlashes(p), base)
  {
    var parts := Split(StripTrailingSlashes(p), '/');
    SplitLast(StripTrailingSlashes(p), '/');
    parts[|parts| - 1]
  }

  /** The index of the last `c` in `s`, or -1 when there is none. */
  function LastIndexOf(s: string, c: char): (r: int)
    ensures -1 <= r < |s|
    ensures r >= 0 ==> s[r] == c
    ensures forall j :: r < j < |s| ==> s[j] != c
    decreases |s|
  {
    if s == [] then -1
    else if s[|s| - 1] == c then |s| - 1
    else LastIndexOf(s[..|s| - 1], c)
  }

  /** `path.extname(p)`: the last component from its last '.' to its end. It is empty when
      the component has no '.', when its only '.' is its first character (".bashrc"), and
      for the component "..". */
  function ExtName(p: string): (ext: string)
    ensures ext == "" || (ext[0] == '.' && '.' !in ext[1..] && '/' !in ext)
    ensures EndsWith(StripTrailingSlashes(p), ext)
    ensures var base := LastComponent(p);
      ext == "" <==> base == ".." || forall i :: 1 <= i < |base| ==> base[i] != '.'
    ensures ext != "" ==> EndsWith(LastComponent(p), ext) && |ext| < |LastComponent(p)|
  {
    var base := LastComponent(p);
    var d := LastIndexOf(base, '.');
    if d <= 0 || base == ".." then ""
    else base[d..]
  }
}
