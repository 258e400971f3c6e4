/** String helpers on document paths, as the manager uses them. */
module Paths {

  /** Python's `s.endswith(suffix)`. */
  predicate EndsWith(s: string, suffix: string)
  {
    |suffix| <= |s| && s[|s| - |suffix|..] == suffix
  }

  lemma EndsWithAppend(p: string, s: string, suffix: string)
    requires EndsWith(s, suffix)
    ensures EndsWith(p + s, suffix)
  {
    assert (p + s)[|p + s| - |suffix|..] == s[|s| - |suffix|..];
  }

  /**
   * The last segment of a path, `path.rsplit('/', 1)[-1]` in the source: what
   * follows the last '/', or the whole path when it holds no '/'.  The three
   * ensures characterise it: a '/'-free suffix that is either all of the path
   * or starts right after a '/'.
   */
  function BaseName(path: string): (name: string)
    ensures EndsWith(path, name)
    ensures '/' !in name
    ensures name == path || path[|path| - |name| - 1] == '/'
    decreases |path|
  {
    if path == [] then []
    else if path[|path| - 1] == '/' then []
    else
      var init, last := path[..|path| - 1], path[|path| - 1];
      var prev := BaseName(init);
      assert path == init + [last];
      LastSegmentStep(init, last, prev);
      prev + [last]
  }

  /** Appending a character other than '/' extends the last segment by it. */
  lemma LastSegmentStep(init: string, last: char, prev: string)
    requires last != '/'
    requires EndsWith(init, prev) && '/' !in prev
    requires prev == init || init[|init| - |prev| - 1] == '/'
    ensures EndsWith(init + [last], prev + [last]) && '/' !in prev + [last]
    ensures prev + [last] == init + [last] || (init + [last])[|init| - |prev| - 1] == '/'
  {
    var path := init + [last];
    assert path[|path| - |prev| - 1..] == init[|init| - |prev|..] + [last];
  }

  /** The characterisation of BaseName determines it: any '/'-free suffix that
    * is all of the path or follows a '/' is the base name. */
  lemma BaseNameUnique(path: string, name: string)
    requires EndsWith(path, name)
    requires '/' !in name
    requires name == path || path[|path| - |name| - 1] == '/'
    ensures BaseName(path) == name
  {
  }

  /** A '/'-free suffix of `dir/name` lies within `name`. */
  lemma EndsWithChild(dir: string, name: string, suffix: string)
    requires '/' !in suffix
    ensures EndsWith(dir + "/" + name, suffix) <==> EndsWith(name, suffix)
  {
    var path := dir + "/" + name;
    if |suffix| <= |name| {
      assert path[|path| - |suffix|..] == name[|name| - |suffix|..];
    } else if |suffix| <= |path| {
      // the '/' before `name` falls inside the last |suffix| characters
      assert path[|path| - |name| - 1] == '/';
      assert path[|path| - |suffix|..][|suffix| - |name| - 1] == '/';
    }
  }

  /** The base name of `dir/name` is `name` when `name` holds no '/'. */
  lemma BaseNameOfChild(dir: string, name: string)
    requires '/' !in name
    ensures BaseName(dir + "/" + name) == name
  {
    var path := dir + "/" + name;
    assert path[|path| - |name|..] == name;
    assert path[|path| - |name| - 1] == '/';
    BaseNameUnique(path, name);
  }
}
