/** `os.path.basename` and `os.path.splitext` as Python's `posixpath`
    defines them (separator `/`, extension separator `.`), and the base
    name that the Converter and the Dispatcher derive from an object key
    with them. */
module PyPath {
  import opened PyStr

  /** `os.path.basename(p)`: the longest suffix of `p` without a `/`. */
  function Basename(p: string): (b: string)
    ensures |b| <= |p| && b == p[|p| - |b|..]
    ensures '/' !in b
    ensures |b| < |p| ==> p[|p| - |b| - 1] == '/'
  {
    p[RFind(p, '/') + 1..]
  }

  /** `s` has a character other than `.`: skipping the leading dots does
      not reach its end. */
  predicate HasNonDot(s: string) {
    StripStart(s, {'.'}, 0) < |s|
  }

  /** `os.path.splitext(p)`: the extension runs from the last `.` of the
      last path component, provided that component has a character other
      than `.` before it (so `.bashrc` and `..` have no extension). */
  function SplitExt(p: string): (r: (string, string))
    ensures r.0 + r.1 == p
  {
    var sepIndex := RFind(p, '/');
    var dotIndex := RFind(p, '.');
    if dotIndex > sepIndex && HasNonDot(p[sepIndex + 1..dotIndex]) then
      var ext := p[dotIndex..];
      assert p[..dotIndex] + ext == p;
      (p[..dotIndex], ext)
    else
      (p, [])
  }

  /** The extension is empty or a `.` followed by neither `/` nor `.`. */
  lemma {:induction false} SplitExtShape(p: string)
    ensures var ext := SplitExt(p).1;
      (ext != [] ==> ext[0] == '.') &&
      (forall k :: 0 <= k < |ext| ==> ext[k] != '/') &&
      (forall k :: 1 <= k < |ext| ==> ext[k] != '.')
  {
    var sepIndex := RFind(p, '/');
    var dotIndex := RFind(p, '.');
    var ext := SplitExt(p).1;
    if ext != [] {
      assert ext == p[dotIndex..];
      forall k | 0 <= k < |ext| ensures ext[k] != '/' {
        assert ext[k] == p[dotIndex + k];
      }
      forall k | 1 <= k < |ext| ensures ext[k] != '.' {
        assert ext[k] == p[dotIndex + k];
      }
    }
  }

  /** `os.path.splitext(os.path.basename(key))[0]`: the base name that
      correlates the stages. */
  function BaseName(key: string): (b: string)
    ensures '/' !in b
  {
    SplitExt(Basename(key)).0
  }

  /** A string without `/` is its own basename. */
  lemma {:induction false} BasenameOfName(b: string)
    requires '/' !in b
    ensures Basename(b) == b
  {
  }

  /** Appending an extension to a name that has a character other than
      `.` splits back into the name and that extension. */
  lemma {:induction false} SplitExtAppend(b: string, ext: string)
    requires '/' !in b && HasNonDot(b)
    requires |ext| >= 1 && ext[0] == '.' && '/' !in ext
    requires forall k :: 1 <= k < |ext| ==> ext[k] != '.'
    ensures SplitExt(b + ext) == (b, ext)
  {
    var p := b + ext;
    assert RFind(p, '/') == -1;
    assert p[|b|] == '.';
    assert RFind(p, '.') == |b|;
    assert p[0..|b|] == b;
  }

  /** A name made only of dots takes no extension: `splitext("..mp3")`
      keeps the whole string as its root. */
  lemma {:induction false} SplitExtDotsOnly(b: string, ext: string)
    requires '/' !in b && !HasNonDot(b)
    requires |ext| >= 1 && ext[0] == '.' && '/' !in ext
    requires forall k :: 1 <= k < |ext| ==> ext[k] != '.'
    ensures SplitExt(b + ext) == (b + ext, [])
  {
    var p := b + ext;
    assert RFind(p, '/') == -1;
    assert p[|b|] == '.';
    assert RFind(p, '.') == |b|;
    assert p[0..|b|] == b;
  }
}
