/** POSIX `os.path` operations: `join` of two parts, `basename`,
    `dirname` and `splitext`. */
module Paths {
  import opened Strings

  /** Index of the last `c` in `s`, or -1 (`s.rfind(c)`). */
  function RFind(s: string, c: char): (i: int)
    ensures -1 <= i < |s|
    ensures i >= 0 ==> s[i] == c
    ensures forall k :: i < k < |s| ==> s[k] != c
  {
    if s == [] then -1
    else if s[|s| - 1] == c then |s| - 1
    else RFind(s[..|s| - 1], c)
  }

  /** `os.path.join(a, b)`: an absolute `b` replaces `a`. */
  function Join(a: string, b: string): string {
    if StartsWith(b, "/") then b
    else if a == [] || EndsWith(a, "/") then a + b
    else a + "/" + b
  }

  /** The joined path ends with `b`, and starts with `a` unless `b` is
      absolute. */
  lemma JoinShape(a: string, b: string)
    ensures StartsWith(b, "/") ==> Join(a, b) == b
    ensures !StartsWith(b, "/") ==> EndsWith(Join(a, b), b) && StartsWith(Join(a, b), a)
  {
  }

  /** Joining the same directory to two relative names gives two paths that
      differ when the names do. */
  lemma JoinCancel(a: string, b1: string, b2: string)
    requires !StartsWith(b1, "/") && !StartsWith(b2, "/")
    requires Join(a, b1) == Join(a, b2)
    ensures b1 == b2
  {
    var d := if a == [] || EndsWith(a, "/") then a else a + "/";
    assert Join(a, b1) == d + b1 && Join(a, b2) == d + b2;
    assert (d + b1)[|d|..] == b1;
    assert (d + b2)[|d|..] == b2;
  }

  /** `os.path.basename(p)`: what follows the last `/`. */
  function Basename(p: string): (r: string)
    ensures !HasChar(r, '/')
    ensures EndsWith(p, r)
  {
    p[RFind(p, '/') + 1..]
  }

  function RStripSlashes(s: string): (r: string)
    ensures |r| <= |s| && r == s[..|r|]
  {
    if s != [] && s[|s| - 1] == '/' then RStripSlashes(s[..|s| - 1]) else s
  }

  predicate AllSlashes(s: string) {
    forall i :: 0 <= i < |s| ==> s[i] == '/'
  }

  /** `os.path.dirname(p)`: up to the last `/`, trailing slashes removed
      unless the head is nothing but slashes. */
  function Dirname(p: string): (r: string)
    ensures StartsWith(p, r)
  {
    var head := p[..RFind(p, '/') + 1];
    if head != [] && !AllSlashes(head) then RStripSlashes(head) else head
  }

  /** `os.path.splitext(p)`: the extension starts at the last dot of the last
      component, unless everything before that dot in the component is dots. */
  function SplitExt(p: string): (r: (string, string))
    ensures r.0 + r.1 == p
    ensures r.1 == [] || (r.1[0] == '.' && !HasChar(r.1, '/') && !HasChar(r.1[1..], '.'))
  {
    var sepIndex := RFind(p, '/');
    var dotIndex := RFind(p, '.');
    if dotIndex > sepIndex && exists k :: sepIndex + 1 <= k < dotIndex && p[k] != '.' then
      assert p[..dotIndex] + p[dotIndex..] == p;
      assert !HasChar(p[dotIndex..], '/') by {
        forall k | 0 <= k < |p[dotIndex..]| ensures p[dotIndex..][k] != '/' {
          assert p[dotIndex..][k] == p[dotIndex + k];
        }
      }
      assert !HasChar(p[dotIndex..][1..], '.') by {
        forall k | 0 <= k < |p[dotIndex..][1..]| ensures p[dotIndex..][1..][k] != '.' {
          assert p[dotIndex..][1..][k] == p[dotIndex + 1 + k];
        }
      }
      (p[..dotIndex], p[dotIndex..])
    else
      assert p + [] == p;
      (p, [])
  }

  /** `os.path.splitext(p)[1]` */
  function Ext(p: string): string {
    SplitExt(p).1
  }

  /** The last `c` is the one with no `c` after it. */
  lemma RFindIs(s: string, c: char, i: int)
    requires -1 <= i < |s| && (i >= 0 ==> s[i] == c)
    requires forall k :: i < k < |s| ==> s[k] != c
    ensures RFind(s, c) == i
  {
  }

  /** A component `stem + ext`, with `stem` free of dots and slashes and not
      empty, and `ext` a dot and then neither: `splitext` splits at that dot. */
  lemma SplitExtOfStem(dir: string, stem: string, ext: string)
    requires stem != [] && !HasChar(stem, '/') && !HasChar(stem, '.')
    requires |ext| >= 1 && ext[0] == '.' && !HasChar(ext, '/') && !HasChar(ext[1..], '.')
    ensures SplitExt(dir + "/" + stem + ext) == (dir + "/" + stem, ext)
  {
    var p := dir + "/" + stem + ext;
    var d := |dir| + 1 + |stem|;
    assert p[|dir|] == '/' && p[d] == '.';
    assert forall k :: |dir| < k < |p| ==> p[k] != '/' by {
      forall k | |dir| < k < |p| ensures p[k] != '/' {
        if k < d { assert p[k] == stem[k - |dir| - 1]; } else { assert p[k] == ext[k - d]; }
      }
    }
    assert forall k :: d < k < |p| ==> p[k] != '.' by {
      forall k | d < k < |p| ensures p[k] != '.' {
        assert p[k] == ext[1..][k - d - 1];
      }
    }
    RFindIs(p, '/', |dir|);
    RFindIs(p, '.', d);
    assert p[|dir| + 1] == stem[0] && stem[0] != '.';
    assert p[..d] == dir + "/" + stem && p[d..] == ext;
  }

  /** A dot file `dir/.ext` has no extension: everything before its dot is dots. */
  lemma SplitExtOfDotFile(dir: string, ext: string)
    requires |ext| >= 1 && ext[0] == '.' && !HasChar(ext, '/') && !HasChar(ext[1..], '.')
    ensures SplitExt(dir + "/" + ext) == (dir + "/" + ext, "")
  {
    var p := dir + "/" + ext;
    var d := |dir| + 1;
    assert forall k :: |dir| < k < |p| ==> p[k] != '/' by {
      forall k | |dir| < k < |p| ensures p[k] != '/' {
        assert p[k] == ext[k - d];
      }
    }
    assert forall k :: d < k < |p| ==> p[k] != '.' by {
      forall k | d < k < |p| ensures p[k] != '.' {
        assert p[k] == ext[1..][k - d - 1];
      }
    }
    assert p[|dir|] == '/' && p[d] == '.';
    RFindIs(p, '/', |dir|);
    RFindIs(p, '.', d);
  }
}
