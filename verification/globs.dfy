/** `fnmatch.fnmatch(name, pattern)` on POSIX for the patterns the
    converter's tables use: `*` matches any string (slashes included) and
    every other character matches itself. */
module Globs {
  import opened Strings

  predicate Match(s: string, p: string)
    decreases |s| + |p|
  {
    if p == [] then s == []
    else if p[0] == '*' then Match(s, p[1..]) || (s != [] && Match(s[1..], p))
    else s != [] && s[0] == p[0] && Match(s[1..], p[1..])
  }

  /** A pattern without `*` matches exactly itself. */
  lemma {:induction false} LiteralMatch(s: string, p: string)
    requires !HasChar(p, '*')
    ensures Match(s, p) <==> s == p
    decreases |s| + |p|
  {
    if p != [] {
      assert p[0] != '*';
      assert !HasChar(p[1..], '*') by {
        forall i | 0 <= i < |p[1..]| ensures p[1..][i] != '*' { assert p[1..][i] == p[i + 1]; }
      }
      if s != [] {
        LiteralMatch(s[1..], p[1..]);
        assert s == p <==> (s[0] == p[0] && s[1..] == p[1..]) by {
          if s[0] == p[0] && s[1..] == p[1..] { assert s == [s[0]] + s[1..] && p == [p[0]] + p[1..]; }
        }
      }
    }
  }

  /** A trailing `*` matches everything after the prefix. */
  lemma {:induction false} PrefixStarMatch(s: string, prefix: string)
    requires !HasChar(prefix, '*')
    ensures Match(s, prefix + "*") <==> StartsWith(s, prefix)
    decreases |s| + |prefix|
  {
    if prefix == [] {
      assert prefix + "*" == "*";
      StarMatchesAll(s);
    } else {
      var p := prefix + "*";
      assert p[0] == prefix[0] && p[0] != '*';
      assert p[1..] == prefix[1..] + "*";
      assert !HasChar(prefix[1..], '*') by {
        forall i | 0 <= i < |prefix[1..]| ensures prefix[1..][i] != '*' { assert prefix[1..][i] == prefix[i + 1]; }
      }
      if s != [] {
        PrefixStarMatch(s[1..], prefix[1..]);
        assert StartsWith(s, prefix) <==> (s[0] == prefix[0] && StartsWith(s[1..], prefix[1..])) by {
          if |prefix| <= |s| {
            assert s[..|prefix|] == [s[0]] + s[1..][..|prefix| - 1];
            assert prefix == [prefix[0]] + prefix[1..];
          }
        }
      }
    }
  }

  lemma {:induction false} StarMatchesAll(s: string)
    ensures Match(s, "*")
  {
    if s == [] {
      assert "*"[1..] == [];
    } else {
      StarMatchesAll(s[1..]);
    }
  }
}
