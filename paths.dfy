/**
 * The three functions of Python's `posixpath` the scripts use to build
 * and take apart file names: `join` of two components, `basename` and
 * the stem that `splitext` returns.
 */
module Paths {

  /** Index of the last `c` in `s`, or -1 (`str.rfind`). */
  function LastIndexOf(s: string, c: char): (i: int)
    ensures -1 <= i < |s|
    ensures i >= 0 ==> s[i] == c
    ensures forall j :: i < j < |s| ==> s[j] != c
  {
    if s == [] then -1
    else if s[|s| - 1] == c then |s| - 1
    else LastIndexOf(s[..|s| - 1], c)
  }

  lemma {:induction false} LastIndexOfAppend(s: string, t: string, c: char)
    ensures c in t ==> LastIndexOf(s + t, c) == |s| + LastIndexOf(t, c)
    ensures c !in t ==> LastIndexOf(s + t, c) == LastIndexOf(s, c)
  {
    if t != [] {
      var u := s + t;
      assert u[..|u| - 1] == s + t[..|t| - 1];
      LastIndexOfAppend(s, t[..|t| - 1], c);
      if t[|t| - 1] != c {
        assert c in t ==> c in t[..|t| - 1];
      }
    } else {
      assert s + t == s;
    }
  }

  /** `os.path.join(a, b)`: an absolute `b` replaces `a`; otherwise one `/` between them. */
  function Join(a: string, b: string): (p: string)
  {
    if |b| > 0 && b[0] == '/' then b
    else if a == [] || a[|a| - 1] == '/' then a + b
    else a + "/" + b
  }

  /** `os.path.basename(p)`: what follows the last `/`. */
  function BaseName(p: string): (r: string)
    ensures '/' !in r
  {
    p[LastIndexOf(p, '/') + 1..]
  }

  /** `os.path.splitext(p)[0]`: `p` without its last extension. A dot counts only
      when it is in the last component and some character other than `.` precedes
      it there, so `.bashrc` and `..csv` have no extension. */
  function Stem(p: string): (r: string)
  {
    var sep := LastIndexOf(p, '/');
    var dot := LastIndexOf(p, '.');
    if dot > sep && exists k :: sep < k < dot && p[k] != '.' then p[..dot] else p
  }

  /** The last component has a character other than `.`: the case where an extension
      appended to `p` is the one `splitext` removes. */
  predicate HasNamedLastPart(p: string) {
    exists k :: LastIndexOf(p, '/') < k < |p| && p[k] != '.'
  }

  /** `splitext` removes exactly an appended extension `.e`. */
  lemma {:induction false} StemOfExtended(p: string, e: string)
    requires '.' !in e && '/' !in e
    requires HasNamedLastPart(p)
    ensures Stem(p + "." + e) == p
  {
    var x := "." + e;
    var q := p + x;
    assert p + "." + e == q;
    assert '/' !in x;
    assert '.' in x;
    LastIndexOfAppend(".", e, '.');
    assert LastIndexOf(".", '.') == 0;
    assert LastIndexOf(x, '.') == 0;
    LastIndexOfAppend(p, x, '.');
    LastIndexOfAppend(p, x, '/');
    var sep := LastIndexOf(q, '/');
    var dot := LastIndexOf(q, '.');
    assert sep == LastIndexOf(p, '/') && dot == |p|;
    var k :| LastIndexOf(p, '/') < k < |p| && p[k] != '.';
    assert sep < k < dot && q[k] != '.';
    assert q[..dot] == p;
  }

  /** The base name of a path whose last component `t` follows a `/`, or stands alone. */
  lemma {:induction false} BaseNameOfLast(a: string, t: string)
    requires '/' !in t
    ensures BaseName(a + "/" + t) == t
    ensures BaseName(t) == t
  {
    var a' := a + "/";
    var u := a' + t;
    assert a + "/" + t == u;
    LastIndexOfAppend(a', t, '/');
    LastIndexOfAppend(a, "/", '/');
    assert LastIndexOf("/", '/') == 0;
    LastIndexOfAppend([], t, '/');
    assert [] + t == t;
    assert LastIndexOf([], '/') == -1;
    assert LastIndexOf(u, '/') == |a|;
    assert u[|a| + 1..] == t;
    assert t[0..] == t;
  }

  /** `basename(join(dir, name))` is `name` for a relative one-component name. */
  lemma {:induction false} BaseNameOfJoin(dir: string, name: string)
    requires '/' !in name
    ensures BaseName(Join(dir, name)) == name
  {
    BaseNameOfLast(dir, name);
    if dir != [] && dir[|dir| - 1] == '/' {
      var d := dir[..|dir| - 1];
      assert dir == d + "/";
      assert dir + name == d + "/" + name;
      BaseNameOfLast(d, name);
    }
  }
}
