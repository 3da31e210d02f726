/** POSIX path helpers as pure string functions: `posixpath.join`,
    `posixpath.splitext`, `posixpath.dirname` and `str.lower`, which the data
    handler uses to resolve paths and to pick a file format. */
module Paths {

  /** A POSIX path is absolute when it starts with a slash. */
  predicate IsAbsolute(p: string) {
    |p| > 0 && p[0] == '/'
  }

  predicate EndsWithSlash(p: string) {
    |p| > 0 && p[|p| - 1] == '/'
  }

  /** `posixpath.join(a, b)`: an absolute `b` discards `a`; otherwise a
      single slash separates them unless `a` is empty or already ends in one. */
  function Join(a: string, b: string): (r: string)
    ensures |b| <= |r| && r[|r| - |b|..] == b
    ensures IsAbsolute(b) ==> r == b
    ensures !IsAbsolute(b) ==> a <= r
  {
    if IsAbsolute(b) then b else a + Separator(a) + b
  }

  /** The separator `Join` puts after `a` when the next component is relative. */
  function Separator(a: string): string {
    if a == "" || EndsWithSlash(a) then "" else "/"
  }

  /** `posixpath.join(a, *rest)`, folding the two-part join from the left. */
  function JoinAll(a: string, rest: seq<string>): (r: string)
    ensures (forall i :: 0 <= i < |rest| ==> !IsAbsolute(rest[i])) ==> a <= r
    decreases |rest|
  {
    if rest == [] then a else JoinAll(Join(a, rest[0]), rest[1..])
  }

  /** An absolute component restarts the path: everything before it is dropped. */
  lemma {:induction false} JoinAllRestartsAtAbsolute(a: string, rest: seq<string>, i: nat)
    requires i < |rest| && IsAbsolute(rest[i])
    ensures JoinAll(a, rest) == JoinAll(rest[i], rest[i + 1..])
    decreases |rest|
  {
    if i == 0 {
      assert Join(a, rest[0]) == rest[0];
    } else {
      JoinAllRestartsAtAbsolute(Join(a, rest[0]), rest[1..], i - 1);
      assert rest[1..][i - 1] == rest[i];
      assert rest[1..][i..] == rest[i + 1..];
    }
  }

  /** The joined path always ends with the last component. */
  lemma {:induction false} JoinAllEndsWithLast(a: string, rest: seq<string>)
    requires rest != []
    ensures var r := JoinAll(a, rest); var last := rest[|rest| - 1];
      |last| <= |r| && r[|r| - |last|..] == last
    decreases |rest|
  {
    if |rest| > 1 {
      JoinAllEndsWithLast(Join(a, rest[0]), rest[1..]);
      assert rest[1..][|rest[1..]| - 1] == rest[|rest| - 1];
    }
  }

  /** Joining is associative, so resolving a path given relative to a
      sub-folder is the same as joining the whole relative path to the root. */
  lemma JoinAssociative(a: string, b: string, c: string)
    ensures Join(Join(a, b), c) == Join(a, Join(b, c))
  {
    if IsAbsolute(c) {
    } else if IsAbsolute(b) {
      assert IsAbsolute(Join(b, c));
    } else if b == "" {
      assert Join(b, c) == c;
      JoinAfterSeparator(a, c);
    } else {
      JoinThroughNonEmpty(a, b, c);
    }
  }

  lemma JoinAfterSeparator(a: string, c: string)
    requires !IsAbsolute(c)
    ensures Join(Join(a, ""), c) == Join(a, c)
  {
    var s := Separator(a);
    assert Join(a, "") == a + s;
    assert Separator(a + s) == "";
    assert Join(a + s, c) == a + s + c;
  }

  lemma JoinThroughNonEmpty(a: string, b: string, c: string)
    requires b != "" && !IsAbsolute(b) && !IsAbsolute(c)
    ensures Join(Join(a, b), c) == Join(a, Join(b, c))
  {
    JoinLeftNested(a, b, c);
    JoinRightNested(a, b, c);
  }

  lemma JoinLeftNested(a: string, b: string, c: string)
    requires b != "" && !IsAbsolute(b) && !IsAbsolute(c)
    ensures Join(Join(a, b), c) == a + Separator(a) + b + Separator(b) + c
  {
    SeparatorOfSuffix(a + Separator(a), b);
  }

  lemma JoinRightNested(a: string, b: string, c: string)
    requires b != "" && !IsAbsolute(b) && !IsAbsolute(c)
    ensures Join(a, Join(b, c)) == a + Separator(a) + b + Separator(b) + c
  {
    var bc := b + Separator(b) + c;
    assert bc[0] == b[0];
    assert a + Separator(a) + bc == a + Separator(a) + b + Separator(b) + c;
  }

  /** The separator only depends on the last character. */
  lemma SeparatorOfSuffix(x: string, b: string)
    requires b != ""
    ensures Separator(x + b) == Separator(b)
  {
    assert (x + b)[|x + b| - 1] == b[|b| - 1];
  }

  /** `s.rfind(c)`: the last index holding `c`, or -1. */
  function LastIndexOf(s: string, c: char): (r: int)
    ensures -1 <= r < |s|
    ensures 0 <= r ==> s[r] == c
    ensures forall k :: r < k < |s| ==> s[k] != c
  {
    LastIndexBefore(s, c, |s|)
  }

  /** The last index below `n` holding `c`, or -1, scanning down from `n`. */
  function LastIndexBefore(s: string, c: char, n: nat): (r: int)
    requires n <= |s|
    ensures -1 <= r < n
    ensures 0 <= r ==> s[r] == c
    ensures forall k :: r < k < n ==> s[k] != c
  {
    if n == 0 then -1
    else if s[n - 1] == c then n - 1
    else LastIndexBefore(s, c, n - 1)
  }

  predicate HasNonDot(s: string) {
    exists k :: 0 <= k < |s| && s[k] != '.'
  }

  /** `posixpath.splitext(p)`: the extension starts at the last dot of the
      final component, unless that component is only dots up to it (a
      leading-dot name such as `.profile` has no extension). */
  function SplitExt(p: string): (r: (string, string))
    ensures r.0 + r.1 == p
    ensures r.1 == [] || r.1[0] == '.'
    ensures forall k :: 0 <= k < |r.1| ==> r.1[k] != '/'
    ensures forall k :: 0 < k < |r.1| ==> r.1[k] != '.'
  {
    var sep := LastIndexOf(p, '/');
    var dot := LastIndexOf(p, '.');
    if sep < dot && HasNonDot(p[sep + 1..dot]) then SplitAtDot(p, sep, dot)
    else (p, "")
  }

  /** The split at a dot that follows the last slash, when no dot comes
      after it: the root before the dot and the extension from it. */
  function SplitAtDot(p: string, sep: int, dot: int): (r: (string, string))
    requires -1 <= sep < dot < |p| && p[dot] == '.'
    requires forall k :: sep < k < |p| ==> p[k] != '/'
    requires forall k :: dot < k < |p| ==> p[k] != '.'
    ensures r == (p[..dot], p[dot..])
    ensures r.0 + r.1 == p
    ensures r.1 == [] || r.1[0] == '.'
    ensures forall k :: 0 <= k < |r.1| ==> r.1[k] != '/'
    ensures forall k :: 0 < k < |r.1| ==> r.1[k] != '.'
  {
    SuffixFromLastDot(p, sep, dot);
    (p[..dot], p[dot..])
  }

  /** The suffix from the last dot, when that dot follows the last slash,
      starts with the dot and holds no other dot and no slash. */
  lemma SuffixFromLastDot(p: string, sep: int, dot: int)
    requires -1 <= sep < dot < |p| && p[dot] == '.'
    requires forall k :: sep < k < |p| ==> p[k] != '/'
    requires forall k :: dot < k < |p| ==> p[k] != '.'
    ensures p[..dot] + p[dot..] == p
    ensures p[dot..][0] == '.'
    ensures forall k :: 0 <= k < |p| - dot ==> p[dot..][k] != '/'
    ensures forall k :: 0 < k < |p| - dot ==> p[dot..][k] != '.'
  {
    assert forall k :: 0 <= k < |p| - dot ==> p[dot..][k] == p[dot + k];
  }

  /** `rfind` is determined by its contract: an index holding `c` (or -1)
      with no `c` after it is the last one. */
  lemma LastIndexOfIs(s: string, c: char, i: int)
    requires -1 <= i < |s| && (0 <= i ==> s[i] == c)
    requires forall k :: i < k < |s| ==> s[k] != c
    ensures LastIndexOf(s, c) == i
  {
  }

  /** An ordinary name gets its extension: joining a stem whose final
      component has a character other than a dot with a dot-led suffix
      without further dots or slashes splits back into the two. */
  lemma ExtensionOfName(stem: string, ext: string)
    requires |ext| >= 1 && ext[0] == '.'
    requires forall k :: 1 <= k < |ext| ==> ext[k] != '.' && ext[k] != '/'
    requires exists k :: LastIndexOf(stem, '/') < k < |stem| && stem[k] != '.'
    ensures SplitExt(stem + ext) == (stem, ext)
  {
    var p := stem + ext;
    var sep := LastIndexOf(stem, '/');
    assert forall k :: |stem| <= k < |p| ==> p[k] == ext[k - |stem|];
    LastIndexOfIs(p, '/', sep);
    LastIndexOfIs(p, '.', |stem|);
    var k :| sep < k < |stem| && stem[k] != '.';
    assert p[sep + 1..|stem|][k - sep - 1] == stem[k];
    assert HasNonDot(p[sep + 1..|stem|]);
    assert p[..|stem|] == stem && p[|stem|..] == ext;
  }

  /** A final component made only of dots up to its last dot, such as
      `.profile`, has no extension. */
  lemma LeadingDotsAreNoExtension(dir: string, name: string, j: nat)
    requires dir == "" || EndsWithSlash(dir)
    requires 0 < j <= |name|
    requires forall k :: 0 <= k < j ==> name[k] == '.'
    requires forall k :: j <= k < |name| ==> name[k] != '.'
    requires forall k :: 0 <= k < |name| ==> name[k] != '/'
    ensures SplitExt(dir + name) == (dir + name, "")
  {
    var p := dir + name;
    var n := |dir|;
    assert forall k :: n <= k < |p| ==> p[k] == name[k - n];
    LastIndexOfIs(p, '/', n - 1);
    LastIndexOfIs(p, '.', n + j - 1);
    assert forall k :: 0 <= k < j - 1 ==> p[n..n + j - 1][k] == name[k];
    assert !HasNonDot(p[n..n + j - 1]);
  }

  /** The name the tracker's pages pass, `data.csv`, dispatches as CSV. */
  lemma DataCsvIsCsv()
    ensures ExtensionKey("data.csv") == ".csv"
  {
    assert LastIndexOf("data", '/') == -1;
    assert "data"[0] != '.';
    ExtensionOfName("data", ".csv");
    assert "data" + ".csv" == "data.csv";
  }

  function Extension(p: string): string {
    SplitExt(p).1
  }

  function LowerChar(c: char): char {
    if 'A' <= c <= 'Z' then (c as int + 32) as char else c
  }

  /** `str.lower()` on the ASCII letters. */
  function Lower(s: string): (r: string)
    ensures |r| == |s|
    ensures forall i :: 0 <= i < |s| ==> r[i] == LowerChar(s[i])
  {
    if s == [] then [] else [LowerChar(s[0])] + Lower(s[1..])
  }

  /** The key the handler dispatches on: `posixpath.splitext(p)[-1].lower()`. */
  function ExtensionKey(p: string): (r: string)
    ensures r == "" || r[0] == '.'
  {
    Lower(Extension(p))
  }

  /** Lowering never turns a character into a dot or a slash, or a dot or a
      slash into anything else, so both stay put under a change of case. */
  lemma LowerKeepsSeparators(x: char, y: char)
    requires LowerChar(x) == LowerChar(y)
    ensures x == '.' <==> y == '.'
    ensures x == '/' <==> y == '/'
  {
  }

  lemma LastIndexOfIgnoresCase(p: string, q: string, c: char)
    requires Lower(p) == Lower(q)
    requires c == '.' || c == '/'
    ensures LastIndexOf(p, c) == LastIndexOf(q, c)
  {
    LastIndexBeforeIgnoresCase(p, q, c, |p|);
  }

  lemma {:induction false} LastIndexBeforeIgnoresCase(p: string, q: string, c: char, n: nat)
    requires Lower(p) == Lower(q) && n <= |p|
    requires c == '.' || c == '/'
    ensures LastIndexBefore(p, c, n) == LastIndexBefore(q, c, n)
  {
    if n > 0 {
      LowerKeepsSeparators(p[n - 1], q[n - 1]);
      if p[n - 1] != c {
        LastIndexBeforeIgnoresCase(p, q, c, n - 1);
      }
    }
  }

  /** Lowering commutes with taking a suffix. */
  lemma LowerSuffix(p: string, q: string, i: nat)
    requires Lower(p) == Lower(q) && i <= |p|
    ensures Lower(p[i..]) == Lower(q[i..])
  {
    assert forall k :: 0 <= k < |p| - i ==> Lower(p[i..])[k] == Lower(p)[i + k];
    assert forall k :: 0 <= k < |q| - i ==> Lower(q[i..])[k] == Lower(q)[i + k];
  }

  lemma HasNonDotIgnoresCase(p: string, q: string, i: nat, j: nat)
    requires Lower(p) == Lower(q) && i <= j <= |p|
    ensures HasNonDot(p[i..j]) == HasNonDot(q[i..j])
  {
    if HasNonDot(p[i..j]) {
      var k :| 0 <= k < j - i && p[i..j][k] != '.';
      LowerKeepsSeparators(p[i + k], q[i + k]);
      assert q[i..j][k] != '.';
    }
    if HasNonDot(q[i..j]) {
      var k :| 0 <= k < j - i && q[i..j][k] != '.';
      LowerKeepsSeparators(p[i + k], q[i + k]);
      assert p[i..j][k] != '.';
    }
  }

  /** Extension matching is case-insensitive: two paths that differ only in
      the case of their letters yield the same dispatch key. */
  lemma ExtensionKeyIgnoresCase(p: string, q: string)
    requires Lower(p) == Lower(q)
    ensures ExtensionKey(p) == ExtensionKey(q)
  {
    LastIndexOfIgnoresCase(p, q, '/');
    LastIndexOfIgnoresCase(p, q, '.');
    var sep := LastIndexOf(p, '/');
    var dot := LastIndexOf(p, '.');
    if sep < dot {
      HasNonDotIgnoresCase(p, q, sep + 1, dot);
      LowerSuffix(p, q, dot);
    }
  }

  predicate AllSlashes(s: string) {
    forall k :: 0 <= k < |s| ==> s[k] == '/'
  }

  /** `s.rstrip('/')`. */
  function StripTrailingSlashes(s: string): (r: string)
    ensures r <= s
    ensures !EndsWithSlash(r)
    ensures forall k :: |r| <= k < |s| ==> s[k] == '/'
  {
    if EndsWithSlash(s) then StripTrailingSlashes(s[..|s| - 1]) else s
  }

  /** `posixpath.dirname(p)`: everything up to the last slash, with trailing
      slashes removed unless the head is made of slashes only. */
  function Dirname(p: string): (r: string)
    ensures r <= p
    ensures '/' !in p ==> r == ""
  {
    var head := p[..LastIndexOf(p, '/') + 1];
    if head != [] && !AllSlashes(head) then StripTrailingSlashes(head) else head
  }

  /** The directory of a name joined onto a folder is that folder. */
  lemma DirnameOfJoin(a: string, b: string)
    requires a != "" && !EndsWithSlash(a) && '/' !in b
    ensures Dirname(Join(a, b)) == a
  {
    var p := Join(a, b);
    assert p == a + "/" + b;
    assert p[|a|] == '/';
    assert forall k :: |a| < k < |p| ==> p[k] == b[k - |a| - 1];
    assert LastIndexOf(p, '/') == |a|;
    var head := p[..|a| + 1];
    assert head == a + "/";
    var r := StripTrailingSlashes(head);
    assert head[|a| - 1] != '/';
    assert r == head[..|a|];
  }
}
