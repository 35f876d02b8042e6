/**
 The parts of Python's `str` that the completion bridge relies on: substring
 membership (`sub in s`), `str.find`, `str.split(sep)`, `str.strip()` and the
 `startswith` + slice idiom that drops a known prefix. Strings are sequences of
 Unicode code points, as in Python 3.

 The functions carry only quantifier-free contracts; what holds of every
 index (no earlier occurrence, no separator inside a piece, whitespace only)
 is stated by the lemmas below them.
 */
module PyStr {

  /** Python's `str.isspace()` on one code point: the characters `str.strip()`
      removes when it is called without arguments. */
  predicate IsSpace(c: char) {
    || ('\U{0009}' <= c <= '\U{000D}')
    || ('\U{001C}' <= c <= '\U{001F}')
    || c == ' '
    || c == '\U{0085}'
    || c == '\U{00A0}'
    || c == '\U{1680}'
    || ('\U{2000}' <= c <= '\U{200A}')
    || c == '\U{2028}'
    || c == '\U{2029}'
    || c == '\U{202F}'
    || c == '\U{205F}'
    || c == '\U{3000}'
  }

  ghost predicate AllSpace(s: string) {
    forall i :: 0 <= i < |s| ==> IsSpace(s[i])
  }

  /** Neither end of `s` is whitespace: what `strip()` leaves behind. */
  ghost predicate NoEdgeSpace(s: string) {
    s == [] || (!IsSpace(s[0]) && !IsSpace(s[|s| - 1]))
  }

  /** `sub` occurs in `s` starting at index `i`. */
  ghost predicate OccursAt(s: string, sub: string, i: int) {
    0 <= i && i + |sub| <= |s| && s[i..i + |sub|] == sub
  }

  /** `i` is the first occurrence of `sub` in `s`. */
  ghost predicate FirstAt(s: string, sub: string, i: int) {
    OccursAt(s, sub, i) && forall k :: 0 <= k < i ==> !OccursAt(s, sub, k)
  }

  // ---------------------------------------------------------------------
  // find and in

  /** The left-to-right scan behind `str.find`, starting at index `from`. */
  function FindFrom(s: string, sub: string, from: nat): (r: int)
    ensures r == -1 || (from <= r && OccursAt(s, sub, r))
    decreases |s| - from
  {
    if from + |sub| > |s| then -1
    else if s[from..from + |sub|] == sub then from
    else FindFrom(s, sub, from + 1)
  }

  /** The scan passes over no occurrence: none lies between `from` and the
      index it returns, nor anywhere from `from` on when it returns -1. */
  lemma {:induction false} FindFromSkipsNone(s: string, sub: string, from: nat, k: int)
    requires from <= k
    requires FindFrom(s, sub, from) == -1 || k < FindFrom(s, sub, from)
    ensures !OccursAt(s, sub, k)
    decreases |s| - from
  {
    if from < k && from + |sub| <= |s| && s[from..from + |sub|] != sub {
      FindFromSkipsNone(s, sub, from + 1, k);
    }
  }

  /** `s.find(sub)`: the lowest index at which `sub` occurs, or -1. */
  function Find(s: string, sub: string): (r: int)
    ensures r == -1 || OccursAt(s, sub, r)
  {
    FindFrom(s, sub, 0)
  }

  /** No occurrence lies before the index `find` returns, and none at all
      when it returns -1. */
  lemma FindSkipsNone(s: string, sub: string, k: int)
    requires 0 <= k && (Find(s, sub) == -1 || k < Find(s, sub))
    ensures !OccursAt(s, sub, k)
  {
    FindFromSkipsNone(s, sub, 0, k);
  }

  /** `find` returns the first occurrence. */
  lemma FindIsFirst(s: string, sub: string)
    ensures Find(s, sub) != -1 ==> FirstAt(s, sub, Find(s, sub))
  {
    forall k | 0 <= k < Find(s, sub) ensures !OccursAt(s, sub, k) {
      FindSkipsNone(s, sub, k);
    }
  }

  /** The first occurrence is the index `find` returns. */
  lemma FindOf(s: string, sub: string, i: int)
    requires FirstAt(s, sub, i)
    ensures Find(s, sub) == i
  {
    if Find(s, sub) == -1 || i < Find(s, sub) {
      FindSkipsNone(s, sub, i);
    }
  }

  /** `sub in s`. */
  function Contains(s: string, sub: string): bool {
    Find(s, sub) >= 0
  }

  /** `sub in s` exactly when `sub` occurs at some index: one occurrence is
      enough, and without one there is none at any index. */
  lemma ContainsAt(s: string, sub: string, k: int)
    ensures OccursAt(s, sub, k) ==> Contains(s, sub)
  {
    if OccursAt(s, sub, k) && !Contains(s, sub) {
      FindSkipsNone(s, sub, k);
    }
  }

  // ---------------------------------------------------------------------
  // Occurrences and infixes

  lemma OccursAtWhole(s: string)
    ensures OccursAt(s, s, 0) && Contains(s, s)
  {
    assert s[0..|s|] == s;
    ContainsAt(s, s, 0);
  }

  /** An occurrence inside the slice `s[a..b]` is an occurrence in `s`, and
      conversely one that lies within the bounds of the slice. */
  lemma OccursInSlice(s: string, sub: string, a: int, b: int, k: int)
    requires 0 <= a <= b <= |s|
    ensures OccursAt(s[a..b], sub, k) <==> (0 <= k && a + k + |sub| <= b && OccursAt(s, sub, a + k))
  {
    if 0 <= k && a + k + |sub| <= b {
      var inner, outer := s[a..b][k..k + |sub|], s[a + k..a + k + |sub|];
      assert forall m :: 0 <= m < |sub| ==> inner[m] == outer[m];
      assert inner == outer;
    }
  }

  /** The slice `s[a..b]` is an infix of `s`. */
  lemma SliceIsInfix(s: string, a: int, b: int)
    requires 0 <= a <= b <= |s|
    ensures Contains(s, s[a..b])
  {
    assert OccursAt(s, s[a..b], a);
    ContainsAt(s, s[a..b], a);
  }

  /** Being an infix is transitive. */
  lemma ContainsTrans(s: string, t: string, u: string)
    ensures Contains(s, t) && Contains(t, u) ==> Contains(s, u)
  {
    if Contains(s, t) && Contains(t, u) {
      var i, j := Find(s, t), Find(t, u);
      OccursInSlice(s, u, i, i + |t|, j);
      ContainsAt(s, u, i + j);
    }
  }

  /** `sub` occurs in `p + sub + q` right after `p`. */
  lemma OccursBetween(p: string, sub: string, q: string)
    ensures OccursAt(p + sub + q, sub, |p|)
  {
    assert (p + sub + q)[|p|..|p| + |sub|] == sub;
  }

  /** The middle of a concatenation is an infix of it. */
  lemma InfixOfConcat(a: string, b: string, c: string)
    ensures Contains(a + b + c, b)
  {
    OccursBetween(a, b, c);
    ContainsAt(a + b + c, b, |a|);
  }

  /** The tail of a concatenation is an infix of it. */
  lemma SuffixOfConcat(a: string, b: string)
    ensures Contains(a + b, b)
  {
    assert a + b + [] == a + b;
    InfixOfConcat(a, b, []);
  }

  lemma PrefixOfConcat(p: string, q: string, m: int)
    requires |p| <= m <= |p| + |q|
    ensures (p + q)[..m] == p + q[..m - |p|]
  {
  }

  /** Concatenation is associative. */
  lemma Regroup(a: string, b: string, c: string)
    ensures a + b + c == a + (b + c)
  {
  }

  /** A character that `sub` does not contain cannot be spanned by an
      occurrence of `sub`: in `a + [c] + b` every occurrence lies wholly in
      `a` or wholly in `b`. */
  lemma OccursAround(a: string, c: char, b: string, sub: string, k: int)
    requires c !in sub
    ensures OccursAt(a + [c] + b, sub, k) <==> (OccursAt(a, sub, k) || OccursAt(b, sub, k - |a| - 1))
  {
    var s := a + [c] + b;
    if 0 <= k && k + |sub| <= |a| {
      assert s[k..k + |sub|] == a[k..k + |sub|];
    } else if k > |a| && k + |sub| <= |s| {
      assert s[k..k + |sub|] == b[k - |a| - 1..k - |a| - 1 + |sub|];
    } else if 0 <= k <= |a| && k + |sub| <= |s| {
      assert s[k..k + |sub|][|a| - k] == s[|a|] == c;
    }
  }

  /** So `sub in a + [c] + b` exactly when `sub in a` or `sub in b`. */
  lemma ContainsAround(a: string, c: char, b: string, sub: string)
    requires c !in sub
    ensures Contains(a + [c] + b, sub) <==> Contains(a, sub) || Contains(b, sub)
  {
    var s := a + [c] + b;
    if Contains(s, sub) {
      var k := Find(s, sub);
      OccursAround(a, c, b, sub, k);
      ContainsAt(a, sub, k);
      ContainsAt(b, sub, k - |a| - 1);
    }
    if Contains(a, sub) {
      var k := Find(a, sub);
      OccursAround(a, c, b, sub, k);
      ContainsAt(s, sub, k);
    }
    if Contains(b, sub) {
      var k := Find(b, sub);
      OccursAround(a, c, b, sub, k + |a| + 1);
      ContainsAt(s, sub, k + |a| + 1);
    }
  }

  // ---------------------------------------------------------------------
  // split and join

  /** The pieces of `s[from..]` between successive non-overlapping
      occurrences of `sep`, found from the left. */
  function SplitFrom(s: string, sep: string, from: nat): (parts: seq<string>)
    requires |sep| > 0 && from <= |s|
    ensures |parts| >= 1
    ensures |parts| >= 2 <==> FindFrom(s, sep, from) >= 0
    decreases |s| - from
  {
    var i := FindFrom(s, sep, from);
    if i < 0 then [s[from..]] else [s[from..i]] + SplitFrom(s, sep, i + |sep|)
  }

  /** `s.split(sep)` for a non-empty separator (Python raises ValueError on an
      empty one). There is more than one piece exactly when the separator
      occurs. */
  function Split(s: string, sep: string): (parts: seq<string>)
    requires |sep| > 0
    ensures |parts| >= 1
    ensures |parts| >= 2 <==> Contains(s, sep)
  {
    SplitFrom(s, sep, 0)
  }

  /** `sep.join(parts)`: the inverse of `Split`. */
  function Join(parts: seq<string>, sep: string): string
    requires |parts| >= 1
  {
    if |parts| == 1 then parts[0] else parts[0] + sep + Join(parts[1..], sep)
  }

  /** Joining the pieces of `s[from..]` with the separator gives `s[from..]`. */
  lemma {:induction false} JoinSplitFrom(s: string, sep: string, from: nat)
    requires |sep| > 0 && from <= |s|
    ensures Join(SplitFrom(s, sep, from), sep) == s[from..]
    decreases |s| - from
  {
    var i := FindFrom(s, sep, from);
    if i >= 0 {
      var j := i + |sep|;
      JoinSplitFrom(s, sep, j);
      assert Join(SplitFrom(s, sep, from), sep) == s[from..i] + sep + s[j..] by {
        SplitFromHead(s, sep, from);
      }
      JoinPieces(s, from, i, j);
    }
  }

  lemma JoinPieces(s: string, from: int, i: int, j: int)
    requires 0 <= from <= i <= j <= |s|
    ensures s[from..i] + s[i..j] + s[j..] == s[from..]
  {
  }

  /** Splitting loses nothing: joining the pieces with the separator gives the
      string back. */
  lemma JoinSplit(s: string, sep: string)
    requires |sep| > 0
    ensures Join(Split(s, sep), sep) == s
  {
    JoinSplitFrom(s, sep, 0);
  }

  /** The scan from `from` stops at `j` when that is the first occurrence
      from `from` on. */
  lemma FindFromAt(s: string, sub: string, from: nat, j: int)
    requires from <= j && OccursAt(s, sub, j)
    requires forall k :: from <= k < j ==> !OccursAt(s, sub, k)
    ensures FindFrom(s, sub, from) == j
  {
    if FindFrom(s, sub, from) == -1 || j < FindFrom(s, sub, from) {
      FindFromSkipsNone(s, sub, from, j);
    }
  }

  /** The scan from `from` finds nothing when nothing occurs from `from` on. */
  lemma FindFromNone(s: string, sub: string, from: nat)
    requires |sub| > 0
    requires forall k :: from <= k < |s| ==> !OccursAt(s, sub, k)
    ensures FindFrom(s, sub, from) == -1
  {
  }

  /** Nothing occurs inside `s[from..b]` when `b` ends before the end of the
      occurrence the scan from `from` finds, or when the scan finds none. */
  lemma NoneBefore(s: string, sep: string, from: nat, b: int)
    requires |sep| > 0 && from <= b <= |s|
    requires FindFrom(s, sep, from) == -1 || b < FindFrom(s, sep, from) + |sep|
    ensures !Contains(s[from..b], sep)
  {
    if Contains(s[from..b], sep) {
      var k := Find(s[from..b], sep);
      OccursInSlice(s, sep, from, b, k);
      FindFromSkipsNone(s, sep, from, from + k);
    }
  }

  /** The first piece of `s[from..]` runs up to the occurrence the scan from
      `from` finds, or to the end. */
  lemma SplitFromHead(s: string, sep: string, from: nat)
    requires |sep| > 0 && from <= |s|
    ensures FindFrom(s, sep, from) < 0 ==> SplitFrom(s, sep, from)[0] == s[from..]
    ensures FindFrom(s, sep, from) >= 0 ==> SplitFrom(s, sep, from)[0] == s[from..FindFrom(s, sep, from)]
  {
    assert s[from..] == s[from..|s|];
  }

  /** Piece `n > 0` of `s[from..]` is piece `n - 1` of what follows the
      occurrence the scan from `from` finds. */
  lemma SplitFromNext(s: string, sep: string, from: nat, n: int)
    requires |sep| > 0 && from <= |s| && 0 < n < |SplitFrom(s, sep, from)|
    ensures FindFrom(s, sep, from) >= 0
    ensures FindFrom(s, sep, from) + |sep| <= |s|
    ensures n - 1 < |SplitFrom(s, sep, FindFrom(s, sep, from) + |sep|)|
    ensures SplitFrom(s, sep, from)[n] == SplitFrom(s, sep, FindFrom(s, sep, from) + |sep|)[n - 1]
  {
  }

  /** The first piece of `s[from..]` holds no separator. */
  lemma SplitFromHeadFree(s: string, sep: string, from: nat)
    requires |sep| > 0 && from <= |s|
    ensures !Contains(SplitFrom(s, sep, from)[0], sep)
  {
    var i := FindFrom(s, sep, from);
    SplitFromHead(s, sep, from);
    NoneBefore(s, sep, from, if i < 0 then |s| else i);
    assert i < 0 ==> s[from..] == s[from..|s|];
  }

  /** No piece of `s[from..]` holds the separator. */
  lemma {:induction false} SplitFromPartFree(s: string, sep: string, from: nat, n: int)
    requires |sep| > 0 && from <= |s| && 0 <= n < |SplitFrom(s, sep, from)|
    ensures !Contains(SplitFrom(s, sep, from)[n], sep)
    decreases |s| - from
  {
    if n > 0 {
      SplitFromNext(s, sep, from, n);
      var next := FindFrom(s, sep, from) + |sep|;
      SplitFromPartFree(s, sep, next, n - 1);
      assert SplitFrom(s, sep, from)[n] == SplitFrom(s, sep, next)[n - 1];
    } else {
      SplitFromHeadFree(s, sep, from);
    }
  }

  /** No piece of `s.split(sep)` holds the separator. */
  lemma SplitPartFree(s: string, sep: string, n: int)
    requires |sep| > 0 && 0 <= n < |Split(s, sep)|
    ensures !Contains(Split(s, sep)[n], sep)
  {
    SplitFromPartFree(s, sep, 0, n);
  }

  /** Every piece of `s[from..]` is a slice `s[lo..hi]` of `s` with
      `from <= lo`. */
  lemma {:induction false} SplitFromPartBounds(s: string, sep: string, from: nat, n: int)
    returns (lo: int, hi: int)
    requires |sep| > 0 && from <= |s| && 0 <= n < |SplitFrom(s, sep, from)|
    ensures from <= lo <= hi <= |s|
    ensures s[lo..hi] == SplitFrom(s, sep, from)[n]
    decreases |s| - from
  {
    if n > 0 {
      SplitFromNext(s, sep, from, n);
      var next := FindFrom(s, sep, from) + |sep|;
      lo, hi := SplitFromPartBounds(s, sep, next, n - 1);
    } else {
      var i := FindFrom(s, sep, from);
      SplitFromHead(s, sep, from);
      lo, hi := from, if i < 0 then |s| else i;
      assert i < 0 ==> s[from..] == s[from..|s|];
    }
  }

  /** Every piece of `s.split(sep)` is an infix of `s`. */
  lemma SplitPartInfix(s: string, sep: string, n: int)
    requires |sep| > 0 && 0 <= n < |Split(s, sep)|
    ensures Contains(s, Split(s, sep)[n])
  {
    var lo, hi := SplitFromPartBounds(s, sep, 0, n);
    SliceIsInfix(s, lo, hi);
  }

  /** `s.split(sep)[0]` is the prefix before the first occurrence. */
  lemma SplitHead(s: string, sep: string, i: int)
    requires |sep| > 0 && FirstAt(s, sep, i)
    ensures Split(s, sep)[0] == s[..i]
  {
    FindOf(s, sep, i);
  }

  /** `s.split(sep)` is `[s]` when the separator does not occur. */
  lemma SplitNone(s: string, sep: string)
    requires |sep| > 0 && !Contains(s, sep)
    ensures Split(s, sep) == [s]
  {
    assert s[0..] == s;
  }

  /** `s.split(sep)[1]` is the segment strictly between the first occurrence,
      at `i`, and the next one, at `j`, or the end of the string when there is
      no other. */
  lemma SplitSecond(s: string, sep: string, i: int, j: int)
    requires |sep| > 0 && FirstAt(s, sep, i)
    requires i + |sep| <= j <= |s|
    requires OccursAt(s, sep, j) || j == |s|
    requires forall k :: i + |sep| <= k < j ==> !OccursAt(s, sep, k)
    ensures |Split(s, sep)| >= 2 && Split(s, sep)[1] == s[i + |sep|..j]
  {
    FindOf(s, sep, i);
    var a := i + |sep|;
    assert Split(s, sep)[1] == SplitFrom(s, sep, a)[0];
    if j < |s| {
      FindFromAt(s, sep, a, j);
    } else {
      FindFromNone(s, sep, a);
      assert s[a..] == s[a..j];
    }
  }

  /** Scanning `p + q` from inside `q` finds what scanning `q` finds, shifted
      by `|p|`. */
  lemma {:induction false} FindFromShift(p: string, q: string, sub: string, k: nat)
    ensures FindFrom(q, sub, k) < 0 ==> FindFrom(p + q, sub, |p| + k) == -1
    ensures FindFrom(q, sub, k) >= 0 ==> FindFrom(p + q, sub, |p| + k) == |p| + FindFrom(q, sub, k)
    decreases |q| - k
  {
    if k + |sub| <= |q| {
      assert (p + q)[|p| + k..|p| + k + |sub|] == q[k..k + |sub|];
      if q[k..k + |sub|] != sub {
        FindFromShift(p, q, sub, k + 1);
      }
    }
  }

  /** When the scan from `from` finds an occurrence at `i`, the pieces of
      `s[from..]` are `s[from..i]` followed by the pieces after it. */
  lemma SplitFromCons(s: string, sep: string, from: nat)
    requires |sep| > 0 && from <= |s| && FindFrom(s, sep, from) >= 0
    ensures SplitFrom(s, sep, from)
      == [s[from..FindFrom(s, sep, from)]] + SplitFrom(s, sep, FindFrom(s, sep, from) + |sep|)
  {
  }

  /** A slice of `p + q` that starts where `q` does is a prefix of `q`. */
  lemma SliceOfTail(p: string, q: string, f: int)
    requires 0 <= f <= |q|
    ensures (p + q)[|p|..|p| + f] == q[..f] == q[0..f]
    ensures f == |q| ==> (p + q)[|p|..] == q == q[0..]
  {
    forall i | 0 <= i < f
      ensures (p + q)[|p|..|p| + f][i] == q[..f][i]
    {
      assert (p + q)[|p| + i] == q[i];
    }
  }

  /** A string that starts with the separator splits into an empty first
      piece, then the first piece of the rest. */
  lemma SplitLeading(sep: string, q: string)
    requires |sep| > 0
    ensures |Split(sep + q, sep)| >= 2
    ensures Split(sep + q, sep)[0] == [] && Split(sep + q, sep)[1] == Split(q, sep)[0]
  {
    var s := sep + q;
    var n := |sep|;
    assert s[0..n] == sep;
    assert FindFrom(s, sep, 0) == 0;
    SplitFromCons(s, sep, 0);
    var f := FindFrom(q, sep, 0);
    FindFromShift(sep, q, sep, 0);
    SplitFromHead(s, sep, n);
    SplitFromHead(q, sep, 0);
    SliceOfTail(sep, q, if f < 0 then |q| else f);
  }

  /** The first piece of `p + [c] + q`, where `p` holds no separator and `c`
      is no character of it, is `p + [c]` followed by the first piece of `q`. */
  lemma SplitHeadAround(p: string, c: char, q: string, sep: string)
    requires |sep| > 0 && c !in sep && !Contains(p, sep)
    ensures Split(p + [c] + q, sep)[0] == p + [c] + Split(q, sep)[0]
  {
    var s := p + [c] + q;
    var n := |p| + 1;
    if Contains(q, sep) {
      var f := Find(q, sep);
      FindIsFirst(q, sep);
      OccursAround(p, c, q, sep, n + f);
      forall k | 0 <= k < n + f ensures !OccursAt(s, sep, k) {
        OccursAround(p, c, q, sep, k);
        ContainsAt(p, sep, k);
        if k >= n {
          FindSkipsNone(q, sep, k - n);
        }
      }
      SplitHead(s, sep, n + f);
      SplitHead(q, sep, f);
      PrefixOfConcat(p + [c], q, n + f);
    } else {
      ContainsAround(p, c, q, sep);
      SplitNone(s, sep);
      SplitNone(q, sep);
    }
  }

  // ---------------------------------------------------------------------
  // strip

  /** `s.lstrip()`: a suffix of `s` that does not start with whitespace. */
  function LStrip(s: string): (r: string)
    ensures |r| <= |s| && r == s[|s| - |r|..]
    ensures r == [] || !IsSpace(r[0])
    decreases |s|
  {
    if |s| > 0 && IsSpace(s[0]) then
      var r := LStrip(s[1..]);
      assert s[1..][|s| - 1 - |r|..] == s[|s| - |r|..];
      r
    else
      s
  }

  /** `s.rstrip()`: a prefix of `s` that does not end with whitespace. */
  function RStrip(s: string): (r: string)
    ensures |r| <= |s| && r == s[..|r|]
    ensures r == [] || !IsSpace(r[|r| - 1])
    decreases |s|
  {
    if |s| > 0 && IsSpace(s[|s| - 1]) then
      var r := RStrip(s[..|s| - 1]);
      assert s[..|s| - 1][..|r|] == s[..|r|];
      r
    else
      s
  }

  /** What `lstrip` drops is whitespace. */
  lemma {:induction false} LStripDropsSpace(s: string)
    ensures AllSpace(s[..|s| - |LStrip(s)|])
    decreases |s|
  {
    if |s| > 0 && IsSpace(s[0]) {
      var r := LStrip(s[1..]);
      LStripDropsSpace(s[1..]);
      forall i | 1 <= i < |s| - |r| ensures IsSpace(s[i]) {
        assert s[i] == s[1..][..|s| - 1 - |r|][i - 1];
      }
    }
  }

  /** What `rstrip` drops is whitespace. */
  lemma {:induction false} RStripDropsSpace(s: string)
    ensures AllSpace(s[|RStrip(s)|..])
    decreases |s|
  {
    if |s| > 0 && IsSpace(s[|s| - 1]) {
      var r := RStrip(s[..|s| - 1]);
      RStripDropsSpace(s[..|s| - 1]);
      forall i | |r| <= i < |s| - 1 ensures IsSpace(s[i]) {
        assert s[i] == s[..|s| - 1][|r|..][i - |r|];
      }
    }
  }

  /** `s.strip()`: the infix of `s` left once leading and trailing whitespace
      is removed. */
  function Strip(s: string): (r: string)
    ensures NoEdgeSpace(r)
    ensures Contains(s, r)
  {
    var l := LStrip(s);
    var r := RStrip(l);
    var a := |s| - |l|;
    assert Contains(s, r) by {
      assert s[a..][..|r|] == s[a..a + |r|];
      ContainsAt(s, r, a);
    }
    assert r != [] ==> r[0] == l[0];
    r
  }

  /** `strip()` gives the empty string exactly when `s` is all whitespace. */
  lemma StripEmpty(s: string)
    ensures Strip(s) == [] <==> AllSpace(s)
  {
    var l := LStrip(s);
    var a := |s| - |l|;
    LStripDropsSpace(s);
    if l != [] {
      RStripDropsSpace(l);
      assert l[0..][0] == l[0];
      assert s[a] == l[0];
    } else {
      assert s[..a] == s;
    }
  }

  /** `lstrip` removes exactly a leading run of whitespace. */
  lemma {:induction false} LStripOf(w: string, u: string)
    requires AllSpace(w) && (u == [] || !IsSpace(u[0]))
    ensures LStrip(w + u) == u
    decreases |w|
  {
    if w == [] {
      assert w + u == u;
    } else {
      assert (w + u)[1..] == w[1..] + u;
      LStripOf(w[1..], u);
    }
  }

  /** `rstrip` removes exactly a trailing run of whitespace. */
  lemma {:induction false} RStripOf(u: string, w: string)
    requires AllSpace(w) && (u == [] || !IsSpace(u[|u| - 1]))
    ensures RStrip(u + w) == u
    decreases |w|
  {
    if w == [] {
      assert u + w == u;
    } else {
      var w' := w[..|w| - 1];
      assert (u + w)[..|u + w| - 1] == u + w';
      RStripOf(u, w');
    }
  }

  /** `rstrip` never reaches into a prefix that ends in a non-space. */
  lemma RStripKeeps(p: string, q: string)
    requires p != [] && !IsSpace(p[|p| - 1])
    ensures RStrip(p + q) == p + RStrip(q)
  {
    var r := RStrip(q);
    var w := q[|r|..];
    RStripDropsSpace(q);
    assert q == r + w;
    assert p + q == (p + r) + w;
    RStripOf(p + r, w);
  }

  /** `strip` removes exactly surrounding whitespace: padding a string that
      has no whitespace at either end and stripping gives it back. */
  lemma StripPadded(lead: string, x: string, trail: string)
    requires AllSpace(lead) && AllSpace(trail) && NoEdgeSpace(x)
    ensures Strip(lead + x + trail) == x
  {
    if x == [] {
      assert lead + x + trail == (lead + trail) + [];
      LStripOf(lead + trail, []);
    } else {
      assert lead + x + trail == lead + (x + trail);
      LStripOf(lead, x + trail);
      RStripOf(x, trail);
    }
  }

  /** Stripping what is already stripped changes nothing. */
  lemma StripIdempotent(s: string)
    ensures Strip(Strip(s)) == Strip(s)
  {
    var r := Strip(s);
    assert [] + r + [] == r;
    StripPadded([], r, []);
  }

  // ---------------------------------------------------------------------
  // startswith and slice

  /** `s[len(p):] if s.startswith(p) else s`: the idiom the source uses twice
      to drop a known prefix (Python 3.9's `str.removeprefix`). */
  function RemovePrefix(s: string, p: string): (r: string)
    ensures p <= s ==> p + r == s
    ensures !(p <= s) ==> r == s
  {
    if p <= s then
      assert s == s[..|p|] + s[|p|..];
      s[|p|..]
    else
      s
  }

  /** Dropping a prefix the string starts with leaves the rest. */
  lemma RemovePrefixOf(p: string, u: string)
    ensures RemovePrefix(p + u, p) == u
  {
    assert p <= p + u;
    assert (p + u)[|p|..] == u;
  }

  /** What `RemovePrefix` leaves is an infix of what it was given. */
  lemma RemovePrefixInfix(s: string, p: string)
    ensures Contains(s, RemovePrefix(s, p))
  {
    if p <= s {
      assert RemovePrefix(s, p) == s[|p|..|s|];
      SliceIsInfix(s, |p|, |s|);
    } else {
      OccursAtWhole(s);
    }
  }
}
