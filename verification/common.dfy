/** Helpers shared by every part of the model: an option type, the JavaScript
    string primitives the application relies on (`trim`, `\s`, `toLowerCase`,
    `toUpperCase`, `includes`, `split`, `join`) and a few sequence functions. */
module Common {

  datatype Option<+T> = None | Some(value: T)

  /** A white-space character in the sense of JavaScript's `\s` and
      `String.prototype.trim`: the WhiteSpace and LineTerminator productions,
      where WhiteSpace is TAB, VT, FF, ZWNBSP and every space separator (Zs). */
  const SpaceChars: set<char> := {
    ' ', '\t', '\n', '\r', '\U{000B}', '\U{000C}', '\U{00A0}', '\U{1680}',
    '\U{2000}', '\U{2001}', '\U{2002}', '\U{2003}', '\U{2004}', '\U{2005}',
    '\U{2006}', '\U{2007}', '\U{2008}', '\U{2009}', '\U{200A}',
    '\U{2028}', '\U{2029}', '\U{202F}', '\U{205F}', '\U{3000}', '\U{FEFF}' }

  predicate IsSpace(c: char)
  {
    c in SpaceChars
  }

  /** The characters a regular-expression `.` does not match without the `s` flag. */
  predicate IsLineTerminator(c: char)
  {
    c == '\n' || c == '\r' || c == '\U{2028}' || c == '\U{2029}'
  }

  predicate AllSpace(s: string)
  {
    forall i :: 0 <= i < |s| ==> IsSpace(s[i])
  }

  /** Neither end of `s` is white space (vacuously true of the empty string). */
  predicate Trimmed(s: string)
  {
    |s| > 0 ==> !IsSpace(s[0]) && !IsSpace(s[|s| - 1])
  }

  /** The index of the first non-white character at or after `i` (`|s|` if none). */
  function SkipSpaces(s: string, i: nat): (k: nat)
    requires i <= |s|
    ensures i <= k <= |s|
    ensures forall j :: i <= j < k ==> IsSpace(s[j])
    ensures k < |s| ==> !IsSpace(s[k])
    decreases |s| - i
  {
    if i < |s| && IsSpace(s[i]) then SkipSpaces(s, i + 1) else i
  }

  /** The end of `s[..j]` once its trailing white space is dropped. */
  function SkipSpacesBack(s: string, j: nat): (k: nat)
    requires j <= |s|
    ensures k <= j
    ensures forall m :: k <= m < j ==> IsSpace(s[m])
    ensures k > 0 ==> !IsSpace(s[k - 1])
    decreases j
  {
    if j > 0 && IsSpace(s[j - 1]) then SkipSpacesBack(s, j - 1) else j
  }

  /** `String.prototype.trim`: `s` is white space, then the result, then white space. */
  function Trim(s: string): (r: string)
    ensures Trimmed(r)
    ensures var a, b := SkipSpaces(s, 0), SkipSpacesBack(s, |s|);
      if a < b then r == s[a..b] else r == "" && AllSpace(s)
  {
    var a, b := SkipSpaces(s, 0), SkipSpacesBack(s, |s|);
    if a < b then s[a..b] else ""
  }

  /** A text the application treats as blank, `text.trim() === ''`: by
      `BlankIffTrimEmpty`, exactly the all-white texts. */
  predicate IsBlank(s: string)
  {
    AllSpace(s)
  }

  lemma BlankIffTrimEmpty(s: string)
    ensures IsBlank(s) <==> Trim(s) == ""
  {
    var a, b := SkipSpaces(s, 0), SkipSpacesBack(s, |s|);
    if a < |s| {
      assert !IsSpace(s[a]);
      assert a < b;
    } else if |s| > 0 {
      assert IsSpace(s[|s| - 1]);
    }
  }

  /** Trimming a string whose ends are already non-white leaves it unchanged. */
  lemma TrimOfTrimmed(s: string)
    requires Trimmed(s)
    ensures Trim(s) == s
  {
    if |s| > 0 {
      assert SkipSpaces(s, 0) == 0;
      assert SkipSpacesBack(s, |s|) == |s|;
      assert s[0..|s|] == s;
    }
  }

  /** White space around a trimmed core is exactly what `trim` removes. */
  lemma TrimSurrounded(pre: string, s: string, post: string)
    requires AllSpace(pre) && AllSpace(post) && Trimmed(s) && |s| > 0
    ensures Trim(pre + s + post) == s
  {
    var x := pre + s + post;
    var a, b := SkipSpaces(x, 0), SkipSpacesBack(x, |x|);
    assert x[|pre|] == s[0];
    assert x[|pre| + |s| - 1] == s[|s| - 1];
    assert forall j :: 0 <= j < |pre| ==> x[j] == pre[j];
    assert forall j :: |pre| + |s| <= j < |x| ==> x[j] == post[j - |pre| - |s|];
    assert a == |pre| && b == |pre| + |s|;
    assert x[a..b] == s;
  }

  predicate StartsWith(s: string, prefix: string)
  {
    |prefix| <= |s| && s[..|prefix|] == prefix
  }

  /** `String.prototype.includes`. */
  predicate Includes(s: string, sub: string)
  {
    exists i | 0 <= i <= |s| :: StartsWith(s[i..], sub)
  }

  /** `toLowerCase` / `toUpperCase`, on the ASCII letters only. */
  function LowerChar(c: char): char
  {
    if 'A' <= c <= 'Z' then (c as int + 32) as char else c
  }

  function UpperChar(c: char): char
  {
    if 'a' <= c <= 'z' then (c as int - 32) as char else c
  }

  function ToLower(s: string): (r: string)
    ensures |r| == |s|
    ensures forall i :: 0 <= i < |s| ==> r[i] == LowerChar(s[i])
  {
    seq(|s|, i requires 0 <= i < |s| => LowerChar(s[i]))
  }

  function ToUpper(s: string): (r: string)
    ensures |r| == |s|
    ensures forall i :: 0 <= i < |s| ==> r[i] == UpperChar(s[i])
  {
    seq(|s|, i requires 0 <= i < |s| => UpperChar(s[i]))
  }

  /** `Array.prototype.filter`: the elements satisfying `p`, in their original order. */
  function Filter<T>(p: T -> bool, s: seq<T>): (r: seq<T>)
    ensures |r| <= |s|
    ensures forall i :: 0 <= i < |r| ==> p(r[i])
    ensures forall i :: 0 <= i < |r| ==> r[i] in s
    ensures forall i :: 0 <= i < |s| && p(s[i]) ==> s[i] in r
  {
    if |s| == 0 then []
    else if p(s[0]) then [s[0]] + Filter(p, s[1..])
    else Filter(p, s[1..])
  }

  lemma {:induction false} FilterAppend<T>(p: T -> bool, a: seq<T>, b: seq<T>)
    ensures Filter(p, a + b) == Filter(p, a) + Filter(p, b)
  {
    if |a| > 0 {
      assert (a + b)[1..] == a[1..] + b;
      FilterAppend(p, a[1..], b);
    } else {
      assert a + b == b;
    }
  }

  lemma {:induction false} FilterAll<T>(p: T -> bool, s: seq<T>)
    requires forall i :: 0 <= i < |s| ==> p(s[i])
    ensures Filter(p, s) == s
  {
    if |s| > 0 {
      FilterAll(p, s[1..]);
    }
  }

  lemma {:induction false} FilterNone<T>(p: T -> bool, s: seq<T>)
    requires forall i :: 0 <= i < |s| ==> !p(s[i])
    ensures Filter(p, s) == []
  {
    if |s| > 0 {
      FilterNone(p, s[1..]);
    }
  }

  /** The positions of `s`, from `i` on, whose elements satisfy `p`, in order. */
  function PositionsFrom<T>(p: T -> bool, s: seq<T>, i: nat): (idx: seq<nat>)
    requires i <= |s|
    ensures forall k :: 0 <= k < |idx| ==> i <= idx[k] < |s| && p(s[idx[k]])
    ensures forall k, l :: 0 <= k < l < |idx| ==> idx[k] < idx[l]
    decreases |s| - i
  {
    if i == |s| then []
    else if p(s[i]) then [i] + PositionsFrom(p, s, i + 1)
    else PositionsFrom(p, s, i + 1)
  }

  /** Every position from `i` on whose element satisfies `p` is among them. */
  lemma {:induction false} PositionsComplete<T>(p: T -> bool, s: seq<T>, i: nat)
    requires i <= |s|
    ensures forall j :: i <= j < |s| && p(s[j]) ==> j in PositionsFrom(p, s, i)
    decreases |s| - i
  {
    if i < |s| {
      PositionsComplete(p, s, i + 1);
    }
  }

  /** `Filter` takes its elements of `s[i..]` from exactly those positions. */
  lemma {:induction false} FilterAtPositions<T>(p: T -> bool, s: seq<T>, i: nat)
    requires i <= |s|
    ensures |PositionsFrom(p, s, i)| == |Filter(p, s[i..])|
    ensures forall k :: 0 <= k < |PositionsFrom(p, s, i)| ==> Filter(p, s[i..])[k] == s[PositionsFrom(p, s, i)[k]]
    decreases |s| - i
  {
    if i < |s| {
      FilterAtPositions(p, s, i + 1);
      var rest, tail := PositionsFrom(p, s, i + 1), Filter(p, s[i + 1..]);
      assert s[i..][0] == s[i] && s[i..][1..] == s[i + 1..];
      if p(s[i]) {
        assert Filter(p, s[i..]) == [s[i]] + tail;
        assert PositionsFrom(p, s, i) == [i] + rest;
      } else {
        assert Filter(p, s[i..]) == tail;
        assert PositionsFrom(p, s, i) == rest;
      }
    }
  }

  /** The positions `Filter` takes its elements from: strictly increasing
      positions of `s`, among them every position whose element satisfies `p`. */
  lemma FilterPositions<T>(p: T -> bool, s: seq<T>) returns (idx: seq<nat>)
    ensures |idx| == |Filter(p, s)|
    ensures forall k :: 0 <= k < |idx| ==> idx[k] < |s| && Filter(p, s)[k] == s[idx[k]]
    ensures forall k, l :: 0 <= k < l < |idx| ==> idx[k] < idx[l]
    ensures forall j :: 0 <= j < |s| && p(s[j]) ==> j in idx
  {
    assert s[0..] == s;
    idx := PositionsFrom(p, s, 0);
    FilterAtPositions(p, s, 0);
    PositionsComplete(p, s, 0);
  }

  /** In a strictly increasing sequence, a member below the `k`-th element
      sits in every prefix that reaches past `k`. */
  lemma BelowInPrefix(idx: seq<nat>, n: nat, k: nat, j: nat)
    requires k < n <= |idx|
    requires forall a, b :: 0 <= a < b < |idx| ==> idx[a] < idx[b]
    requires j in idx && j < idx[k]
    ensures j in idx[..n]
  {
    var m :| 0 <= m < |idx| && idx[m] == j;
    assert m < k;
    assert idx[..n][m] == j;
  }

  /** `Array.prototype.slice(0, n)`. */
  function Take<T>(s: seq<T>, n: nat): (r: seq<T>)
    ensures |r| == if |s| <= n then |s| else n
    ensures r == s[..|r|]
  {
    if |s| <= n then s else s[..n]
  }

  function Flatten<T>(ss: seq<seq<T>>): seq<T>
  {
    if |ss| == 0 then [] else ss[0] + Flatten(ss[1..])
  }

  lemma {:induction false} FlattenAppend<T>(a: seq<seq<T>>, b: seq<seq<T>>)
    ensures Flatten(a + b) == Flatten(a) + Flatten(b)
  {
    if |a| > 0 {
      assert (a + b)[1..] == a[1..] + b;
      FlattenAppend(a[1..], b);
    } else {
      assert a + b == b;
    }
  }

  /** `Array.prototype.join(sep)`. */
  function Join(parts: seq<string>, sep: string): string
  {
    if |parts| == 0 then ""
    else if |parts| == 1 then parts[0]
    else parts[0] + sep + Join(parts[1..], sep)
  }

  /** `s.split(c)` for a one-character separator: the maximal pieces between
      occurrences of `c`; the empty string splits into one empty piece. */
  function SplitOn(s: string, c: char): (r: seq<string>)
    ensures |r| > 0
    ensures forall i, k :: 0 <= i < |r| && 0 <= k < |r[i]| ==> r[i][k] != c
    decreases |s|
  {
    if |s| == 0 then [""]
    else
      var rest := SplitOn(s[1..], c);
      if s[0] == c then [""] + rest
      else [[s[0]] + rest[0]] + rest[1..]
  }

  /** Splitting the join of pieces that do not contain the separator gives the pieces back. */
  lemma {:induction false} SplitOnJoin(parts: seq<string>, c: char)
    requires |parts| > 0
    requires forall i, k :: 0 <= i < |parts| && 0 <= k < |parts[i]| ==> parts[i][k] != c
    ensures SplitOn(Join(parts, [c]), c) == parts
  {
    if |parts| == 1 {
      SplitOnPiece(parts[0], [], c);
      assert parts[0] + [] == parts[0];
      assert SplitOn([], c) == [""];
    } else {
      var j := Join(parts[1..], [c]);
      SplitOnJoin(parts[1..], c);
      SplitOnPiece(parts[0], [c] + j, c);
      assert Join(parts, [c]) == parts[0] + ([c] + j);
      assert ([c] + j)[1..] == j;
      assert SplitOn([c] + j, c) == [""] + parts[1..];
      assert parts[0] + "" == parts[0];
      assert [parts[0]] + parts[1..] == parts;
    }
  }

  /** A piece free of `c` in front of `tail` becomes the first piece, glued to the
      first piece of `tail` (which is empty when `tail` starts with `c`). */
  lemma {:induction false} SplitOnPiece(piece: string, tail: string, c: char)
    requires forall k :: 0 <= k < |piece| ==> piece[k] != c
    ensures SplitOn(piece + tail, c)
         == [piece + SplitOn(tail, c)[0]] + SplitOn(tail, c)[1..]
  {
    if |piece| > 0 {
      assert (piece + tail)[1..] == piece[1..] + tail;
      SplitOnPiece(piece[1..], tail, c);
      assert [piece[0]] + (piece[1..] + SplitOn(tail, c)[0]) == piece + SplitOn(tail, c)[0];
    } else {
      assert piece + tail == tail;
      assert piece + SplitOn(tail, c)[0] == SplitOn(tail, c)[0];
      assert SplitOn(tail, c) == [SplitOn(tail, c)[0]] + SplitOn(tail, c)[1..];
    }
  }

  function DigitChar(d: nat): char
    requires d < 10
  {
    ('0' as int + d) as char
  }

  /** The decimal numeral of `n`, as a JavaScript template literal prints it. */
  function NatToString(n: nat): (r: string)
    ensures |r| > 0
    ensures forall i :: 0 <= i < |r| ==> '0' <= r[i] <= '9'
  {
    if n < 10 then [DigitChar(n)] else NatToString(n / 10) + [DigitChar(n % 10)]
  }

  /** `0, 1, ..., n - 1`. */
  function Range(n: nat): (r: seq<nat>)
    ensures |r| == n
    ensures forall i :: 0 <= i < n ==> r[i] == i
  {
    seq(n, i requires 0 <= i < n => i)
  }

  /** The number of elements of `s` satisfying `p`. */
  function Count<T>(p: T -> bool, s: seq<T>): nat
  {
    |Filter(p, s)|
  }

  /** The values of the present entries, in order. */
  function Present<T>(opts: seq<Option<T>>): (r: seq<T>)
    ensures |r| <= |opts|
    ensures forall i :: 0 <= i < |r| ==> Some(r[i]) in opts
  {
    if |opts| == 0 then []
    else
      var rest := Present(opts[1..]);
      match opts[0]
      case None => rest
      case Some(x) => [x] + rest
  }

  /** When every entry is present, `Present` gives all the values. */
  lemma {:induction false} PresentAll<T>(opts: seq<Option<T>>, xs: seq<T>)
    requires |opts| == |xs| && forall i :: 0 <= i < |opts| ==> opts[i] == Some(xs[i])
    ensures Present(opts) == xs
  {
    if |opts| > 0 {
      PresentAll(opts[1..], xs[1..]);
      assert xs == [xs[0]] + xs[1..];
    }
  }

  function IsPresent<T>(o: Option<T>): bool
  {
    o.Some?
  }

  /** `Present` takes its values of `opts[i..]` from exactly the present positions. */
  lemma {:induction false} PresentAtPositions<T>(opts: seq<Option<T>>, i: nat)
    requires i <= |opts|
    ensures |PositionsFrom(IsPresent, opts, i)| == |Present(opts[i..])|
    ensures forall k :: 0 <= k < |Present(opts[i..])| ==>
      opts[PositionsFrom(IsPresent, opts, i)[k]] == Some(Present(opts[i..])[k])
    decreases |opts| - i
  {
    if i < |opts| {
      PresentAtPositions(opts, i + 1);
      var rest, tail := PositionsFrom(IsPresent, opts, i + 1), Present(opts[i + 1..]);
      assert opts[i..][0] == opts[i] && opts[i..][1..] == opts[i + 1..];
      match opts[i]
      case Some(x) =>
        assert Present(opts[i..]) == [x] + tail;
        assert PositionsFrom(IsPresent, opts, i) == [i] + rest;
      case None =>
        assert Present(opts[i..]) == tail;
        assert PositionsFrom(IsPresent, opts, i) == rest;
    }
  }

  /** The positions `Present` takes its values from: strictly increasing, and
      every present entry among them. */
  lemma PresentPositions<T>(opts: seq<Option<T>>) returns (idx: seq<nat>)
    ensures |idx| == |Present(opts)|
    ensures forall k :: 0 <= k < |idx| ==> idx[k] < |opts| && opts[idx[k]] == Some(Present(opts)[k])
    ensures forall k, l :: 0 <= k < l < |idx| ==> idx[k] < idx[l]
    ensures forall j :: 0 <= j < |opts| && opts[j].Some? ==> j in idx
  {
    assert opts[0..] == opts;
    idx := PositionsFrom(IsPresent, opts, 0);
    PresentAtPositions(opts, 0);
    PositionsComplete(IsPresent, opts, 0);
  }
}
