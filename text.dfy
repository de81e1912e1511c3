/**
 * String operations of Python's `str` that the modelled code uses:
 * substring search, `split` on a one-character separator, `join`,
 * `count`, `strip` with Python's whitespace set, and ASCII `lower`.
 */
module Text {
  import opened Wrappers

  /** `t` occurs in `s` starting at index `k`. */
  predicate OccursAt(s: string, t: string, k: nat)
  {
    k + |t| <= |s| && s[k..k + |t|] == t
  }

  /** `t` cannot start before `p` when its character at `m` occurs nowhere in `s` before `p + m`. */
  lemma NotFoundBefore(s: string, t: string, m: nat, p: nat)
    requires m < |t|
    requires forall i :: 0 <= i < p + m && i < |s| ==> s[i] != t[m]
    ensures forall k: nat :: k < p ==> !OccursAt(s, t, k)
  {
    forall k: nat | k < p ensures !OccursAt(s, t, k) {
      if k + |t| <= |s| {
        assert s[k..k + |t|][m] == s[k + m];
      }
    }
  }

  /** The first index at or after `from` where `t` occurs in `s` (Python's `s.find(t, from)`). */
  function FindFrom(s: string, t: string, from: nat): (r: Option<nat>)
    requires from <= |s|
    ensures r.Some? ==> from <= r.value && OccursAt(s, t, r.value)
    ensures r.Some? ==> forall k :: from <= k < r.value ==> !OccursAt(s, t, k)
    ensures r.None? ==> forall k :: from <= k ==> !OccursAt(s, t, k)
    decreases |s| - from
  {
    if OccursAt(s, t, from) then Some(from)
    else if from == |s| then None
    else FindFrom(s, t, from + 1)
  }

  /** Python's `t in s`. */
  predicate Contains(s: string, t: string)
    ensures t == [] ==> Contains(s, t)
    ensures Contains(s, t) ==> |t| <= |s|
  {
    FindFrom(s, t, 0).Some?
  }

  lemma ContainsIff(s: string, t: string)
    ensures Contains(s, t) <==> exists k :: OccursAt(s, t, k)
  {
    if !Contains(s, t) {
      forall k ensures !OccursAt(s, t, k) { }
    }
  }

  /** Python's `s.count(c)` for a single character. */
  function Count(s: string, c: char): (n: nat)
    ensures n <= |s|
    ensures n == 0 <==> c !in s
  {
    if s == [] then 0 else (if s[0] == c then 1 else 0) + Count(s[1..], c)
  }

  lemma {:induction false} CountAppend(a: string, b: string, c: char)
    ensures Count(a + b, c) == Count(a, c) + Count(b, c)
  {
    if a == [] {
      assert a + b == b;
    } else {
      assert (a + b)[1..] == a[1..] + b;
      CountAppend(a[1..], b, c);
    }
  }

  /** A separator between two pieces free of it is counted once. */
  lemma CountSingle(a: string, b: string, c: char)
    requires c !in a && c !in b
    ensures Count(a + [c] + b, c) == 1
  {
    CountAppend(a + [c], b, c);
    CountAppend(a, [c], c);
  }

  /** When the separator between two pieces is the only one, neither piece contains it. */
  lemma LoneSeparator(a: string, b: string, c: char)
    requires Count(a + [c] + b, c) == 1
    ensures c !in a && c !in b
  {
    CountAppend(a + [c], b, c);
    CountAppend(a, [c], c);
  }

  /** The index of the last `c` in `s`, or -1 (Python's `s.rfind(c)`). */
  function LastIndexOf(s: string, c: char): (r: int)
    ensures -1 <= r < |s|
    ensures r >= 0 ==> s[r] == c
    ensures forall k :: r < k < |s| ==> s[k] != c
  {
    if s == [] then -1
    else if s[|s| - 1] == c then |s| - 1
    else LastIndexOf(s[..|s| - 1], c)
  }

  /** Python's `s.split(sep)` for a one-character separator. */
  function Split(s: string, sep: char): (parts: seq<string>)
    ensures |parts| == Count(s, sep) + 1
    ensures forall k :: 0 <= k < |parts| ==> sep !in parts[k]
  {
    if s == [] then [""]
    else
      var rest := Split(s[1..], sep);
      if s[0] == sep then [""] + rest
      else [[s[0]] + rest[0]] + rest[1..]
  }

  /** Python's `sep.join(parts)`. */
  function Join(parts: seq<string>, sep: char): (s: string)
    ensures parts != [] ==> parts[0] <= s
  {
    if parts == [] then ""
    else if |parts| == 1 then parts[0]
    else parts[0] + [sep] + Join(parts[1..], sep)
  }

  /** Parts free of the separator are joined with one separator between each two. */
  lemma {:induction false} JoinCount(parts: seq<string>, sep: char)
    requires parts != [] && forall k :: 0 <= k < |parts| ==> sep !in parts[k]
    ensures Count(Join(parts, sep), sep) == |parts| - 1
  {
    if |parts| > 1 {
      JoinCount(parts[1..], sep);
      CountAppend(parts[0] + [sep], Join(parts[1..], sep), sep);
      CountAppend(parts[0], [sep], sep);
    }
  }

  /** Joining the pieces of a split gives back the string. */
  lemma {:induction false} JoinSplit(s: string, sep: char)
    ensures Join(Split(s, sep), sep) == s
  {
    if s != [] {
      var rest := Split(s[1..], sep);
      JoinSplit(s[1..], sep);
      if s[0] == sep {
        JoinPrepend([], [sep], rest, sep);
        assert [sep] + s[1..] == s;
      } else {
        JoinPrepend([s[0]], [], rest, sep);
        assert [s[0]] + s[1..] == s;
      }
    }
  }

  /**
   * Putting `pre` in front of the first part, or `pre` (which ends with the
   * separator) as a part of its own, puts `pre + mid` in front of the join.
   */
  lemma JoinPrepend(pre: string, mid: string, parts: seq<string>, sep: char)
    requires parts != []
    requires (mid == [] && pre != []) || (pre == [] && mid == [sep])
    ensures mid == [] ==> Join([pre + parts[0]] + parts[1..], sep) == pre + Join(parts, sep)
    ensures mid != [] ==> Join([""] + parts, sep) == [sep] + Join(parts, sep)
  {
    if mid == [] {
      var q := [pre + parts[0]] + parts[1..];
      if |parts| > 1 {
        assert q[1..] == parts[1..];
      }
    } else {
      assert ([""] + parts)[1..] == parts;
    }
  }

  /** Splitting at a separator splits the pieces of each side. */
  lemma {:induction false} SplitAround(a: string, b: string, sep: char)
    ensures Split(a + [sep] + b, sep) == Split(a, sep) + Split(b, sep)
  {
    if a == [] {
      SplitCons(sep, b, sep);
      ConcatShape(a, sep, b);
    } else {
      SplitAround(a[1..], b, sep);
      SplitAroundStep(a, b, sep);
    }
  }

  /** The first character and the rest of `a + [sep] + b`. */
  lemma ConcatShape(a: string, sep: char, b: string)
    ensures a == [] ==> a + [sep] + b == [sep] + b
    ensures a != [] ==> (a + [sep] + b)[0] == a[0] && (a + [sep] + b)[1..] == a[1..] + [sep] + b
  {
  }

  lemma SplitAroundStep(a: string, b: string, sep: char)
    requires a != []
    requires Split(a[1..] + [sep] + b, sep) == Split(a[1..], sep) + Split(b, sep)
    ensures Split(a + [sep] + b, sep) == Split(a, sep) + Split(b, sep)
  {
    ConcatShape(a, sep, b);
    if a[0] == sep {
      SplitGlue([], Split(a[1..], sep), Split(b, sep));
    } else {
      SplitGlue([a[0]], Split(a[1..], sep), Split(b, sep));
    }
  }

  /** Split of a string with one more character in front. */
  lemma SplitCons(x: char, t: string, sep: char)
    ensures Split([x] + t, sep) == if x == sep then [""] + Split(t, sep)
                                   else [[x] + Split(t, sep)[0]] + Split(t, sep)[1..]
  {
    assert ([x] + t)[0] == x && ([x] + t)[1..] == t;
  }

  /** Gluing `pre` to the first piece commutes with appending further pieces. */
  lemma SplitGlue(pre: string, ra: seq<string>, rb: seq<string>)
    requires ra != []
    ensures [""] + (ra + rb) == ([""] + ra) + rb
    ensures [pre + (ra + rb)[0]] + (ra + rb)[1..] == ([pre + ra[0]] + ra[1..]) + rb
  {
    assert (ra + rb)[0] == ra[0];
    assert (ra + rb)[1..] == ra[1..] + rb;
  }


  /** A string without the separator is one piece. */
  lemma {:induction false} SplitNoSeparator(s: string, sep: char)
    requires sep !in s
    ensures Split(s, sep) == [s]
  {
    if s != [] {
      assert sep !in s[1..];
      SplitNoSeparator(s[1..], sep);
      assert [s[0]] + s[1..] == s;
    }
  }

  /** A separator-free first piece comes off the front of a split. */
  lemma SplitFirst(a: string, rest: string, sep: char)
    requires sep !in a
    ensures Split(a + [sep] + rest, sep) == [a] + Split(rest, sep)
    ensures Split(a + [sep] + rest, sep)[0] == a && Split(a + [sep] + rest, sep)[1..] == Split(rest, sep)
  {
    SplitAround(a, rest, sep);
    SplitNoSeparator(a, sep);
  }

  /** Python's `str.isspace` for one character, listed explicitly. */
  predicate IsSpace(c: char)
    ensures c == ' ' || c == '\t' || c == '\n' || c == '\r' ==> IsSpace(c)
    ensures '!' <= c <= '~' ==> !IsSpace(c)
  {
    c == ' ' || ('\t' <= c <= '\r') || ('\U{1C}' <= c <= '\U{1F}')
    || c == '\U{85}' || c == '\U{A0}' || c == '\U{1680}'
    || ('\U{2000}' <= c <= '\U{200A}') || c == '\U{2028}' || c == '\U{2029}'
    || c == '\U{202F}' || c == '\U{205F}' || c == '\U{3000}'
  }

  predicate AllSpace(s: string)
  {
    forall k :: 0 <= k < |s| ==> IsSpace(s[k])
  }

  function StripLeft(s: string): (r: string)
  {
    if s != [] && IsSpace(s[0]) then StripLeft(s[1..]) else s
  }

  function StripRight(s: string): (r: string)
  {
    if s != [] && IsSpace(s[|s| - 1]) then StripRight(s[..|s| - 1]) else s
  }

  /** Python's `s.strip()`. */
  function Strip(s: string): (r: string)
    ensures |r| <= |s|
  {
    var l := StripLeft(s);
    StripLeftShape(s);
    StripRightShape(l);
    StripRight(l)
  }

  /** The number of whitespace characters `s` starts with. */
  function Leading(s: string): (n: nat)
    ensures n <= |s|
  {
    if s != [] && IsSpace(s[0]) then 1 + Leading(s[1..]) else 0
  }

  /** The number of whitespace characters `s` ends with. */
  function Trailing(s: string): (n: nat)
    ensures n <= |s|
  {
    if s != [] && IsSpace(s[|s| - 1]) then 1 + Trailing(s[..|s| - 1]) else 0
  }

  lemma {:induction false} StripLeftShape(s: string)
    ensures StripLeft(s) == s[Leading(s)..] && AllSpace(s[..Leading(s)])
    ensures StripLeft(s) == [] || !IsSpace(StripLeft(s)[0])
  {
    if s != [] && IsSpace(s[0]) {
      var t := s[1..];
      StripLeftShape(t);
      var n := Leading(t);
      assert t[n..] == s[n + 1..];
      var head := s[..n + 1];
      forall k | 0 <= k < |head| ensures IsSpace(head[k]) {
        if k > 0 { assert head[k] == t[..n][k - 1]; }
      }
    } else {
      assert s[0..] == s;
    }
  }

  lemma {:induction false} StripRightShape(s: string)
    ensures StripRight(s) == s[..|s| - Trailing(s)] && AllSpace(s[|s| - Trailing(s)..])
    ensures StripRight(s) == [] || !IsSpace(StripRight(s)[|StripRight(s)| - 1])
  {
    if s != [] && IsSpace(s[|s| - 1]) {
      var p := s[..|s| - 1];
      StripRightShape(p);
      var j := |p| - Trailing(p);
      assert p[..j] == s[..j];
      forall k | j <= k < |s| ensures IsSpace(s[k]) {
        if k < |s| - 1 { assert s[k] == p[j..][k - j]; }
      }
      var tail := s[j..];
      forall k | 0 <= k < |tail| ensures IsSpace(tail[k]) {
        assert tail[k] == s[j + k];
      }
    } else {
      assert s[..|s|] == s;
    }
  }

  /**
   * Strip removes exactly the whitespace at both ends: the result is a
   * slice of `s` whose cut-off parts are whitespace and whose own ends
   * are not.
   */
  lemma StripShape(s: string)
    ensures exists i, j :: 0 <= i <= j <= |s| && Strip(s) == s[i..j]
                          && AllSpace(s[..i]) && AllSpace(s[j..])
    ensures Strip(s) == [] || (!IsSpace(Strip(s)[0]) && !IsSpace(Strip(s)[|Strip(s)| - 1]))
  {
    StripLeftShape(s);
    var i := Leading(s);
    var l := s[i..];
    StripRightShape(l);
    var j := |l| - Trailing(l);
    assert l[..j] == s[i..i + j];
    assert l[j..] == s[i + j..];
    var r := Strip(s);
    if r != [] {
      assert r[0] == l[0];
    }
    assert Strip(s) == s[i..i + j] && AllSpace(s[..i]) && AllSpace(s[i + j..]);
  }

  /** Stripping keeps every character that is not whitespace: its count and whether it occurs at all. */
  lemma StripKeeps(s: string, c: char)
    requires !IsSpace(c)
    ensures Count(Strip(s), c) == Count(s, c)
    ensures c in Strip(s) <==> c in s
  {
    StripLeftShape(s);
    var i := Leading(s);
    var l := s[i..];
    StripRightShape(l);
    var j := |l| - Trailing(l);
    assert s == s[..i] + l[..j] + l[j..];
    CountBetweenSpace(s[..i], l[..j], l[j..], c);
  }

  /** Whitespace around a text does not change the count of a non-whitespace character. */
  lemma CountBetweenSpace(w1: string, m: string, w2: string, c: char)
    requires AllSpace(w1) && AllSpace(w2) && !IsSpace(c)
    ensures Count(w1 + m + w2, c) == Count(m, c)
  {
    CountAppend(w1 + m, w2, c);
    CountAppend(w1, m, c);
    NoneInSpace(w1, c);
    NoneInSpace(w2, c);
  }

  /** Whitespace holds no character that is not whitespace. */
  lemma NoneInSpace(w: string, c: char)
    requires AllSpace(w) && !IsSpace(c)
    ensures Count(w, c) == 0
  {
    assert c !in w by {
      forall k | 0 <= k < |w| ensures w[k] != c { assert IsSpace(w[k]); }
    }
  }

  /** Stripping a string whose ends are not whitespace changes nothing. */
  lemma StripUnchanged(s: string)
    requires s == [] || (!IsSpace(s[0]) && !IsSpace(s[|s| - 1]))
    ensures Strip(s) == s
  {
  }

  lemma StripIdempotent(s: string)
    ensures Strip(Strip(s)) == Strip(s)
  {
    StripShape(s);
    StripUnchanged(Strip(s));
  }

  /** Left stripping stops at the first character that is not whitespace. */
  lemma {:induction false} StripLeftStops(a: string, b: string, c: char)
    requires !IsSpace(c)
    ensures StripLeft(a + [c] + b) == StripLeft(a) + [c] + b
  {
    if a != [] {
      assert (a + [c] + b)[0] == a[0];
      if IsSpace(a[0]) {
        assert (a + [c] + b)[1..] == a[1..] + [c] + b;
        StripLeftStops(a[1..], b, c);
      }
    } else {
      assert a + [c] + b == [c] + b;
    }
  }

  /** Right stripping stops at the last character that is not whitespace. */
  lemma {:induction false} StripRightStops(a: string, b: string, c: char)
    requires !IsSpace(c)
    ensures StripRight(a + [c] + b) == a + [c] + StripRight(b)
  {
    var s := a + [c] + b;
    if b != [] {
      assert s[|s| - 1] == b[|b| - 1];
      if IsSpace(b[|b| - 1]) {
        assert s[..|s| - 1] == a + [c] + b[..|b| - 1];
        StripRightStops(a, b[..|b| - 1], c);
      }
    } else {
      assert s == a + [c];
      assert s[|s| - 1] == c;
    }
  }

  /** Around a character that is not whitespace, strip trims only the front of the left part and the end of the right part. */
  lemma StripAround(a: string, b: string, c: char)
    requires !IsSpace(c)
    ensures Strip(a + [c] + b) == StripLeft(a) + [c] + StripRight(b)
  {
    StripLeftStops(a, b, c);
    StripRightStops(StripLeft(a), b, c);
  }

  /** One-sided stripping only removes characters. */
  lemma StripSideKeepsAbsence(s: string, c: char)
    requires c !in s
    ensures c !in StripLeft(s) && c !in StripRight(s)
  {
    StripLeftShape(s);
    StripRightShape(s);
    var l, r := StripLeft(s), StripRight(s);
    forall k | 0 <= k < |l| ensures l[k] != c { assert l[k] == s[Leading(s) + k]; }
    forall k | 0 <= k < |r| ensures r[k] != c { assert r[k] == s[k]; }
  }

  /** Trailing whitespace does not change the stripped form. */
  lemma {:induction false} StripRightSpace(x: string, w: string)
    requires AllSpace(w)
    ensures StripRight(x + w) == StripRight(x)
  {
    if w != [] {
      var s := x + w;
      assert s[|s| - 1] == w[|w| - 1];
      assert s[..|s| - 1] == x + w[..|w| - 1];
      StripRightSpace(x, w[..|w| - 1]);
    } else {
      assert x + w == x;
    }
  }

  lemma {:induction false} StripSpaceSuffix(x: string, w: string)
    requires AllSpace(w)
    ensures Strip(x + w) == Strip(x)
  {
    if x == [] {
      assert x + w == w;
      StripLeftShape(w);
    } else if IsSpace(x[0]) {
      assert (x + w)[0] == x[0];
      assert (x + w)[1..] == x[1..] + w;
      StripSpaceSuffix(x[1..], w);
    } else {
      assert (x + w)[0] == x[0];
      StripRightSpace(x, w);
    }
  }

  /** Stripping only one side first leaves the stripped form unchanged. */
  lemma StripOneSide(s: string)
    ensures Strip(StripLeft(s)) == Strip(s)
    ensures Strip(StripRight(s)) == Strip(s)
  {
    StripLeftShape(s);
    StripRightShape(s);
    var j := |s| - Trailing(s);
    assert s == s[..j] + s[j..];
    StripSpaceSuffix(s[..j], s[j..]);
  }

  function LowerChar(c: char): (d: char)
  {
    if 'A' <= c <= 'Z' then (c as int + 32) as char else c
  }

  /** Python's `s.lower()` restricted to ASCII letters. */
  function Lower(s: string): (r: string)
    ensures |r| == |s|
    ensures forall k :: 0 <= k < |s| ==> r[k] == LowerChar(s[k])
    ensures forall k :: 0 <= k < |r| ==> !('A' <= r[k] <= 'Z')
  {
    seq(|s|, k requires 0 <= k < |s| => LowerChar(s[k]))
  }
}
