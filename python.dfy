/** Models of the few Python built-ins the content pipeline relies on:
    str.isspace, str.strip, str.split with a one-character separator and
    its inverse str.join, str.lower (ASCII letters), list indexing with
    negative indices, and the slice xs[:stop]. */
module Python {

  datatype Option<T> = None | Some(value: T)

  function Min(a: int, b: int): int { if a <= b then a else b }
  function Max(a: int, b: int): int { if a >= b then a else b }

  /** str.isspace() of a one-character string: the characters Python treats
      as whitespace (and so removes in str.strip()). */
  function IsSpace(c: char): (b: bool)
    ensures c == ' ' || c == '\t' || c == '\n' || c == '\r' ==> b
    ensures '0' <= c <= '9' || 'a' <= c <= 'z' || 'A' <= c <= 'Z' ==> !b
  {
    var k := c as int;
    (9 <= k <= 13) || (28 <= k <= 32) || k == 0x85 || k == 0xA0 || k == 0x1680
    || (0x2000 <= k <= 0x200A) || k == 0x2028 || k == 0x2029 || k == 0x202F
    || k == 0x205F || k == 0x3000
  }

  /** A string with no whitespace at either end. */
  predicate IsStripped(s: string) {
    s == [] || (!IsSpace(s[0]) && !IsSpace(s[|s| - 1]))
  }

  predicate IsBlank(s: string) {
    forall i :: 0 <= i < |s| ==> IsSpace(s[i])
  }

  /** Where str.strip() starts cutting: the first non-whitespace position
      at or after `from`, or |s| when there is none. */
  function StripStart(s: string, from: nat): (a: nat)
    requires from <= |s|
    ensures from <= a <= |s|
    ensures forall i :: from <= i < a ==> IsSpace(s[i])
    ensures a < |s| ==> !IsSpace(s[a])
    decreases |s| - from
  {
    if from == |s| || !IsSpace(s[from]) then from else StripStart(s, from + 1)
  }

  /** Where str.strip() stops cutting: one past the last non-whitespace
      position below `hi`, and no lower than `lo`. */
  function StripEnd(s: string, lo: nat, hi: nat): (b: nat)
    requires lo <= hi <= |s|
    ensures lo <= b <= hi
    ensures forall i :: b <= i < hi ==> IsSpace(s[i])
    ensures b > lo ==> !IsSpace(s[b - 1])
    decreases hi
  {
    if hi == lo || !IsSpace(s[hi - 1]) then hi else StripEnd(s, lo, hi - 1)
  }

  /** str.strip(): the longest middle part of `s` with no whitespace at
      either end. It is empty exactly for blank strings, it is a part of
      `s`, and it leaves stripped strings alone. */
  function Strip(s: string): (r: string)
    ensures IsStripped(r)
    ensures r == [] <==> IsBlank(s)
    ensures IsStripped(s) ==> r == s
    ensures forall c :: c !in s ==> c !in r
    ensures exists a ::
      0 <= a <= |s| - |r| && r == s[a..a + |r|] && IsBlank(s[..a]) && IsBlank(s[a + |r|..])
  {
    var a := StripStart(s, 0);
    var b := StripEnd(s, a, |s|);
    assert IsBlank(s[..a]) && IsBlank(s[b..]);
    assert r: s[a..b] == [] ==> IsBlank(s) by {
      if s[a..b] == [] {
        assert a == |s| || a == b;
      }
    }
    s[a..b]
  }

  /** The strip of `s` is `r` whenever `s` is `r` with whitespace around it. */
  lemma StripUnique(s: string, u: string, r: string, v: string)
    requires s == u + r + v && IsBlank(u) && IsBlank(v) && IsStripped(r)
    ensures Strip(s) == r
  {
    if r == [] {
      assert IsBlank(s) by {
        forall i | 0 <= i < |s| ensures IsSpace(s[i]) {
          if i >= |u| {
            assert s[i] == v[i - |u|];
          }
        }
      }
    } else {
      var a := StripStart(s, 0);
      assert s[|u|] == r[0];
      assert a == |u|;
      var b := StripEnd(s, a, |s|);
      assert s[|u| + |r| - 1] == r[|r| - 1];
      assert b == |u| + |r|;
      assert s[a..b] == r;
    }
  }

  lemma BlankConcat(a: string, b: string)
    requires IsBlank(a) && IsBlank(b)
    ensures IsBlank(a + b)
  {
    forall i | 0 <= i < |a + b| ensures IsSpace((a + b)[i]) {
      if i >= |a| {
        assert (a + b)[i] == b[i - |a|];
      }
    }
  }

  lemma Regroup(a: string, b: string, c: string, d: string)
    ensures a + (b + c + d) == (a + b) + c + d
  {
  }

  lemma Regroup2(a: string, b: string, c: string, d: string)
    ensures (a + b + c) + d == a + b + (c + d)
  {
  }

  /** `s` is its strip with whitespace around it. */
  lemma StripParts(s: string) returns (u: string, v: string)
    ensures s == u + Strip(s) + v && IsBlank(u) && IsBlank(v)
  {
    var a := StripStart(s, 0);
    var b := StripEnd(s, a, |s|);
    assert Strip(s) == s[a..b];
    u, v := BlankAround(s, a, b);
  }

  lemma BlankAround(s: string, a: nat, b: nat) returns (u: string, v: string)
    requires a <= b <= |s|
    requires forall i :: 0 <= i < a ==> IsSpace(s[i])
    requires forall i :: b <= i < |s| ==> IsSpace(s[i])
    ensures s == u + s[a..b] + v && IsBlank(u) && IsBlank(v)
  {
    u, v := s[..a], s[b..];
    assert s == u + s[a..b] + v;
  }

  /** Whitespace in front of a string does not change its strip. */
  lemma StripBlankPrefix(w: string, x: string)
    requires IsBlank(w)
    ensures Strip(w + x) == Strip(x)
  {
    var u, v := StripParts(x);
    var r := Strip(x);
    BlankConcat(w, u);
    Regroup(w, u, r, v);
    StripUnique(w + x, w + u, r, v);
  }

  /** Whitespace after a string does not change its strip. */
  lemma StripBlankSuffix(x: string, w: string)
    requires IsBlank(w)
    ensures Strip(x + w) == Strip(x)
  {
    var u, v := StripParts(x);
    var r := Strip(x);
    BlankConcat(v, w);
    Regroup2(u, r, v, w);
    StripUnique(x + w, u, r, v + w);
  }

  /** str.join(sep, parts) for a one-character separator. */
  function Join(parts: seq<string>, sep: char): string {
    if |parts| == 0 then []
    else if |parts| == 1 then parts[0]
    else parts[0] + [sep] + Join(parts[1..], sep)
  }

  /** str.split(sep) for a one-character separator: always at least one
      part, no part contains the separator, and joining the parts back with
      the separator gives the original string. */
  function Split(s: string, sep: char): (parts: seq<string>)
    ensures |parts| >= 1
    ensures forall k :: 0 <= k < |parts| ==> sep !in parts[k]
    ensures Join(parts, sep) == s
  {
    if s == [] then [[]]
    else
      var rest := Split(s[1..], sep);
      if s[0] == sep then
        assert Join([[]] + rest, sep) == [] + [sep] + Join(rest, sep);
        [[]] + rest
      else
        var parts := [[s[0]] + rest[0]] + rest[1..];
        assert Join(parts, sep) == [s[0]] + Join(rest, sep) by {
          if |rest| > 1 {
            assert parts[1..] == rest[1..];
          }
        }
        parts
  }

  /** Splitting a separator-free prefix `a` onto whatever `t` splits into
      only lengthens the first part. */
  lemma {:induction false} SplitPrefix(a: string, t: string, sep: char)
    requires sep !in a
    ensures Split(a + t, sep) == [a + Split(t, sep)[0]] + Split(t, sep)[1..]
  {
    if a != [] {
      assert (a + t)[1..] == a[1..] + t;
      assert (a + t)[0] == a[0] != sep;
      SplitPrefix(a[1..], t, sep);
      var rest := Split(a[1..] + t, sep);
      assert Split(a + t, sep) == [[a[0]] + rest[0]] + rest[1..];
      assert rest[0] == a[1..] + Split(t, sep)[0];
      assert rest[1..] == Split(t, sep)[1..];
      assert [a[0]] + (a[1..] + Split(t, sep)[0]) == a + Split(t, sep)[0];
    } else {
      var parts := Split(t, sep);
      assert a + t == t && a + parts[0] == parts[0];
      assert parts == [parts[0]] + parts[1..];
    }
  }

  /** A leading separator splits off an empty first part. */
  lemma SplitAfterSep(t: string, sep: char)
    ensures Split([sep] + t, sep) == [[]] + Split(t, sep)
  {
    assert ([sep] + t)[1..] == t;
  }

  /** A separator-free string splits into itself alone. */
  lemma SplitNoSep(a: string, sep: char)
    requires sep !in a
    ensures Split(a, sep) == [a]
  {
    SplitPrefix(a, [], sep);
    assert Split([], sep) == [[]];
    assert a + [] == a;
  }

  lemma PrependFirst(head: string, rest: seq<string>, r: seq<string>)
    requires r == [[]] + rest
    ensures [head + r[0]] + r[1..] == [head] + rest
  {
    assert head + [] == head;
  }

  /** Split undoes Join whenever no part contains the separator. */
  lemma {:induction false} SplitJoin(parts: seq<string>, sep: char)
    requires |parts| >= 1
    requires forall k :: 0 <= k < |parts| ==> sep !in parts[k]
    ensures Split(Join(parts, sep), sep) == parts
  {
    if |parts| == 1 {
      SplitNoSep(parts[0], sep);
    } else {
      var head, rest := parts[0], parts[1..];
      var tail := Join(rest, sep);
      assert Join(parts, sep) == head + ([sep] + tail);
      assert Split(head + ([sep] + tail), sep) == [head] + rest by {
        SplitJoin(rest, sep);
        SplitAfterSep(tail, sep);
        SplitPrefix(head, [sep] + tail, sep);
        PrependFirst(head, rest, Split([sep] + tail, sep));
      }
      assert [head] + rest == parts;
    }
  }

  /** `s` is `p` and `q` with the last part of `p` glued to the first of `q`. */
  predicate Glued(p: seq<string>, q: seq<string>, s: seq<string>) {
    |p| >= 1 && |q| >= 1 && s == p[..|p| - 1] + [p[|p| - 1] + q[0]] + q[1..]
  }

  /** Splitting `x + y` glues the last part of `x`'s split to the first
      part of `y`'s. */
  predicate SplitsAppend(x: string, y: string, sep: char) {
    Glued(Split(x, sep), Split(y, sep), Split(x + y, sep))
  }

  lemma SplitAppendSepCase(x: string, y: string, sep: char)
    requires SplitsAppend(x, y, sep)
    ensures SplitsAppend([sep] + x, y, sep)
  {
    assert ([sep] + x) + y == [sep] + (x + y);
    SplitAfterSep(x + y, sep);
    SplitAfterSep(x, sep);
    GlueSep(Split(x, sep), Split(y, sep), Split(x + y, sep));
  }

  /** The list manipulation behind SplitAppendSepCase: an empty first part
      in front of both keeps the glue. */
  lemma GlueSep(p: seq<string>, q: seq<string>, s: seq<string>)
    requires Glued(p, q, s)
    ensures Glued([[]] + p, q, [[]] + s)
  {
    var n := |p|;
    var p1 := [[]] + p;
    assert p1[..n] == [[]] + p[..n - 1];
    assert p1[n] == p[n - 1];
    var b, c := [p[n - 1] + q[0]], q[1..];
    assert [[]] + (p[..n - 1] + b + c) == ([[]] + p[..n - 1]) + b + c;
  }

  lemma SplitAppendCharCase(ch: char, x: string, y: string, sep: char)
    requires ch != sep && SplitsAppend(x, y, sep)
    ensures SplitsAppend([ch] + x, y, sep)
  {
    assert ([ch] + x) + y == [ch] + (x + y);
    SplitPrefix([ch], x + y, sep);
    SplitPrefix([ch], x, sep);
    GlueFirst(ch, Split(x, sep), Split(y, sep), Split(x + y, sep), Split([ch] + x, sep), Split([ch] + x + y, sep));
  }

  /** The list manipulation behind SplitAppendCharCase: with `s` the split
      of `x + y` glued from `p` and `q`, prefixing `ch` to the first part of
      both keeps the glue. */
  lemma GlueFirst(ch: char, p: seq<string>, q: seq<string>, s: seq<string>, p1: seq<string>, s1: seq<string>)
    requires Glued(p, q, s)
    requires p1 == [[ch] + p[0]] + p[1..] && s1 == [[ch] + s[0]] + s[1..]
    ensures Glued(p1, q, s1)
  {
    var n := |p|;
    if n == 1 {
      assert s[0] == p[0] + q[0] && s[1..] == q[1..];
      assert p1[..0] == [] && p1[0] == [ch] + p[0];
      assert [ch] + (p[0] + q[0]) == ([ch] + p[0]) + q[0];
    } else {
      var b, c := [p[n - 1] + q[0]], q[1..];
      assert s == [p[0]] + (p[1..n - 1] + b + c);
      assert p1[..n - 1] == [[ch] + p[0]] + p[1..n - 1];
      assert p1[n - 1] == p[n - 1];
    }
  }

  /** Splitting a concatenation glues the last part of the first string's
      split to the first part of the second's. */
  lemma {:induction false} SplitAppend(x: string, y: string, sep: char)
    ensures SplitsAppend(x, y, sep)
  {
    if x == [] {
      var q := Split(y, sep);
      assert x + y == y && Split(x, sep) == [[]];
      assert [] + q[0] == q[0];
      assert [q[0]] + q[1..] == q;
    } else {
      SplitAppend(x[1..], y, sep);
      assert x == [x[0]] + x[1..];
      if x[0] == sep {
        SplitAppendSepCase(x[1..], y, sep);
      } else {
        SplitAppendCharCase(x[0], x[1..], y, sep);
      }
    }
  }

  /** Every part of a blank string's split is blank. */
  lemma {:induction false} SplitBlank(w: string, sep: char)
    requires IsBlank(w)
    ensures forall k :: 0 <= k < |Split(w, sep)| ==> IsBlank(Split(w, sep)[k])
  {
    if w != [] {
      SplitBlank(w[1..], sep);
    }
  }

  /** A join of non-empty stripped parts has no whitespace at either end. */
  lemma {:induction false} JoinStripped(parts: seq<string>, sep: char)
    requires forall k :: 0 <= k < |parts| ==> parts[k] != [] && IsStripped(parts[k])
    ensures IsStripped(Join(parts, sep))
    ensures |parts| >= 1 ==> |Join(parts, sep)| >= 1
  {
    if |parts| > 1 {
      JoinStripped(parts[1..], sep);
      var j := Join(parts, sep);
      assert j[0] == parts[0][0];
      assert j[|j| - 1] == Join(parts[1..], sep)[|Join(parts[1..], sep)| - 1];
    }
  }

  /** The lower-case form of an ASCII letter; any other character is kept. */
  function LowerChar(c: char): (d: char)
    ensures 'A' <= c <= 'Z' ==> 'a' <= d <= 'z' && d as int == c as int + ('a' as int - 'A' as int)
    ensures !('A' <= c <= 'Z') ==> d == c
  {
    if 'A' <= c <= 'Z' then (c as int + 32) as char else c
  }

  /** str.lower() on ASCII letters: the same length, and each character
      lower-cased on its own. */
  function Lower(s: string): (r: string)
    ensures |r| == |s|
    ensures forall i :: 0 <= i < |s| ==> r[i] == LowerChar(s[i])
  {
    if s == [] then [] else [LowerChar(s[0])] + Lower(s[1..])
  }

  /** The only strings that lower-case to "y" are "y" and "Y". */
  lemma LowerIsY(s: string)
    ensures Lower(s) == "y" <==> s == "y" || s == "Y"
  {
  }

  /** xs[index] with Python's list indexing: an index in [-n, n) is valid,
      a negative one counts from the end; anything else is an IndexError. */
  function ResolveIndex(n: nat, index: int): (r: Option<nat>)
    ensures r.Some? <==> -(n as int) <= index < n
    ensures r.Some? ==> r.value < n
    ensures r.Some? && index >= 0 ==> r.value == index
    ensures r.Some? && index < 0 ==> r.value + (-index) == n
  {
    if 0 <= index < n then Some(index)
    else if -(n as int) <= index < 0 then Some(n + index)
    else None
  }

  /** xs[:stop] with Python's slice semantics: the stop is clamped to the
      length, and a negative stop counts from the end. The result is
      always a prefix. */
  function SliceTo<T>(xs: seq<T>, stop: int): (r: seq<T>)
    ensures |r| <= |xs| && r == xs[..|r|]
    ensures stop >= 0 ==> |r| == Min(stop, |xs|)
    ensures stop < 0 ==> |r| == Max(0, |xs| + stop)
  {
    if stop >= 0 then xs[..Min(stop, |xs|)]
    else xs[..Max(0, |xs| + stop)]
  }
}
