/** String helpers with JavaScript's meaning: `Array.prototype.join`,
    `String.prototype.split` on one character, `endsWith`, `trim`, and the
    decimal rendering of an array index. */
module Strings {

  /** `t` occurs in `s` as a contiguous piece (JavaScript `s.includes(t)`). */
  predicate Contains(s: string, t: string) {
    exists k :: 0 <= k <= |s| && OccursAt(s, t, k)
  }

  /** `t` occurs in `s` starting at index `k`. */
  predicate OccursAt(s: string, t: string, k: int) {
    0 <= k && k + |t| <= |s| && s[k..k + |t|] == t
  }

  lemma ContainsMiddle(a: string, t: string, b: string)
    ensures Contains(a + t + b, t)
  {
    var s := a + t + b;
    assert s[|a|..|a| + |t|] == t;
    assert OccursAt(s, t, |a|);
  }

  lemma ContainsExtend(a: string, s: string, b: string, t: string)
    requires Contains(s, t)
    ensures Contains(a + s + b, t)
  {
    var k :| 0 <= k <= |s| && OccursAt(s, t, k);
    assert k + |t| <= |s| && s[k..k + |t|] == t;
    var w := a + s + b;
    assert w[|a| + k..|a| + k + |t|] == s[k..k + |t|];
    assert OccursAt(w, t, |a| + k);
  }

  /** `Array.prototype.join(sep)` on an array of strings. */
  function Join(ms: seq<string>, sep: string): string
    decreases |ms|
  {
    if |ms| == 0 then ""
    else if |ms| == 1 then ms[0]
    else ms[0] + sep + Join(ms[1..], sep)
  }

  /** Joining two non-empty lists puts exactly one separator between them. */
  lemma {:induction false} JoinAppend(xs: seq<string>, ys: seq<string>, sep: string)
    requires |xs| > 0 && |ys| > 0
    ensures Join(xs + ys, sep) == Join(xs, sep) + sep + Join(ys, sep)
    decreases |xs|
  {
    if |xs| == 1 {
      assert (xs + ys)[1..] == ys;
    } else {
      assert (xs + ys)[1..] == xs[1..] + ys;
      JoinAppend(xs[1..], ys, sep);
    }
  }

  /** Every joined piece appears in the joined string. */
  lemma {:induction false} JoinContains(ms: seq<string>, sep: string, i: nat)
    requires i < |ms|
    ensures Contains(Join(ms, sep), ms[i])
    decreases |ms|
  {
    if |ms| == 1 {
      ContainsMiddle("", ms[0], "");
      assert "" + ms[0] + "" == ms[0];
    } else if i == 0 {
      ContainsMiddle("", ms[0], sep + Join(ms[1..], sep));
      assert "" + ms[0] + (sep + Join(ms[1..], sep)) == Join(ms, sep);
    } else {
      JoinContains(ms[1..], sep, i - 1);
      ContainsExtend(ms[0] + sep, Join(ms[1..], sep), "", ms[i]);
      assert ms[0] + sep + Join(ms[1..], sep) + "" == Join(ms, sep);
    }
  }

  /** A join is empty only when every piece is: one non-empty piece makes it non-empty. */
  lemma JoinNonEmpty(ms: seq<string>, sep: string, i: nat)
    requires i < |ms| && ms[i] != ""
    ensures Join(ms, sep) != ""
  {
    JoinContains(ms, sep, i);
  }

  /** `s.endsWith(suffix)`. */
  predicate EndsWith(s: string, suffix: string) {
    |suffix| <= |s| && s[|s| - |suffix|..] == suffix
  }

  /** `s.split(c)` for a one-character separator: always at least one piece. */
  function Split(s: string, c: char): (r: seq<string>)
    ensures |r| >= 1
  {
    if |s| == 0 then [""]
    else
      var rest := Split(s[1..], c);
      if s[0] == c then [""] + rest else [[s[0]] + rest[0]] + rest[1..]
  }

  /** No piece of a split contains the separator. */
  lemma {:induction false} SplitPiecesLackSeparator(s: string, c: char)
    ensures forall i :: 0 <= i < |Split(s, c)| ==> c !in Split(s, c)[i]
    ensures forall p :: p in Split(s, c) ==> c !in p
  {
    if |s| > 0 {
      SplitPiecesLackSeparator(s[1..], c);
    }
  }

  /** Splitting and joining back with the same separator gives the input again. */
  lemma {:induction false} SplitJoin(s: string, c: char)
    ensures Join(Split(s, c), [c]) == s
  {
    if |s| > 0 {
      var rest := Split(s[1..], c);
      SplitJoin(s[1..], c);
      if s[0] == c {
        JoinAppend([""], rest, [c]);
        assert [""] + rest == Split(s, c);
      } else if |rest| == 1 {
        assert Split(s, c) == [[s[0]] + rest[0]];
      } else {
        assert rest == [rest[0]] + rest[1..];
        JoinAppend([rest[0]], rest[1..], [c]);
        JoinAppend([[s[0]] + rest[0]], rest[1..], [c]);
        assert [[s[0]] + rest[0]] + rest[1..] == Split(s, c);
      }
    }
  }

  /** Splitting `s + [c]` adds exactly one empty piece at the end. */
  lemma {:induction false} SplitAppendSeparator(s: string, c: char)
    ensures Split(s + [c], c) == Split(s, c) + [""]
  {
    if |s| == 0 {
      assert Split([c], c) == [""] + Split([], c);
    } else {
      assert (s + [c])[1..] == s[1..] + [c];
      SplitAppendSeparator(s[1..], c);
    }
  }

  /** A string without the separator splits into itself alone. */
  lemma {:induction false} SplitNoSeparator(a: string, c: char)
    requires c !in a
    ensures Split(a, c) == [a]
  {
    if |a| > 0 {
      SplitNoSeparator(a[1..], c);
      assert [a[0]] + a[1..] == a;
    }
  }

  /** A separator-free prefix followed by the separator becomes the first piece. */
  lemma {:induction false} SplitPrefix(a: string, t: string, c: char)
    requires c !in a
    ensures Split(a + [c] + t, c) == [a] + Split(t, c)
  {
    var s := a + [c] + t;
    if |a| == 0 {
      assert s[0] == c && s[1..] == t;
    } else {
      assert s[0] == a[0] && s[1..] == a[1..] + [c] + t;
      SplitPrefix(a[1..], t, c);
      assert [a[0]] + a[1..] == a;
    }
  }

  /** Joining separator-free pieces and splitting again gives the pieces back. */
  lemma {:induction false} JoinSplit(ms: seq<string>, c: char)
    requires |ms| >= 1 && forall i :: 0 <= i < |ms| ==> c !in ms[i]
    ensures Split(Join(ms, [c]), c) == ms
    decreases |ms|
  {
    if |ms| == 1 {
      SplitNoSeparator(ms[0], c);
    } else {
      JoinSplit(ms[1..], c);
      SplitPrefix(ms[0], Join(ms[1..], [c]), c);
      assert [ms[0]] + ms[1..] == ms;
    }
  }

  /** The characters `String.prototype.trim` removes: ECMAScript WhiteSpace and LineTerminator. */
  predicate IsWhitespace(ch: char) {
    ch == '\t' || ch == '\n' || ch == '\U{000B}' || ch == '\U{000C}' || ch == '\r' || ch == ' '
    || ch == '\U{00A0}' || ch == '\U{1680}' || ('\U{2000}' <= ch <= '\U{200A}')
    || ch == '\U{2028}' || ch == '\U{2029}' || ch == '\U{202F}' || ch == '\U{205F}'
    || ch == '\U{3000}' || ch == '\U{FEFF}'
  }

  /** `s.trimStart()`: the suffix left after dropping leading whitespace. */
  function TrimStart(s: string): (r: string)
    ensures |r| <= |s| && r == s[|s| - |r|..]
    ensures forall i :: 0 <= i < |s| - |r| ==> IsWhitespace(s[i])
    ensures r == [] || !IsWhitespace(r[0])
  {
    if |s| > 0 && IsWhitespace(s[0]) then TrimStart(s[1..]) else s
  }

  /** `s.trimEnd()`: the prefix left after dropping trailing whitespace. */
  function TrimEnd(s: string): (r: string)
    ensures |r| <= |s| && r == s[..|r|]
    ensures forall i :: |r| <= i < |s| ==> IsWhitespace(s[i])
    ensures r == [] || !IsWhitespace(r[|r| - 1])
  {
    if |s| > 0 && IsWhitespace(s[|s| - 1]) then TrimEnd(s[..|s| - 1]) else s
  }

  /** `s.trim()`. */
  function Trim(s: string): (r: string)
    ensures |r| <= |s|
    ensures r == [] || (!IsWhitespace(r[0]) && !IsWhitespace(r[|r| - 1]))
  {
    TrimEnd(TrimStart(s))
  }

  /** `s.trim().length > 0` holds exactly when `s` has a character that is not whitespace. */
  lemma TrimNonEmpty(s: string)
    ensures |Trim(s)| > 0 <==> exists i :: 0 <= i < |s| && !IsWhitespace(s[i])
  {
    var t := TrimStart(s);
    if |Trim(s)| > 0 {
      var i := |s| - |t|;
      assert s[i] == t[0];
    }
  }

  function Digit(d: nat): char
    requires d < 10
  {
    "0123456789"[d]
  }

  /** The decimal rendering of `n`, as JavaScript names an array index. */
  function NatToString(n: nat): (r: string)
    ensures |r| >= 1
    ensures forall i :: 0 <= i < |r| ==> '0' <= r[i] <= '9'
  {
    if n < 10 then [Digit(n)] else NatToString(n / 10) + [Digit(n % 10)]
  }
}
