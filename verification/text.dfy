/** String operations of JavaScript that the plugin relies on, written out
    over `seq<char>`: `String.prototype.split` with a one-character
    separator, the text after the last separator, the decimal rendering of a
    counter in a template literal, and the line terminators that a regular
    expression `.` does not match. */
module Text {

  /** The characters a JavaScript regular-expression `.` refuses (no `s` flag). */
  predicate IsLineTerminator(c: char) {
    c == '\n' || c == '\r' || c == '\U{2028}' || c == '\U{2029}'
  }

  predicate HasLineTerminator(s: string) {
    exists i :: 0 <= i < |s| && IsLineTerminator(s[i])
  }

  predicate StartsWith(s: string, prefix: string) {
    |prefix| <= |s| && s[..|prefix|] == prefix
  }

  predicate EndsWith(s: string, suffix: string) {
    |suffix| <= |s| && s[|s| - |suffix|..] == suffix
  }

  function Last<T>(xs: seq<T>): T
    requires |xs| > 0
  {
    xs[|xs| - 1]
  }

  /** The text after the last `d` in `s`; all of `s` when `d` does not occur. */
  function AfterLast(s: string, d: char): (r: string)
    ensures EndsWith(s, r)
    ensures d !in r
    ensures |r| < |s| ==> s[|s| - |r| - 1] == d
  {
    if |s| == 0 then ""
    else if s[|s| - 1] == d then ""
    else AfterLast(s[..|s| - 1], d) + [s[|s| - 1]]
  }

  lemma AfterLastWhole(s: string, d: char)
    ensures AfterLast(s, d) == s <==> d !in s
  {
  }

  /** Prepending one character: the last separator stays where it was, unless
      there was none. */
  lemma {:induction false} AfterLastCons(c: char, t: string, d: char)
    ensures AfterLast([c] + t, d) ==
              if d in t then AfterLast(t, d) else if c == d then t else [c] + t
    decreases |t|
  {
    var s := [c] + t;
    if |t| == 0 {
      assert s == [c];
    } else {
      var t' := t[..|t| - 1];
      var x := t[|t| - 1];
      assert s[|s| - 1] == x;
      assert s[..|s| - 1] == [c] + t';
      assert t == t' + [x];
      if x == d {
        assert d in t;
      } else {
        AfterLastCons(c, t', d);
        assert d in t <==> d in t';
      }
    }
  }

  /** The text after a separator that is not followed by another one. */
  lemma {:induction false} AfterLastAppend(a: string, d: char, b: string)
    requires d !in b
    ensures AfterLast(a + [d] + b, d) == b
    decreases |b|
  {
    var s := a + [d] + b;
    if |b| == 0 {
      assert s[|s| - 1] == d;
    } else {
      var b' := b[..|b| - 1];
      assert s[..|s| - 1] == a + [d] + b';
      assert s[|s| - 1] == b[|b| - 1];
      AfterLastAppend(a, d, b');
      assert b == b' + [b[|b| - 1]];
    }
  }

  /** `s.split(d)` for a one-character separator `d`. */
  function Split(s: string, d: char): (parts: seq<string>)
    ensures |parts| >= 1
  {
    if |s| == 0 then [""]
    else
      var rest := Split(s[1..], d);
      if s[0] == d then [""] + rest else [[s[0]] + rest[0]] + rest[1..]
  }

  /** `parts.join(d)`. */
  function Join(parts: seq<string>, d: char): string
    requires |parts| >= 1
  {
    if |parts| == 1 then parts[0] else parts[0] + [d] + Join(parts[1..], d)
  }

  /** Splitting and joining with the same separator gives the text back. */
  lemma {:induction false} JoinSplit(s: string, d: char)
    ensures Join(Split(s, d), d) == s
  {
    if |s| > 0 {
      var rest := Split(s[1..], d);
      JoinSplit(s[1..], d);
      if s[0] == d {
        assert Split(s, d)[1..] == rest;
      } else {
        var parts := Split(s, d);
        assert parts[1..] == rest[1..];
        if |rest| > 1 {
          assert Join(rest, d) == rest[0] + [d] + Join(rest[1..], d);
        }
      }
      assert s == [s[0]] + s[1..];
    }
  }

  /** No part of a split contains the separator. */
  lemma {:induction false} SplitPartsFree(s: string, d: char)
    ensures forall i :: 0 <= i < |Split(s, d)| ==> d !in Split(s, d)[i]
  {
    if |s| > 0 {
      SplitPartsFree(s[1..], d);
    }
  }

  /** A split has more than one part exactly when the separator occurs. */
  lemma {:induction false} SplitCount(s: string, d: char)
    ensures |Split(s, d)| >= 2 <==> d in s
  {
    if |s| > 0 {
      SplitCount(s[1..], d);
      assert d in s <==> s[0] == d || d in s[1..] by {
        assert s == [s[0]] + s[1..];
      }
    }
  }

  /** Splitting a text that starts with `c`. */
  lemma SplitCons(c: char, t: string, d: char)
    ensures Split([c] + t, d) ==
              if c == d then [""] + Split(t, d) else [[c] + Split(t, d)[0]] + Split(t, d)[1..]
  {
    assert ([c] + t)[1..] == t;
  }

  /** The last part of a split is the text after the last separator. */
  lemma {:induction false} SplitLast(s: string, d: char)
    ensures Last(Split(s, d)) == AfterLast(s, d)
  {
    if |s| > 0 {
      var c, t := s[0], s[1..];
      assert s == [c] + t;
      SplitLast(t, d);
      SplitLastCons(c, t, d);
    }
  }

  lemma SplitLastCons(c: char, t: string, d: char)
    requires Last(Split(t, d)) == AfterLast(t, d)
    ensures Last(Split([c] + t, d)) == AfterLast([c] + t, d)
  {
    if c == d {
      SplitLastLeadingSeparator(c, t, d);
    } else if d in t {
      SplitLastLaterSeparator(c, t, d);
    } else {
      SplitLastNoSeparator(c, t, d);
    }
  }
  lemma SplitLastLeadingSeparator(c: char, t: string, d: char)
    requires c == d
    requires Last(Split(t, d)) == AfterLast(t, d)
    ensures Last(Split([c] + t, d)) == AfterLast([c] + t, d)
  {
    SplitCons(c, t, d);
    AfterLastCons(c, t, d);
    AfterLastWhole(t, d);
    LastOfPrefixed([""], Split(t, d));
  }
  lemma SplitLastLaterSeparator(c: char, t: string, d: char)
    requires c != d && d in t
    requires Last(Split(t, d)) == AfterLast(t, d)
    ensures Last(Split([c] + t, d)) == AfterLast([c] + t, d)
  {
    SplitCons(c, t, d);
    AfterLastCons(c, t, d);
    SplitCount(t, d);
    var rest := Split(t, d);
    LastOfPrefixed([[c] + rest[0]], rest[1..]);
    LastOfPrefixed([rest[0]], rest[1..]);
    assert rest == [rest[0]] + rest[1..];
  }
  lemma SplitLastNoSeparator(c: char, t: string, d: char)
    requires c != d && d !in t
    ensures Last(Split([c] + t, d)) == AfterLast([c] + t, d)
  {
    SplitWithoutSeparator([c] + t, d);
    AfterLastWhole([c] + t, d);
  }

  /** A text without the separator splits into itself alone. */
  lemma {:induction false} SplitWithoutSeparator(s: string, d: char)
    requires d !in s
    ensures Split(s, d) == [s]
  {
    if |s| > 0 {
      SplitWithoutSeparator(s[1..], d);
      assert s == [s[0]] + s[1..];
    }
  }

  lemma LastOfPrefixed<T>(a: seq<T>, b: seq<T>)
    requires |b| > 0
    ensures Last(a + b) == Last(b)
  {
  }

  function DecimalDigit(n: nat): char
    requires n < 10
  {
    ('0' as int + n) as char
  }

  /** The decimal rendering of a number, as a template literal prints it. */
  function NatToString(n: nat): (r: string)
    ensures |r| >= 1
    ensures forall i :: 0 <= i < |r| ==> '0' <= r[i] <= '9'
  {
    if n < 10 then [DecimalDigit(n)] else NatToString(n / 10) + [DecimalDigit(n % 10)]
  }

  function ParseDecimal(s: string): nat
    requires forall i :: 0 <= i < |s| ==> '0' <= s[i] <= '9'
  {
    if |s| == 0 then 0
    else ParseDecimal(s[..|s| - 1]) * 10 + (s[|s| - 1] as int - '0' as int)
  }

  lemma {:induction false} ParseNatToString(n: nat)
    ensures ParseDecimal(NatToString(n)) == n
  {
    if n >= 10 {
      ParseNatToString(n / 10);
      var s := NatToString(n);
      assert s[..|s| - 1] == NatToString(n / 10);
    }
  }

  /** Distinct numbers print as distinct strings. */
  lemma NatToStringInjective(a: nat, b: nat)
    requires a != b
    ensures NatToString(a) != NatToString(b)
  {
    ParseNatToString(a);
    ParseNatToString(b);
  }

  /** Two strings with a common prefix differ exactly when their tails do. */
  lemma PrefixCancel(p: string, x: string, y: string)
    ensures p + x == p + y <==> x == y
  {
    if p + x == p + y {
      assert x == (p + x)[|p|..];
      assert y == (p + y)[|p|..];
    }
  }
}
