/**
 * The Python string built-ins the system leans on, written out over `seq<char>`:
 * `str.lower` (ASCII letters), `str.strip`, `str.split` on one character and its
 * inverse `str.join`, the `in` test for substrings, `str.replace`, `str(int)`, and
 * the byte-wise text order SQLite uses for `ORDER BY` on a TEXT column.
 */
module Text {

  // ---------------------------------------------------------------------------
  // Case folding

  function LowerChar(c: char): (r: char)
    ensures 'A' <= c <= 'Z' ==> r as int == c as int + 32
    ensures !('A' <= c <= 'Z') ==> r == c
  {
    if 'A' <= c <= 'Z' then (c as int + 32) as char else c
  }

  /** `s.lower()` restricted to ASCII letters. */
  function Lower(s: string): (r: string)
    ensures |r| == |s|
    ensures forall k :: 0 <= k < |s| ==> r[k] == LowerChar(s[k])
  {
    seq(|s|, k requires 0 <= k < |s| => LowerChar(s[k]))
  }

  /** Lowering twice is lowering once. */
  lemma LowerIdempotent(s: string)
    ensures Lower(Lower(s)) == Lower(s)
  {
  }

  // ---------------------------------------------------------------------------
  // Whitespace and strip

  /** The characters for which Python's `str.isspace` holds: what `str.strip()` removes. */
  predicate IsSpace(c: char) {
    || '\U{9}' <= c <= '\U{d}'
    || '\U{1c}' <= c <= '\U{20}'
    || c == '\U{85}' || c == '\U{a0}' || c == '\U{1680}'
    || '\U{2000}' <= c <= '\U{200a}'
    || c == '\U{2028}' || c == '\U{2029}' || c == '\U{202f}' || c == '\U{205f}' || c == '\U{3000}'
  }

  /**
   * `s.strip()`: drop whitespace from either end until neither end is
   * whitespace. The result is a slice of `s` with only whitespace around it.
   */
  function Strip(s: string): (r: string)
    ensures r == [] || (!IsSpace(r[0]) && !IsSpace(r[|r| - 1]))
    ensures exists i :: SliceBetweenSpace(s, i, r)
    decreases |s|
  {
    if s != [] && IsSpace(s[0]) then
      var r := Strip(s[1..]);
      SliceAfterSpace(s, s[1..], r);
      r
    else if s != [] && IsSpace(s[|s| - 1]) then
      var r := Strip(s[..|s| - 1]);
      SliceBeforeSpace(s, s[..|s| - 1], r);
      r
    else
      assert SliceBetweenSpace(s, 0, s);
      s
  }

  /** A slice of `s[1..]` between whitespace is one of `s` when `s[0]` is whitespace. */
  lemma SliceAfterSpace(s: string, tail: string, r: string)
    requires s != [] && IsSpace(s[0]) && tail == s[1..]
    requires exists i :: SliceBetweenSpace(tail, i, r)
    ensures exists i :: SliceBetweenSpace(s, i, r)
  {
    var i :| SliceBetweenSpace(tail, i, r);
    assert s[i + 1..i + 1 + |r|] == s[1..][i..i + |r|];
    forall k | 0 <= k < i + 1
      ensures IsSpace(s[k])
    {
      if k > 0 {
        assert s[k] == s[1..][k - 1];
      }
    }
    forall k | i + 1 + |r| <= k < |s|
      ensures IsSpace(s[k])
    {
      assert s[k] == s[1..][k - 1];
    }
    assert SliceBetweenSpace(s, i + 1, r);
  }

  /** A slice of `s[..|s| - 1]` between whitespace is one of `s` when the last character is whitespace. */
  lemma SliceBeforeSpace(s: string, init: string, r: string)
    requires s != [] && IsSpace(s[|s| - 1]) && init == s[..|s| - 1]
    requires exists i :: SliceBetweenSpace(init, i, r)
    ensures exists i :: SliceBetweenSpace(s, i, r)
  {
    var i :| SliceBetweenSpace(init, i, r);
    assert s[i..i + |r|] == s[..|s| - 1][i..i + |r|];
    forall k | 0 <= k < i
      ensures IsSpace(s[k])
    {
      assert s[k] == s[..|s| - 1][k];
    }
    forall k | i + |r| <= k < |s|
      ensures IsSpace(s[k])
    {
      if k < |s| - 1 {
        assert s[k] == s[..|s| - 1][k];
      }
    }
    assert SliceBetweenSpace(s, i, r);
  }

  /** `r` is the slice of `s` at `i`, with only whitespace before and after it. */
  predicate SliceBetweenSpace(s: string, i: int, r: string) {
    && 0 <= i <= |s| - |r| && r == s[i..i + |r|]
    && (forall k :: 0 <= k < i ==> IsSpace(s[k]))
    && (forall k :: i + |r| <= k < |s| ==> IsSpace(s[k]))
  }

  /** A text that already has no surrounding whitespace is left as it is. */
  lemma StripClean(s: string)
    requires s == [] || (!IsSpace(s[0]) && !IsSpace(s[|s| - 1]))
    ensures Strip(s) == s
  {
  }

  /** Stripping twice is stripping once. */
  lemma StripIdempotent(s: string)
    ensures Strip(Strip(s)) == Strip(s)
  {
    StripClean(Strip(s));
  }

  /** The strip is empty exactly when the text is all whitespace. */
  lemma {:induction false} StripEmpty(s: string)
    ensures Strip(s) == [] <==> forall k :: 0 <= k < |s| ==> IsSpace(s[k])
  {
    var r := Strip(s);
    if r == [] {
      var i :| SliceBetweenSpace(s, i, r);
    } else {
      var i :| SliceBetweenSpace(s, i, r);
      assert s[i] == r[0];
    }
  }

  // ---------------------------------------------------------------------------
  // Substrings and replacement

  /** `p in s` for strings: `p` occurs somewhere in `s`. */
  predicate Contains(s: string, p: string)
    decreases |s|
  {
    p <= s || (s != [] && Contains(s[1..], p))
  }

  lemma {:induction false} ContainsAppend(a: string, b: string, p: string)
    requires Contains(b, p)
    ensures Contains(a + b, p)
    decreases |a|
  {
    if a != [] {
      assert (a + b)[1..] == a[1..] + b;
      ContainsAppend(a[1..], b, p);
    } else {
      assert a + b == b;
    }
  }

  lemma {:induction false} ContainsPrefix(s: string, t: string, p: string)
    requires Contains(s, p)
    ensures Contains(s + t, p)
    decreases |s|
  {
    if p <= s {
      assert p <= s + t;
    } else {
      assert (s + t)[1..] == s[1..] + t;
      ContainsPrefix(s[1..], t, p);
    }
  }

  /** What occurs in the middle part occurs in the whole. */
  lemma ContainsMiddle(a: string, m: string, b: string, p: string)
    requires Contains(m, p)
    ensures Contains(a + m + b, p)
  {
    ContainsPrefix(m, b, p);
    ContainsAppend(a, m + b, p);
    assert a + (m + b) == a + m + b;
  }

  /** A text occurs in any text built around it. */
  lemma ContainsInfix(a: string, p: string, b: string)
    ensures Contains(a + p + b, p)
  {
    assert p <= p + b;
    ContainsAppend(a, p + b, p);
    assert a + (p + b) == a + p + b;
  }

  /**
   * `s.replace(p, r)`: scan left to right, replacing every occurrence of `p`
   * that does not overlap an earlier replaced one.
   */
  function ReplaceAll(s: string, p: string, r: string): string
    requires p != []
    decreases |s|
  {
    if p <= s then r + ReplaceAll(s[|p|..], p, r)
    else if s == [] then []
    else [s[0]] + ReplaceAll(s[1..], p, r)
  }

  /** A text without the pattern is not changed by the replacement. */
  lemma {:induction false} ReplaceAbsent(s: string, p: string, r: string)
    requires p != [] && !Contains(s, p)
    ensures ReplaceAll(s, p, r) == s
    decreases |s|
  {
    if s != [] {
      ReplaceAbsent(s[1..], p, r);
    }
  }

  /** When the pattern occurs, its replacement occurs in the result. */
  lemma {:induction false} ReplaceInserts(s: string, p: string, r: string)
    requires p != [] && Contains(s, p)
    ensures Contains(ReplaceAll(s, p, r), r)
    decreases |s|
  {
    if p <= s {
      var rest := ReplaceAll(s[|p|..], p, r);
      assert r <= r + rest;
    } else {
      ReplaceInserts(s[1..], p, r);
      ContainsAppend([s[0]], ReplaceAll(s[1..], p, r), r);
    }
  }

  /**
   * When the replacement holds no character `p` starts with, and does not
   * start with any character of `p`, a prefix `q` of the replaced text that
   * contains neither kind of character was already a prefix of the original.
   */
  lemma {:induction false} ReplacePrefixBack(s: string, p: string, r: string, q: string)
    requires p != [] && r != [] && r[0] !in q
    requires q <= ReplaceAll(s, p, r)
    ensures q <= s
    decreases |s|
  {
    if q != [] {
      ReplaceHead(s, p, r);
      assert q[0] in q;
      assert !(p <= s);
      var tail := ReplaceAll(s[1..], p, r);
      assert ReplaceAll(s, p, r) == [s[0]] + tail;
      assert q[1..] <= tail;
      ReplacePrefixBack(s[1..], p, r, q[1..]);
    }
  }

  /** The replaced text starts with the replacement exactly when the text starts with the pattern. */
  lemma ReplaceHead(s: string, p: string, r: string)
    requires p != [] && r != [] && ReplaceAll(s, p, r) != []
    ensures ReplaceAll(s, p, r)[0] == if p <= s then r[0] else s[0]
  {
  }

  /**
   * Every occurrence is replaced: when `p` starts with a character that occurs
   * nowhere else in `p` nor in `r`, and `r` starts with a character not in `p`,
   * the result holds no occurrence of `p`.
   */
  lemma {:induction false} ReplaceRemovesAll(s: string, p: string, r: string)
    requires p != [] && r != []
    requires p[0] !in p[1..] && p[0] !in r && r[0] !in p
    ensures !Contains(ReplaceAll(s, p, r), p)
    decreases |s|
  {
    if p <= s {
      var rest := ReplaceAll(s[|p|..], p, r);
      ReplaceRemovesAll(s[|p|..], p, r);
      NoOccurrenceAfter(r, rest, p);
    } else if s != [] {
      var rest := ReplaceAll(s[1..], p, r);
      ReplaceRemovesAll(s[1..], p, r);
      if p <= [s[0]] + rest {
        assert p[1..] <= rest;
        ReplacePrefixBack(s[1..], p, r, p[1..]);
        assert false;
      }
      assert ([s[0]] + rest)[1..] == rest;
    }
  }

  /** No occurrence of `p` can start inside a text lacking `p`'s first character. */
  lemma {:induction false} NoOccurrenceAfter(a: string, b: string, p: string)
    requires p != [] && p[0] !in a && !Contains(b, p)
    ensures !Contains(a + b, p)
    decreases |a|
  {
    if a == [] {
      assert a + b == b;
    } else {
      assert (a + b)[0] == a[0];
      assert (a + b)[1..] == a[1..] + b;
      NoOccurrenceAfter(a[1..], b, p);
    }
  }

  // ---------------------------------------------------------------------------
  // Split and join on one separator character

  /** `s.split(sep)`: always at least one piece; `""` splits into `[""]`. */
  function Split(s: string, sep: char): (parts: seq<string>)
    ensures |parts| >= 1
    ensures forall k :: 0 <= k < |parts| ==> sep !in parts[k]
    decreases |s|
  {
    if s == [] then [""]
    else if s[0] == sep then [""] + Split(s[1..], sep)
    else
      var rest := Split(s[1..], sep);
      [[s[0]] + rest[0]] + rest[1..]
  }

  /** `sep.join(parts)`. */
  function Join(parts: seq<string>, sep: string): string
    decreases |parts|
  {
    if parts == [] then ""
    else if |parts| == 1 then parts[0]
    else parts[0] + sep + Join(parts[1..], sep)
  }

  /** Joining the pieces of a split gives back the text. */
  lemma {:induction false} JoinSplit(s: string, sep: char)
    ensures Join(Split(s, sep), [sep]) == s
    decreases |s|
  {
    if s == [] {
    } else if s[0] == sep {
      JoinSplit(s[1..], sep);
      assert [sep] + s[1..] == s;
    } else {
      var rest := Split(s[1..], sep);
      JoinSplit(s[1..], sep);
      if |rest| == 1 {
        assert [s[0]] + rest[0] == s;
      } else {
        assert rest == [rest[0]] + rest[1..];
        assert Join(rest, [sep]) == rest[0] + [sep] + Join(rest[1..], [sep]);
        assert ([[s[0]] + rest[0]] + rest[1..])[1..] == rest[1..];
        assert [s[0]] + (rest[0] + [sep] + Join(rest[1..], [sep])) == s;
      }
    }
  }

  /** Splitting a join of separator-free pieces gives back the pieces. */
  lemma {:induction false} SplitJoin(parts: seq<string>, sep: char)
    requires |parts| >= 1
    requires forall k :: 0 <= k < |parts| ==> sep !in parts[k]
    ensures Split(Join(parts, [sep]), sep) == parts
    decreases |parts|, |parts[0]|
  {
    var p := parts[0];
    if |parts| == 1 {
      if p != [] {
        SplitJoin([p[1..]], sep);
        assert Join([p[1..]], [sep]) == p[1..];
        assert [p[0]] + p[1..] == p;
      }
    } else {
      var tail := Join(parts[1..], [sep]);
      assert Join(parts, [sep]) == p + [sep] + tail;
      if p == [] {
        assert p + [sep] + tail == [sep] + tail;
        SplitJoin(parts[1..], sep);
      } else {
        var shorter := [p[1..]] + parts[1..];
        assert shorter[1..] == parts[1..];
        assert Join(shorter, [sep]) == p[1..] + [sep] + tail;
        SplitJoin(shorter, sep);
        assert (p + [sep] + tail)[1..] == p[1..] + [sep] + tail;
        assert [p[0]] + p[1..] == p;
      }
    }
  }

  /** Every part of a join occurs in it. */
  lemma {:induction false} JoinContainsParts(parts: seq<string>, sep: string, k: nat)
    requires k < |parts|
    ensures Contains(Join(parts, sep), parts[k])
    decreases |parts|
  {
    if |parts| == 1 {
      ContainsInfix("", parts[0], "");
      assert "" + parts[0] + "" == parts[0];
    } else if k == 0 {
      ContainsInfix("", parts[0], sep + Join(parts[1..], sep));
      assert "" + parts[0] + (sep + Join(parts[1..], sep)) == parts[0] + sep + Join(parts[1..], sep);
    } else {
      JoinContainsParts(parts[1..], sep, k - 1);
      ContainsAppend(parts[0] + sep, Join(parts[1..], sep), parts[k]);
      assert parts[0] + sep + Join(parts[1..], sep) == (parts[0] + sep) + Join(parts[1..], sep);
    }
  }

  // ---------------------------------------------------------------------------
  // Decimal rendering, as `str(n)` and an f-string give it

  function DigitChar(d: nat): (c: char)
    requires d < 10
    ensures '0' <= c <= '9' && c as int - '0' as int == d
  {
    (d + '0' as int) as char
  }

  predicate AllDigits(s: string) {
    forall k :: 0 <= k < |s| ==> '0' <= s[k] <= '9'
  }

  /** The decimal digits of `n`, most significant first, with no leading zero. */
  function NatToDecimal(n: nat): (s: string)
    ensures s != [] && AllDigits(s)
    ensures |s| > 1 ==> s[0] != '0'
  {
    if n < 10 then [DigitChar(n)] else NatToDecimal(n / 10) + [DigitChar(n % 10)]
  }

  /** The number a string of decimal digits denotes. */
  function DecimalValue(s: string): nat
    requires AllDigits(s)
  {
    if s == [] then 0 else DecimalValue(s[..|s| - 1]) * 10 + (s[|s| - 1] as int - '0' as int)
  }

  /** Reading back the rendered digits gives the number. */
  lemma {:induction false} DecimalRoundTrip(n: nat)
    ensures DecimalValue(NatToDecimal(n)) == n
  {
    if n >= 10 {
      var s := NatToDecimal(n);
      DecimalRoundTrip(n / 10);
      assert s[..|s| - 1] == NatToDecimal(n / 10);
    }
  }

  /** `str(i)` for any integer. */
  function IntToDecimal(i: int): string {
    if i < 0 then "-" + NatToDecimal(-i) else NatToDecimal(i)
  }

  // ---------------------------------------------------------------------------
  // Text order (SQLite's BINARY collation: UTF-8 bytes, hence code points)

  /** `a` sorts before or equal to `b`. */
  predicate AtMost(a: string, b: string)
    decreases |a|
  {
    a == [] || (b != [] && (a[0] < b[0] || (a[0] == b[0] && AtMost(a[1..], b[1..]))))
  }

  lemma {:induction false} AtMostTotal(a: string, b: string)
    ensures AtMost(a, b) || AtMost(b, a)
    decreases |a|
  {
    if a != [] && b != [] && a[0] == b[0] {
      AtMostTotal(a[1..], b[1..]);
    }
  }

  lemma {:induction false} AtMostTransitive(a: string, b: string, c: string)
    requires AtMost(a, b) && AtMost(b, c)
    ensures AtMost(a, c)
    decreases |a|
  {
    if a != [] && a[0] == b[0] && b[0] == c[0] {
      AtMostTransitive(a[1..], b[1..], c[1..]);
    }
  }

  lemma {:induction false} AtMostReflexive(a: string)
    ensures AtMost(a, a)
    decreases |a|
  {
    if a != [] {
      AtMostReflexive(a[1..]);
    }
  }
}
