/**
 * String operations the bot uses, with the meaning JavaScript gives them:
 * `startsWith`, `split` on a one-character separator, `join`, `trim`, and
 * the decimal rendering of integers inside template literals.
 */
module Text {

  /** `s.startsWith(p)`: `p` matches the first `|p|` characters of `s`. */
  predicate StartsWith(s: string, p: string)
    ensures StartsWith(s, p) <==> |p| <= |s| && forall i :: 0 <= i < |p| ==> s[i] == p[i]
  {
    |p| <= |s| && s[..|p|] == p
  }

  /**
   * `s.split(c)` for a one-character separator: the maximal runs between
   * separators, so `""` gives `[""]` and two adjacent separators give an
   * empty part between them.
   */
  function Split(s: string, c: char): (parts: seq<string>)
    ensures |parts| >= 1
    ensures forall i :: 0 <= i < |parts| ==> c !in parts[i]
  {
    if |s| == 0 then [""]
    else
      var rest := Split(s[1..], c);
      if s[0] == c then [""] + rest
      else
        assert c !in [s[0]] + rest[0] by {
          assert forall k :: 0 <= k < |rest[0]| ==> ([s[0]] + rest[0])[k + 1] == rest[0][k];
        }
        [[s[0]] + rest[0]] + rest[1..]
  }

  /**
   * `parts.join(sep)`; the empty array joins to the empty string, and a
   * join starts with its first part.
   */
  function Join(parts: seq<string>, sep: string): (joined: string)
    ensures |parts| == 0 ==> joined == ""
    ensures |parts| > 0 ==> StartsWith(joined, parts[0])
  {
    if |parts| == 0 then ""
    else if |parts| == 1 then parts[0]
    else parts[0] + sep + Join(parts[1..], sep)
  }

  /** Joining the parts of a split with the separator gives the string back. */
  lemma {:induction false} JoinSplit(s: string, c: char)
    ensures Join(Split(s, c), [c]) == s
  {
    if |s| > 0 {
      var rest := Split(s[1..], c);
      JoinSplit(s[1..], c);
      if s[0] == c {
        assert ([""] + rest)[1..] == rest;
        assert s == [c] + s[1..];
      } else if |rest| == 1 {
        assert s == [s[0]] + s[1..];
      } else {
        var parts := [[s[0]] + rest[0]] + rest[1..];
        assert parts[1..] == rest[1..];
        assert Join(rest, [c]) == rest[0] + [c] + Join(rest[1..], [c]);
        assert s == [s[0]] + s[1..];
      }
    }
  }

  /** A string without the separator splits into itself alone. */
  lemma {:induction false} SplitWithoutSeparator(a: string, c: char)
    requires c !in a
    ensures Split(a, c) == [a]
  {
    if |a| > 0 {
      SplitWithoutSeparator(a[1..], c);
      assert a == [a[0]] + a[1..];
    }
  }

  /** The first separator ends the first part. */
  lemma {:induction false} SplitAtSeparator(a: string, b: string, c: char)
    requires c !in a
    ensures Split(a + [c] + b, c) == [a] + Split(b, c)
  {
    var s := a + [c] + b;
    if |a| == 0 {
      assert s[1..] == b;
    } else {
      assert s[1..] == a[1..] + [c] + b;
      SplitAtSeparator(a[1..], b, c);
      assert a == [a[0]] + a[1..];
    }
  }

  /** Splitting a join gives the parts back when no part holds the separator. */
  lemma {:induction false} SplitJoin(parts: seq<string>, c: char)
    requires |parts| >= 1
    requires forall i :: 0 <= i < |parts| ==> c !in parts[i]
    ensures Split(Join(parts, [c]), c) == parts
  {
    if |parts| == 1 {
      SplitWithoutSeparator(parts[0], c);
    } else {
      SplitJoin(parts[1..], c);
      SplitAtSeparator(parts[0], Join(parts[1..], [c]), c);
      assert parts == [parts[0]] + parts[1..];
    }
  }

  /**
   * The characters `String.prototype.trim` removes: the WhiteSpace and
   * LineTerminator code points of ECMAScript.
   */
  const JsSpaces: set<char> := {
    '\t', '\n', '\U{B}', '\U{C}', '\r', ' ', '\U{A0}', '\U{1680}',
    '\U{2000}', '\U{2001}', '\U{2002}', '\U{2003}', '\U{2004}', '\U{2005}',
    '\U{2006}', '\U{2007}', '\U{2008}', '\U{2009}', '\U{200A}',
    '\U{2028}', '\U{2029}', '\U{202F}', '\U{205F}', '\U{3000}', '\U{FEFF}'
  }

  predicate IsJsSpace(ch: char) {
    ch in JsSpaces
  }

  /** `s` with its leading white space removed. */
  function TrimStart(s: string): (r: string)
    ensures |r| <= |s| && r == s[|s| - |r|..]
    ensures forall k :: 0 <= k < |s| - |r| ==> IsJsSpace(s[k])
    ensures |r| > 0 ==> !IsJsSpace(r[0])
  {
    if |s| > 0 && IsJsSpace(s[0]) then TrimStart(s[1..]) else s
  }

  /** `s` with its trailing white space removed. */
  function TrimEnd(s: string): (r: string)
    ensures |r| <= |s| && r == s[..|r|]
    ensures forall k :: |r| <= k < |s| ==> IsJsSpace(s[k])
    ensures |r| > 0 ==> !IsJsSpace(r[|r| - 1])
  {
    if |s| > 0 && IsJsSpace(s[|s| - 1]) then TrimEnd(s[..|s| - 1]) else s
  }

  /**
   * `r` is `s` with `lead` white-space characters removed in front and the
   * rest of what follows `r` removed at the end, all of it white space, and
   * `r` neither starts nor ends with white space.
   */
  ghost predicate IsTrimOf(r: string, s: string, lead: nat) {
    && lead + |r| <= |s| && (forall i :: 0 <= i < |r| ==> r[i] == s[lead + i])
    && (forall k :: 0 <= k < lead ==> IsJsSpace(s[k]))
    && (forall k :: lead + |r| <= k < |s| ==> IsJsSpace(s[k]))
    && (|r| > 0 ==> !IsJsSpace(r[0]) && !IsJsSpace(r[|r| - 1]))
  }

  /** `s.trim()`. */
  function Trim(s: string): (r: string)
    ensures IsTrimOf(r, s, |s| - |TrimStart(s)|)
  {
    TrimSpec(s);
    TrimEnd(TrimStart(s))
  }

  lemma TrimSpec(s: string)
    ensures IsTrimOf(TrimEnd(TrimStart(s)), s, |s| - |TrimStart(s)|)
  {
    var t := TrimStart(s);
    var r := TrimEnd(t);
    var lead := |s| - |t|;
    TrimKeepsRun(s);
    assert forall k :: 0 <= k < lead ==> IsJsSpace(s[k]);
    assert forall k :: lead + |r| <= k < |s| ==> IsJsSpace(s[k]) by { TrimDropsTrailing(s); }
    assert |r| > 0 ==> !IsJsSpace(r[0]) && !IsJsSpace(r[|r| - 1]) by { TrimEdges(s); }
  }

  /** The trimmed text neither starts nor ends with white space. */
  lemma TrimEdges(s: string)
    ensures var r := TrimEnd(TrimStart(s));
      |r| > 0 ==> !IsJsSpace(r[0]) && !IsJsSpace(r[|r| - 1])
  {
    var t := TrimStart(s);
    var r := TrimEnd(t);
    if |r| > 0 {
      assert r[0] == t[0];
    }
  }

  /** What trimming keeps is a contiguous run of the original string. */
  lemma TrimKeepsRun(s: string)
    ensures var t := TrimStart(s);
      var r := TrimEnd(t);
      var lead := |s| - |t|;
      lead + |r| <= |s| && forall i :: 0 <= i < |r| ==> r[i] == s[lead + i]
  {
    var t := TrimStart(s);
    var r := TrimEnd(t);
    var lead := |s| - |t|;
    assert r == t[..|r|] && t == s[lead..];
    forall i | 0 <= i < |r| ensures r[i] == s[lead + i] {
      assert r[i] == t[..|r|][i] == t[i];
      assert t[i] == s[lead..][i] == s[lead + i];
    }
  }

  /** Everything after the kept run is white space. */
  lemma TrimDropsTrailing(s: string)
    ensures var t := TrimStart(s);
      var r := TrimEnd(t);
      var lead := |s| - |t|;
      forall k :: lead + |r| <= k < |s| ==> IsJsSpace(s[k])
  {
    var t := TrimStart(s);
    var lead := |s| - |t|;
    var r := TrimEnd(t);
    assert t == s[lead..];
    forall k | lead + |r| <= k < |s| ensures IsJsSpace(s[k]) {
      assert s[k] == s[lead..][k - lead] == t[k - lead];
    }
  }

  /** `s.trim().length == 0`: exactly the strings made of white space only. */
  predicate IsBlank(s: string)
    ensures IsBlank(s) <==> forall k :: 0 <= k < |s| ==> IsJsSpace(s[k])
  {
    |Trim(s)| == 0
  }

  predicate IsDigit(ch: char) {
    '0' <= ch <= '9'
  }

  function DigitChar(d: nat): (ch: char)
    requires d < 10
    ensures IsDigit(ch)
  {
    ((('0' as int) + d) as char)
  }

  function DigitValue(ch: char): (d: nat)
    requires IsDigit(ch)
    ensures d < 10 && DigitChar(d) == ch
  {
    (ch as int) - ('0' as int)
  }

  /** Canonical decimal: at least one digit, and no leading zero unless the number is 0. */
  predicate IsDecimal(s: string) {
    |s| >= 1 && (forall i :: 0 <= i < |s| ==> IsDigit(s[i])) && (|s| > 1 ==> s[0] != '0')
  }

  /** Decimal rendering of a natural number, as `${n}` writes it. */
  function NatToString(n: nat): (s: string)
    ensures IsDecimal(s)
    ensures n > 0 ==> s[0] != '0'
  {
    if n < 10 then [DigitChar(n)] else NatToString(n / 10) + [DigitChar(n % 10)]
  }

  /** The value of a string of decimal digits. */
  function ParseNat(s: string): nat
    requires forall i :: 0 <= i < |s| ==> IsDigit(s[i])
  {
    if |s| == 0 then 0 else 10 * ParseNat(s[..|s| - 1]) + DigitValue(s[|s| - 1])
  }

  /** Reading a rendered number back gives the number. */
  lemma {:induction false} ParseNatToString(n: nat)
    ensures ParseNat(NatToString(n)) == n
  {
    var s := NatToString(n);
    if n < 10 {
      assert s[..0] == "";
    } else {
      assert s[..|s| - 1] == NatToString(n / 10);
      ParseNatToString(n / 10);
    }
  }

  /** Different numbers render differently. */
  lemma NatToStringInjective(a: nat, b: nat)
    ensures NatToString(a) == NatToString(b) <==> a == b
  {
    if NatToString(a) == NatToString(b) {
      ParseNatToString(a);
      ParseNatToString(b);
    }
  }

  /** A canonical decimal string is the rendering of its own value: `${n}` has one spelling. */
  lemma {:induction false} DecimalUnique(s: string)
    requires IsDecimal(s)
    ensures NatToString(ParseNat(s)) == s
  {
    var init := s[..|s| - 1];
    var d := DigitValue(s[|s| - 1]);
    if |s| == 1 {
      assert init == "";
    } else {
      assert init[0] == s[0];
      DecimalUnique(init);
      var p := ParseNat(init);
      assert p != 0;
      assert s == init + [s[|s| - 1]];
    }
  }

  /** `s` is how `${i}` writes the integer `i`: a minus sign when negative, then canonical digits of the magnitude. */
  predicate RendersInt(s: string, i: int) {
    |s| >= 1 && ((i < 0) <==> s[0] == '-')
    && (i >= 0 ==> IsDecimal(s) && ParseNat(s) == i)
    && (i < 0 ==> IsDecimal(s[1..]) && ParseNat(s[1..]) == -i)
  }

  /**
   * Decimal rendering of an integer, as `${i}` writes it: canonical decimal
   * digits of the magnitude, after a minus sign when negative.
   */
  function IntToString(i: int): (s: string)
    ensures RendersInt(s, i)
  {
    if i < 0 then
      ParseNatToString(-i);
      assert ("-" + NatToString(-i))[1..] == NatToString(-i);
      "-" + NatToString(-i)
    else
      ParseNatToString(i);
      NatToString(i)
  }

  /** An integer has exactly one rendering: any string that renders `i` is `IntToString(i)`. */
  lemma RenderingUnique(s: string, i: int)
    requires RendersInt(s, i)
    ensures s == IntToString(i)
  {
    if i < 0 {
      DecimalUnique(s[1..]);
      assert s == "-" + s[1..];
    } else {
      DecimalUnique(s);
    }
  }
}
