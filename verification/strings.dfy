/** The few JavaScript string operations the core relies on, over `seq<char>`:
    ASCII `toLowerCase`, `includes`, `split`/`join`, decimal rendering of numbers
    in template strings, and `<` on strings, taken here in code-point order
    (`StrLess` says where that differs from JavaScript's code-unit order). */
module Strings {

  /** ASCII lower-casing of one character (no Unicode case mapping). */
  function LowerChar(c: char): (r: char)
    ensures 'A' <= c <= 'Z' ==> 'a' <= r <= 'z'
    ensures !('A' <= c <= 'Z') ==> r == c
  {
    if 'A' <= c <= 'Z' then (c as int + 32) as char else c
  }

  /** `s.toLowerCase()`, restricted to ASCII letters. */
  function ToLower(s: string): (r: string)
    ensures |r| == |s|
    ensures forall i :: 0 <= i < |s| ==> r[i] == LowerChar(s[i])
  {
    if |s| == 0 then "" else [LowerChar(s[0])] + ToLower(s[1..])
  }

  /** Lower-casing twice is lower-casing once. */
  lemma ToLowerIdempotent(s: string)
    ensures ToLower(ToLower(s)) == ToLower(s)
  {
    var t := ToLower(s);
    assert forall i :: 0 <= i < |t| ==> ToLower(t)[i] == LowerChar(LowerChar(s[i]));
  }

  /** The empty needle occurs in every text. */
  lemma ContainsEmpty(hay: string)
    ensures Contains(hay, "")
  {
    assert OccursAt(hay, "", 0);
  }

  /** `needle` occurs in `hay` starting at position `i`. */
  ghost predicate OccursAt(hay: string, needle: string, i: int) {
    0 <= i && i + |needle| <= |hay| && hay[i..i + |needle|] == needle
  }

  /** `hay.includes(needle)`; the empty needle occurs everywhere. */
  function Contains(hay: string, needle: string): (b: bool)
    ensures b <==> exists i :: OccursAt(hay, needle, i)
    decreases |hay|
  {
    if needle <= hay then
      assert OccursAt(hay, needle, 0);
      true
    else if |hay| == 0 then
      false
    else
      var rest := Contains(hay[1..], needle);
      if rest then
        assert exists i :: OccursAt(hay, needle, i) by {
          var j :| OccursAt(hay[1..], needle, j);
          assert hay[j + 1..j + 1 + |needle|] == hay[1..][j..j + |needle|];
          assert OccursAt(hay, needle, j + 1);
        }
        true
      else
        assert forall i :: OccursAt(hay, needle, i) ==> i > 0 && OccursAt(hay[1..], needle, i - 1) by {
          forall i | OccursAt(hay, needle, i)
            ensures i > 0 && OccursAt(hay[1..], needle, i - 1)
          {
            if i == 0 {
              assert false;
            }
            assert hay[1..][i - 1..i - 1 + |needle|] == hay[i..i + |needle|];
          }
        }
        false
  }

  /** `s.split(sep)` for a one-character separator: always at least one part. */
  function Split(s: string, sep: char): (parts: seq<string>)
    ensures |parts| >= 1
    decreases |s|
  {
    if |s| == 0 then [""]
    else
      var init := Split(s[..|s| - 1], sep);
      if s[|s| - 1] == sep then init + [""]
      else init[..|init| - 1] + [init[|init| - 1] + [s[|s| - 1]]]
  }

  /** `parts.join(sep)`; the empty list joins to the empty string. */
  function Join(parts: seq<string>, sep: string): string
  {
    if |parts| == 0 then ""
    else if |parts| == 1 then parts[0]
    else Join(parts[..|parts| - 1], sep) + sep + parts[|parts| - 1]
  }

  /** No part of a split contains the separator. */
  lemma {:induction false} SplitPartsLackSep(s: string, sep: char)
    ensures forall k :: 0 <= k < |Split(s, sep)| ==> sep !in Split(s, sep)[k]
    decreases |s|
  {
    if |s| > 0 {
      SplitPartsLackSep(s[..|s| - 1], sep);
    }
  }

  /** Splitting and joining back with the same separator gives the string back. */
  lemma {:induction false} JoinSplit(s: string, sep: char)
    ensures Join(Split(s, sep), [sep]) == s
    decreases |s|
  {
    if |s| > 0 {
      var front := s[..|s| - 1];
      JoinSplit(front, sep);
      assert s == front + [s[|s| - 1]];
      JoinSplitSnoc(front, s[|s| - 1], sep);
    }
  }

  /** The inductive step of `JoinSplit`: one more character at the end. */
  lemma JoinSplitSnoc(front: string, c: char, sep: char)
    requires Join(Split(front, sep), [sep]) == front
    ensures Join(Split(front + [c], sep), [sep]) == front + [c]
  {
    var init := Split(front, sep);
    assert (front + [c])[..|front|] == front;
    if c == sep {
      assert Split(front + [c], sep) == init + [""];
      JoinAppendEmpty(init, [sep]);
    } else if |init| == 1 {
      assert Split(front + [c], sep) == [init[0] + [c]];
    } else {
      var n := |init|;
      assert Split(front + [c], sep) == init[..n - 1] + [init[n - 1] + [c]];
      JoinExtendLast(init, [sep], c);
    }
  }

  /** An empty last part adds one separator to the end of the join. */
  lemma JoinAppendEmpty(parts: seq<string>, sep: string)
    requires |parts| > 0
    ensures Join(parts + [""], sep) == Join(parts, sep) + sep
  {
    assert (parts + [""])[..|parts|] == parts;
  }

  /** Adding a character to the last part adds it to the end of the join. */
  lemma JoinExtendLast(parts: seq<string>, sep: string, c: char)
    requires |parts| > 1
    ensures var n := |parts|;
            Join(parts[..n - 1] + [parts[n - 1] + [c]], sep) == Join(parts, sep) + [c]
  {
    var n := |parts|;
    var ext := parts[..n - 1] + [parts[n - 1] + [c]];
    assert ext[..|ext| - 1] == parts[..n - 1];
  }

  /** The text after the last `sep` (the whole string when there is none):
      the longest suffix of `s` without `sep`. */
  function LastSegment(s: string, sep: char): (r: string)
    ensures sep !in r
    ensures |r| <= |s| && r == s[|s| - |r|..]
    ensures |r| < |s| ==> s[|s| - |r| - 1] == sep
    ensures sep !in s ==> r == s
    decreases |s|
  {
    if |s| == 0 then ""
    else if s[|s| - 1] == sep then ""
    else
      var r := LastSegment(s[..|s| - 1], sep) + [s[|s| - 1]];
      assert s[..|s| - 1] + [s[|s| - 1]] == s;
      r
  }

  /** `s.split(sep).pop()` is the last segment. */
  lemma {:induction false} SplitLastIsLastSegment(s: string, sep: char)
    ensures Split(s, sep)[|Split(s, sep)| - 1] == LastSegment(s, sep)
    decreases |s|
  {
    if |s| > 0 {
      SplitLastIsLastSegment(s[..|s| - 1], sep);
    }
  }

  function DigitChar(d: nat): (c: char)
    requires d < 10
    ensures '0' <= c <= '9'
  {
    ('0' as int + d) as char
  }

  /** Decimal rendering of a natural number, most significant digit first. */
  function NatToString(n: nat): (s: string)
    ensures |s| >= 1
    ensures forall i :: 0 <= i < |s| ==> '0' <= s[i] <= '9'
  {
    if n < 10 then [DigitChar(n)] else NatToString(n / 10) + [DigitChar(n % 10)]
  }

  /** `${n}` for an integer number. */
  function IntToString(n: int): (s: string)
    ensures |s| >= 1
  {
    if n < 0 then "-" + NatToString(-n) else NatToString(n)
  }

  /** Reading decimal digits back; the partner of `NatToString`. */
  function ParseNat(s: string): nat
    requires forall i :: 0 <= i < |s| ==> '0' <= s[i] <= '9'
  {
    if |s| == 0 then 0
    else 10 * ParseNat(s[..|s| - 1]) + (s[|s| - 1] as int - '0' as int)
  }

  lemma {:induction false} ParseNatToString(n: nat)
    ensures ParseNat(NatToString(n)) == n
  {
    if n >= 10 {
      var s := NatToString(n);
      assert s[..|s| - 1] == NatToString(n / 10);
      ParseNatToString(n / 10);
    }
  }

  /** The rendering of distinct numbers differs, so a message embedding a
      number determines it. */
  lemma NatToStringInjective(m: nat, n: nat)
    requires NatToString(m) == NatToString(n)
    ensures m == n
  {
    ParseNatToString(m);
    ParseNatToString(n);
  }

  /** JavaScript `<` on strings, taken character by character: lexicographic
      by Unicode code point, a proper prefix first. JavaScript compares UTF-16
      code units instead; the two orders differ only when a character above
      U+FFFF meets one in U+E000 to U+FFFF. */
  predicate StrLess(a: string, b: string)
    decreases |a|
  {
    if |a| == 0 then |b| > 0
    else if |b| == 0 then false
    else if a[0] != b[0] then a[0] < b[0]
    else StrLess(a[1..], b[1..])
  }

  lemma {:induction false} StrLessIrreflexive(a: string)
    ensures !StrLess(a, a)
    decreases |a|
  {
    if |a| > 0 {
      StrLessIrreflexive(a[1..]);
    }
  }

  lemma {:induction false} StrLessTransitive(a: string, b: string, c: string)
    requires StrLess(a, b) && StrLess(b, c)
    ensures StrLess(a, c)
    decreases |a|
  {
    if |a| > 0 && a[0] == b[0] && b[0] == c[0] {
      StrLessTransitive(a[1..], b[1..], c[1..]);
    }
  }

  lemma {:induction false} StrLessTotal(a: string, b: string)
    ensures a == b || StrLess(a, b) || StrLess(b, a)
    decreases |a|
  {
    if |a| > 0 && |b| > 0 && a[0] == b[0] {
      StrLessTotal(a[1..], b[1..]);
      if a[1..] == b[1..] {
        assert a == [a[0]] + a[1..] && b == [b[0]] + b[1..];
      }
    }
  }
  /** A string occurs in any text that has it as a middle part. */
  lemma ContainsMiddle(a: string, b: string, c: string)
    ensures Contains(a + b + c, b)
  {
    assert (a + b + c)[|a|..|a| + |b|] == b;
    assert OccursAt(a + b + c, b, |a|);
  }

  /** Every part of a joined list occurs in the joined text. */
  lemma {:induction false} JoinContainsPart(parts: seq<string>, sep: string, k: nat)
    requires k < |parts|
    ensures Contains(Join(parts, sep), parts[k])
  {
    if |parts| == 1 {
      ContainsMiddle("", parts[0], "");
      assert "" + parts[0] + "" == parts[0];
    } else if k == |parts| - 1 {
      ContainsMiddle(Join(parts[..|parts| - 1], sep) + sep, parts[k], "");
      assert Join(parts[..|parts| - 1], sep) + sep + parts[k] + "" == Join(parts, sep);
    } else {
      var init := parts[..|parts| - 1];
      JoinContainsPart(init, sep, k);
      var j :| OccursAt(Join(init, sep), parts[k], j);
      var whole := Join(parts, sep);
      assert whole == Join(init, sep) + (sep + parts[|parts| - 1]);
      assert whole[j..j + |parts[k]|] == Join(init, sep)[j..j + |parts[k]|];
      assert OccursAt(whole, parts[k], j);
    }
  }
}
