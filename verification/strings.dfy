/** ASCII text helpers used by the pages: case folding, substring search,
    suffix tests and the "text after the last dot" of a URL. */
module Strings {

  /** Lower-cases one ASCII letter; every other character is left alone. */
  function LowerChar(c: char): char {
    if 'A' <= c <= 'Z' then (c as int + 32) as char else c
  }

  /** Lower-cases every character of `s` (ASCII only). */
  function Lower(s: string): (r: string)
    ensures |r| == |s|
    ensures forall i :: 0 <= i < |s| ==> r[i] == LowerChar(s[i])
  {
    seq(|s|, i requires 0 <= i < |s| => LowerChar(s[i]))
  }

  /** Lower-casing commutes with taking a slice. */
  lemma LowerSlice(s: string, i: int, j: int)
    requires 0 <= i <= j <= |s|
    ensures Lower(s[i..j]) == Lower(s)[i..j]
  {
    var a, b := Lower(s[i..j]), Lower(s)[i..j];
    assert |a| == |b|;
    forall k | 0 <= k < |a| ensures a[k] == b[k] {
      assert s[i..j][k] == s[i + k];
    }
  }

  /** `needle` occurs in `hay` starting at index `i`. */
  predicate OccursAt(hay: string, needle: string, i: int) {
    0 <= i && i + |needle| <= |hay| && hay[i..i + |needle|] == needle
  }

  /** An occurrence in `hay` past its first character is an occurrence in
      the rest of `hay`, one position to the left. */
  lemma OccursInTail(hay: string, needle: string, i: int)
    requires |hay| > 0 && i > 0
    ensures OccursAt(hay, needle, i) <==> OccursAt(hay[1..], needle, i - 1)
  {
    if 0 <= i - 1 && i - 1 + |needle| <= |hay[1..]| {
      assert hay[1..][i - 1..i - 1 + |needle|] == hay[i..i + |needle|];
    }
  }

  /** `hay.includes(needle)`: try every start position from the left. The
      scan succeeds exactly when `needle` occurs somewhere in `hay`. */
  function Includes(hay: string, needle: string): (r: bool)
    ensures r <==> exists i :: OccursAt(hay, needle, i)
    decreases |hay|
  {
    if needle <= hay then
      assert OccursAt(hay, needle, 0);
      true
    else if |hay| == 0 then false
    else
      var r := Includes(hay[1..], needle);
      assert r ==> exists i :: OccursAt(hay, needle, i) by {
        if r {
          var j :| OccursAt(hay[1..], needle, j);
          OccursInTail(hay, needle, j + 1);
        }
      }
      assert (exists i :: OccursAt(hay, needle, i)) ==> r by {
        if exists i :: OccursAt(hay, needle, i) {
          var i :| OccursAt(hay, needle, i);
          assert !OccursAt(hay, needle, 0);
          OccursInTail(hay, needle, i);
        }
      }
      r
  }

  /** `s.endsWith(suffix)`. */
  predicate EndsWith(s: string, suffix: string) {
    |suffix| <= |s| && s[|s| - |suffix|..] == suffix
  }

  /** `s.split('.').pop()`: the longest dot-free suffix of `s`, which is all of
      `s` when it has no dot. */
  function AfterLastDot(s: string): (r: string)
    ensures EndsWith(s, r)
    ensures '.' !in r
    ensures |r| < |s| ==> s[|s| - |r| - 1] == '.'
  {
    if |s| == 0 || s[|s| - 1] == '.' then ""
    else
      var init := s[..|s| - 1];
      var r' := AfterLastDot(init);
      assert init[|init| - |r'|..] == r';
      assert s[|s| - |r'| - 1..] == r' + [s[|s| - 1]];
      r' + [s[|s| - 1]]
  }

  /** Whatever follows the last dot is what `AfterLastDot` returns. */
  lemma AfterLastDotAt(s: string, k: int)
    requires 0 <= k < |s| && s[k] == '.'
    requires forall j :: k < j < |s| ==> s[j] != '.'
    ensures AfterLastDot(s) == s[k + 1..]
  {
    var r := AfterLastDot(s);
    if |r| > |s| - k - 1 {
      assert false;
    } else if |r| < |s| - k - 1 {
      assert false;
    }
  }

  lemma LowerCharKeepsDot(c: char)
    ensures LowerChar(c) == '.' <==> c == '.'
  {
  }

  /** Character `j` of a text that ends with `suffix`. */
  lemma EndsWithAt(t: string, suffix: string, j: int)
    requires EndsWith(t, suffix) && |t| - |suffix| <= j < |t|
    ensures t[j] == suffix[j - (|t| - |suffix|)]
  {
  }

  /** A text ending with `c` then `e` ends with `e`. */
  lemma EndsWithTail(t: string, c: char, e: string)
    requires EndsWith(t, [c] + e)
    ensures EndsWith(t, e) && t[|t| - |e| - 1] == c
  {
    assert t[|t| - |e|..] == t[|t| - |e| - 1..][1..];
  }

  /** A dot-free text is its own segment after the last dot. */
  lemma AfterLastDotOfDotFree(t: string)
    requires forall j :: 0 <= j < |t| ==> t[j] != '.'
    ensures AfterLastDot(t) == t
  {
    assert t[|t| - |AfterLastDot(t)|..] == AfterLastDot(t);
  }

  /** The segment after the last dot, located by position: it starts right
      after index `|s| - |AfterLastDot(s)| - 1` and holds no dot. */
  lemma AfterLastDotShape(s: string)
    ensures s[|s| - |AfterLastDot(s)|..] == AfterLastDot(s)
    ensures forall j :: |s| - |AfterLastDot(s)| <= j < |s| ==> s[j] != '.'
  {
    var r := AfterLastDot(s);
    forall j | |s| - |r| <= j < |s| ensures s[j] != '.' {
      EndsWithAt(s, r, j);
    }
  }

  /** Lower-casing keeps a dot-free stretch dot-free. */
  lemma LowerKeepsDotFree(s: string, from: int)
    requires 0 <= from <= |s|
    requires forall j :: from <= j < |s| ==> s[j] != '.'
    ensures forall j :: from <= j < |s| ==> Lower(s)[j] != '.'
  {
    forall j | from <= j < |s| ensures Lower(s)[j] != '.' {
      LowerCharKeepsDot(s[j]);
    }
  }

  /** Lower-casing and popping the segment after the last dot commute, since
      lower-casing never makes or removes a dot. */
  lemma LowerAfterLastDot(s: string)
    ensures Lower(AfterLastDot(s)) == AfterLastDot(Lower(s))
  {
    var r := AfterLastDot(s);
    var from := |s| - |r|;
    AfterLastDotShape(s);
    LowerKeepsDotFree(s, from);
    LowerSlice(s, from, |s|);
    assert s[from..|s|] == r;
    if from > 0 {
      LowerCharKeepsDot(s[from - 1]);
      AfterLastDotAt(Lower(s), from - 1);
    } else {
      AfterLastDotOfDotFree(Lower(s));
    }
  }

  /** A text has a dot exactly when its lower-cased form has one. */
  lemma DotInLower(s: string)
    ensures '.' in s <==> '.' in Lower(s)
  {
    if '.' in s {
      var i :| 0 <= i < |s| && s[i] == '.';
      assert Lower(s)[i] == '.';
    }
    if '.' in Lower(s) {
      var i :| 0 <= i < |s| && Lower(s)[i] == '.';
      LowerCharKeepsDot(s[i]);
    }
  }

  /** A text ending with a dot and a dot-free `e` has `e` after its last dot. */
  lemma AfterLastDotOfSuffix(t: string, e: string)
    requires '.' !in e
    requires EndsWith(t, "." + e)
    ensures '.' in t && AfterLastDot(t) == e
  {
    var k := |t| - |e| - 1;
    EndsWithTail(t, '.', e);
    forall j | k < j < |t| ensures t[j] != '.' {
      EndsWithAt(t, e, j);
    }
    AfterLastDotAt(t, k);
  }

  /** When the lower-cased text ends with a dot and a dot-free `e`, the
      text after the last dot is `e` up to letter case. */
  lemma DotSuffixAfterLastDot(s: string, e: string)
    requires '.' !in e
    requires EndsWith(Lower(s), "." + e)
    ensures '.' in s && Lower(AfterLastDot(s)) == e
  {
    AfterLastDotOfSuffix(Lower(s), e);
    LowerAfterLastDot(s);
    DotInLower(s);
  }

  /** A text with a dot ends, up to letter case, with a dot and what follows the last one. */
  lemma EndsWithDotAndAfterLastDot(s: string)
    requires '.' in s
    ensures EndsWith(Lower(s), "." + Lower(AfterLastDot(s)))
  {
    var r := AfterLastDot(s);
    var n, m := |s|, |r|;
    var k := n - m - 1;
    assert s[k] == '.';
    assert s[k..] == "." + r;
    LowerSlice(s, k, n);
    assert s[k..n] == s[k..];
    var lr := Lower("." + r);
    assert lr[0] == '.';
    assert lr[1..] == Lower(r) by {
      LowerSlice("." + r, 1, |r| + 1);
      assert ("." + r)[1..|r| + 1] == r;
    }
    assert lr == "." + Lower(r);
  }
}
