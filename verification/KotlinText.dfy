/**
 * The Kotlin standard-library string operations the extension catalogue and the
 * saved-search copy rely on, with the exact edge cases Kotlin gives them: a missing
 * delimiter returns the whole string, `indexOf` finds the first occurrence, and
 * `replace` rewrites every non-overlapping occurrence from left to right.
 */
module KotlinText {
  import opened Wrappers

  /** Kotlin's `startsWith(prefix)`. */
  predicate StartsWith(s: string, prefix: string) {
    |prefix| <= |s| && s[..|prefix|] == prefix
  }

  /** `pat` occurs in `s` starting at position `i`. */
  predicate OccursAt(s: string, pat: string, i: nat) {
    i + |pat| <= |s| && s[i..i + |pat|] == pat
  }

  /** `pat` occurs nowhere in `s`. */
  ghost predicate Absent(s: string, pat: string) {
    forall i: nat :: !OccursAt(s, pat, i)
  }

  /** Kotlin's `indexOf(Char)`: the position of the first `c`, if any. */
  function IndexOfChar(s: string, c: char): (r: Option<nat>)
    ensures r.Some? ==> r.value < |s| && s[r.value] == c && c !in s[..r.value]
    ensures r.None? <==> c !in s
    decreases |s|
  {
    if |s| == 0 then None
    else if s[0] == c then Some(0)
    else match IndexOfChar(s[1..], c)
      case None => None
      case Some(i) =>
        assert s[..i + 1] == [s[0]] + s[1..][..i];
        Some(i + 1)
  }

  /** Kotlin's `lastIndexOf(Char)`: the position of the last `c`, if any. */
  function LastIndexOfChar(s: string, c: char): (r: Option<nat>)
    ensures r.Some? ==> r.value < |s| && s[r.value] == c && c !in s[r.value + 1..]
    ensures r.None? <==> c !in s
    decreases |s|
  {
    if |s| == 0 then None
    else if s[|s| - 1] == c then Some(|s| - 1)
    else match LastIndexOfChar(s[..|s| - 1], c)
      case None =>
        assert s == s[..|s| - 1] + [s[|s| - 1]];
        None
      case Some(i) =>
        assert s[i + 1..] == s[..|s| - 1][i + 1..] + [s[|s| - 1]];
        Some(i)
  }

  /** Kotlin's `substringBefore(Char)`: the text before the first `c`, or all of `s` when there is none. */
  function SubstringBefore(s: string, c: char): (r: string)
    ensures StartsWith(s, r) && c !in r
    ensures r == s || s[|r|] == c
  {
    match IndexOfChar(s, c)
    case Some(i) => s[..i]
    case None => s
  }

  /** Kotlin's `substringAfter(Char)`: the text after the first `c`, or all of `s` when there is none. */
  function SubstringAfter(s: string, c: char): (r: string)
    ensures c in s ==> s == SubstringBefore(s, c) + [c] + r
    ensures c !in s ==> r == s
  {
    match IndexOfChar(s, c)
    case Some(i) => s[i + 1..]
    case None => s
  }

  /** Kotlin's `substringBeforeLast(Char)`: the text before the last `c`, or all of `s` when there is none. */
  function SubstringBeforeLast(s: string, c: char): (r: string)
    ensures c in s ==> StartsWith(s, r) && |r| < |s| && s[|r|] == c && c !in s[|r| + 1..]
    ensures c !in s ==> r == s
  {
    match LastIndexOfChar(s, c)
    case Some(i) => s[..i]
    case None => s
  }

  /** Kotlin's `indexOf(String)`: the position of the first occurrence of `pat`, if any. */
  function IndexOf(s: string, pat: string): (r: Option<nat>)
    ensures r.Some? ==> OccursAt(s, pat, r.value) && forall j: nat :: j < r.value ==> !OccursAt(s, pat, j)
    ensures r.None? <==> Absent(s, pat)
    decreases |s|
  {
    if StartsWith(s, pat) then Some(0)
    else if |s| == 0 then None
    else
      var rest := IndexOf(s[1..], pat);
      assert forall j: nat :: OccursAt(s, pat, j + 1) <==> OccursAt(s[1..], pat, j) by {
        forall j: nat ensures OccursAt(s, pat, j + 1) <==> OccursAt(s[1..], pat, j) {
          if j + 1 + |pat| <= |s| {
            assert s[1..][j..] == s[j + 1..];
            assert s[j + 1..j + 1 + |pat|] == s[j + 1..][..|pat|];
            assert s[1..][j..j + |pat|] == s[1..][j..][..|pat|];
          }
        }
      }
      assert forall j: nat :: OccursAt(s, pat, j) ==> j == 0 || OccursAt(s[1..], pat, j - 1);
      match rest
      case None => None
      case Some(i) => Some(i + 1)
  }

  /** Kotlin's `substringAfter(String)`: the text after the first occurrence of `delim`, or all of `s` when there is none. */
  function SubstringAfterText(s: string, delim: string): (r: string)
    ensures Absent(s, delim) ==> r == s
    ensures !Absent(s, delim) ==>
      exists i: nat :: OccursAt(s, delim, i) && (forall j: nat :: j < i ==> !OccursAt(s, delim, j)) && r == s[i + |delim|..]
  {
    match IndexOf(s, delim)
    case Some(i) => s[i + |delim|..]
    case None => s
  }

  /**
   * Kotlin's `replace(oldValue, newValue)`: every occurrence of `pat`, found left to
   * right without overlap, becomes `rep`. An empty `pat` matches before every
   * character and at the end.
   */
  function Replace(s: string, pat: string, rep: string): string
    decreases |s|
  {
    if |pat| > 0 && StartsWith(s, pat) then rep + Replace(s[|pat|..], pat, rep)
    else if |s| == 0 then (if |pat| == 0 then rep else "")
    else (if |pat| == 0 then rep else "") + [s[0]] + Replace(s[1..], pat, rep)
  }

  /** A match at the front is replaced first. */
  lemma ReplaceMatchFirst(s: string, pat: string, rep: string)
    requires |pat| > 0 && StartsWith(s, pat)
    ensures Replace(s, pat, rep) == rep + Replace(s[|pat|..], pat, rep)
  {
  }

  /** An occurrence past a known prefix is an occurrence in the rest. */
  lemma OccursAfterPrefix(a: string, b: string, pat: string, j: nat)
    requires j >= |a|
    ensures OccursAt(a + b, pat, j) <==> OccursAt(b, pat, j - |a|)
  {
    if j + |pat| <= |a + b| {
      assert (a + b)[j..j + |pat|] == b[j - |a|..j - |a| + |pat|];
    }
  }

  /** If a replacement result starts with text containing no `.`, so did the input. */
  lemma {:induction false} ReplaceApkKeepsDotlessPrefix(s: string, w: string)
    requires '.' !in w
    requires StartsWith(Replace(s, ".apk", ".png"), w)
    ensures StartsWith(s, w)
    decreases |s|
  {
    if |w| > 0 {
      var out := Replace(s, ".apk", ".png");
      assert out[0] == w[0] by {
        assert out[..|w|][0] == out[0];
      }
      // a replaced `.apk` would put a `.` first
      assert !StartsWith(s, ".apk") by {
        if StartsWith(s, ".apk") {
          ReplaceMatchFirst(s, ".apk", ".png");
        }
      }
      assert |s| > 0;
      var r := Replace(s[1..], ".apk", ".png");
      assert out == [s[0]] + r;
      assert StartsWith(r, w[1..]) by {
        assert r[..|w| - 1] == out[1..|w|];
      }
      ReplaceApkKeepsDotlessPrefix(s[1..], w[1..]);
      assert s[..|w|] == [s[0]] + s[1..][..|w| - 1];
    }
  }

  /** Replacing `.apk` by `.png` leaves no `.apk` behind. */
  lemma {:induction false} ReplaceApkRemovesAll(s: string)
    ensures Absent(Replace(s, ".apk", ".png"), ".apk")
    decreases |s|
  {
    var out := Replace(s, ".apk", ".png");
    if StartsWith(s, ".apk") {
      var rest := Replace(s[4..], ".apk", ".png");
      ReplaceApkRemovesAll(s[4..]);
      assert out == ".png" + rest;
      forall j: nat ensures !OccursAt(out, ".apk", j) {
        if j >= 4 {
          OccursAfterPrefix(".png", rest, ".apk", j);
        } else if j == 0 {
          assert out[..4][1] == 'p';
        } else if j + 4 <= |out| {
          assert out[j..j + 4][0] == out[..4][j] != '.';
        }
      }
    } else if |s| == 0 {
    } else {
      var rest := Replace(s[1..], ".apk", ".png");
      ReplaceApkRemovesAll(s[1..]);
      assert out == [s[0]] + rest;
      forall j: nat ensures !OccursAt(out, ".apk", j) {
        if j >= 1 {
          OccursAfterPrefix([s[0]], rest, ".apk", j);
        } else if OccursAt(out, ".apk", 0) {
          assert StartsWith(rest, "apk") by {
            assert rest[..3] == out[1..4];
          }
          ReplaceApkKeepsDotlessPrefix(s[1..], "apk");
        }
      }
    }
  }

  /** Dropping the first character keeps a pattern absent. */
  lemma AbsentInTail(s: string, pat: string)
    requires |s| > 0 && Absent(s, pat)
    ensures Absent(s[1..], pat)
  {
    forall j: nat ensures !OccursAt(s[1..], pat, j) {
      assert s == [s[0]] + s[1..];
      OccursAfterPrefix([s[0]], s[1..], pat, j + 1);
      assert !OccursAt(s, pat, j + 1);
    }
  }

  /** A name without `.apk` is left as it is. */
  lemma {:induction false} ReplaceApkAbsent(s: string)
    ensures Absent(s, ".apk") ==> Replace(s, ".apk", ".png") == s
    decreases |s|
  {
    if |s| > 0 && Absent(s, ".apk") {
      assert !OccursAt(s, ".apk", 0);
      AbsentInTail(s, ".apk");
      ReplaceApkAbsent(s[1..]);
      assert s == [s[0]] + s[1..];
    }
  }

  /**
   * The first `.apk` of a name becomes `.png`, and the replacement goes on
   * after it: `a + ".apk" + b`, where `a` has no `.apk`, becomes `a + ".png"`
   * followed by the replaced `b`.
   */
  lemma {:induction false} ReplaceApkAtFirst(a: string, b: string)
    requires Absent(a, ".apk")
    ensures Replace(a + ".apk" + b, ".apk", ".png") == a + ".png" + Replace(b, ".apk", ".png")
    decreases |a|
  {
    var s := a + ".apk" + b;
    if |a| == 0 {
      assert s == ".apk" + b;
      assert s[4..] == b;
    } else {
      assert !StartsWith(s, ".apk") by {
        if |a| >= 4 {
          assert s[..4] == a[..4];
          assert !OccursAt(a, ".apk", 0);
        } else {
          assert s[|a|] == '.';
        }
      }
      AbsentInTail(a, ".apk");
      assert s[1..] == a[1..] + ".apk" + b;
      ReplaceApkAtFirst(a[1..], b);
      var rest := Replace(b, ".apk", ".png");
      assert Replace(s, ".apk", ".png") == [s[0]] + Replace(s[1..], ".apk", ".png");
      assert [a[0]] + (a[1..] + ".png" + rest) == a + ".png" + rest;
    }
  }

  /** A name `stem + ".apk"` whose only `.apk` is the final one becomes `stem + ".png"`. */
  lemma ReplaceApkSuffix(stem: string)
    requires Absent(stem, ".apk")
    ensures Replace(stem + ".apk", ".apk", ".png") == stem + ".png"
  {
    ReplaceApkAtFirst(stem, "");
    assert stem + ".apk" + "" == stem + ".apk";
    assert stem + ".png" + "" == stem + ".png";
  }

  /** `substringBeforeLast` cuts at the last delimiter: the text after it contains none. */
  lemma SubstringBeforeLastSplit(a: string, c: char, b: string)
    requires c !in b
    ensures SubstringBeforeLast(a + [c] + b, c) == a
  {
    var s := a + [c] + b;
    var r := SubstringBeforeLast(s, c);
    assert s[|a|] == c;
    assert forall k :: |a| < k < |s| ==> s[k] == b[k - |a| - 1];
    assert s[..|a|] == a;
  }

  /** Cutting `a + [c] + b` at its first `c`, when `a` has none, gives back `a` and `b`. */
  lemma SubstringAroundFirst(a: string, c: char, b: string)
    requires c !in a
    ensures SubstringBefore(a + [c] + b, c) == a
    ensures SubstringAfter(a + [c] + b, c) == b
  {
    var s := a + [c] + b;
    assert s[|a|] == c;
    assert forall k :: 0 <= k < |a| ==> s[k] == a[k];
    var r := SubstringBefore(s, c);
    assert forall m :: |a| < m <= |s| ==> s[..m][|a|] == c;
    assert |r| == |a|;
    assert s[..|a|] == a;
    assert s[|a| + 1..] == b;
  }
}
