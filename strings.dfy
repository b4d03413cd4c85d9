/**
 * The JavaScript string operations the core uses (`indexOf`, `split`, `join`,
 * global single-character `replace`, `trim`, `slice`), on Dafny strings.
 */
module Strings {
  import opened Wrappers

  /** Concatenation of `f(c)` over the characters `c` of `s`, in order. */
  function FlatMap(f: char -> string, s: string): string
    decreases |s|
  {
    if s == [] then [] else f(s[0]) + FlatMap(f, s[1..])
  }

  lemma {:induction false} FlatMapAppend(f: char -> string, a: string, b: string)
    ensures FlatMap(f, a + b) == FlatMap(f, a) + FlatMap(f, b)
    decreases |a|
  {
    if a == [] {
      assert a + b == b;
    } else {
      assert (a + b)[1..] == a[1..] + b;
      FlatMapAppend(f, a[1..], b);
    }
  }

  lemma FlatMapCons(f: char -> string, c: char, s: string)
    ensures FlatMap(f, [c] + s) == f(c) + FlatMap(f, s)
  {
    assert ([c] + s)[1..] == s;
  }

  lemma FlatMapSingleton(f: char -> string, c: char)
    ensures FlatMap(f, [c]) == f(c)
  {
    assert [c][1..] == [];
  }

  /** A character occurs in a `FlatMap` result exactly when it occurs in the image of some input character. */
  lemma {:induction false} FlatMapMember(f: char -> string, s: string, x: char)
    ensures x in FlatMap(f, s) <==> exists i :: 0 <= i < |s| && x in f(s[i])
    decreases |s|
  {
    if s != [] {
      FlatMapMember(f, s[1..], x);
      if x in FlatMap(f, s[1..]) {
        var i :| 0 <= i < |s[1..]| && x in f(s[1..][i]);
        assert x in f(s[i + 1]);
      }
      if exists i :: 0 <= i < |s| && x in f(s[i]) {
        var i :| 0 <= i < |s| && x in f(s[i]);
        if i > 0 {
          assert x in f(s[1..][i - 1]);
        }
      }
    }
  }

  /** Two passes of `FlatMap` are one pass with the composed image. */
  lemma {:induction false} FlatMapCompose(f: char -> string, g: char -> string, s: string)
    ensures FlatMap(g, FlatMap(f, s)) == FlatMap(x => FlatMap(g, f(x)), s)
    decreases |s|
  {
    if s != [] {
      FlatMapAppend(g, f(s[0]), FlatMap(f, s[1..]));
      FlatMapCompose(f, g, s[1..]);
    }
  }

  /** `FlatMap` depends only on the images of the characters. */
  lemma {:induction false} FlatMapCongruence(f: char -> string, g: char -> string, s: string)
    requires forall k :: 0 <= k < |s| ==> f(s[k]) == g(s[k])
    ensures FlatMap(f, s) == FlatMap(g, s)
    decreases |s|
  {
    if s != [] {
      FlatMapCongruence(f, g, s[1..]);
    }
  }

  /** `s.replace(/c/g, rep)` for a single-character pattern `c`. */
  function ReplaceAll(s: string, c: char, rep: string): string
  {
    FlatMap(x => if x == c then rep else [x], s)
  }

  lemma ReplaceAllAppend(a: string, b: string, c: char, rep: string)
    ensures ReplaceAll(a + b, c, rep) == ReplaceAll(a, c, rep) + ReplaceAll(b, c, rep)
  {
    FlatMapAppend(x => if x == c then rep else [x], a, b);
  }

  lemma ReplaceAllOne(x: char, c: char, rep: string)
    ensures ReplaceAll([x], c, rep) == if x == c then rep else [x]
  {
    FlatMapSingleton(x => if x == c then rep else [x], x);
  }

  /** Replacing a character that does not occur changes nothing. */
  lemma {:induction false} ReplaceAllAbsent(s: string, c: char, rep: string)
    requires c !in s
    ensures ReplaceAll(s, c, rep) == s
    decreases |s|
  {
    if s != [] {
      ReplaceAllAbsent(s[1..], c, rep);
      assert s == [s[0]] + s[1..];
      ReplaceAllAppend([s[0]], s[1..], c, rep);
      ReplaceAllOne(s[0], c, rep);
    }
  }

  /** A replacement after a `FlatMap` is a `FlatMap` whose images have been replaced in. */
  lemma {:induction false} ReplaceAllFlatMap(f: char -> string, g: char -> string, s: string, c: char, rep: string)
    requires forall x :: g(x) == ReplaceAll(f(x), c, rep)
    ensures ReplaceAll(FlatMap(f, s), c, rep) == FlatMap(g, s)
    decreases |s|
  {
    if s != [] {
      ReplaceAllAppend(f(s[0]), FlatMap(f, s[1..]), c, rep);
      ReplaceAllFlatMap(f, g, s[1..], c, rep);
    }
  }

  function Single(x: char): string
  {
    [x]
  }

  lemma {:induction false} FlatMapSingle(s: string)
    ensures FlatMap(Single, s) == s
    decreases |s|
  {
    if s != [] {
      FlatMapSingle(s[1..]);
      assert s == [s[0]] + s[1..];
    }
  }

  /** `s.replace(/[cs]/g, '')`: every character of the class `cs` deleted. */
  function DeleteAll(s: string, cs: set<char>): string
  {
    FlatMap(x => if x in cs then "" else [x], s)
  }

  /** The string `pat` occurs in `s` at position `j`. */
  predicate OccursAt(s: string, pat: string, j: int)
  {
    0 <= j && j + |pat| <= |s| && s[j..j + |pat|] == pat
  }

  predicate Contains(s: string, pat: string)
  {
    exists j :: 0 <= j <= |s| && OccursAt(s, pat, j)
  }

  /** `s.indexOf(pat)`: the first position `pat` occurs at, if any. */
  function IndexOf(s: string, pat: string): (r: Option<nat>)
    requires |pat| > 0
    ensures r.Some? ==> OccursAt(s, pat, r.value)
    ensures r.Some? ==> forall j :: 0 <= j < r.value ==> !OccursAt(s, pat, j)
    ensures r.None? <==> !Contains(s, pat)
    decreases |s|
  {
    if |s| < |pat| then None
    else if s[..|pat|] == pat then
      assert OccursAt(s, pat, 0);
      Some(0)
    else
      var rest := IndexOf(s[1..], pat);
      assert forall j :: 1 <= j ==> (OccursAt(s, pat, j) <==> OccursAt(s[1..], pat, j - 1)) by {
        forall j | 1 <= j ensures OccursAt(s, pat, j) <==> OccursAt(s[1..], pat, j - 1) {
          if j + |pat| <= |s| {
            assert s[1..][j - 1..j - 1 + |pat|] == s[j..j + |pat|];
          }
        }
      }
      assert !OccursAt(s, pat, 0);
      match rest
      case None =>
        assert !Contains(s, pat) by {
          forall j | 0 <= j <= |s| ensures !OccursAt(s, pat, j) {
            if 1 <= j {
              assert !OccursAt(s[1..], pat, j - 1);
            }
          }
        }
        None
      case Some(k) =>
        assert OccursAt(s, pat, k + 1);
        Some(k + 1)
  }

  /** `s.split(sep)` for a non-empty separator string. */
  function Split(s: string, sep: string): (r: seq<string>)
    requires |sep| > 0
    ensures |r| > 0
    decreases |s|
  {
    match IndexOf(s, sep)
    case None => [s]
    case Some(i) => [s[..i]] + Split(s[i + |sep|..], sep)
  }

  /** `s.split(c)[0]`: the part of `s` before the first `c`. */
  function BeforeFirst(s: string, c: char): string
  {
    Split(s, [c])[0]
  }

  lemma BeforeFirstLast(s: string, c: char)
    requires c !in s
    ensures BeforeFirst(s + [c], c) == s
  {
    FirstOccurrence(s, [c], "");
    assert (s + [c] + "")[..|s|] == s;
    assert s + [c] + "" == s + [c];
  }

  /** `parts.join(sep)`. */
  function Join(parts: seq<string>, sep: string): string
    decreases |parts|
  {
    if |parts| == 0 then ""
    else if |parts| == 1 then parts[0]
    else parts[0] + sep + Join(parts[1..], sep)
  }

  /**
   * A separator whose last character occurs nowhere else in it ("&", "=", "\r\n").
   * Such a separator cannot overlap a shifted copy of itself.
   */
  predicate SelfSeparating(sep: string)
  {
    |sep| > 0 && sep[|sep| - 1] !in sep[..|sep| - 1]
  }

  /** A string lacking the separator's last character cannot contain the separator. */
  lemma NoLastCharNoOccurrence(s: string, sep: string)
    requires |sep| > 0 && sep[|sep| - 1] !in s
    ensures !Contains(s, sep)
  {
    forall j | 0 <= j <= |s| ensures !OccursAt(s, sep, j) {
      if j + |sep| <= |s| {
        assert s[j..j + |sep|][|sep| - 1] == s[j + |sep| - 1];
      }
    }
  }

  /** In `p + sep + rest`, the first occurrence of `sep` is the one right after `p`. */
  lemma FirstOccurrence(p: string, sep: string, rest: string)
    requires SelfSeparating(sep) && sep[|sep| - 1] !in p
    ensures IndexOf(p + sep + rest, sep) == Some(|p|)
  {
    var s := p + sep + rest;
    var last := sep[|sep| - 1];
    assert OccursAt(s, sep, |p|) by {
      assert s[|p|..|p| + |sep|] == sep;
    }
    forall j | 0 <= j < |p| ensures !OccursAt(s, sep, j) {
      var q := j + |sep| - 1;
      if q < |p| {
        assert s[q] == p[q];
      } else {
        var k := q - |p|;
        assert s[q] == sep[k];
        assert sep[..|sep| - 1][k] == sep[k];
      }
      assert s[q] != last;
      assert s[j..j + |sep|][|sep| - 1] == s[q];
    }
  }

  /** Splitting a join recovers the parts, when no part holds the separator's last character. */
  lemma {:induction false} SplitJoin(parts: seq<string>, sep: string)
    requires |parts| > 0 && SelfSeparating(sep)
    requires forall k :: 0 <= k < |parts| ==> sep[|sep| - 1] !in parts[k]
    ensures Split(Join(parts, sep), sep) == parts
    decreases |parts|
  {
    if |parts| == 1 {
      NoLastCharNoOccurrence(parts[0], sep);
    } else {
      var p, rest := parts[0], Join(parts[1..], sep);
      var s := p + sep + rest;
      assert Join(parts, sep) == s;
      FirstOccurrence(p, sep, rest);
      assert s[..|p|] == p;
      assert s[|p| + |sep|..] == rest;
      assert Split(s, sep) == [p] + Split(rest, sep);
      SplitJoin(parts[1..], sep);
      assert parts == [p] + parts[1..];
    }
  }

  /** A character of a join comes from one of the parts or from the separator. */
  lemma {:induction false} JoinMember(parts: seq<string>, sep: string, x: char)
    requires x in Join(parts, sep)
    ensures x in sep || exists k :: 0 <= k < |parts| && x in parts[k]
    decreases |parts|
  {
    if |parts| > 1 {
      var rest := Join(parts[1..], sep);
      if x !in parts[0] && x !in sep {
        JoinMember(parts[1..], sep, x);
        var k :| 0 <= k < |parts[1..]| && x in parts[1..][k];
        assert x in parts[k + 1];
      }
    }
  }

  /** The characters `String.prototype.trim` strips: WhiteSpace and LineTerminator. */
  predicate IsJsWhitespace(c: char)
  {
    var n := c as int;
    // TAB, VT, FF, SPACE, NO-BREAK SPACE, ZERO WIDTH NO-BREAK SPACE, and the other Zs characters
    n == 0x09 || n == 0x0B || n == 0x0C || n == 0x20 || n == 0xA0 || n == 0xFEFF
    || n == 0x1680 || (0x2000 <= n <= 0x200A) || n == 0x202F || n == 0x205F || n == 0x3000
    // LF, CR, LINE SEPARATOR, PARAGRAPH SEPARATOR
    || n == 0x0A || n == 0x0D || n == 0x2028 || n == 0x2029
  }

  function TrimStart(s: string): (r: string)
    ensures |r| <= |s| && r == s[|s| - |r|..]
    ensures (forall k :: 0 <= k < |s| ==> IsJsWhitespace(s[k])) ==> r == []
    ensures r == [] || !IsJsWhitespace(r[0])
    ensures forall k :: 0 <= k < |s| - |r| ==> IsJsWhitespace(s[k])
    decreases |s|
  {
    if s != [] && IsJsWhitespace(s[0]) then
      var r := TrimStart(s[1..]);
      assert forall k :: 1 <= k < |s| - |r| ==> s[k] == s[1..][k - 1];
      r
    else s
  }

  function TrimEnd(s: string): (r: string)
    ensures |r| <= |s| && r == s[..|r|]
    ensures r == [] || !IsJsWhitespace(r[|r| - 1])
    ensures forall k :: |r| <= k < |s| ==> IsJsWhitespace(s[k])
    decreases |s|
  {
    if s != [] && IsJsWhitespace(s[|s| - 1]) then
      var r := TrimEnd(s[..|s| - 1]);
      r
    else s
  }

  /** `s.trim()`. */
  function Trim(s: string): string
  {
    TrimEnd(TrimStart(s))
  }

  /** `s.trim()` is empty exactly when every character of `s` is white space. */
  lemma TrimEmpty(s: string)
    ensures Trim(s) == "" <==> forall k :: 0 <= k < |s| ==> IsJsWhitespace(s[k])
  {
    var t := TrimStart(s);
    if t != [] {
      assert t[0] == s[|s| - |t|];
    }
  }

  /** The number of UTF-16 code units of `s`: `s.length` in JavaScript. */
  function Utf16Length(s: string): nat
  {
    if s == [] then 0 else (if s[0] as int > 0xFFFF then 2 else 1) + Utf16Length(s[1..])
  }

  lemma Utf16LengthCons(c: char, t: string)
    ensures Utf16Length([c] + t) == (if c as int > 0xFFFF then 2 else 1) + Utf16Length(t)
  {
    assert ([c] + t)[1..] == t;
  }

  /**
   * `s.slice(0, n)`, where `n` counts UTF-16 code units: the longest prefix of `s` that fits
   * in `n` code units, so that the next character, if any, would not fit.
   */
  function Utf16Prefix(s: string, n: nat): (r: string)
    ensures r <= s && Utf16Length(r) <= n
    ensures r == s || Utf16Length(s[..|r| + 1]) > n
    decreases |s|
  {
    if s == [] then []
    else
      var u := if s[0] as int > 0xFFFF then 2 else 1;
      if u > n then
        assert s[..1] == [s[0]] + [];
        Utf16LengthCons(s[0], []);
        []
      else
        var t := Utf16Prefix(s[1..], n - u);
        Utf16LengthCons(s[0], t);
        if t != s[1..] then
          assert s[..|t| + 2] == [s[0]] + s[1..][..|t| + 1];
          Utf16LengthCons(s[0], s[1..][..|t| + 1]);
          [s[0]] + t
        else
          assert [s[0]] + t == s;
          [s[0]] + t
  }

  /**
   * When the first `n` characters of `s` are all in the Basic Multilingual Plane, the cut at
   * `n` code units is the first `n` characters.
   */
  lemma {:induction false} Utf16PrefixBmp(s: string, n: nat)
    requires n <= |s|
    requires forall k :: 0 <= k < n ==> s[k] as int <= 0xFFFF
    ensures Utf16Prefix(s, n) == s[..n]
    decreases n
  {
    if n > 0 {
      Utf16PrefixBmp(s[1..], n - 1);
      assert s[..n] == [s[0]] + s[1..][..n - 1];
    }
  }
}
