/** Character-sequence helpers shared by the renderer and the task list:
    whitespace trimming over a given whitespace set, splitting and joining on
    a separator, and single-character replacement. */
module Strings {

  /** Every character of `s` satisfies `p`. */
  predicate AllIn(s: string, p: char -> bool)
  {
    forall i :: 0 <= i < |s| ==> p(s[i])
  }

  /** The first index at or after `i` whose character is not whitespace
      (characters satisfying `ws`), or `|s|` when there is none. */
  function SkipFrom(s: string, ws: char -> bool, i: nat): (j: nat)
    requires i <= |s|
    ensures i <= j <= |s|
    ensures forall k :: i <= k < j ==> ws(s[k])
    ensures j < |s| ==> !ws(s[j])
    decreases |s| - i
  {
    if i < |s| && ws(s[i]) then SkipFrom(s, ws, i + 1) else i
  }

  /** The end of `s[a..e]` once its trailing whitespace is dropped. */
  function SkipBack(s: string, ws: char -> bool, a: nat, e: nat): (j: nat)
    requires a <= e <= |s|
    ensures a <= j <= e
    ensures forall k :: j <= k < e ==> ws(s[k])
    ensures j > a ==> !ws(s[j - 1])
    decreases e
  {
    if e > a && ws(s[e - 1]) then SkipBack(s, ws, a, e - 1) else e
  }

  /** Number of leading characters of `s` that satisfy `ws`. */
  function LeadingCount(s: string, ws: char -> bool): (k: nat)
    ensures k <= |s|
  {
    SkipFrom(s, ws, 0)
  }

  /** Both ends trimmed: Python's `str.strip()` and JavaScript's `String.prototype.trim()`,
      each with its own whitespace set. The result is the slice of `s` that starts
      after its leading whitespace and stops before its trailing whitespace. */
  function Trim(s: string, ws: char -> bool): (r: string)
    ensures LeadingCount(s, ws) + |r| <= |s|
    ensures r == s[LeadingCount(s, ws)..LeadingCount(s, ws) + |r|]
    ensures forall k :: 0 <= k < LeadingCount(s, ws) ==> ws(s[k])
    ensures forall k :: LeadingCount(s, ws) + |r| <= k < |s| ==> ws(s[k])
    ensures r != [] ==> !ws(r[0]) && !ws(r[|r| - 1])
    ensures |r| == |s| ==> r == s
    ensures AllIn(s, ws) <==> r == []
  {
    var a := SkipFrom(s, ws, 0);
    var e := SkipBack(s, ws, a, |s|);
    if e == a then
      assert forall k :: 0 <= k < |s| ==> ws(s[k]) by {
        forall k | 0 <= k < |s| ensures ws(s[k]) {
          if k >= a {
            assert a <= k < |s|;
          }
        }
      }
      []
    else
      assert !AllIn(s, ws) by { assert !ws(s[e - 1]); }
      s[a..e]
  }

  /** A trimmed string holds only characters of the original. */
  lemma TrimSubset(s: string, ws: char -> bool, x: char)
    requires x in Trim(s, ws)
    ensures x in s
  {
    var r := Trim(s, ws);
    var a := LeadingCount(s, ws);
    var i :| 0 <= i < |r| && r[i] == x;
    assert s[a + i] == x;
  }

  /** A character outside the trimmed set that occurs in `s` survives trimming. */
  lemma TrimKeeps(s: string, ws: char -> bool, x: char)
    requires x in s && !ws(x)
    ensures x in Trim(s, ws)
  {
    var r := Trim(s, ws);
    var a := LeadingCount(s, ws);
    var i :| 0 <= i < |s| && s[i] == x;
    assert r[i - a] == x;
  }

  /** A character that `p` rejects does not occur in a string all of whose
      characters satisfy `p`. */
  lemma AllInExcludes(s: string, p: char -> bool, x: char)
    requires AllIn(s, p) && !p(x)
    ensures x !in s
  {
  }

  /** Python's `s.split(sep)` for a one-character separator: always at least
      one piece, and no piece holds the separator. */
  function Split(s: string, sep: char): (r: seq<string>)
    ensures |r| >= 1
    ensures forall i :: 0 <= i < |r| ==> sep !in r[i]
    decreases |s|
  {
    if s == [] then [[]]
    else
      var rest := Split(s[1..], sep);
      if s[0] == sep then [[]] + rest
      else [[s[0]] + rest[0]] + rest[1..]
  }

  /** Python's `sep.join(lines)`. */
  function Join(lines: seq<string>, sep: char): string
    decreases |lines|
  {
    if |lines| == 0 then []
    else if |lines| == 1 then lines[0]
    else lines[0] + [sep] + Join(lines[1..], sep)
  }

  lemma {:induction false} SplitNoSep(s: string, sep: char)
    requires sep !in s
    ensures Split(s, sep) == [s]
    decreases |s|
  {
    if s != [] {
      SplitNoSep(s[1..], sep);
      assert [s[0]] + s[1..] == s;
    }
  }

  lemma {:induction false} SplitConcat(a: string, b: string, sep: char)
    requires sep !in a
    ensures Split(a + [sep] + b, sep) == [a] + Split(b, sep)
    decreases |a|
  {
    if a == [] {
      assert a + [sep] + b == [sep] + b;
      assert ([sep] + b)[1..] == b;
    } else {
      var s := a + [sep] + b;
      assert s[1..] == a[1..] + [sep] + b;
      SplitConcat(a[1..], b, sep);
      assert [a[0]] + a[1..] == a;
    }
  }

  /** Splitting undoes joining when the pieces are free of the separator. */
  lemma {:induction false} SplitJoin(lines: seq<string>, sep: char)
    requires |lines| >= 1
    requires forall i :: 0 <= i < |lines| ==> sep !in lines[i]
    ensures Split(Join(lines, sep), sep) == lines
    decreases |lines|
  {
    if |lines| == 1 {
      SplitNoSep(lines[0], sep);
    } else {
      SplitJoin(lines[1..], sep);
      SplitConcat(lines[0], Join(lines[1..], sep), sep);
      assert [lines[0]] + lines[1..] == lines;
    }
  }

  /** Joining undoes splitting. */
  lemma {:induction false} JoinSplit(s: string, sep: char)
    ensures Join(Split(s, sep), sep) == s
    decreases |s|
  {
    if s != [] {
      JoinSplit(s[1..], sep);
      var rest := Split(s[1..], sep);
      if s[0] != sep {
        var r := Split(s, sep);
        assert r[1..] == rest[1..];
        if |rest| == 1 {
          assert rest[0] == s[1..];
        } else {
          assert Join(rest, sep) == rest[0] + [sep] + Join(rest[1..], sep);
        }
        assert [s[0]] + s[1..] == s;
      } else {
        assert ([[]] + rest)[1..] == rest;
        assert [sep] + s[1..] == s;
      }
    }
  }

  /** Python's `s.replace(c, rep)` for a one-character `c`. */
  function ReplaceChar(s: string, c: char, rep: string): (r: string)
    ensures c !in s ==> r == s
    ensures c !in rep ==> c !in r
    decreases |s|
  {
    if s == [] then []
    else (if s[0] == c then rep else [s[0]]) + ReplaceChar(s[1..], c, rep)
  }

  /** Every character of a replacement result comes from the replacement text
      or is a kept character of the original. */
  lemma {:induction false} ReplaceCharFrom(s: string, c: char, rep: string, x: char)
    requires x in ReplaceChar(s, c, rep)
    ensures x in rep || (x in s && x != c)
    decreases |s|
  {
    var head := if s[0] == c then rep else [s[0]];
    if x !in head {
      ReplaceCharFrom(s[1..], c, rep, x);
    }
  }

  lemma {:induction false} ReplaceAppend(a: string, b: string, c: char, rep: string)
    ensures ReplaceChar(a + b, c, rep) == ReplaceChar(a, c, rep) + ReplaceChar(b, c, rep)
    decreases |a|
  {
    if a != [] {
      var head := if a[0] == c then rep else [a[0]];
      assert (a + b)[0] == a[0] && (a + b)[1..] == a[1..] + b;
      assert ReplaceChar(a + b, c, rep) == head + ReplaceChar(a[1..] + b, c, rep);
      ReplaceAppend(a[1..], b, c, rep);
      assert ReplaceChar(a, c, rep) == head + ReplaceChar(a[1..], c, rep);
    } else {
      assert a + b == b;
    }
  }

  /** Length of the longest prefix of `s` free of `x` (a regex run `[^x]*`). */
  function RunLen(s: string, x: char): (k: nat)
    ensures k <= |s|
    ensures x !in s[..k]
    ensures k < |s| ==> s[k] == x
    decreases |s|
  {
    if s == [] || s[0] == x then 0 else 1 + RunLen(s[1..], x)
  }

  /** A string with no whitespace at either end is its own trim. */
  lemma TrimmedFixed(t: string, ws: char -> bool)
    requires t != [] ==> !ws(t[0]) && !ws(t[|t| - 1])
    ensures Trim(t, ws) == t
  {
    if t != [] {
      assert LeadingCount(t, ws) == 0;
      assert Trim(t, ws) != [];
    }
  }

  /** Trimming twice is trimming once. */
  lemma TrimIdempotent(s: string, ws: char -> bool)
    ensures Trim(Trim(s, ws), ws) == Trim(s, ws)
  {
    TrimmedFixed(Trim(s, ws), ws);
  }

  /** Re-bracketing of a five-part concatenation. */
  lemma Regroup<T>(p: seq<T>, a: seq<T>, e: seq<T>, c: seq<T>, q: seq<T>)
    ensures (p + a) + e + (c + q) == p + (a + e + c) + q
  {
  }

  /** The run stops exactly at the first `x`. */
  lemma RunLenOf(a: string, x: char, b: string)
    requires x !in a && b != [] && b[0] == x
    ensures RunLen(a + b, x) == |a|
  {
    var s := a + b;
    var k := RunLen(s, x);
    assert s[|a|] == x;
  }

  /** JavaScript's `s.slice(0, n)`. */
  function Take(s: string, n: nat): (r: string)
    ensures |r| == if |s| <= n then |s| else n
    ensures r == s[..|r|]
  {
    if |s| <= n then s else s[..n]
  }
}
