/**
 * The .NET string primitives the modelled code relies on: Char.IsWhiteSpace (also the
 * meaning of the regex class \s), Trim, Split on one character, string.Join, ordinal
 * StartsWith and LastIndexOf, and regex replacement of runs (`X+` replaced by a string).
 */
module Text {
  import opened Wrappers

  /** Char.IsWhiteSpace: the separators Zs, Zl, Zp plus U+0009..U+000D and U+0085.
      The regex class \s of .NET denotes the same set. */
  predicate IsWhiteSpace(c: char) {
    || ('\t' <= c <= '\r')
    || c == ' '
    || c == '\U{85}'
    || c == '\U{A0}'
    || c == '\U{1680}'
    || ('\U{2000}' <= c <= '\U{200A}')
    || c == '\U{2028}'
    || c == '\U{2029}'
    || c == '\U{202F}'
    || c == '\U{205F}'
    || c == '\U{3000}'
  }

  predicate AllWhiteSpace(s: string) {
    forall i :: 0 <= i < |s| ==> IsWhiteSpace(s[i])
  }

  predicate NoWhiteSpace(s: string) {
    forall i :: 0 <= i < |s| ==> !IsWhiteSpace(s[i])
  }

  /** The first index at or after i whose character is not white space, or |s|. */
  function SkipLeading(s: string, i: nat): (k: nat)
    requires i <= |s|
    ensures i <= k <= |s|
    ensures k < |s| ==> !IsWhiteSpace(s[k])
    decreases |s| - i
  {
    if i < |s| && IsWhiteSpace(s[i]) then SkipLeading(s, i + 1) else i
  }

  /** The end of s[lo..j] once its trailing white space is dropped. */
  function SkipTrailing(s: string, lo: nat, j: nat): (k: nat)
    requires lo <= j <= |s|
    ensures lo <= k <= j
    ensures k > lo ==> !IsWhiteSpace(s[k - 1])
    decreases j
  {
    if j > lo && IsWhiteSpace(s[j - 1]) then SkipTrailing(s, lo, j - 1) else j
  }

  /** String.Trim(): drops leading and trailing white space, and only that: the result is an
      infix of s with white space alone on either side of it, and it neither starts nor ends
      with white space. */
  function Trim(s: string): (r: string)
    ensures |r| <= |s|
    ensures r != [] ==> !IsWhiteSpace(r[0]) && !IsWhiteSpace(r[|r| - 1])
    ensures exists a, b :: 0 <= a <= b <= |s| && r == s[a..b] && AllWhiteSpace(s[..a]) && AllWhiteSpace(s[b..])
  {
    var a := SkipLeading(s, 0);
    var b := SkipTrailing(s, a, |s|);
    SkipLeadingSkipsWhiteSpace(s, 0);
    SkipTrailingSkipsWhiteSpace(s, a, |s|);
    assert AllWhiteSpace(s[..a]) && AllWhiteSpace(s[b..]);
    s[a..b]
  }

  /** A string with no white space at either end is its own trim. */
  lemma TrimIdentity(s: string)
    requires s != [] ==> !IsWhiteSpace(s[0]) && !IsWhiteSpace(s[|s| - 1])
    ensures Trim(s) == s
  {
    if s != [] {
      assert SkipLeading(s, 0) == 0;
      assert SkipTrailing(s, 0, |s|) == |s|;
    }
  }

  lemma {:induction false} SkipLeadingSkipsWhiteSpace(s: string, i: nat)
    requires i <= |s|
    ensures forall k :: i <= k < SkipLeading(s, i) ==> IsWhiteSpace(s[k])
    decreases |s| - i
  {
    if i < |s| && IsWhiteSpace(s[i]) {
      SkipLeadingSkipsWhiteSpace(s, i + 1);
    }
  }

  lemma {:induction false} SkipTrailingSkipsWhiteSpace(s: string, lo: nat, j: nat)
    requires lo <= j <= |s|
    ensures forall k :: SkipTrailing(s, lo, j) <= k < j ==> IsWhiteSpace(s[k])
    decreases j
  {
    if j > lo && IsWhiteSpace(s[j - 1]) {
      SkipTrailingSkipsWhiteSpace(s, lo, j - 1);
    }
  }

  /** Trim gives "" exactly for a string made only of white space. */
  lemma TrimEmpty(s: string)
    ensures Trim(s) == [] <==> AllWhiteSpace(s)
  {
    var a := SkipLeading(s, 0);
    SkipLeadingSkipsWhiteSpace(s, 0);
    SkipTrailingSkipsWhiteSpace(s, a, |s|);
  }

  /** Trimming only removes characters. */
  lemma TrimKeeps(s: string, c: char)
    requires c in Trim(s)
    ensures c in s
  {
    var a := SkipLeading(s, 0);
    var r := Trim(s);
    var i :| 0 <= i < |r| && r[i] == c;
    assert s[a + i] == c;
  }

  /** string.IsNullOrWhiteSpace, with None for null. */
  predicate IsNullOrWhiteSpace(s: Option<string>) {
    s.None? || AllWhiteSpace(s.value)
  }

  /** Ordinal String.StartsWith. */
  predicate StartsWith(s: string, prefix: string) {
    |prefix| <= |s| && s[..|prefix|] == prefix
  }

  /** A string starting with p followed by c holds c right after p. */
  lemma StartsWithCharAt(s: string, p: string, c: char)
    ensures StartsWith(s, p + [c]) ==> |p| < |s| && s[|p|] == c
  {
    if StartsWith(s, p + [c]) {
      assert s[..|p| + 1][|p|] == c;
    }
  }

  /** A string without white space holds no space. */
  lemma NoSpace(s: string)
    requires NoWhiteSpace(s)
    ensures ' ' !in s
  {
  }

  /** Lower-casing of one character restricted to ASCII: 'A'..'Z' become 'a'..'z'. */
  function AsciiLower(c: char): char {
    if 'A' <= c <= 'Z' then (c as int + 32) as char else c
  }

  /** String.ToLowerInvariant on the characters that can lower-case to ASCII letters. */
  function ToLowerAscii(s: string): (r: string)
    ensures |r| == |s|
    ensures forall i :: 0 <= i < |s| ==> r[i] == AsciiLower(s[i])
  {
    if s == [] then [] else [AsciiLower(s[0])] + ToLowerAscii(s[1..])
  }

  /** String.LastIndexOf of a one-character string, ordinal: -1 when absent. */
  function LastIndexOf(s: string, c: char): (r: int)
    ensures -1 <= r < |s|
    ensures r == -1 <==> c !in s
    ensures r >= 0 ==> s[r] == c && c !in s[r + 1..]
  {
    if s == [] then -1
    else if s[|s| - 1] == c then |s| - 1
    else
      var k := LastIndexOf(s[..|s| - 1], c);
      assert s == s[..|s| - 1] + [s[|s| - 1]];
      if k >= 0 then assert s[k + 1..] == s[..|s| - 1][k + 1..] + [s[|s| - 1]]; k
      else k
  }

  /** String.Split on one separator character, without options: n separators give n + 1 pieces. */
  function Split(s: string, sep: char): (r: seq<string>)
    ensures |r| >= 1
  {
    if s == [] then [[]]
    else
      var rest := Split(s[1..], sep);
      if s[0] == sep then [[]] + rest
      else [[s[0]] + rest[0]] + rest[1..]
  }

  /** A string holding the separator splits into at least two pieces. */
  lemma {:induction false} SplitAtSeparator(s: string, sep: char)
    requires sep in s
    ensures |Split(s, sep)| >= 2
  {
    if s[0] != sep {
      SplitAtSeparator(s[1..], sep);
    }
  }


  /** string.Join. */
  function Join(sep: string, parts: seq<string>): string {
    if parts == [] then []
    else if |parts| == 1 then parts[0]
    else parts[0] + sep + Join(sep, parts[1..])
  }

  lemma {:induction false} SplitWithoutSeparator(s: string, sep: char)
    requires sep !in s
    ensures Split(s, sep) == [s]
  {
    if s != [] {
      SplitWithoutSeparator(s[1..], sep);
      assert [s[0]] + s[1..] == s;
    }
  }

  lemma {:induction false} SplitAfterPiece(p: string, sep: char, t: string)
    requires sep !in p
    ensures Split(p + [sep] + t, sep) == [p] + Split(t, sep)
  {
    if p == [] {
      assert p + [sep] + t == [sep] + t;
      assert ([sep] + t)[1..] == t;
    } else {
      var s := p + [sep] + t;
      assert s[1..] == p[1..] + [sep] + t;
      SplitAfterPiece(p[1..], sep, t);
      assert [p[0]] + p[1..] == p;
    }
  }

  /** Splitting a join of separator-free pieces gives the pieces back. */
  lemma {:induction false} SplitJoin(parts: seq<string>, sep: char)
    requires parts != []
    requires forall i :: 0 <= i < |parts| ==> sep !in parts[i]
    ensures Split(Join([sep], parts), sep) == parts
  {
    if |parts| == 1 {
      SplitWithoutSeparator(parts[0], sep);
    } else {
      SplitJoin(parts[1..], sep);
      SplitAfterPiece(parts[0], sep, Join([sep], parts[1..]));
      assert [parts[0]] + parts[1..] == parts;
    }
  }

  /** Joining the pieces of a split gives the string back; no piece holds the separator. */
  lemma {:induction false} JoinSplit(s: string, sep: char)
    ensures Join([sep], Split(s, sep)) == s
    ensures forall i :: 0 <= i < |Split(s, sep)| ==> sep !in Split(s, sep)[i]
  {
    if s != [] {
      JoinSplit(s[1..], sep);
      var rest := Split(s[1..], sep);
      if s[0] == sep {
        assert Split(s, sep) == [[]] + rest;
        assert [s[0]] + s[1..] == s;
      } else {
        var r := Split(s, sep);
        assert r == [[s[0]] + rest[0]] + rest[1..];
        if |rest| == 1 {
          assert [s[0]] + s[1..] == s;
        } else {
          assert r[1..] == rest[1..];
          assert Join([sep], rest) == rest[0] + [sep] + Join([sep], rest[1..]);
          assert [s[0]] + s[1..] == s;
        }
        forall i | 0 <= i < |r| ensures sep !in r[i] {
          if i > 0 { assert r[i] == rest[i]; }
        }
      }
    }
  }

  /** The characters of s for which keep holds, in order (a regex replacing single characters by ""). */
  function Filter(s: string, keep: char -> bool): (r: string)
    ensures |r| <= |s|
    ensures forall i :: 0 <= i < |r| ==> keep(r[i])
    ensures forall i :: 0 <= i < |s| && keep(s[i]) ==> s[i] in r
    ensures r == [] <==> forall i :: 0 <= i < |s| ==> !keep(s[i])
  {
    if s == [] then []
    else
      var rest := Filter(s[1..], keep);
      assert forall i :: 1 <= i < |s| ==> s[i] == s[1..][i - 1];
      (if keep(s[0]) then [s[0]] else []) + rest
  }

  /** What a filter keeps: every character that passes, as often as it occurs in s, and nothing
      else. With FilterConcat, which keeps the order, this pins the filter down. */
  lemma {:induction false} FilterCounts(s: string, keep: char -> bool)
    ensures forall c :: multiset(Filter(s, keep))[c] == if keep(c) then multiset(s)[c] else 0
  {
    if s != [] {
      FilterCounts(s[1..], keep);
      assert s == [s[0]] + s[1..];
    }
  }

  lemma {:induction false} FilterConcat(a: string, b: string, keep: char -> bool)
    ensures Filter(a + b, keep) == Filter(a, keep) + Filter(b, keep)
  {
    if a != [] {
      FilterConcat(a[1..], b, keep);
      assert (a + b)[0] == a[0];
      assert (a + b)[1..] == a[1..] + b;
      var head := if keep(a[0]) then [a[0]] else [];
      assert Filter(a + b, keep) == head + Filter(a[1..] + b, keep);
    } else {
      assert a + b == b;
    }
  }

  /** Strips the maximal leading run of characters satisfying inRun. */
  function DropRun(s: string, inRun: char -> bool): (r: string)
    ensures |r| <= |s| && r == s[|s| - |r|..]
    ensures r != [] ==> !inRun(r[0])
    ensures forall i :: 0 <= i < |s| - |r| ==> inRun(s[i])
  {
    if s != [] && inRun(s[0]) then DropRun(s[1..], inRun) else s
  }

  /** Regex.Replace(s, "X+", rep): every maximal run of X-characters becomes rep. */
  function ReplaceRuns(s: string, inRun: char -> bool, rep: string): (r: string)
    decreases |s|
  {
    if s == [] then []
    else if inRun(s[0]) then rep + ReplaceRuns(DropRun(s[1..], inRun), inRun, rep)
    else [s[0]] + ReplaceRuns(s[1..], inRun, rep)
  }

  /** A filter keeps a string whose characters all pass it. */
  lemma {:induction false} FilterAll(s: string, keep: char -> bool)
    requires forall i :: 0 <= i < |s| ==> keep(s[i])
    ensures Filter(s, keep) == s
  {
    if s != [] {
      FilterAll(s[1..], keep);
      assert [s[0]] + s[1..] == s;
    }
  }

  /** A filter drops a string none of whose characters pass it. */
  lemma {:induction false} FilterNone(s: string, keep: char -> bool)
    requires forall i :: 0 <= i < |s| ==> !keep(s[i])
    ensures Filter(s, keep) == []
  {
    if s != [] {
      FilterNone(s[1..], keep);
    }
  }

  /** Two filters in a row are one filter by the conjunction. */
  lemma {:induction false} FilterFilter(s: string, a: char -> bool, b: char -> bool, both: char -> bool)
    requires forall c :: both(c) <==> a(c) && b(c)
    ensures Filter(Filter(s, a), b) == Filter(s, both)
  {
    if s != [] {
      FilterFilter(s[1..], a, b, both);
      var head := if a(s[0]) then [s[0]] else [];
      FilterConcat(head, Filter(s[1..], a), b);
    }
  }

  /** The characters s[i] stands for after applying f to each: ToLowerInvariant and the like. */
  function MapChars(s: string, f: char -> char): (r: string)
    ensures |r| == |s|
    ensures forall i :: 0 <= i < |s| ==> r[i] == f(s[i])
  {
    if s == [] then [] else [f(s[0])] + MapChars(s[1..], f)
  }

  /** String.Replace(char, char): every a becomes b. */
  function ReplaceChar(s: string, a: char, b: char): (r: string)
    ensures |r| == |s|
    ensures forall i :: 0 <= i < |s| ==> r[i] == if s[i] == a then b else s[i]
  {
    if s == [] then [] else [if s[0] == a then b else s[0]] + ReplaceChar(s[1..], a, b)
  }

  /** String.Replace(string, string), ordinal: occurrences of pat, scanned left to right without
      overlap, each become rep. */
  function ReplaceAll(s: string, pat: string, rep: string): string
    requires pat != []
    decreases |s|
  {
    if s == [] then []
    else if StartsWith(s, pat) then rep + ReplaceAll(s[|pat|..], pat, rep)
    else [s[0]] + ReplaceAll(s[1..], pat, rep)
  }

  /** Removing every occurrence of a one-character string is filtering that character out. */
  lemma {:induction false} ReplaceAllChar(s: string, c: char, keep: char -> bool)
    requires forall x :: keep(x) <==> x != c
    ensures ReplaceAll(s, [c], []) == Filter(s, keep)
  {
    if s != [] {
      ReplaceAllChar(s[1..], c, keep);
    }
  }

  /** Removing a pattern none of whose characters pass a filter changes nothing the filter keeps. */
  lemma {:induction false} FilterAfterRemoving(s: string, pat: string, keep: char -> bool)
    requires pat != []
    requires forall i :: 0 <= i < |pat| ==> !keep(pat[i])
    ensures Filter(ReplaceAll(s, pat, []), keep) == Filter(s, keep)
    decreases |s|
  {
    if s != [] {
      if StartsWith(s, pat) {
        FilterAfterRemoving(s[|pat|..], pat, keep);
        assert s == pat + s[|pat|..];
        FilterConcat(pat, s[|pat|..], keep);
        FilterNone(pat, keep);
        assert ReplaceAll(s, pat, []) == ReplaceAll(s[|pat|..], pat, []);
      } else {
        FilterAfterRemoving(s[1..], pat, keep);
        FilterConcat([s[0]], ReplaceAll(s[1..], pat, []), keep);
        assert ReplaceAll(s, pat, []) == [s[0]] + ReplaceAll(s[1..], pat, []);
      }
    }
  }

  /** String.TrimEnd(c): drops the trailing run of c. */
  function TrimEndChar(s: string, c: char): (r: string)
    ensures |r| <= |s| && r == s[..|r|]
    ensures r != [] ==> r[|r| - 1] != c
    ensures forall i :: |r| <= i < |s| ==> s[i] == c
  {
    if s != [] && s[|s| - 1] == c then TrimEndChar(s[..|s| - 1], c) else s
  }

  /** No two neighbouring characters both belong to a run. */
  predicate NoAdjacent(s: string, inRun: char -> bool) {
    forall i :: 1 <= i < |s| ==> !(inRun(s[i - 1]) && inRun(s[i]))
  }

  /** Every character the run replacement leaves is either an input character outside the runs
      or a character of the replacement. */
  lemma {:induction false} ReplaceRunsKeeps(s: string, inRun: char -> bool, rep: string)
    ensures forall c :: c in ReplaceRuns(s, inRun, rep) ==> (c in s && !inRun(c)) || c in rep
    decreases |s|
  {
    if s != [] {
      if inRun(s[0]) {
        var rest := DropRun(s[1..], inRun);
        ReplaceRunsKeeps(rest, inRun, rep);
        forall c | c in rest ensures c in s {
          var i :| 0 <= i < |rest| && rest[i] == c;
          assert s[|s| - |rest| + i] == c;
        }
      } else {
        ReplaceRunsKeeps(s[1..], inRun, rep);
      }
    }
  }

  /** A string without run characters is left as it is. */
  lemma {:induction false} ReplaceRunsIdentity(s: string, inRun: char -> bool, rep: string)
    requires forall i :: 0 <= i < |s| ==> !inRun(s[i])
    ensures ReplaceRuns(s, inRun, rep) == s
  {
    if s != [] {
      ReplaceRunsIdentity(s[1..], inRun, rep);
      assert [s[0]] + s[1..] == s;
    }
  }

  /** Replacing each run by one run character leaves no two run characters side by side. */
  lemma {:induction false} ReplaceRunsNoAdjacent(s: string, inRun: char -> bool, x: char)
    requires inRun(x)
    ensures NoAdjacent(ReplaceRuns(s, inRun, [x]), inRun)
    decreases |s|
  {
    if s != [] {
      var rest := if inRun(s[0]) then DropRun(s[1..], inRun) else s[1..];
      ReplaceRunsNoAdjacent(rest, inRun, x);
      var tail := ReplaceRuns(rest, inRun, [x]);
      var head := if inRun(s[0]) then x else s[0];
      assert ReplaceRuns(s, inRun, [x]) == [head] + tail;
      if inRun(s[0]) && rest != [] {
        assert tail[0] == rest[0];
      }
    }
  }

  /** Replacing runs by characters of the run keeps everything outside the runs, in order. */
  lemma {:induction false} ReplaceRunsOutside(s: string, inRun: char -> bool, rep: string, outside: char -> bool)
    requires forall c :: outside(c) <==> !inRun(c)
    requires forall i :: 0 <= i < |rep| ==> inRun(rep[i])
    ensures Filter(ReplaceRuns(s, inRun, rep), outside) == Filter(s, outside)
    decreases |s|
  {
    if s != [] {
      if inRun(s[0]) {
        var rest := DropRun(s[1..], inRun);
        ReplaceRunsOutside(rest, inRun, rep, outside);
        FilterConcat(rep, ReplaceRuns(rest, inRun, rep), outside);
        FilterNone(rep, outside);
        var run := s[1..][..|s| - 1 - |rest|];
        assert s[1..] == run + rest;
        FilterConcat(run, rest, outside);
        FilterNone(run, outside);
      } else {
        ReplaceRunsOutside(s[1..], inRun, rep, outside);
      }
    }
  }

  /** Where every run is already the single character x, replacing runs by x changes nothing. */
  lemma {:induction false} ReplaceRunsSingle(s: string, inRun: char -> bool, x: char)
    requires NoAdjacent(s, inRun)
    requires forall i :: 0 <= i < |s| ==> inRun(s[i]) ==> s[i] == x
    ensures ReplaceRuns(s, inRun, [x]) == s
  {
    if s != [] {
      ReplaceRunsSingle(s[1..], inRun, x);
      if inRun(s[0]) {
        assert s[1..] == [] || !inRun(s[1]);
        assert DropRun(s[1..], inRun) == s[1..];
      }
      assert [s[0]] + s[1..] == s;
    }
  }
}
