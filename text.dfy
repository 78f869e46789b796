/** String operations the program borrows from Python's `str` and `re`: lower-casing,
    substring tests, stripping and run replacement. */
module Text {

  /** `str.lower()` on one character, for the ASCII letters. */
  function LowerChar(c: char): char {
    if 'A' <= c <= 'Z' then (c as int + 32) as char else c
  }

  /** `s.lower()`, character by character. */
  function Lower(s: string): (r: string)
    ensures |r| == |s|
    ensures forall i :: 0 <= i < |s| ==> r[i] == LowerChar(s[i])
  {
    seq(|s|, i requires 0 <= i < |s| => LowerChar(s[i]))
  }

  /** `w in s` for strings: `w` occurs in `s` as a contiguous piece. */
  predicate Contains(s: string, w: string)
    decreases |s|
  {
    |w| <= |s| && (s[..|w|] == w || (0 < |s| && Contains(s[1..], w)))
  }

  /** `any(k in s for k in words)`. */
  predicate ContainsAny(s: string, words: seq<string>) {
    exists j :: 0 <= j < |words| && Contains(s, words[j])
  }

  /** The length of the leading run of characters satisfying `p`. */
  function LeadingRun(s: string, p: char -> bool): (n: nat)
    ensures n <= |s|
    ensures forall i :: 0 <= i < n ==> p(s[i])
    ensures n == |s| || !p(s[n])
  {
    if |s| > 0 && p(s[0]) then 1 + LeadingRun(s[1..], p) else 0
  }

  /** The length of the trailing run of characters satisfying `p`. */
  function TrailingRun(s: string, p: char -> bool): (n: nat)
    ensures n <= |s|
    ensures forall i :: |s| - n <= i < |s| ==> p(s[i])
    ensures n == |s| || !p(s[|s| - n - 1])
  {
    if |s| > 0 && p(s[|s| - 1]) then 1 + TrailingRun(s[..|s| - 1], p) else 0
  }

  /** The characters left after the leading run of characters satisfying `p`. */
  function DropWhile(s: string, p: char -> bool): string {
    s[LeadingRun(s, p)..]
  }

  /** The characters left after the trailing run of characters satisfying `p`. */
  function DropWhileEnd(s: string, p: char -> bool): string {
    s[..|s| - TrailingRun(s, p)]
  }

  /** `s.strip(chars)`: both ends cut back to the first and last character outside `p`. */
  function Trim(s: string, p: char -> bool): (r: string)
  {
    DropWhileEnd(DropWhile(s, p), p)
  }

  /** What `Trim` leaves is a contiguous piece of the input that neither starts nor ends
      with a stripped character, and only stripped characters were cut away. */
  lemma TrimSpec(s: string, p: char -> bool)
    ensures exists a, b :: 0 <= a <= b <= |s| && Trim(s, p) == s[a..b]
              && (forall i :: 0 <= i < a ==> p(s[i]))
              && (forall i :: b <= i < |s| ==> p(s[i]))
    ensures Trim(s, p) == [] || (!p(Trim(s, p)[0]) && !p(Trim(s, p)[|Trim(s, p)| - 1]))
  {
    var a := LeadingRun(s, p);
    var d := s[a..];
    var t := TrailingRun(d, p);
    var b := |s| - t;
    assert Trim(s, p) == s[a..b];
    forall i | b <= i < |s| ensures p(s[i]) {
      assert s[i] == d[i - a];
    }
    if a < b {
      assert Trim(s, p)[0] == s[a];
      assert Trim(s, p)[b - a - 1] == d[|d| - t - 1];
    }
  }

  /** Nothing to strip at either end: `Trim` is the identity. */
  lemma TrimNothing(s: string, p: char -> bool)
    requires s == [] || (!p(s[0]) && !p(s[|s| - 1]))
    ensures Trim(s, p) == s
  {
    assert LeadingRun(s, p) == 0;
    assert s[0..] == s;
    assert TrailingRun(s, p) == 0;
  }

  /** `re.sub("[class]+", rep, s)`: every maximal run of characters satisfying `p` becomes
      the single character `rep`. */
  function ReplaceRuns(s: string, p: char -> bool, rep: char): (r: string)
    ensures |s| > 0 ==> |r| > 0 && r[0] == (if p(s[0]) then rep else s[0])
    decreases |s|
  {
    if |s| == 0 then []
    else if p(s[0]) then
      var rest := DropWhile(s, p);
      [rep] + ReplaceRuns(rest, p, rep)
    else [s[0]] + ReplaceRuns(s[1..], p, rep)
  }

  /** Each character of the output is `rep` or a character of the input outside `p`. */
  lemma {:induction false} ReplaceRunsChars(s: string, p: char -> bool, rep: char)
    ensures forall c :: c in ReplaceRuns(s, p, rep) ==> c == rep || (c in s && !p(c))
    decreases |s|
  {
    if |s| > 0 {
      var r := ReplaceRuns(s, p, rep);
      var k := if p(s[0]) then LeadingRun(s, p) else 1;
      var rest := s[k..];
      if p(s[0]) {
        assert r == [rep] + ReplaceRuns(rest, p, rep);
      } else {
        assert r == [s[0]] + ReplaceRuns(rest, p, rep);
      }
      ReplaceRunsChars(rest, p, rep);
      forall c | c in r ensures c == rep || (c in s && !p(c)) {
        if c != r[0] && c != rep {
          assert c in ReplaceRuns(rest, p, rep);
          var i :| 0 <= i < |rest| && rest[i] == c;
          assert s[k + i] == c;
        }
      }
    }
  }

  /** When `rep` itself satisfies `p`, no two characters satisfying `p` are adjacent in the
      output: after a replaced run comes a character outside `p`. */
  lemma {:induction false} ReplaceRunsNoAdjacent(s: string, p: char -> bool, rep: char)
    requires p(rep)
    ensures forall i :: 0 <= i < |ReplaceRuns(s, p, rep)| - 1 ==>
              !(p(ReplaceRuns(s, p, rep)[i]) && p(ReplaceRuns(s, p, rep)[i + 1]))
    decreases |s|
  {
    if |s| > 0 {
      var r := ReplaceRuns(s, p, rep);
      if p(s[0]) {
        var rest := DropWhile(s, p);
        ReplaceRunsNoAdjacent(rest, p, rep);
        assert r == [rep] + ReplaceRuns(rest, p, rep);
      } else {
        ReplaceRunsNoAdjacent(s[1..], p, rep);
        assert r == [s[0]] + ReplaceRuns(s[1..], p, rep);
      }
    }
  }

  /** A string whose every `p` character is already a lone `rep` is left unchanged. */
  lemma {:induction false} ReplaceRunsFixed(s: string, p: char -> bool, rep: char)
    requires forall i :: 0 <= i < |s| && p(s[i]) ==> s[i] == rep && (i + 1 < |s| ==> !p(s[i + 1]))
    ensures ReplaceRuns(s, p, rep) == s
    decreases |s|
  {
    if |s| > 0 {
      if p(s[0]) {
        assert |s| == 1 || !p(s[1..][0]);
        assert LeadingRun(s, p) == 1;
        ReplaceRunsFixed(s[1..], p, rep);
      } else {
        ReplaceRunsFixed(s[1..], p, rep);
      }
    }
  }
}
