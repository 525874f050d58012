/**
 * The Python string operations the engine relies on, for the cases it uses:
 * `str.split(sep)`, `sep.join(parts)`, `str.replace(pat, repl)` and
 * `str.upper()` on ASCII text.
 */
module Text {

  /** `sep` occurs in `t` starting at index `j`. */
  predicate StartsAt(t: string, sep: string, j: int) {
    0 <= j && j + |sep| <= |t| && t[j..j + |sep|] == sep
  }

  /** `sep in t`. */
  predicate Occurs(t: string, sep: string) {
    exists j | 0 <= j <= |t| :: StartsAt(t, sep, j)
  }

  /**
   * The scan behind `s.split(sep)`: `acc` is the part read so far, `s` the
   * text not yet read.
   */
  function SplitFrom(s: string, sep: string, acc: string): (parts: seq<string>)
    requires |sep| > 0
    ensures |parts| >= 1
    decreases |s|
  {
    if s == [] then [acc]
    else if sep <= s then [acc] + SplitFrom(s[|sep|..], sep, [])
    else SplitFrom(s[1..], sep, acc + [s[0]])
  }

  /** `s.split(sep)` for a non-empty separator. */
  function Split(s: string, sep: string): seq<string>
    requires |sep| > 0
  {
    SplitFrom(s, sep, [])
  }

  /** `sep.join(parts)`. */
  function Join(parts: seq<string>, sep: string): string {
    if parts == [] then []
    else if |parts| == 1 then parts[0]
    else parts[0] + sep + Join(parts[1..], sep)
  }

  /** `s.replace("", repl)`: `repl` before every character and at the end. */
  function Intersperse(s: string, repl: string): string {
    if s == [] then repl else repl + [s[0]] + Intersperse(s[1..], repl)
  }

  /** `s.replace(pat, repl)`: every non-overlapping occurrence of `pat`, left to right, becomes `repl`. */
  function ReplaceAll(s: string, pat: string, repl: string): string {
    if pat == [] then Intersperse(s, repl) else Join(Split(s, pat), repl)
  }

  lemma {:induction false} JoinSplitFrom(s: string, sep: string, acc: string)
    requires |sep| > 0
    ensures Join(SplitFrom(s, sep, acc), sep) == acc + s
    decreases |s|
  {
    if s == [] {
    } else if sep <= s {
      JoinSplitFrom(s[|sep|..], sep, []);
      assert sep + s[|sep|..] == s;
    } else {
      JoinSplitFrom(s[1..], sep, acc + [s[0]]);
      assert acc + [s[0]] + s[1..] == acc + s;
    }
  }

  /** Joining the parts of a split with the same separator gives back the text. */
  lemma SplitJoinRoundTrip(s: string, sep: string)
    requires |sep| > 0
    ensures Join(Split(s, sep), sep) == s
  {
    JoinSplitFrom(s, sep, []);
  }

  lemma {:induction false} SplitFromPartsFree(s: string, sep: string, acc: string)
    requires |sep| > 0
    requires forall j :: 0 <= j < |acc| ==> !StartsAt(acc + s, sep, j)
    ensures forall part :: part in SplitFrom(s, sep, acc) ==> !Occurs(part, sep)
    decreases |s|
  {
    var parts := SplitFrom(s, sep, acc);
    if s == [] {
      assert acc + s == acc;
      assert parts == [acc];
      AccFree(acc, s, sep);
    } else if sep <= s {
      AccFree(acc, s, sep);
      SplitFromPartsFree(s[|sep|..], sep, []);
    } else {
      var acc' := acc + [s[0]];
      assert acc' + s[1..] == acc + s;
      SplitFromPartsFree(s[1..], sep, acc');
    }
  }

  lemma AccFree(acc: string, s: string, sep: string)
    requires |sep| > 0
    requires forall j :: 0 <= j < |acc| ==> !StartsAt(acc + s, sep, j)
    ensures !Occurs(acc, sep)
  {
    forall j | StartsAt(acc, sep, j)
      ensures false
    {
      assert (acc + s)[j..j + |sep|] == acc[j..j + |sep|];
      assert StartsAt(acc + s, sep, j);
    }
  }

  /** No part of a split contains the separator: every occurrence was a cut. */
  lemma SplitPartsFree(s: string, sep: string)
    requires |sep| > 0
    ensures forall part :: part in Split(s, sep) ==> !Occurs(part, sep)
  {
    SplitFromPartsFree(s, sep, []);
  }

  lemma {:induction false} SplitFromAbsent(s: string, sep: string, acc: string)
    requires |sep| > 0 && !Occurs(s, sep)
    ensures SplitFrom(s, sep, acc) == [acc + s]
    decreases |s|
  {
    if s != [] {
      assert !StartsAt(s, sep, 0);
      assert |sep| <= |s| ==> s[..|sep|] != sep;
      assert !(sep <= s);
      assert !Occurs(s[1..], sep) by {
        forall j | 0 <= j <= |s[1..]| && StartsAt(s[1..], sep, j)
          ensures false
        {
          assert s[1..][j..j + |sep|] == s[j + 1..j + 1 + |sep|];
          assert StartsAt(s, sep, j + 1);
        }
      }
      SplitFromAbsent(s[1..], sep, acc + [s[0]]);
      assert acc + [s[0]] + s[1..] == acc + s;
    } else {
      assert acc + s == acc;
    }
  }

  /** Text without `pat` is left as it is. */
  lemma ReplaceAbsent(s: string, pat: string, repl: string)
    requires |pat| > 0 && !Occurs(s, pat)
    ensures ReplaceAll(s, pat, repl) == s
  {
    SplitFromAbsent(s, pat, []);
  }

  /** A leading occurrence of `pat` becomes `repl`, and replacing carries on after it. */
  lemma ReplaceLeading(s: string, pat: string, repl: string)
    requires |pat| > 0
    ensures ReplaceAll(pat + s, pat, repl) == repl + ReplaceAll(s, pat, repl)
  {
    assert (pat + s)[|pat|..] == s;
    assert Split(pat + s, pat) == [[]] + Split(s, pat);
  }

  function UpperChar(c: char): char {
    if 'a' <= c <= 'z' then (c as int - 32) as char else c
  }

  /** `s.upper()` on ASCII text. */
  function Upper(s: string): (r: string)
    ensures |r| == |s| && forall i :: 0 <= i < |s| ==> r[i] == UpperChar(s[i])
  {
    seq(|s|, i requires 0 <= i < |s| => UpperChar(s[i]))
  }

  /** `s.replace(a, b)` for single characters. */
  function ReplaceChar(s: string, a: char, b: char): (r: string)
    ensures |r| == |s| && forall i :: 0 <= i < |s| ==> r[i] == if s[i] == a then b else s[i]
  {
    seq(|s|, i requires 0 <= i < |s| => if s[i] == a then b else s[i])
  }

  predicate EndsWith(s: string, suffix: string) {
    |suffix| <= |s| && s[|s| - |suffix|..] == suffix
  }
}
