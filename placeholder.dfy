/**
 * Placeholder protection around a DeepL request, for the default variable
 * pattern `%{(.*?)}`: before sending, every `%{X}` becomes `<x>X</x>` (a tag
 * DeepL is told to ignore); afterwards every `<x>X</x>` becomes `%{X}` again,
 * through the replacement template `%{\1}`. Both are `re.sub` scans from left
 * to right; `.*?` takes the shortest run of characters other than a newline.
 */
module Placeholder {
  import opened Wrappers
  import opened Text

  /**
   * The shortest-match scan: the first index `k >= i` where `close` starts,
   * provided no newline comes before it; `None` if a newline or the end of
   * the text comes first.
   */
  function CloseIndex(t: string, i: nat, close: string): (r: Option<nat>)
    requires i <= |t|
    ensures r.Some? ==> i <= r.value <= |t| && StartsAt(t, close, r.value)
    ensures r.Some? ==> forall m :: i <= m < r.value ==> t[m] != '\n' && !StartsAt(t, close, m)
    decreases |t| - i
  {
    if StartsAt(t, close, i) then Some(i)
    else if i == |t| || t[i] == '\n' then None
    else CloseIndex(t, i + 1, close)
  }

  /** A protectable placeholder `%{...}` starts the text. */
  predicate PlaceholderAtStart(s: string) {
    |s| >= 2 && s[..2] == "%{" && CloseIndex(s, 2, "}").Some?
  }

  /** A protected placeholder `<x>...</x>` starts the text. */
  predicate TagAtStart(t: string) {
    |t| >= 3 && t[..3] == "<x>" && CloseIndex(t, 3, "</x>").Some?
  }

  /** `__format_text_for_api`: `re.sub("%{(.*?)}", "<x>\1</x>", s)`. */
  function Protect(s: string): string
    decreases |s|
  {
    if s == [] then []
    else if PlaceholderAtStart(s) then
      var j := CloseIndex(s, 2, "}").value;
      "<x>" + s[2..j] + "</x>" + Protect(s[j + 1..])
    else [s[0]] + Protect(s[1..])
  }

  /** `__format_text_from_api`: `re.sub("<x>(.*?)</x>", "%{\1}", t)`. */
  function Restore(t: string): string
    decreases |t|
  {
    if t == [] then []
    else if TagAtStart(t) then
      var k := CloseIndex(t, 3, "</x>").value;
      "%{" + t[3..k] + "}" + Restore(t[k + 4..])
    else [t[0]] + Restore(t[1..])
  }

  lemma {:induction false} CloseIndexAt(t: string, i: nat, close: string, k: nat)
    requires i <= k <= |t| && StartsAt(t, close, k)
    requires forall m :: i <= m < k ==> t[m] != '\n' && !StartsAt(t, close, m)
    ensures CloseIndex(t, i, close) == Some(k)
    decreases k - i
  {
    if i < k {
      CloseIndexAt(t, i + 1, close, k);
    }
  }

  /** A slice of a text without `w` has no `w` either. */
  lemma NotInSlice(s: string, w: string, a: nat, b: nat)
    requires a <= b <= |s| && !Occurs(s, w)
    ensures !Occurs(s[a..b], w)
  {
    forall j | 0 <= j <= b - a
      ensures !StartsAt(s[a..b], w, j)
    {
      if j + |w| <= b - a {
        var u := s[a..b];
        var x := s[a + j..a + j + |w|];
        forall i | 0 <= i < |w|
          ensures x[i] == u[j..j + |w|][i]
        {
          assert x[i] == s[a + j + i];
          assert u[j + i] == s[a + j + i];
        }
        assert x == u[j..j + |w|];
        assert !StartsAt(s, w, a + j);
      }
    }
  }

  lemma ProtectFirst(s: string)
    requires s != []
    ensures Protect(s) != [] && Protect(s)[0] == if PlaceholderAtStart(s) then '<' else s[0]
  {
  }

  /** The tag `<x>` cannot appear in protected text where the original text had no `<x>`. */
  lemma NoTagAtPlainChar(s: string)
    requires s != [] && !PlaceholderAtStart(s) && !StartsAt(s, "<x>", 0)
    ensures !TagAtStart(Protect(s))
  {
    var t := Protect(s);
    assert t == [s[0]] + Protect(s[1..]);
    if s[0] == '<' && |s| >= 2 {
      ProtectFirst(s[1..]);
      if !PlaceholderAtStart(s[1..]) && s[1] == 'x' && |s| >= 3 {
        ProtectFirst(s[2..]);
        assert Protect(s[1..]) == [s[1]] + Protect(s[2..]);
        assert s[..3] == [s[0], s[1], s[2]];
      }
    }
  }

  /** A protected placeholder is restored as a whole, whatever follows it. */
  lemma RestoreTagged(x: string, rest: string)
    requires forall m :: 0 <= m < |x| ==> x[m] != '\n'
    requires !Occurs(x, "</x>")
    ensures Restore("<x>" + x + "</x>" + rest) == "%{" + x + "}" + Restore(rest)
  {
    var t := "<x>" + x + "</x>" + rest;
    var k := 3 + |x|;
    assert t[..3] == "<x>";
    assert t[k..k + 4] == "</x>";
    forall m | 3 <= m < k
      ensures t[m] != '\n' && !StartsAt(t, "</x>", m)
    {
      assert t[m] == x[m - 3];
      if m + 4 <= k {
        assert t[m..m + 4] == x[m - 3..m + 1];
        assert !StartsAt(x, "</x>", m - 3);
      } else if m + 4 <= |t| {
        assert t[k] == '<';
        assert t[m..m + 4][k - m] == '<';
      }
    }
    CloseIndexAt(t, 3, "</x>", k);
    assert t[3..k] == x;
    assert t[k + 4..] == rest;
  }

  /** A suffix of a text without `w` has no `w` either. */
  lemma NotInSuffix(s: string, w: string, a: nat)
    requires a <= |s| && !Occurs(s, w)
    ensures !Occurs(s[a..], w)
  {
    NotInSlice(s, w, a, |s|);
    assert s[a..|s|] == s[a..];
  }

  /** A text that starts with a placeholder is that placeholder followed by the rest. */
  lemma PlaceholderParts(s: string)
    requires PlaceholderAtStart(s)
    ensures var j := CloseIndex(s, 2, "}").value;
      s == "%{" + s[2..j] + "}" + s[j + 1..]
  {
    var j := CloseIndex(s, 2, "}").value;
    assert s[..2] == "%{";
    assert s[j..j + 1] == "}";
  }

  /** One step of the round trip, for a text that starts with a placeholder. */
  lemma RestoreProtectPlaceholder(s: string)
    requires PlaceholderAtStart(s) && !Occurs(s, "</x>")
    ensures var j := CloseIndex(s, 2, "}").value;
      Restore(Protect(s)) == "%{" + s[2..j] + "}" + Restore(Protect(s[j + 1..]))
  {
    var j := CloseIndex(s, 2, "}").value;
    NotInSlice(s, "</x>", 2, j);
    RestoreTagged(s[2..j], Protect(s[j + 1..]));
  }

  /** One step of the round trip, for a text that starts with a plain character. */
  lemma RestoreProtectPlain(s: string)
    requires s != [] && !PlaceholderAtStart(s) && !StartsAt(s, "<x>", 0)
    ensures Restore(Protect(s)) == [s[0]] + Restore(Protect(s[1..]))
  {
    NoTagAtPlainChar(s);
    var t := Protect(s);
    assert t == [s[0]] + Protect(s[1..]);
    assert t[1..] == Protect(s[1..]);
  }

  /** Restoring protected text gives back the original, for text without `<x>` or `</x>` of its own. */
  lemma {:induction false} RestoreProtect(s: string)
    requires !Occurs(s, "<x>") && !Occurs(s, "</x>")
    ensures Restore(Protect(s)) == s
    decreases |s|
  {
    if s == [] {
    } else if PlaceholderAtStart(s) {
      var j := CloseIndex(s, 2, "}").value;
      RestoreProtectPlaceholder(s);
      NotInSuffix(s, "<x>", j + 1);
      NotInSuffix(s, "</x>", j + 1);
      RestoreProtect(s[j + 1..]);
      PlaceholderParts(s);
    } else {
      assert !StartsAt(s, "<x>", 0);
      RestoreProtectPlain(s);
      NotInSuffix(s, "<x>", 1);
      NotInSuffix(s, "</x>", 1);
      RestoreProtect(s[1..]);
    }
  }
}
