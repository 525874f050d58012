/**
 * What every translation client shares (`BaseClient`): its error classes,
 * the choice of variable pattern and the derivation of the replacement
 * template from that pattern.
 */
module ClientBase {
  import opened Wrappers
  import opened Text

  /**
   * The exceptions a client raises. Every one of them is a `ClientError`
   * in the source; here that is their common type, and `GenericError` is the
   * plain `ClientError` itself.
   */
  datatype ClientError =
    | GenericError(message: string)
    | InvalidApiKeyError
    | UnsupportedLanguageError(language: string)
    | TranslationError(message: string)
    | UsageError(message: string)

  const DefaultVariablePattern: string := "%{(.*?)}"

  /** The template that puts back the first captured group. */
  const GroupReference: string := "\\1"

  /** The pattern a client compiles: the given one, or the default when none or an empty one is given. */
  function EffectivePattern(variablePattern: Option<string>): (r: string)
    ensures r != []
    ensures variablePattern.Some? && variablePattern.value != [] ==> r == variablePattern.value
    ensures variablePattern.None? || variablePattern.value == [] ==> r == DefaultVariablePattern
  {
    if variablePattern.None? || variablePattern.value == [] then DefaultVariablePattern
    else variablePattern.value
  }

  predicate IsParen(c: char) {
    c == '(' || c == ')'
  }

  /**
   * `\(([^()]*?)\)` matches `p[i..k + 1]`: an opening and a closing
   * parenthesis with no parenthesis between them.
   */
  predicate GroupAt(p: string, i: int, k: int) {
    0 <= i < k < |p| && p[i] == '(' && p[k] == ')' && forall m :: i < m < k ==> !IsParen(p[m])
  }

  /** The group at `i` is the leftmost one in `p`. */
  ghost predicate FirstGroupAt(p: string, i: int, k: int) {
    GroupAt(p, i, k) && forall i', k' :: i' < i ==> !GroupAt(p, i', k')
  }

  /** The first parenthesis at or after `j`, or `|p|` if there is none. */
  function NextParen(p: string, j: nat): (r: nat)
    requires j <= |p|
    ensures j <= r <= |p|
    ensures r < |p| ==> IsParen(p[r])
    ensures forall m :: j <= m < r ==> !IsParen(p[m])
    decreases |p| - j
  {
    if j == |p| || IsParen(p[j]) then j else NextParen(p, j + 1)
  }

  /**
   * `re.search` for `\(([^()]*?)\)` from index `i` on: the leftmost start
   * where an opening parenthesis is followed, parentheses first, by a
   * closing one.
   */
  function FindGroup(p: string, i: nat): (r: Option<(nat, nat)>)
    requires i <= |p|
    ensures r.Some? ==> i <= r.value.0 < r.value.1 < |p|
    decreases |p| - i
  {
    if i == |p| then None
    else if p[i] == '(' && NextParen(p, i + 1) < |p| && p[NextParen(p, i + 1)] == ')' then
      Some((i, NextParen(p, i + 1)))
    else
      FindGroup(p, i + 1)
  }

  /** The search finds the leftmost group, and finds nothing only when there is no group. */
  lemma {:induction false} FindGroupCorrect(p: string, i: nat)
    requires i <= |p|
    ensures var r := FindGroup(p, i);
      (r.Some? ==> GroupAt(p, r.value.0, r.value.1)) &&
      (r.Some? ==> forall i', k' :: i <= i' < r.value.0 ==> !GroupAt(p, i', k')) &&
      (r.None? ==> forall i', k' :: i <= i' ==> !GroupAt(p, i', k'))
    decreases |p| - i
  {
    if i < |p| && !(p[i] == '(' && NextParen(p, i + 1) < |p| && p[NextParen(p, i + 1)] == ')') {
      NoGroupAt(p, i);
      FindGroupCorrect(p, i + 1);
    }
  }

  /** The group starting at `i`, if any, closes at the first parenthesis after `i`. */
  lemma GroupClosesAtNextParen(p: string, i: nat)
    requires i < |p|
    ensures forall k :: GroupAt(p, i, k) ==> NextParen(p, i + 1) == k
  {
  }

  /** When the scan at `i` fails, no group starts at `i`. */
  lemma NoGroupAt(p: string, i: nat)
    requires i < |p|
    requires !(p[i] == '(' && NextParen(p, i + 1) < |p| && p[NextParen(p, i + 1)] == ')')
    ensures forall k' :: !GroupAt(p, i, k')
  {
    GroupClosesAtNextParen(p, i);
  }

  /**
   * `__generate_replacement_pattern`: the text of the first group, and every
   * other occurrence of that text, becomes `\1`. `None` is the `TypeError`
   * raised when the pattern has no group to index.
   */
  function ReplacementPattern(p: string): Option<string> {
    var found := FindGroup(p, 0);
    if found.None? then None
    else
      var (i, k) := found.value;
      Some(ReplaceAll(p, p[i..k + 1], GroupReference))
  }

  /** Deriving the template fails exactly when the pattern has no group. */
  lemma ReplacementFailsWithoutGroup(p: string)
    ensures ReplacementPattern(p).None? <==> forall i, k :: !GroupAt(p, i, k)
  {
    FindGroupCorrect(p, 0);
  }

  /**
   * When the leftmost group of the pattern spans `p[i..k + 1]`, the template
   * exists and replaces that group, and every other occurrence of its text,
   * by `\1`.
   */
  lemma ReplacementReplacesFirstGroup(p: string, i: nat, k: nat)
    requires FirstGroupAt(p, i, k)
    ensures ReplacementPattern(p).Some?
    ensures ReplacedGroup(p, p[i..k + 1], ReplacementPattern(p).value)
  {
    FindGroupCorrect(p, 0);
    var found := FindGroup(p, 0);
    assert found.Some?;
    var (i', k') := found.value;
    assert i' == i;
    GroupClosesAtNextParen(p, i);
    assert k' == k;
    ReplacementCharacterised(p, p[i..k + 1]);
  }

  /**
   * `r` is `p` with every occurrence of `g` turned into `\1`: cutting `p` at
   * its occurrences of `g` and gluing the pieces back with `g` or with `\1`
   * gives `p` or `r`.
   */
  ghost predicate ReplacedGroup(p: string, g: string, r: string) {
    exists parts: seq<string> :: CutAt(parts, p, g, r)
  }

  /** `parts` are the pieces of `p` between its occurrences of `g`, and `r` glues them with `\1`. */
  ghost predicate CutAt(parts: seq<string>, p: string, g: string, r: string) {
    Join(parts, g) == p && Join(parts, GroupReference) == r &&
    forall n :: 0 <= n < |parts| ==> !Occurs(parts[n], g)
  }

  lemma ReplacementCharacterised(p: string, g: string)
    requires |g| > 0
    ensures ReplacedGroup(p, g, ReplaceAll(p, g, GroupReference))
  {
    var parts := Split(p, g);
    SplitJoinRoundTrip(p, g);
    SplitPartsFree(p, g);
    assert CutAt(parts, p, g, ReplaceAll(p, g, GroupReference));
  }

  lemma DefaultGroup()
    ensures FindGroup(DefaultVariablePattern, 0) == Some((2, 6))
    ensures DefaultVariablePattern[2..7] == "(.*?)"
  {
    var p := DefaultVariablePattern;
    assert GroupAt(p, 2, 6);
    assert FindGroup(p, 2) == Some((2, 6));
  }

  lemma DefaultSplit()
    ensures Split(DefaultVariablePattern, "(.*?)") == ["%{", "}"]
  {
    var p := DefaultVariablePattern;
    var g := "(.*?)";
    assert p[0] != g[0] && p[1..][0] != g[0] && p[2..][..|g|] == g;
    assert !(g <= p) && !(g <= p[1..]) && g <= p[2..];
    assert SplitFrom(p, g, []) == SplitFrom(p[1..], g, [] + [p[0]]);
    assert [] + [p[0]] == "%" && p[1..][1..] == p[2..];
    assert SplitFrom(p[1..], g, "%") == SplitFrom(p[2..], g, "%" + [p[1]]);
    assert "%" + [p[1]] == "%{" && p[2..][|g|..] == "}";
    assert !(g <= "}");
    assert SplitFrom("}", g, []) == SplitFrom([], g, [] + ['}']);
    assert [] + ['}'] == "}";
  }

  /** The default pattern `%{(.*?)}` yields the template `%{\1}`. */
  lemma DefaultReplacement()
    ensures ReplacementPattern(DefaultVariablePattern) == Some("%{\\1}")
  {
    DefaultGroup();
    DefaultSplit();
    assert Join(["%{", "}"], GroupReference) == "%{\\1}";
  }

  /** A pattern without parentheses has no group, so building a client with it fails. */
  lemma NoParenNoGroup(p: string)
    requires forall m :: 0 <= m < |p| ==> !IsParen(p[m])
    ensures ReplacementPattern(p).None?
  {
    ReplacementFailsWithoutGroup(p);
  }
}
