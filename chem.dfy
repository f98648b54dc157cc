/**
 * Model of database/chem.py: the molecular-formula normaliser `parse_formula`.
 *
 * The source sweeps the formula with the regular expression
 * `(\[\d+\])?([A-Z][a-z]*)(\d*)` (leftmost, non-overlapping matches) and
 * rewrites every match as element symbol, then the isotope bracket if there
 * is one, then the count, where a missing count becomes "1".  Characters are
 * restricted to ASCII: `\d` is '0'..'9'.
 */
module Chem {
  import opened Wrappers

  predicate IsDigit(c: char) { '0' <= c <= '9' }
  predicate IsUpper(c: char) { 'A' <= c <= 'Z' }
  predicate IsLower(c: char) { 'a' <= c <= 'z' }

  predicate AllDigits(s: string) { forall k | 0 <= k < |s| :: IsDigit(s[k]) }

  /** `\[\d+\]`: an isotope mass number in brackets. */
  predicate IsIsotope(w: string) {
    |w| >= 3 && w[0] == '[' && w[|w| - 1] == ']' && forall k | 0 < k < |w| - 1 :: IsDigit(w[k])
  }

  /** `[A-Z][a-z]*`: an element symbol. */
  predicate IsElement(w: string) {
    |w| >= 1 && IsUpper(w[0]) && forall k | 0 < k < |w| :: IsLower(w[k])
  }

  /**
   * The three groups of one match.  `isotope` is "" when group 1 did not
   * take part (the source's `match.group(1) or ''`); `count` is group 3 as
   * matched, possibly "".
   */
  datatype Token = Token(isotope: string, element: string, count: string)

  /** A match is the text the pattern consumed together with its groups. */
  datatype Match = Match(token: Token, len: nat)

  predicate WellFormed(t: Token) {
    (t.isotope == "" || IsIsotope(t.isotope)) && IsElement(t.element) && AllDigits(t.count)
  }

  /** The input text a token was matched from. */
  function Text(t: Token): string {
    t.isotope + t.element + t.count
  }

  /** The words of the pattern's language: a whole match of the regular expression. */
  ghost predicate InPattern(w: string) {
    exists a, b | 0 <= a <= b <= |w| ::
      (a == 0 || IsIsotope(w[..a])) && IsElement(w[a..b]) && AllDigits(w[b..])
  }

  /** Where the greedy `\d*` run starting at `i` ends. */
  function DigitsEnd(s: string, i: nat): (j: nat)
    requires i <= |s|
    ensures i <= j <= |s|
    ensures forall k | i <= k < j :: IsDigit(s[k])
    ensures j < |s| ==> !IsDigit(s[j])
    decreases |s| - i
  {
    if i < |s| && IsDigit(s[i]) then DigitsEnd(s, i + 1) else i
  }

  /** Where the greedy `[a-z]*` run starting at `i` ends. */
  function LowerEnd(s: string, i: nat): (j: nat)
    requires i <= |s|
    ensures i <= j <= |s|
    ensures forall k | i <= k < j :: IsLower(s[k])
    ensures j < |s| ==> !IsLower(s[j])
    decreases |s| - i
  {
    if i < |s| && IsLower(s[i]) then LowerEnd(s, i + 1) else i
  }

  /** Length of the `\[\d+\]` group at the start of `s`, or 0 when it does not match there. */
  function IsotopeLen(s: string): (k: nat)
    ensures k <= |s|
  {
    if s != [] && s[0] == '[' then
      var d := DigitsEnd(s, 1);
      if 1 < d < |s| && s[d] == ']' then d + 1 else 0
    else 0
  }

  /**
   * The match whose element symbol starts at `k`, after the isotope group
   * `s[..k]`: the greedy lower-case tail, then the greedy digit run.
   */
  function ElementMatch(s: string, k: nat): (m: Match)
    requires k < |s|
    ensures k < m.len <= |s|
  {
    var e := LowerEnd(s, k + 1);
    var c := DigitsEnd(s, e);
    Match(Token(s[..k], s[k..e], s[e..c]), c)
  }

  /**
   * The regular expression tried at the start of `s`.  The optional isotope
   * group is tried first; when it matches but no upper-case letter follows,
   * the engine backtracks and matches without it, which needs an upper-case
   * letter at the start of `s` (and `s` then starts with '[', so that fails).
   */
  function MatchPrefix(s: string): (r: Option<Match>)
    ensures r.Some? ==> 0 < r.value.len <= |s|
  {
    var k := IsotopeLen(s);
    if 0 < k < |s| && IsUpper(s[k]) then Some(ElementMatch(s, k))
    else if 0 < |s| && IsUpper(s[0]) then Some(ElementMatch(s, 0))
    else None
  }

  /**
   * `re.finditer`: the matches of the pattern in `s`, leftmost first and
   * non-overlapping; a position where no match starts is skipped.
   */
  function Scan(s: string): (ts: seq<Token>)
    ensures |ts| <= |s|
    decreases |s|
  {
    if s == [] then []
    else match MatchPrefix(s)
      case Some(m) => [m.token] + Scan(s[m.len..])
      case None => Scan(s[1..])
  }

  /** `match.group(3) or '1'`. */
  function ExplicitCount(count: string): (r: string)
    ensures AllDigits(count) ==> r != "" && AllDigits(r)
    ensures count != "" ==> r == count
  {
    if count == "" then "1" else count
  }

  /** The rewrite of one match: symbol, then the isotope bracket if any, then the count. */
  function Rewrite(t: Token): (r: string)
    ensures WellFormed(t) ==> |r| >= 2 && IsUpper(r[0]) && IsDigit(r[|r| - 1])
  {
    if t.isotope != "" then t.element + t.isotope + ExplicitCount(t.count)
    else t.element + ExplicitCount(t.count)
  }

  function RewriteAll(ts: seq<Token>): (parts: seq<string>)
    ensures |parts| == |ts|
  {
    if ts == [] then [] else [Rewrite(ts[0])] + RewriteAll(ts[1..])
  }

  /** `''.join(parts)`. */
  function Concat(parts: seq<string>): string {
    if parts == [] then "" else parts[0] + Concat(parts[1..])
  }

  /** What `parse_formula` returns for `formula`. */
  function Normalize(formula: string): string {
    Concat(RewriteAll(Scan(formula)))
  }

  /**
   * `parse_formula`: walks the formula as `finditer` does (`rest` is the
   * part not yet searched), appending the rewrite of every match to
   * `parsed`, and joins the parts at the end.
   */
  method ParseFormula(formula: string) returns (newFormula: string)
    ensures newFormula == Normalize(formula)
  {
    var parsed: seq<string> := [];
    ghost var matched: seq<Token> := [];
    var rest := formula;
    while rest != []
      invariant Scan(formula) == matched + Scan(rest)
      invariant parsed == RewriteAll(matched)
      decreases |rest|
    {
      match MatchPrefix(rest)
      case Some(m) =>
        var t := m.token;
        var count := if t.count != "" then t.count else "1";
        if t.isotope != "" {
          parsed := parsed + [t.element + t.isotope + count];
        } else {
          parsed := parsed + [t.element + count];
        }
        RewriteAllSnoc(matched, t);
        matched := matched + [t];
        rest := rest[m.len..];
      case None =>
        rest := rest[1..];
    }
    assert matched + Scan(rest) == matched;
    newFormula := Concat(parsed);
  }

  lemma {:induction false} RewriteAllSnoc(ts: seq<Token>, t: Token)
    ensures RewriteAll(ts + [t]) == RewriteAll(ts) + [Rewrite(t)]
  {
    if ts != [] {
      assert (ts + [t])[1..] == ts[1..] + [t];
      RewriteAllSnoc(ts[1..], t);
    }
  }

  /**
   * `parse_and_compute_mass`: the mass calculator is a foreign library
   * routine, passed in as `calculateMass`; it is applied to the normalised
   * formula.
   */
  method ParseAndComputeMass<M>(formula: string, calculateMass: string -> M) returns (mass: M)
    ensures mass == calculateMass(Normalize(formula))
  {
    var parsedFormula := ParseFormula(formula);
    mass := calculateMass(parsedFormula);
  }
}
