/**
 * Properties of the formula normaliser modelled in module Chem: what one
 * match of the pattern is, how the sweep treats the characters between
 * matches, how a single token is rewritten, and when normalising twice is
 * the same as normalising once.
 */
module ChemProperties {
  import opened Wrappers
  import opened Chem

  /** The upper-case letters of `s`, in order. */
  function Uppers(s: string): string {
    if s == [] then [] else (if IsUpper(s[0]) then [s[0]] else []) + Uppers(s[1..])
  }

  /** The first letters of the element symbols of `ts`, in order. */
  function Initials(ts: seq<Token>): (u: string)
    requires forall t | t in ts :: WellFormed(t)
    ensures |u| == |ts|
  {
    if ts == [] then []
    else
      var t := ts[0];
      assert t in ts && WellFormed(t);
      [t.element[0]] + Initials(ts[1..])
  }

  // ----- greedy runs are fixed by where they stop -----

  lemma DigitsEndIs(s: string, i: nat, j: nat)
    requires i <= j <= |s| && (forall k | i <= k < j :: IsDigit(s[k])) && (j < |s| ==> !IsDigit(s[j]))
    ensures DigitsEnd(s, i) == j
  {
  }

  lemma LowerEndIs(s: string, i: nat, j: nat)
    requires i <= j <= |s| && (forall k | i <= k < j :: IsLower(s[k])) && (j < |s| ==> !IsLower(s[j]))
    ensures LowerEnd(s, i) == j
  {
  }

  lemma DigitsEndAtLeast(s: string, i: nat, j: nat)
    requires i <= j <= |s| && forall k | i <= k < j :: IsDigit(s[k])
    ensures j <= DigitsEnd(s, i)
  {
  }

  lemma LowerEndAtLeast(s: string, i: nat, j: nat)
    requires i <= j <= |s| && forall k | i <= k < j :: IsLower(s[k])
    ensures j <= LowerEnd(s, i)
  {
  }

  /** A non-zero `IsotopeLen` covers a bracketed digit run. */
  lemma IsotopeLenSound(s: string)
    ensures IsotopeLen(s) != 0 ==> IsIsotope(s[..IsotopeLen(s)])
  {
    var k := IsotopeLen(s);
    if k != 0 {
      var w := s[..k];
      assert w[k - 1] == s[k - 1];
      forall j | 0 < j < k - 1 ensures IsDigit(w[j]) {
        assert w[j] == s[j];
      }
    }
  }

  /** The match at `k` consists of well-formed groups that spell out the text it consumed. */
  lemma ElementMatchSound(s: string, k: nat)
    requires k < |s| && IsUpper(s[k]) && (k == 0 || IsIsotope(s[..k]))
    ensures WellFormed(ElementMatch(s, k).token)
    ensures s[..ElementMatch(s, k).len] == Text(ElementMatch(s, k).token)
    ensures |ElementMatch(s, k).token.isotope| == k
  {
    var e := LowerEnd(s, k + 1);
    var c := DigitsEnd(s, e);
    assert s[..c] == s[..k] + s[k..e] + s[e..c];
    var el := s[k..e];
    assert el[0] == s[k];
    forall j | 0 < j < e - k ensures IsLower(el[j]) {
      assert el[j] == s[k + j];
    }
    var ct := s[e..c];
    forall j | 0 <= j < c - e ensures IsDigit(ct[j]) {
      assert ct[j] == s[e + j];
    }
  }

  /** Every match is well formed and spells out the prefix it consumed. */
  lemma MatchPrefixSound(s: string)
    requires MatchPrefix(s).Some?
    ensures WellFormed(MatchPrefix(s).value.token)
    ensures s[..MatchPrefix(s).value.len] == Text(MatchPrefix(s).value.token)
  {
    IsotopeLenSound(s);
    var k := IsotopeLen(s);
    if 0 < k < |s| && IsUpper(s[k]) {
      ElementMatchSound(s, k);
    } else {
      ElementMatchSound(s, 0);
    }
  }

  /** Every token of the sweep is a well-formed match. */
  lemma {:induction false} ScanWellFormed(s: string)
    ensures forall t | t in Scan(s) :: WellFormed(t)
    decreases |s|
  {
    if s != [] {
      match MatchPrefix(s)
      case Some(m) =>
        MatchPrefixSound(s);
        ScanWellFormed(s[m.len..]);
      case None =>
        ScanWellFormed(s[1..]);
    }
  }

  /** An isotope group at the start of `s` is the one `IsotopeLen` finds. */
  lemma IsotopeLenIs(s: string, j: nat)
    requires 0 < j <= |s| && IsIsotope(s[..j])
    ensures IsotopeLen(s) == j
  {
    var w := s[..j];
    assert s[0] == w[0] == '[';
    assert s[j - 1] == w[j - 1] == ']';
    forall k | 1 <= k < j - 1 ensures IsDigit(s[k]) {
      assert s[k] == w[k];
    }
    DigitsEndIs(s, 1, j - 1);
  }

  /** With an upper-case letter at `a` after an isotope group (or at the start), the match starts there. */
  lemma MatchPrefixAt(s: string, a: nat)
    requires a < |s| && IsUpper(s[a]) && (a == 0 || IsIsotope(s[..a]))
    ensures MatchPrefix(s) == Some(ElementMatch(s, a))
  {
    if a > 0 {
      IsotopeLenIs(s, a);
    }
  }

  /**
   * `s` holds a match with its symbol at `k..e`, after the isotope group
   * `s[..k]`, and its digits at `e..c`, each run stopped by what follows it.
   */
  predicate MatchLayout(s: string, k: nat, e: nat, c: nat) {
    k < e <= c <= |s| && IsUpper(s[k]) && (k == 0 || IsIsotope(s[..k]))
    && (forall j | k < j < e :: IsLower(s[j])) && (e < |s| ==> !IsLower(s[e]))
    && (forall j | e <= j < c :: IsDigit(s[j])) && (c < |s| ==> !IsDigit(s[c]))
  }

  /** The match at `k` is determined by where its lower-case tail and its digits stop. */
  lemma ElementMatchIs(s: string, k: nat, e: nat, c: nat)
    requires MatchLayout(s, k, e, c)
    ensures ElementMatch(s, k) == Match(Token(s[..k], s[k..e], s[e..c]), c)
  {
    LowerEndIs(s, k + 1, e);
    DigitsEndIs(s, e, c);
  }

  /** Such a layout at the start of `s` is the match the pattern finds there. */
  lemma LayoutMatch(s: string, k: nat, e: nat, c: nat)
    requires MatchLayout(s, k, e, c)
    ensures MatchPrefix(s) == Some(Match(Token(s[..k], s[k..e], s[e..c]), c))
  {
    MatchPrefixAt(s, k);
    ElementMatchIs(s, k, e, c);
  }

  // ----- one match is the longest prefix in the pattern's language -----

  /** The three groups of a word of the pattern, located in `s`. */
  lemma PatternParts(s: string, n: nat) returns (a: nat, b: nat)
    requires 0 < n <= |s| && InPattern(s[..n])
    ensures a < b <= n && IsUpper(s[a]) && (a == 0 || IsIsotope(s[..a]))
    ensures forall j | a < j < b :: IsLower(s[j])
    ensures forall j | b <= j < n :: IsDigit(s[j])
  {
    var w := s[..n];
    a, b :| 0 <= a <= b <= |w| && (a == 0 || IsIsotope(w[..a])) && IsElement(w[a..b]) && AllDigits(w[b..]);
    assert w[..a] == s[..a];
    var el := w[a..b];
    assert s[a] == el[0];
    forall j | a < j < b ensures IsLower(s[j]) {
      assert el[j - a] == w[j] == s[j];
    }
    var ct := w[b..];
    forall j | b <= j < n ensures IsDigit(s[j]) {
      assert ct[j - b] == w[j] == s[j];
    }
  }

  /** The match at `a` reaches at least as far as any word of the pattern starting there. */
  lemma ElementMatchLongest(s: string, a: nat, b: nat, n: nat)
    requires n <= |s| && a < b <= n && IsUpper(s[a]) && (a == 0 || IsIsotope(s[..a]))
    requires forall j | a < j < b :: IsLower(s[j])
    requires forall j | b <= j < n :: IsDigit(s[j])
    ensures n <= ElementMatch(s, a).len
  {
    LowerEndAtLeast(s, a + 1, b);
    if LowerEnd(s, a + 1) == b {
      DigitsEndAtLeast(s, b, n);
    }
  }

  lemma MatchPrefixLongest(s: string, n: nat)
    requires 0 < n <= |s| && InPattern(s[..n])
    ensures MatchPrefix(s).Some? && n <= MatchPrefix(s).value.len
  {
    var a, b := PatternParts(s, n);
    MatchPrefixAt(s, a);
    ElementMatchLongest(s, a, b, n);
  }

  /**
   * The match found at the start of `s` is a word of the pattern, and no
   * longer prefix of `s` is one; when nothing matches, no non-empty prefix
   * of `s` is a word of the pattern.
   */
  lemma MatchPrefixSpec(s: string)
    ensures MatchPrefix(s).Some? ==> InPattern(s[..MatchPrefix(s).value.len])
    ensures MatchPrefix(s).Some? ==>
      forall n | MatchPrefix(s).value.len < n <= |s| :: !InPattern(s[..n])
    ensures MatchPrefix(s).None? ==> forall n | 0 < n <= |s| :: !InPattern(s[..n])
  {
    if MatchPrefix(s).Some? {
      var m := MatchPrefix(s).value;
      var t := m.token;
      MatchPrefixSound(s);
      var w := s[..m.len];
      var a, b := |t.isotope|, |t.isotope| + |t.element|;
      assert w[..a] == t.isotope && w[a..b] == t.element && w[b..] == t.count;
      assert InPattern(w);
    }
    forall n | 0 < n <= |s| && InPattern(s[..n])
      ensures MatchPrefix(s).Some? && n <= MatchPrefix(s).value.len
    {
      MatchPrefixLongest(s, n);
    }
  }

  // ----- the sweep -----

  lemma {:induction false} UppersAppend(a: string, b: string)
    ensures Uppers(a + b) == Uppers(a) + Uppers(b)
  {
    if a != [] {
      assert (a + b)[1..] == a[1..] + b;
      UppersAppend(a[1..], b);
    } else {
      assert a + b == b;
    }
  }

  lemma {:induction false} NoUppers(s: string)
    requires forall k | 0 <= k < |s| :: !IsUpper(s[k])
    ensures Uppers(s) == []
  {
    if s != [] {
      NoUppers(s[1..]);
    }
  }

  /** The only upper-case letter of a match is the first letter of its symbol. */
  lemma UppersOfText(t: Token)
    requires WellFormed(t)
    ensures Uppers(Text(t)) == [t.element[0]]
  {
    NoUppers(t.isotope);
    NoUppers(t.element[1..]);
    NoUppers(t.count);
    assert t.element == [t.element[0]] + t.element[1..];
    UppersAppend([t.element[0]], t.element[1..]);
    UppersAppend(t.isotope, t.element);
    UppersAppend(t.isotope + t.element, t.count);
  }

  /**
   * Every upper-case letter of the input starts exactly one match, in
   * order: the sweep neither merges repeated symbols nor loses any, and
   * there are as many tokens as upper-case letters.
   */
  lemma {:induction false} ScanInitials(s: string)
    ensures forall t | t in Scan(s) :: WellFormed(t)
    ensures Initials(Scan(s)) == Uppers(s)
    ensures |Scan(s)| == |Uppers(s)|
    decreases |s|
  {
    ScanWellFormed(s);
    if s != [] {
      match MatchPrefix(s)
      case Some(m) =>
        ScanInitials(s[m.len..]);
        MatchPrefixSound(s);
        assert s == s[..m.len] + s[m.len..];
        UppersAppend(s[..m.len], s[m.len..]);
        UppersOfText(m.token);
        assert ([m.token] + Scan(s[m.len..]))[1..] == Scan(s[m.len..]);
      case None =>
        ScanInitials(s[1..]);
    }
  }

  /**
   * Characters that cannot start a match are dropped: a prefix without
   * upper-case letters and without '[' does not change the matches.
   */
  lemma {:induction false} JunkDropped(p: string, s: string)
    requires forall k | 0 <= k < |p| :: !IsUpper(p[k]) && p[k] != '['
    ensures Scan(p + s) == Scan(s)
  {
    if p != [] {
      assert (p + s)[0] == p[0];
      assert MatchPrefix(p + s) == None;
      assert (p + s)[1..] == p[1..] + s;
      assert Scan(p + s) == Scan(p[1..] + s);
      JunkDropped(p[1..], s);
    } else {
      assert p + s == s;
    }
  }

  lemma {:induction false} ConcatEmpty(ts: seq<Token>)
    requires forall t | t in ts :: WellFormed(t)
    ensures Concat(RewriteAll(ts)) == [] <==> ts == []
  {
    if ts != [] {
      assert RewriteAll(ts)[0] == Rewrite(ts[0]);
    }
  }

  lemma {:induction false} UppersNonEmpty(s: string, k: nat)
    requires k < |s| && IsUpper(s[k])
    ensures Uppers(s) != []
  {
    if k > 0 {
      UppersNonEmpty(s[1..], k - 1);
    }
  }

  /** The normal form is empty exactly when the input has no upper-case letter. */
  lemma NormalizeEmptyIff(s: string)
    ensures Normalize(s) == "" <==> forall k | 0 <= k < |s| :: !IsUpper(s[k])
  {
    ScanInitials(s);
    ConcatEmpty(Scan(s));
    if forall k | 0 <= k < |s| :: !IsUpper(s[k]) {
      NoUppers(s);
    } else {
      var k :| 0 <= k < |s| && IsUpper(s[k]);
      UppersNonEmpty(s, k);
    }
  }

  lemma {:induction false} RewriteAllAt(ts: seq<Token>, i: nat)
    requires i < |ts|
    ensures RewriteAll(ts)[i] == Rewrite(ts[i])
  {
    if i > 0 {
      RewriteAllAt(ts[1..], i - 1);
    }
  }

  /**
   * Every part of the output starts with the upper-case letter of its
   * symbol and ends with a digit of its count.
   */
  lemma EmittedShape(s: string)
    ensures forall p | p in RewriteAll(Scan(s)) :: |p| >= 2 && IsUpper(p[0]) && IsDigit(p[|p| - 1])
  {
    var ts := Scan(s);
    ScanWellFormed(s);
    forall p | p in RewriteAll(ts) ensures |p| >= 2 && IsUpper(p[0]) && IsDigit(p[|p| - 1]) {
      var i :| 0 <= i < |ts| && RewriteAll(ts)[i] == p;
      RewriteAllAt(ts, i);
      assert ts[i] in ts;
    }
  }

  // ----- one token at a time -----

  /**
   * Where a whole match stops: what follows a token may not extend its
   * count, nor its symbol when the count is empty.
   */
  predicate Boundary(t: Token, rest: string) {
    rest != [] ==> !IsDigit(rest[0]) && (t.count == "" ==> !IsLower(rest[0]))
  }

  /** Where the groups of a token lie in its text followed by `rest`, character by character. */
  lemma TextLayout(t: Token, rest: string)
    requires WellFormed(t) && Boundary(t, rest)
    ensures var s, k, e := Text(t) + rest, |t.isotope|, |t.isotope| + |t.element|;
      MatchLayout(s, k, e, |Text(t)|)
    ensures var s, k, e, c := Text(t) + rest, |t.isotope|, |t.isotope| + |t.element|, |Text(t)|;
      Token(s[..k], s[k..e], s[e..c]) == t
  {
    var s := Text(t) + rest;
    var k := |t.isotope|;
    var e := k + |t.element|;
    var c := e + |t.count|;
    assert s == t.isotope + t.element + t.count + rest;
    assert s[..k] == t.isotope && s[k..e] == t.element && s[e..c] == t.count;
    assert s[k] == t.element[0];
    forall j | k < j < e ensures IsLower(s[j]) {
      assert s[j] == t.element[j - k];
    }
    forall j | e <= j < c ensures IsDigit(s[j]) {
      assert s[j] == t.count[j - e];
    }
    if e < |s| {
      if |t.count| > 0 {
        assert s[e] == t.count[0];
      } else {
        assert s[e] == rest[0];
      }
    }
    if c < |s| {
      assert s[c] == rest[0];
    }
  }

  /** The text of a token, followed by a boundary, is matched as that token. */
  lemma MatchText(t: Token, rest: string)
    requires WellFormed(t) && Boundary(t, rest)
    ensures MatchPrefix(Text(t) + rest) == Some(Match(t, |Text(t)|))
  {
    TextLayout(t, rest);
    LayoutMatch(Text(t) + rest, |t.isotope|, |t.isotope| + |t.element|, |Text(t)|);
  }

  /** A token followed by a boundary contributes exactly itself, then the rest is swept. */
  lemma ScanToken(t: Token, rest: string)
    requires WellFormed(t) && Boundary(t, rest)
    ensures Scan(Text(t) + rest) == [t] + Scan(rest)
  {
    MatchText(t, rest);
    assert (Text(t) + rest)[|Text(t)|..] == rest;
  }

  /**
   * Each match contributes exactly one rewritten token, ahead of the
   * normal form of the text after it.
   */
  lemma NormalizeToken(t: Token, rest: string)
    requires WellFormed(t) && Boundary(t, rest)
    ensures Normalize(Text(t) + rest) == Rewrite(t) + Normalize(rest)
  {
    ScanToken(t, rest);
    assert ([t] + Scan(rest))[1..] == Scan(rest);
  }

  /**
   * A single token is rewritten as its symbol, then its isotope bracket
   * (moved behind the symbol), then its count, which is "1" when absent
   * and otherwise kept digit for digit.
   */
  lemma NormalizeSingle(t: Token)
    requires WellFormed(t)
    ensures Normalize(Text(t)) == t.element + t.isotope + ExplicitCount(t.count)
    ensures |ExplicitCount(t.count)| > 0 && AllDigits(ExplicitCount(t.count))
  {
    var text := Text(t);
    assert text + "" == text;
    NormalizeToken(t, "");
    assert Normalize("") == "";
    var r := Rewrite(t);
    assert r + "" == r;
    if t.isotope == "" {
      assert t.element + t.isotope == t.element;
    }
  }

  // ----- normalising twice -----

  /** The token a rewritten isotope-free token is read back as. */
  function Explicit(t: Token): Token {
    Token("", t.element, ExplicitCount(t.count))
  }

  /** The rewrite of an isotope-free token is the text of its explicit form. */
  lemma RewriteExplicit(t: Token)
    requires WellFormed(t) && t.isotope == ""
    ensures Rewrite(t) == Text(Explicit(t))
    ensures WellFormed(Explicit(t)) && Explicit(t).count != ""
  {
    assert Text(Explicit(t)) == "" + t.element + ExplicitCount(t.count);
    assert "" + t.element == t.element;
  }

  /**
   * The rewrite of isotope-free tokens is the text of their explicit forms,
   * and the first of them is followed by a boundary.
   */
  lemma RewrittenHead(ts: seq<Token>)
    requires ts != []
    requires forall t | t in ts :: WellFormed(t) && t.isotope == ""
    ensures Concat(RewriteAll(ts)) == Text(Explicit(ts[0])) + Concat(RewriteAll(ts[1..]))
    ensures WellFormed(Explicit(ts[0])) && Boundary(Explicit(ts[0]), Concat(RewriteAll(ts[1..])))
    ensures Concat(RewriteAll(ts[1..])) != [] ==> IsUpper(Concat(RewriteAll(ts[1..]))[0])
  {
    var t := ts[0];
    var rest := Concat(RewriteAll(ts[1..]));
    assert t in ts;
    RewriteExplicit(t);
    assert RewriteAll(ts)[0] == Rewrite(t);
    assert RewriteAll(ts)[1..] == RewriteAll(ts[1..]);
    if rest != [] {
      var u := ts[1];
      assert u in ts;
      ConcatEmpty(ts[1..]);
      var parts := RewriteAll(ts[1..]);
      assert parts[0] == Rewrite(u);
      assert rest == parts[0] + Concat(parts[1..]);
      assert rest[0] == Rewrite(u)[0];
    }
  }

  /** Re-sweeping the rewrite of isotope-free tokens gives back the same rewrite. */
  lemma {:induction false} RescanRewritten(ts: seq<Token>)
    requires forall t | t in ts :: WellFormed(t) && t.isotope == ""
    ensures RewriteAll(Scan(Concat(RewriteAll(ts)))) == RewriteAll(ts)
  {
    if ts != [] {
      var rest := Concat(RewriteAll(ts[1..]));
      RescanRewritten(ts[1..]);
      RewrittenHead(ts);
      ScanToken(Explicit(ts[0]), rest);
      assert ([Explicit(ts[0])] + Scan(rest))[1..] == Scan(rest);
    }
  }

  /**
   * Normalising is idempotent when no match carries an isotope prefix:
   * every rewritten token is a symbol followed by a non-empty count, which
   * reads back as itself.
   */
  lemma NormalizeIdempotent(s: string)
    requires forall t | t in Scan(s) :: t.isotope == ""
    ensures Normalize(Normalize(s)) == Normalize(s)
  {
    ScanWellFormed(s);
    RescanRewritten(Scan(s));
  }

  lemma {:induction false} NoBracketNoIsotope(s: string)
    requires '[' !in s
    ensures forall t | t in Scan(s) :: t.isotope == ""
    decreases |s|
  {
    if s != [] {
      match MatchPrefix(s)
      case Some(m) =>
        MatchPrefixSound(s);
        assert forall k | 0 <= k < |s[m.len..]| :: s[m.len..][k] == s[m.len + k];
        NoBracketNoIsotope(s[m.len..]);
      case None =>
        assert forall k | 0 <= k < |s[1..]| :: s[1..][k] == s[1 + k];
        NoBracketNoIsotope(s[1..]);
    }
  }

  /** In particular, a formula without '[' is a fixed point after one normalisation. */
  lemma NormalizeIdempotentWithoutBrackets(s: string)
    requires '[' !in s
    ensures Normalize(Normalize(s)) == Normalize(s)
  {
    NoBracketNoIsotope(s);
    NormalizeIdempotent(s);
  }

  /**
   * An isotope group not followed by an upper-case letter starts no match,
   * and its digits and closing bracket are dropped with it.
   */
  lemma DanglingIsotopeDropped(iso: string, rest: string)
    requires IsIsotope(iso) && (rest != [] ==> !IsUpper(rest[0]))
    ensures Scan(iso + rest) == Scan(rest)
  {
    var s := iso + rest;
    assert s[..|iso|] == iso;
    IsotopeLenIs(s, |iso|);
    assert MatchPrefix(s) == None;
    assert s[1..] == iso[1..] + rest;
    JunkDropped(iso[1..], rest);
  }

  /** An isotope group followed only by digits leaves nothing behind. */
  lemma IsotopeTailVanishes(iso: string, count: string)
    requires IsIsotope(iso) && AllDigits(count)
    ensures Normalize(iso + count) == ""
  {
    DanglingIsotopeDropped(iso, count);
    JunkDropped(count, "");
    assert count + "" == count;
  }

  /**
   * The rewrite `E[n]c` of an isotope token reads back as the symbol `E`
   * without a count, followed by an isotope group that nothing follows.
   */
  lemma RenormalizeMoved(t: Token)
    requires WellFormed(t) && t.isotope != ""
    ensures Normalize(t.element + t.isotope + ExplicitCount(t.count)) == t.element + "1"
  {
    var count := ExplicitCount(t.count);
    var h := Token("", t.element, "");
    assert Text(h) + (t.isotope + count) == t.element + t.isotope + count;
    NormalizeToken(h, t.isotope + count);
    IsotopeTailVanishes(t.isotope, count);
    assert Rewrite(h) + "" == t.element + "1";
  }

  /**
   * With an isotope prefix idempotence fails: the token "[n]E c" becomes
   * "E[n]c", and sweeping that again reads "E" with no count and drops
   * "[n]c", leaving "E1".
   */
  lemma IsotopeBreaksIdempotence(t: Token)
    requires WellFormed(t) && t.isotope != ""
    ensures Normalize(Normalize(Text(t))) == t.element + "1" != Normalize(Text(t))
  {
    NormalizeSingle(t);
    RenormalizeMoved(t);
  }
}
