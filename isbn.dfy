/**
 * The ISBN shape check shared by the book DTO and the book schema: the
 * anchored regular expression ^\d{3}-\d{1,5}-\d{1,7}-\d{1,7}-\d{1}$.
 *
 * The expression is modelled as a sequence of atoms matched with
 * backtracking (`Matches`). Independently, `IsbnShape` says what the
 * expression is meant to accept: split the string at its hyphens and
 * require five groups of ASCII digits whose lengths lie in the bounds
 * 3, 1-5, 1-7, 1-7, 1. `ValidIsbnIffShape` proves the two agree, and
 * `ScanIsbn` is a single-pass scanner proved equal to both.
 */
module Isbn {

  /** `\d` in a JavaScript regular expression without the `u` flag: ASCII 0-9 only. */
  predicate IsDigit(c: char) {
    '0' <= c <= '9'
  }

  predicate AllDigits(s: string) {
    forall i :: 0 <= i < |s| ==> IsDigit(s[i])
  }

  predicate HyphenFree(s: string) {
    forall i :: 0 <= i < |s| ==> s[i] != '-'
  }

  // ---------------------------------------------------------------------
  // The regular expression
  // ---------------------------------------------------------------------

  /** One element of the expression: `\d{min,max}` or a literal character. */
  datatype Atom = Digits(min: nat, max: nat) | Lit(c: char)

  type Pattern = seq<Atom>

  /** The fewest characters a match of `p` can take. */
  function MinLen(p: Pattern): nat {
    if p == [] then 0
    else (match p[0] case Digits(min, _) => min case Lit(_) => 1) + MinLen(p[1..])
  }

  /** The most characters a match of `p` can take. */
  function MaxLen(p: Pattern): nat {
    if p == [] then 0
    else (match p[0] case Digits(_, max) => max case Lit(_) => 1) + MaxLen(p[1..])
  }

  /** The whole of `s` matches the pattern `p` (the expression is anchored by ^ and $). */
  predicate Matches(p: Pattern, s: string)
    decreases |p|, |s|, 1
  {
    if p == [] then s == []
    else match p[0]
      case Lit(c) => s != [] && s[0] == c && Matches(p[1..], s[1..])
      case Digits(min, max) => MatchRun(min, max, p[1..], s)
  }

  /**
   * `\d{min,max}` followed by `rest` matches the whole of `s`: either the
   * run may stop here, or one more digit is taken and the run continues.
   */
  predicate MatchRun(min: nat, max: nat, rest: Pattern, s: string)
    decreases |rest| + 1, |s|, 0
  {
    || (min == 0 && Matches(rest, s))
    || (max > 0 && s != [] && IsDigit(s[0]) &&
        MatchRun(if min == 0 then 0 else min - 1, max - 1, rest, s[1..]))
  }

  /** A match is never shorter than the pattern's fewest characters nor longer than its most. */
  lemma {:induction false} MatchBounds(p: Pattern, s: string)
    requires Matches(p, s)
    ensures MinLen(p) <= |s| <= MaxLen(p)
    decreases |p|, |s|, 1
  {
    if p != [] {
      match p[0]
      case Lit(c) => MatchBounds(p[1..], s[1..]);
      case Digits(min, max) => RunBounds(min, max, p[1..], s);
    }
  }

  /** A run `\d{min,max}` takes between `min` and `max` characters more than the rest of the pattern. */
  lemma {:induction false} RunBounds(min: nat, max: nat, rest: Pattern, s: string)
    requires MatchRun(min, max, rest, s)
    ensures min + MinLen(rest) <= |s| <= max + MaxLen(rest)
    decreases |rest| + 1, |s|, 0
  {
    if min == 0 && Matches(rest, s) {
      MatchBounds(rest, s);
    } else {
      RunBounds(if min == 0 then 0 else min - 1, max - 1, rest, s[1..]);
    }
  }

  /** ^\d{3}-\d{1,5}-\d{1,7}-\d{1,7}-\d{1}$ */
  const IsbnRegex: Pattern :=
    [Digits(3, 3), Lit('-'), Digits(1, 5), Lit('-'), Digits(1, 7), Lit('-'),
     Digits(1, 7), Lit('-'), Digits(1, 1)]

  /** What both the DTO's `@Matches` and the schema's `match` validator test. */
  predicate ValidIsbn(s: string)
    ensures ValidIsbn(s) ==> 11 <= |s| <= 27
  {
    if Matches(IsbnRegex, s) then MatchBounds(IsbnRegex, s); true else false
  }

  // ---------------------------------------------------------------------
  // The reference definition: hyphen-separated groups
  // ---------------------------------------------------------------------

  /** The groups of `s` between hyphens; "" gives one empty group. */
  function Split(s: string): (gs: seq<string>)
    ensures |gs| >= 1
    ensures forall j :: 0 <= j < |gs| ==> HyphenFree(gs[j])
  {
    if s == [] then [[]]
    else
      var rest := Split(s[1..]);
      if s[0] == '-' then [[]] + rest
      else [[s[0]] + rest[0]] + rest[1..]
  }

  /** The groups put back together with one hyphen between neighbours. */
  function Join(gs: seq<string>): string
    requires gs != []
  {
    if |gs| == 1 then gs[0] else gs[0] + "-" + Join(gs[1..])
  }

  datatype Bound = Bound(lo: nat, hi: nat)

  predicate Fits(g: string, b: Bound) {
    AllDigits(g) && b.lo <= |g| <= b.hi
  }

  predicate GroupsFit(gs: seq<string>, bs: seq<Bound>) {
    |gs| == |bs| && forall j :: 0 <= j < |gs| ==> Fits(gs[j], bs[j])
  }

  /** The group lengths of the ISBN expression, in order. */
  const IsbnGroups: seq<Bound> :=
    [Bound(3, 3), Bound(1, 5), Bound(1, 7), Bound(1, 7), Bound(1, 1)]

  predicate IsbnShape(s: string) {
    GroupsFit(Split(s), IsbnGroups)
  }

  /** The expression that accepts exactly the digit groups bounded by `bs`, hyphen-separated. */
  function Hyphenated(bs: seq<Bound>): (p: Pattern)
    requires bs != []
    ensures |p| == 2 * |bs| - 1
  {
    if |bs| == 1 then [Digits(bs[0].lo, bs[0].hi)]
    else [Digits(bs[0].lo, bs[0].hi), Lit('-')] + Hyphenated(bs[1..])
  }

  // ---------------------------------------------------------------------
  // Split and Join are inverse
  // ---------------------------------------------------------------------

  /** A hyphen-free prefix joins the first group of what follows it. */
  lemma {:induction false} SplitAfterWord(g: string, t: string)
    requires HyphenFree(g)
    ensures Split(g + t) == [g + Split(t)[0]] + Split(t)[1..]
  {
    if g != [] {
      assert (g + t)[1..] == g[1..] + t;
      SplitAfterWord(g[1..], t);
      assert [g[0]] + (g[1..] + Split(t)[0]) == g + Split(t)[0];
    } else {
      assert g + t == t;
      assert g + Split(t)[0] == Split(t)[0];
      assert [Split(t)[0]] + Split(t)[1..] == Split(t);
    }
  }

  lemma SplitWord(g: string)
    requires HyphenFree(g)
    ensures Split(g) == [g]
  {
    SplitAfterWord(g, []);
    assert g + [] == g;
  }

  lemma SplitAtHyphen(g: string, t: string)
    requires HyphenFree(g)
    ensures Split(g + "-" + t) == [g] + Split(t)
  {
    var h := "-" + t;
    assert h[1..] == t;
    assert Split(h) == [[]] + Split(t);
    SplitAfterWord(g, h);
    assert g + "-" + t == g + h;
    assert g + Split(h)[0] == g;
    assert Split(h)[1..] == Split(t);
  }

  lemma {:induction false} JoinSplit(s: string)
    ensures Join(Split(s)) == s
  {
    if s != [] {
      var rest := Split(s[1..]);
      JoinSplit(s[1..]);
      if s[0] == '-' {
        assert ([[]] + rest)[1..] == rest;
      } else {
        var gs := [[s[0]] + rest[0]] + rest[1..];
        if |rest| > 1 {
          assert gs[1..] == rest[1..];
          assert Join(rest) == rest[0] + "-" + Join(rest[1..]);
        }
      }
    }
  }

  lemma {:induction false} SplitJoin(gs: seq<string>)
    requires gs != []
    requires forall j :: 0 <= j < |gs| ==> HyphenFree(gs[j])
    ensures Split(Join(gs)) == gs
  {
    if |gs| == 1 {
      SplitWord(gs[0]);
    } else {
      SplitJoin(gs[1..]);
      SplitAtHyphen(gs[0], Join(gs[1..]));
      assert [gs[0]] + gs[1..] == gs;
    }
  }

  // ---------------------------------------------------------------------
  // The regular expression accepts exactly the reference shape
  // ---------------------------------------------------------------------

  /** Taking `k` digits is one way for `\d{min,max}` to match. */
  lemma {:induction false} RunIntro(min: nat, max: nat, rest: Pattern, s: string, k: nat)
    requires min <= k <= max && k <= |s|
    requires AllDigits(s[..k]) && Matches(rest, s[k..])
    ensures MatchRun(min, max, rest, s)
    decreases k
  {
    if k > 0 {
      assert IsDigit(s[..k][0]);
      assert s[1..][..k - 1] == s[..k][1..];
      assert s[1..][k - 1..] == s[k..];
      RunIntro(if min == 0 then 0 else min - 1, max - 1, rest, s[1..], k - 1);
    }
  }

  /** Every match of `\d{min,max}` takes some number `k` of digits. */
  lemma {:induction false} RunElim(min: nat, max: nat, rest: Pattern, s: string) returns (k: nat)
    requires MatchRun(min, max, rest, s)
    ensures min <= k <= max && k <= |s|
    ensures AllDigits(s[..k]) && Matches(rest, s[k..])
    decreases |s|
  {
    if min == 0 && Matches(rest, s) {
      k := 0;
      assert s[0..] == s;
    } else {
      var k' := RunElim(if min == 0 then 0 else min - 1, max - 1, rest, s[1..]);
      k := k' + 1;
      assert s[..k] == [s[0]] + s[1..][..k'];
      assert s[k..] == s[1..][k'..];
    }
  }

  /** The first group's digit run and its hyphen, then the rest matched by the remaining atoms. */
  lemma {:induction false} HyphenatedSound(bs: seq<Bound>, s: string)
    requires bs != [] && Matches(Hyphenated(bs), s)
    ensures GroupsFit(Split(s), bs)
  {
    var b := bs[0];
    var p := Hyphenated(bs);
    if |bs| == 1 {
      assert p[1..] == [];
      var k := RunElim(b.lo, b.hi, [], s);
      assert s[..k] == s;
      SplitWord(s);
    } else {
      var q := Hyphenated(bs[1..]);
      assert p[1..] == [Lit('-')] + q;
      var k := RunElim(b.lo, b.hi, [Lit('-')] + q, s);
      var t := s[k + 1..];
      assert s[k..][1..] == t;
      assert Matches(q, t);
      HyphenatedSound(bs[1..], t);
      assert s == s[..k] + "-" + t;
      SplitAtHyphen(s[..k], t);
      var gs := Split(s);
      assert gs == [s[..k]] + Split(t);
      forall j | 0 <= j < |gs| ensures Fits(gs[j], bs[j]) {
        if j > 0 {
          assert gs[j] == Split(t)[j - 1];
          assert bs[j] == bs[1..][j - 1];
        }
      }
    }
  }

  lemma {:induction false} HyphenatedComplete(bs: seq<Bound>, s: string)
    requires bs != [] && GroupsFit(Split(s), bs)
    ensures Matches(Hyphenated(bs), s)
  {
    var b := bs[0];
    var p := Hyphenated(bs);
    var gs := Split(s);
    JoinSplit(s);
    if |bs| == 1 {
      assert p[1..] == [];
      assert s == gs[0];
      assert s[..|s|] == s;
      RunIntro(b.lo, b.hi, [], s, |s|);
    } else {
      var q := Hyphenated(bs[1..]);
      assert p[1..] == [Lit('-')] + q;
      var t := Join(gs[1..]);
      assert s == gs[0] + "-" + t;
      SplitJoin(gs[1..]);
      forall j | 0 <= j < |gs| - 1 ensures Fits(gs[1..][j], bs[1..][j]) {
        assert Fits(gs[j + 1], bs[j + 1]);
      }
      HyphenatedComplete(bs[1..], t);
      var k := |gs[0]|;
      assert s[..k] == gs[0];
      assert s[k..] == "-" + t;
      assert ("-" + t)[1..] == t;
      assert Matches([Lit('-')] + q, s[k..]);
      RunIntro(b.lo, b.hi, [Lit('-')] + q, s, k);
    }
  }

  lemma IsbnRegexIsHyphenated()
    ensures IsbnRegex == Hyphenated(IsbnGroups)
  {
    assert IsbnGroups[4..] == [Bound(1, 1)];
    assert IsbnGroups[3..][1..] == IsbnGroups[4..];
    assert IsbnGroups[2..][1..] == IsbnGroups[3..];
    assert IsbnGroups[1..][1..] == IsbnGroups[2..];
  }

  /** The regular expression accepts a string exactly when it has the five-group shape. */
  lemma ValidIsbnIffShape(s: string)
    ensures ValidIsbn(s) <==> IsbnShape(s)
  {
    IsbnRegexIsHyphenated();
    if ValidIsbn(s) {
      HyphenatedSound(IsbnGroups, s);
    }
    if IsbnShape(s) {
      HyphenatedComplete(IsbnGroups, s);
    }
  }

  // ---------------------------------------------------------------------
  // Consequences for accepted ISBNs
  // ---------------------------------------------------------------------

  function HyphenCount(s: string): nat {
    if s == [] then 0 else (if s[0] == '-' then 1 else 0) + HyphenCount(s[1..])
  }

  function TotalLength(gs: seq<string>): nat {
    if gs == [] then 0 else |gs[0]| + TotalLength(gs[1..])
  }

  function SumLo(bs: seq<Bound>): nat {
    if bs == [] then 0 else bs[0].lo + SumLo(bs[1..])
  }

  function SumHi(bs: seq<Bound>): nat {
    if bs == [] then 0 else bs[0].hi + SumHi(bs[1..])
  }

  lemma {:induction false} HyphenCountConcat(a: string, b: string)
    ensures HyphenCount(a + b) == HyphenCount(a) + HyphenCount(b)
  {
    if a != [] {
      assert (a + b)[1..] == a[1..] + b;
      HyphenCountConcat(a[1..], b);
    } else {
      assert a + b == b;
    }
  }

  lemma {:induction false} HyphenCountFree(g: string)
    requires HyphenFree(g)
    ensures HyphenCount(g) == 0
  {
    if g != [] {
      HyphenCountFree(g[1..]);
    }
  }

  /** Joining `n` hyphen-free groups puts exactly `n - 1` hyphens between them. */
  lemma {:induction false} JoinMeasure(gs: seq<string>)
    requires gs != []
    requires forall j :: 0 <= j < |gs| ==> HyphenFree(gs[j])
    ensures HyphenCount(Join(gs)) == |gs| - 1
    ensures |Join(gs)| == TotalLength(gs) + |gs| - 1
  {
    HyphenCountFree(gs[0]);
    if |gs| > 1 {
      JoinMeasure(gs[1..]);
      HyphenCountConcat(gs[0], "-");
      HyphenCountConcat(gs[0] + "-", Join(gs[1..]));
    } else {
      assert gs[1..] == [];
    }
  }

  lemma {:induction false} JoinAlphabet(gs: seq<string>)
    requires gs != []
    requires forall j :: 0 <= j < |gs| ==> AllDigits(gs[j])
    ensures forall i :: 0 <= i < |Join(gs)| ==> IsDigit(Join(gs)[i]) || Join(gs)[i] == '-'
  {
    if |gs| > 1 {
      JoinAlphabet(gs[1..]);
      var t := Join(gs[1..]);
      forall i | 0 <= i < |Join(gs)| ensures IsDigit(Join(gs)[i]) || Join(gs)[i] == '-' {
        if i > |gs[0]| {
          assert Join(gs)[i] == t[i - |gs[0]| - 1];
        }
      }
    }
  }

  lemma {:induction false} GroupsFitLength(gs: seq<string>, bs: seq<Bound>)
    requires GroupsFit(gs, bs)
    ensures SumLo(bs) <= TotalLength(gs) <= SumHi(bs)
  {
    if gs != [] {
      assert GroupsFit(gs[1..], bs[1..]) by {
        forall j | 0 <= j < |gs| - 1 ensures Fits(gs[1..][j], bs[1..][j]) {
          assert Fits(gs[j + 1], bs[j + 1]);
        }
      }
      GroupsFitLength(gs[1..], bs[1..]);
    }
  }

  /** An accepted ISBN has exactly four hyphens and between 11 and 27 characters. */
  lemma IsbnLayout(s: string)
    requires ValidIsbn(s)
    ensures HyphenCount(s) == 4
    ensures 11 <= |s| <= 27
  {
    ValidIsbnIffShape(s);
    var gs := Split(s);
    JoinSplit(s);
    JoinMeasure(gs);
    GroupsFitLength(gs, IsbnGroups);
    assert SumLo(IsbnGroups) == 7 && SumHi(IsbnGroups) == 23;
  }

  /** An accepted ISBN holds nothing but ASCII digits and hyphens. */
  lemma IsbnAlphabet(s: string)
    requires ValidIsbn(s)
    ensures forall i :: 0 <= i < |s| ==> IsDigit(s[i]) || s[i] == '-'
  {
    ValidIsbnIffShape(s);
    JoinSplit(s);
    JoinAlphabet(Split(s));
  }

  /** So one foreign character anywhere (an `X` check digit, a space, a prefix) rejects the string. */
  lemma RejectsForeignChar(s: string, i: nat)
    requires i < |s| && !IsDigit(s[i]) && s[i] != '-'
    ensures !ValidIsbn(s)
  {
    if ValidIsbn(s) {
      IsbnAlphabet(s);
    }
  }

  /** A string made of groups that fit the five ISBN bounds is accepted. */
  lemma AcceptsGroups(gs: seq<string>)
    requires GroupsFit(gs, IsbnGroups)
    ensures ValidIsbn(Join(gs))
  {
    forall j | 0 <= j < |gs| ensures HyphenFree(gs[j]) {
      assert AllDigits(gs[j]);
    }
    SplitJoin(gs);
    ValidIsbnIffShape(Join(gs));
  }

  /** The example quoted in the DTO's error message is accepted. */
  lemma ExampleAccepted()
    ensures ValidIsbn("978-3-16-148410-0")
  {
    var gs := ["978", "3", "16", "148410", "0"];
    assert Join(gs[4..]) == "0";
    assert Join(gs[3..]) == "148410-0";
    assert Join(gs[2..]) == "16-148410-0";
    assert Join(gs[1..]) == "3-16-148410-0";
    assert Join(gs) == "978-3-16-148410-0";
    assert GroupsFit(gs, IsbnGroups) by {
      forall j | 0 <= j < 5 ensures Fits(gs[j], IsbnGroups[j]) {
        assert AllDigits(gs[j]);
      }
    }
    AcceptsGroups(gs);
  }

  /** A second digit in the last group is one too many. */
  lemma LongCheckDigitRejected()
    ensures !ValidIsbn("978-3-16-148410-00")
  {
    var gs := ["978", "3", "16", "148410", "00"];
    var s := "978-3-16-148410-00";
    assert Join(gs[4..]) == "00";
    assert Join(gs[3..]) == "148410-00";
    assert Join(gs[2..]) == "16-148410-00";
    assert Join(gs[1..]) == "3-16-148410-00";
    assert Join(gs) == s;
    forall j | 0 <= j < |gs| ensures HyphenFree(gs[j]) { }
    SplitJoin(gs);
    ValidIsbnIffShape(s);
    assert !Fits(gs[4], IsbnGroups[4]);
  }

  /** A string without hyphens (an ISBN-13 written as 13 bare digits, say) is rejected. */
  lemma HyphenlessRejected(s: string)
    requires HyphenFree(s)
    ensures !ValidIsbn(s)
  {
    HyphenCountFree(s);
    if ValidIsbn(s) {
      IsbnLayout(s);
    }
  }

  // ---------------------------------------------------------------------
  // A single-pass scanner
  // ---------------------------------------------------------------------

  function Last(gs: seq<string>): string
    requires gs != []
  {
    gs[|gs| - 1]
  }

  /** What appending `c` to `p` does to the groups: a new group, or a longer last one. */
  ghost predicate SnocSplits(p: string, c: char) {
    Split(p + [c]) ==
      if c == '-' then Split(p) + [[]]
      else Split(p)[..|Split(p)| - 1] + [Last(Split(p)) + [c]]
  }

  /** Appending one character either opens a new group or extends the last one. */
  lemma {:induction false} SplitSnoc(p: string, c: char)
    ensures SnocSplits(p, c)
  {
    if p == [] {
      SplitSnocEmpty(c);
    } else {
      SplitSnoc(p[1..], c);
      SplitSnocStep(p, c);
    }
  }

  lemma SplitSnocEmpty(c: char)
    ensures SnocSplits([], c)
  {
    assert [] + [c] == [c];
    assert [c][1..] == [];
    assert Split([]) == [[]];
    if c == '-' {
      assert Split([c]) == [[]] + Split([]);
    } else {
      assert Split([c]) == [[c] + Split([])[0]] + Split([])[1..];
      assert [c] + Split([])[0] == [c];
      assert Split([c]) == [[c]];
      assert Last(Split([])) + [c] == [c];
      assert Split([])[..|Split([])| - 1] == [];
    }
  }

  /** One step of the induction: from the tail of `p` to `p` itself. */
  lemma SplitSnocStep(p: string, c: char)
    requires p != [] && SnocSplits(p[1..], c)
    ensures SnocSplits(p, c)
  {
    var rest := Split(p[1..]);
    assert (p + [c])[1..] == p[1..] + [c];
    var rest' := Split(p[1..] + [c]);
    var n := |rest|;
    if p[0] == '-' {
      assert Split(p) == [[]] + rest;
      assert Split(p + [c]) == [[]] + rest';
      if c != '-' {
        assert Split(p)[..|Split(p)| - 1] == [[]] + rest[..n - 1];
      }
    } else {
      assert Split(p) == [[p[0]] + rest[0]] + rest[1..];
      assert Split(p + [c]) == [[p[0]] + rest'[0]] + rest'[1..];
      if c == '-' {
        assert rest'[0] == rest[0];
        assert rest'[1..] == rest[1..] + [[]];
      } else if n == 1 {
        assert rest' == [rest[0] + [c]];
        assert [p[0]] + (rest[0] + [c]) == ([p[0]] + rest[0]) + [c];
      } else {
        assert rest'[0] == rest[0];
        assert rest'[1..] == rest[1..n - 1] + [rest[n - 1] + [c]];
        assert Split(p)[..|Split(p)| - 1] == [[p[0]] + rest[0]] + rest[1..n - 1];
      }
    }
  }

  /** The groups read so far can still be completed to an accepted ISBN. */
  predicate PrefixFits(gs: seq<string>) {
    && 1 <= |gs| <= |IsbnGroups|
    && (forall j :: 0 <= j < |gs| - 1 ==> Fits(gs[j], IsbnGroups[j]))
    && AllDigits(Last(gs))
    && |Last(gs)| <= IsbnGroups[|gs| - 1].hi
  }

  lemma PrefixFitsHyphen(gs: seq<string>)
    requires gs != []
    ensures PrefixFits(gs + [[]]) <==>
      PrefixFits(gs) && |gs| < |IsbnGroups| && |Last(gs)| >= IsbnGroups[|gs| - 1].lo
  {
    var hs := gs + [[]];
    if PrefixFits(hs) {
      assert Fits(hs[|gs| - 1], IsbnGroups[|gs| - 1]);
      forall j | 0 <= j < |gs| - 1 ensures Fits(gs[j], IsbnGroups[j]) {
        assert hs[j] == gs[j];
      }
    }
  }

  lemma PrefixFitsExtend(gs: seq<string>, c: char)
    requires gs != []
    ensures var hs := gs[..|gs| - 1] + [Last(gs) + [c]];
      PrefixFits(hs) <==> IsDigit(c) && PrefixFits(gs) && |Last(gs)| + 1 <= IsbnGroups[|gs| - 1].hi
  {
    var hs := gs[..|gs| - 1] + [Last(gs) + [c]];
    var w := Last(gs) + [c];
    assert Last(hs) == w;
    assert w[|w| - 1] == c;
    assert forall j :: 0 <= j < |gs| - 1 ==> hs[j] == gs[j];
    if IsDigit(c) && AllDigits(Last(gs)) {
      assert AllDigits(w);
    }
    if AllDigits(w) {
      assert forall k :: 0 <= k < |Last(gs)| ==> Last(gs)[k] == w[k];
    }
  }

  /** Reads `s` once, left to right, tracking the current group and its length. */
  method ScanIsbn(s: string) returns (ok: bool)
    ensures ok == ValidIsbn(s)
  {
    var fits := true;
    var group: nat := 0;
    var len: nat := 0;
    assert s[..0] == [];
    for i := 0 to |s|
      invariant |Split(s[..i])| == group + 1
      invariant |Last(Split(s[..i]))| == len
      invariant fits == PrefixFits(Split(s[..i]))
    {
      var gs := Split(s[..i]);
      assert s[..i + 1] == s[..i] + [s[i]];
      SplitSnoc(s[..i], s[i]);
      if s[i] == '-' {
        PrefixFitsHyphen(gs);
        fits := fits && group + 1 < |IsbnGroups| && len >= IsbnGroups[group].lo;
        group, len := group + 1, 0;
      } else {
        PrefixFitsExtend(gs, s[i]);
        fits := fits && IsDigit(s[i]) && len + 1 <= IsbnGroups[group].hi;
        len := len + 1;
      }
    }
    assert s[..|s|] == s;
    ok := fits && group + 1 == |IsbnGroups| && len >= IsbnGroups[group].lo;
    ValidIsbnIffShape(s);
  }
}
