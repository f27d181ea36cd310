/**
 * The two regular expressions the page updater rewrites with, and Python's
 * `re.sub` over them.
 *
 * Both expressions have the shape `head\d+\+?middle\s*tail`: a literal head,
 * a run of digits, an optional `+`, a literal middle, optional white space
 * and a literal tail (the `\+?` and the `\s*` are present only where the
 * pattern's flags say so). Because the character after the digits is never
 * a digit and the character after the white space is never white space,
 * a backtracking matcher can succeed in only one way, and the greedy scan
 * MatchAt finds it (MatchAtComplete).
 */
module Pattern {
  import opened Wrappers
  import opened Decimal

  /** The characters Python's `\s` accepts in a `str` pattern (those `str.isspace` accepts). */
  predicate IsSpace(c: char) {
    c == ' ' || '\t' <= c <= '\r' || '\U{1c}' <= c <= '\U{1f}' || c == '\U{85}' || c == '\U{a0}'
    || c == '\U{1680}' || '\U{2000}' <= c <= '\U{200a}' || c == '\U{2028}' || c == '\U{2029}'
    || c == '\U{202f}' || c == '\U{205f}' || c == '\U{3000}'
  }

  predicate AllSpaces(s: string) {
    forall k :: 0 <= k < |s| ==> IsSpace(s[k])
  }

  /** One of the expressions `head\d+\+?middle\s*tail`. */
  datatype Pattern = Pattern(head: string, plusAllowed: bool, middle: string, gapAllowed: bool, tail: string)

  /** The conditions under which the expression can match a text in at most one way. */
  predicate WellFormed(p: Pattern) {
    |p.head| > 0 && |p.middle| > 0 && !IsDigit(p.middle[0]) && p.middle[0] != '+'
    && (p.gapAllowed ==> |p.tail| > 0 && !IsSpace(p.tail[0]))
  }

  /** What a match captured: the digits, whether a `+` followed them, and the white space. */
  datatype Match = Match(digits: string, plus: bool, gap: string)

  predicate Wf(p: Pattern, m: Match) {
    |m.digits| > 0 && AllDigits(m.digits) && (m.plus ==> p.plusAllowed)
    && AllSpaces(m.gap) && (!p.gapAllowed ==> m.gap == [])
  }

  /** The optional `+` a match captured. */
  function PlusText(m: Match): string {
    if m.plus then "+" else ""
  }

  /** The part of a match that the substitution replaces: the digits and the optional `+`. */
  function Shown(m: Match): string {
    m.digits + PlusText(m)
  }

  /** The text a match covers. */
  function Render(p: Pattern, m: Match): string {
    p.head + (m.digits + (PlusText(m) + (p.middle + (m.gap + p.tail))))
  }

  /** The text a match is replaced with: everything it covered except the shown value, which becomes v. */
  function Rewrite(p: Pattern, m: Match, v: string): string {
    p.head + (v + (p.middle + (m.gap + p.tail)))
  }

  /** Two texts agree on their common length. */
  predicate Compatible(a: string, b: string) {
    a <= b || b <= a
  }

  /** A text starts with a + b when it starts with a and continues with b. */
  lemma PrefixCons(a: string, b: string, s: string)
    requires a <= s && b <= s[|a|..]
    ensures a + b <= s
  {
    assert (a + b) == s[..|a| + |b|];
  }

  /** The longest run of digits at the start of s (`\d+` is greedy). */
  function DigitRun(s: string): (r: string)
    ensures r <= s && AllDigits(r)
    ensures |r| < |s| ==> !IsDigit(s[|r|])
    decreases |s|
  {
    if |s| > 0 && IsDigit(s[0]) then [s[0]] + DigitRun(s[1..]) else []
  }

  /** The longest run of white space at the start of s (`\s*` is greedy). */
  function SpaceRun(s: string): (r: string)
    ensures r <= s && AllSpaces(r)
    ensures |r| < |s| ==> !IsSpace(s[|r|])
    decreases |s|
  {
    if |s| > 0 && IsSpace(s[0]) then [s[0]] + SpaceRun(s[1..]) else []
  }

  /** The expression tried at the start of s, as `re` does at each position of its scan. */
  function MatchAt(p: Pattern, s: string): (r: Option<Match>)
    ensures r.Some? ==> Wf(p, r.value) && Render(p, r.value) <= s
  {
    if !(p.head <= s) then None
    else
      var rest := s[|p.head|..];
      var digits := DigitRun(rest);
      if |digits| == 0 then None
      else
        var afterDigits := rest[|digits|..];
        var plus := p.plusAllowed && |afterDigits| > 0 && afterDigits[0] == '+';
        var afterPlus := if plus then afterDigits[1..] else afterDigits;
        if !(p.middle <= afterPlus) then None
        else
          var afterMiddle := afterPlus[|p.middle|..];
          var gap := if p.gapAllowed then SpaceRun(afterMiddle) else [];
          if p.tail <= afterMiddle[|gap|..] then
            var m := Match(digits, plus, gap);
            PrefixCons(gap, p.tail, afterMiddle);
            PrefixCons(p.middle, gap + p.tail, afterPlus);
            PrefixCons(PlusText(m), p.middle + (gap + p.tail), afterDigits);
            PrefixCons(digits, PlusText(m) + (p.middle + (gap + p.tail)), rest);
            PrefixCons(p.head, digits + (PlusText(m) + (p.middle + (gap + p.tail))), s);
            Some(m)
          else None
  }

  /** A text starts with a + b exactly when it starts with a and continues with b. */
  lemma PrefixUncons(a: string, b: string, s: string)
    requires a + b <= s
    ensures a <= s && b <= s[|a|..]
  {
    assert s[..|a|] == (a + b)[..|a|] == a;
    assert s[|a|..][..|b|] == (a + b)[|a|..] == b;
  }

  /** A run of digits followed by a non-digit is exactly what `\d+` takes. */
  lemma {:induction false} DigitRunOf(d: string, s: string)
    requires d <= s && AllDigits(d)
    requires |d| < |s| ==> !IsDigit(s[|d|])
    ensures DigitRun(s) == d
  {
    if d != [] {
      DigitRunOf(d[1..], s[1..]);
      assert d == [d[0]] + d[1..];
    }
  }

  /** A run of white space followed by a non-space is exactly what `\s*` takes. */
  lemma {:induction false} SpaceRunOf(g: string, s: string)
    requires g <= s && AllSpaces(g)
    requires |g| < |s| ==> !IsSpace(s[|g|])
    ensures SpaceRun(s) == g
  {
    if g != [] {
      SpaceRunOf(g[1..], s[1..]);
      assert g == [g[0]] + g[1..];
    }
  }

  /**
   * Whenever a text starts with what a match would cover, MatchAt finds that
   * match: together with MatchAt's own postcondition, MatchAt(p, s) == Some(m)
   * exactly when m is a match and s starts with Render(p, m).
   */
  lemma MatchAtComplete(p: Pattern, m: Match, s: string)
    requires WellFormed(p) && Wf(p, m) && Render(p, m) <= s
    ensures MatchAt(p, s) == Some(m)
  {
    var afterMiddle := m.gap + p.tail;
    var afterPlus := p.middle + afterMiddle;
    var afterDigits := PlusText(m) + afterPlus;
    var rest := m.digits + afterDigits;
    PrefixUncons(p.head, rest, s);
    var s1 := s[|p.head|..];
    PrefixUncons(m.digits, afterDigits, s1);
    var s2 := s1[|m.digits|..];
    assert s2[0] == afterDigits[0];
    if m.plus {
      assert afterDigits[0] == '+';
    } else {
      assert afterDigits[0] == p.middle[0];
    }
    DigitRunOf(m.digits, s1);
    PrefixUncons(PlusText(m), afterPlus, s2);
    var s3 := if m.plus then s2[1..] else s2;
    assert s3 == s2[|PlusText(m)|..];
    PrefixUncons(p.middle, afterMiddle, s3);
    var s4 := s3[|p.middle|..];
    PrefixUncons(m.gap, p.tail, s4);
    if p.gapAllowed {
      assert s4[|m.gap|] == p.tail[0];
      SpaceRunOf(m.gap, s4);
    }
    MatchAtUnfold(p, s, m);
  }

  /** MatchAt's steps, one by one, succeed with m. */
  lemma MatchAtUnfold(p: Pattern, s: string, m: Match)
    requires p.head <= s
    requires DigitRun(s[|p.head|..]) == m.digits && |m.digits| > 0
    requires var afterDigits := s[|p.head|..][|m.digits|..];
      (p.plusAllowed && |afterDigits| > 0 && afterDigits[0] == '+') == m.plus
    requires var afterDigits := s[|p.head|..][|m.digits|..];
      var afterPlus := if m.plus then afterDigits[1..] else afterDigits;
      p.middle <= afterPlus
      && (if p.gapAllowed then SpaceRun(afterPlus[|p.middle|..]) else []) == m.gap
      && p.tail <= afterPlus[|p.middle|..][|m.gap|..]
    ensures MatchAt(p, s) == Some(m)
  {
  }

  /**
   * `re.sub(pattern, replacement, s)`: scanning left to right, each match is
   * replaced and the scan resumes after it; characters where no match
   * starts are copied.
   */
  function Substitute(p: Pattern, s: string, v: string): string
    decreases |s|
  {
    if s == [] then []
    else
      match MatchAt(p, s)
      case Some(m) => Rewrite(p, m, v) + Substitute(p, s[|Render(p, m)|..], v)
      case None => [s[0]] + Substitute(p, s[1..], v)
  }

  /** The expression occurs nowhere in s. */
  predicate NoOccurrence(p: Pattern, s: string) {
    forall i :: 0 <= i <= |s| ==> MatchAt(p, s[i..]).None?
  }

  /** Every occurrence of the expression in s already shows v. */
  predicate Settled(p: Pattern, s: string, v: string) {
    forall i :: 0 <= i <= |s| && MatchAt(p, s[i..]).Some? ==> Shown(MatchAt(p, s[i..]).value) == v
  }

  /** The values a substitution can write that the expression itself matches again. */
  predicate ValidValue(p: Pattern, v: string) {
    (|v| > 0 && AllDigits(v))
    || (p.plusAllowed && |v| > 1 && v[|v| - 1] == '+' && AllDigits(v[..|v| - 1]))
  }

  /** The match that a rewritten occurrence forms. */
  function Showing(p: Pattern, m: Match, v: string): (r: Match)
    requires Wf(p, m) && ValidValue(p, v)
    ensures Wf(p, r) && Shown(r) == v && Render(p, r) == Rewrite(p, m, v)
  {
    if |v| > 0 && AllDigits(v) then Match(v, false, m.gap)
    else
      var rest := p.middle + (m.gap + p.tail);
      assert v[..|v| - 1] + ("+" + rest) == v + rest;
      Match(v[..|v| - 1], true, m.gap)
  }

  /**
   * No match of a can run into a following occurrence of b's head: past its
   * first character, a match of a never agrees with b's head on their common
   * length.
   */
  ghost predicate NeverRunsInto(a: Pattern, b: Pattern) {
    forall m, h :: Wf(a, m) && 0 < h < |Render(a, m)| ==> !Compatible(Render(a, m)[h..], b.head)
  }

  /** Two prefixes of one text agree on their common length. */
  lemma PrefixesCompatible(x: string, y: string, s: string)
    requires x <= s && y <= s
    ensures Compatible(x, y)
  {
    if |x| <= |y| {
      assert x == s[..|x|] == y[..|x|];
    } else {
      assert y == s[..|y|] == x[..|y|];
    }
  }

  /** A prefix of x + z is a prefix of x, or x followed by a prefix of z. */
  lemma PrefixSplit(r: string, x: string, z: string)
    requires r <= x + z
    ensures |r| <= |x| ==> r <= x
    ensures |r| > |x| ==> r[|x|..] <= z
  {
    if |r| <= |x| {
      assert r == (x + z)[..|r|] == x[..|r|];
    } else {
      assert r[|x|..] == (x + z)[|x|..|r|] == z[..|r| - |x|];
    }
  }

  /** A prefix of x is a prefix of x + y. */
  lemma PrefixExtend(r: string, x: string, y: string)
    requires r <= x
    ensures r <= x + y
  {
    assert r == x[..|r|] == (x + y)[..|r|];
  }

  /** One differing position makes two texts incompatible. */
  lemma IncompatibleAt(x: string, y: string, j: nat)
    requires j < |x| && j < |y| && x[j] != y[j]
    ensures !Compatible(x, y)
  {
  }

  /** A text that starts with a substitution's output starts with the head, unless it is empty. */
  lemma SubstituteStartsWithHead(b: Pattern, y: string, v: string)
    requires MatchAt(b, y).Some?
    ensures b.head <= Substitute(b, y, v)
  {
    var m := MatchAt(b, y).value;
    assert Substitute(b, y, v) == Rewrite(b, m, v) + Substitute(b, y[|Render(b, m)|..], v);
  }

  /**
   * Wherever a's expression matches at the start of x once y has gone through
   * b's substitution, it matched there before, with the same captures:
   * a match of a never runs into the head that starts every rewritten match of b.
   */
  lemma {:induction false} FrontStable(a: Pattern, b: Pattern, x: string, y: string, v: string)
    requires WellFormed(a) && NeverRunsInto(a, b)
    requires |x| > 0
    ensures MatchAt(a, x + Substitute(b, y, v)).Some? ==> MatchAt(a, x + Substitute(b, y, v)) == MatchAt(a, x + y)
    decreases |y|
  {
    if y == [] {
      assert x + Substitute(b, y, v) == x + y;
    } else if MatchAt(b, y).Some? {
      var z := Substitute(b, y, v);
      SubstituteStartsWithHead(b, y, v);
      if MatchAt(a, x + z).Some? {
        var mm := MatchAt(a, x + z).value;
        var r := Render(a, mm);
        PrefixSplit(r, x, z);
        if |r| <= |x| {
          PrefixExtend(r, x, y);
          MatchAtComplete(a, mm, x + y);
        } else {
          PrefixesCompatible(r[|x|..], b.head, z);
          assert false;
        }
      }
    } else {
      var x' := x + [y[0]];
      assert x' + y[1..] == x + y;
      FrontStable(a, b, x', y[1..], v);
      assert x + Substitute(b, y, v) == x' + Substitute(b, y[1..], v);
    }
  }

  lemma SettledSuffix(p: Pattern, s: string, v: string, k: nat)
    requires k <= |s| && Settled(p, s, v)
    ensures Settled(p, s[k..], v)
  {
    forall i | 0 <= i <= |s| - k
      ensures s[k..][i..] == s[k + i..]
    {
    }
  }

  /** Every occurrence that starts before position n shows v. */
  predicate SettledBefore(p: Pattern, t: string, n: nat, v: string) {
    forall i :: 0 <= i < n && i <= |t| && MatchAt(p, t[i..]).Some? ==> Shown(MatchAt(p, t[i..]).value) == v
  }

  /** Occurrences that start in x, and occurrences in the rest, together make up those of x + rest. */
  lemma SettledConcat(p: Pattern, x: string, rest: string, v: string)
    requires SettledBefore(p, x + rest, |x|, v) && Settled(p, rest, v)
    ensures Settled(p, x + rest, v)
  {
    forall i | |x| <= i <= |x + rest|
      ensures (x + rest)[i..] == rest[i - |x|..]
    {
    }
  }

  /** A match whose shown value is already v is rewritten to itself. */
  lemma RewriteShown(p: Pattern, m: Match)
    ensures Rewrite(p, m, Shown(m)) == Render(p, m)
  {
    var rest := p.middle + (m.gap + p.tail);
    assert (m.digits + PlusText(m)) + rest == m.digits + (PlusText(m) + rest);
  }

  /** Past its first character, a match of b leaves no room for a match of a to start. */
  lemma NoMatchInside(a: Pattern, b: Pattern, mb: Match, rest: string, i: nat)
    requires Wf(b, mb) && NeverRunsInto(b, a)
    requires 0 < i < |Render(b, mb)|
    ensures MatchAt(a, (Render(b, mb) + rest)[i..]).None?
  {
    var t := (Render(b, mb) + rest)[i..];
    if MatchAt(a, t).Some? {
      assert Render(b, mb)[i..] <= t;
      PrefixesCompatible(Render(b, mb)[i..], a.head, t);
      assert false;
    }
  }

  /** In a text that starts with a match showing v, the occurrences starting inside that match show v. */
  lemma RenderedFront(p: Pattern, m: Match, rest: string, v: string)
    requires WellFormed(p) && NeverRunsInto(p, p) && Wf(p, m) && Shown(m) == v
    ensures SettledBefore(p, Render(p, m) + rest, |Render(p, m)|, v)
  {
    var t := Render(p, m) + rest;
    forall i | 0 <= i < |Render(p, m)| && MatchAt(p, t[i..]).Some?
      ensures Shown(MatchAt(p, t[i..]).value) == v
    {
      if i == 0 {
        assert t[0..] == t;
        PrefixExtend(Render(p, m), Render(p, m), rest);
        MatchAtComplete(p, m, t);
      } else {
        NoMatchInside(p, p, m, rest, i);
      }
    }
  }

  /** The occurrence at the very start of a settled text shows v. */
  lemma SettledAtStart(p: Pattern, s: string, v: string)
    requires Settled(p, s, v) && MatchAt(p, s).Some?
    ensures Shown(MatchAt(p, s).value) == v
  {
    assert s[0..] == s;
  }

  /** A text that starts with r is r followed by the rest. */
  lemma PrefixRest(r: string, s: string)
    requires r <= s
    ensures s == r + s[|r|..]
  {
  }

  /** A text whose occurrences all show v is left as it is by substituting v. */
  lemma {:induction false} SubstituteSettled(p: Pattern, s: string, v: string)
    requires Settled(p, s, v)
    ensures Substitute(p, s, v) == s
    decreases |s|
  {
    if s != [] {
      match MatchAt(p, s)
      case Some(m) =>
        var n := |Render(p, m)|;
        SettledAtStart(p, s, v);
        SettledSuffix(p, s, v, n);
        SubstituteSettled(p, s[n..], v);
        RewriteShown(p, m);
        PrefixRest(Render(p, m), s);
      case None =>
        SettledSuffix(p, s, v, 1);
        SubstituteSettled(p, s[1..], v);
        PrefixRest([s[0]], s);
    }
  }

  /** A text without occurrences comes through the substitution unchanged. */
  lemma SubstituteWithoutOccurrence(p: Pattern, s: string, v: string)
    requires NoOccurrence(p, s)
    ensures Substitute(p, s, v) == s
  {
    SubstituteSettled(p, s, v);
  }

  /**
   * After the substitution every occurrence of the expression shows v: the
   * scan missed none, and the rewritten text creates no new one.
   */
  lemma {:induction false} SubstituteSettles(p: Pattern, s: string, v: string)
    requires WellFormed(p) && NeverRunsInto(p, p) && ValidValue(p, v)
    ensures Settled(p, Substitute(p, s, v), v)
    decreases |s|
  {
    var out := Substitute(p, s, v);
    if s == [] {
      assert forall i | 0 <= i <= |out| :: out[i..] == [];
    } else {
      match MatchAt(p, s)
      case Some(m) =>
        var rest := s[|Render(p, m)|..];
        SubstituteSettles(p, rest, v);
        var m' := Showing(p, m, v);
        RenderedFront(p, m', Substitute(p, rest, v), v);
        SettledConcat(p, Render(p, m'), Substitute(p, rest, v), v);
      case None =>
        var outRest := Substitute(p, s[1..], v);
        SubstituteSettles(p, s[1..], v);
        assert [s[0]] + s[1..] == s;
        FrontStable(p, p, [s[0]], s[1..], v);
        assert ([s[0]] + outRest)[0..] == [s[0]] + outRest;
        SettledConcat(p, [s[0]], outRest, v);
    }
  }

  /**
   * Substituting with b leaves every occurrence of a showing what it showed,
   * provided the two expressions cannot overlap.
   */
  lemma {:induction false} SettledAcross(a: Pattern, b: Pattern, u: string, va: string, vb: string)
    requires WellFormed(a) && WellFormed(b) && a.head[0] != b.head[0]
    requires NeverRunsInto(a, b) && NeverRunsInto(b, a) && ValidValue(b, vb)
    requires Settled(a, u, va)
    ensures Settled(a, Substitute(b, u, vb), va)
    decreases |u|
  {
    var out := Substitute(b, u, vb);
    if u == [] {
      assert forall i | 0 <= i <= |out| :: out[i..] == [];
    } else {
      match MatchAt(b, u)
      case Some(m) =>
        var rest := u[|Render(b, m)|..];
        var outRest := Substitute(b, rest, vb);
        SettledSuffix(a, u, va, |Render(b, m)|);
        SettledAcross(a, b, rest, va, vb);
        var m' := Showing(b, m, vb);
        OtherFront(a, b, m', outRest, va);
        SettledConcat(a, Render(b, m'), outRest, va);
      case None =>
        var outRest := Substitute(b, u[1..], vb);
        SettledSuffix(a, u, va, 1);
        SettledAcross(a, b, u[1..], va, vb);
        KeptFront(a, b, u, va, vb);
        SettledConcat(a, [u[0]], outRest, va);
    }
  }

  /** No match of a starts inside a rewritten match of b, whose head a's head does not share. */
  lemma OtherFront(a: Pattern, b: Pattern, m: Match, rest: string, va: string)
    requires |a.head| > 0 && |b.head| > 0 && a.head[0] != b.head[0]
    requires Wf(b, m) && NeverRunsInto(b, a)
    ensures SettledBefore(a, Render(b, m) + rest, |Render(b, m)|, va)
  {
    var t := Render(b, m) + rest;
    forall i | 0 <= i < |Render(b, m)|
      ensures MatchAt(a, t[i..]).None?
    {
      if i == 0 {
        assert t[0..] == t;
        IncompatibleAt(t, a.head, 0);
      } else {
        NoMatchInside(a, b, m, rest, i);
      }
    }
  }

  /** A character that b's substitution copies keeps what a's occurrence starting there shows. */
  lemma KeptFront(a: Pattern, b: Pattern, u: string, va: string, vb: string)
    requires WellFormed(a) && NeverRunsInto(a, b) && |u| > 0 && Settled(a, u, va)
    ensures SettledBefore(a, [u[0]] + Substitute(b, u[1..], vb), 1, va)
  {
    var outRest := Substitute(b, u[1..], vb);
    assert u[0..] == u;
    assert [u[0]] + u[1..] == u;
    FrontStable(a, b, [u[0]], u[1..], vb);
    assert ([u[0]] + outRest)[0..] == [u[0]] + outRest;
  }

  /** One step of the scan: a copied character or a replaced match. */
  datatype Piece = Kept(c: char) | Replaced(m: Match)

  /** The text one piece came from. */
  function PieceText(p: Pattern, pc: Piece): string {
    match pc
    case Kept(c) => [c]
    case Replaced(m) => Render(p, m)
  }

  /** The text one piece turns into when its match shows v. */
  function PieceRewrite(p: Pattern, pc: Piece, v: string): string {
    match pc
    case Kept(c) => [c]
    case Replaced(m) => Rewrite(p, m, v)
  }

  /** The text the pieces came from. */
  function Original(p: Pattern, ps: seq<Piece>): string
    decreases |ps|
  {
    if ps == [] then [] else PieceText(p, ps[0]) + Original(p, ps[1..])
  }

  /** The text the pieces turn into when every match shows v. */
  function Rewritten(p: Pattern, ps: seq<Piece>, v: string): string
    decreases |ps|
  {
    if ps == [] then [] else PieceRewrite(p, ps[0], v) + Rewritten(p, ps[1..], v)
  }

  /** Every replaced piece holds a match of the expression. */
  predicate PiecesWf(p: Pattern, ps: seq<Piece>) {
    forall k :: 0 <= k < |ps| && ps[k].Replaced? ==> Wf(p, ps[k].m)
  }

  lemma PiecesCons(p: Pattern, pc: Piece, rest: seq<Piece>, v: string)
    ensures Original(p, [pc] + rest) == PieceText(p, pc) + Original(p, rest)
    ensures Rewritten(p, [pc] + rest, v) == PieceRewrite(p, pc, v) + Rewritten(p, rest, v)
    ensures PiecesWf(p, rest) && (pc.Replaced? ==> Wf(p, pc.m)) ==> PiecesWf(p, [pc] + rest)
  {
    assert ([pc] + rest)[1..] == rest;
  }

  /** The scan `re.sub` makes over s, cut into copied characters and matches. */
  function Scan(p: Pattern, s: string): (ps: seq<Piece>)
    ensures Original(p, ps) == s && PiecesWf(p, ps)
    decreases |s|
  {
    if s == [] then []
    else
      match MatchAt(p, s)
      case Some(m) =>
        var n := |Render(p, m)|;
        var rest := Scan(p, s[n..]);
        PiecesCons(p, Replaced(m), rest, []);
        PrefixRest(Render(p, m), s);
        [Replaced(m)] + rest
      case None =>
        var rest := Scan(p, s[1..]);
        PiecesCons(p, Kept(s[0]), rest, []);
        PrefixRest([s[0]], s);
        [Kept(s[0])] + rest
  }

  /**
   * Nothing outside the matches changes: the substitution's output is the
   * scan of the input with every match rewritten and every other character
   * kept, and each rewritten match keeps its head, middle, white space and
   * tail.
   */
  lemma {:induction false} SubstituteIsRewrittenScan(p: Pattern, s: string, v: string)
    ensures Substitute(p, s, v) == Rewritten(p, Scan(p, s), v)
    decreases |s|
  {
    if s != [] {
      match MatchAt(p, s)
      case Some(m) =>
        var rest := s[|Render(p, m)|..];
        SubstituteIsRewrittenScan(p, rest, v);
        PiecesCons(p, Replaced(m), Scan(p, rest), v);
      case None =>
        SubstituteIsRewrittenScan(p, s[1..], v);
        PiecesCons(p, Kept(s[0]), Scan(p, s[1..]), v);
    }
  }

  /** The two texts disagree at a position both have. */
  predicate Differs(u: string, w: string) {
    exists j :: 0 <= j < |u| && j < |w| && u[j] != w[j]
  }

  /** No position of x can begin a text that agrees with w, whatever follows x. */
  predicate Blocks(x: string, w: string) {
    forall h :: 0 <= h < |x| ==> Differs(x[h..], w)
  }

  /** A disagreement survives whatever follows. */
  lemma DiffersExtend(u: string, z: string, w: string)
    requires Differs(u, w)
    ensures Differs(u + z, w) && !Compatible(u + z, w)
  {
    var j :| 0 <= j < |u| && j < |w| && u[j] != w[j];
    assert (u + z)[j] == u[j];
  }

  /** A text none of whose characters is w's first character blocks w. */
  lemma BlocksByFirst(x: string, w: string)
    requires |w| > 0 && forall k :: 0 <= k < |x| ==> x[k] != w[0]
    ensures Blocks(x, w)
  {
    forall h | 0 <= h < |x|
      ensures Differs(x[h..], w)
    {
      assert x[h..][0] == x[h];
    }
  }

  /** A text that disagrees with w, and has w's first character nowhere else, blocks w. */
  lemma BlocksExceptFirst(x: string, w: string)
    requires |w| > 0 && Differs(x, w) && forall k :: 0 < k < |x| ==> x[k] != w[0]
    ensures Blocks(x, w)
  {
    BlocksByFirst(x[1..], w);
    forall h | 0 <= h < |x|
      ensures Differs(x[h..], w)
    {
      if h == 0 {
        assert x[h..] == x;
      } else {
        assert x[h..] == x[1..][h - 1..];
      }
    }
  }

  lemma BlocksConcat(x: string, y: string, w: string)
    requires Blocks(x, w) && Blocks(y, w)
    ensures Blocks(x + y, w)
  {
    forall h | 0 <= h < |x + y|
      ensures Differs((x + y)[h..], w)
    {
      if h < |x| {
        assert (x + y)[h..] == x[h..] + y;
        DiffersExtend(x[h..], y, w);
      } else {
        assert (x + y)[h..] == y[h - |x|..];
      }
    }
  }

  /**
   * A match of a never runs into b's head when every part of a match, past
   * its first character, blocks that head.
   */
  lemma NeverRunsIntoByParts(a: Pattern, b: Pattern)
    requires |a.head| > 0 && |b.head| > 0
    requires !IsDigit(b.head[0]) && b.head[0] != '+' && !IsSpace(b.head[0])
    requires Blocks(a.head[1..], b.head) && Blocks(a.middle, b.head) && Blocks(a.tail, b.head)
    ensures NeverRunsInto(a, b)
  {
    forall m, h | Wf(a, m) && 0 < h < |Render(a, m)|
      ensures !Compatible(Render(a, m)[h..], b.head)
    {
      BlocksByFirst(m.digits, b.head);
      BlocksByFirst(PlusText(m), b.head);
      BlocksByFirst(m.gap, b.head);
      BlocksConcat(m.gap, a.tail, b.head);
      BlocksConcat(a.middle, m.gap + a.tail, b.head);
      BlocksConcat(PlusText(m), a.middle + (m.gap + a.tail), b.head);
      BlocksConcat(m.digits, PlusText(m) + (a.middle + (m.gap + a.tail)), b.head);
      var body := m.digits + (PlusText(m) + (a.middle + (m.gap + a.tail)));
      BlocksConcat(a.head[1..], body, b.head);
      assert Render(a, m) == [a.head[0]] + (a.head[1..] + body);
      assert Render(a, m)[h..] == (a.head[1..] + body)[h - 1..];
      DiffersExtend(Render(a, m)[h..], [], b.head);
      assert Render(a, m)[h..] + [] == Render(a, m)[h..];
    }
  }
}
