/** Fixed token patterns: the shape of both regular expressions the scanner
    applies to a manifest. A pattern is a sequence of pieces; a piece is either
    a literal token or a starred character class (`\s*` or `[^>]*`).
    `Accepts` and `Matches` give the meaning of a pattern declaratively;
    `MatchHere` and `IsMatch` are the executable backtracking matcher, proved
    to agree with them. */
module TokenPattern {

  /** `\s` of the regex crate: a character with the Unicode White_Space property. */
  predicate IsWs(c: char) {
    || ('\U{9}' <= c <= '\U{D}')
    || c == '\U{20}' || c == '\U{85}' || c == '\U{A0}' || c == '\U{1680}'
    || ('\U{2000}' <= c <= '\U{200A}')
    || c == '\U{2028}' || c == '\U{2029}' || c == '\U{202F}' || c == '\U{205F}' || c == '\U{3000}'
  }

  /** The two character classes the patterns repeat: `\s` and `[^>]`. */
  datatype CharClass = Space | NotGt

  predicate InClass(cls: CharClass, c: char) {
    match cls
    case Space => IsWs(c)
    case NotGt => c != '>'
  }

  /** A literal token, or zero or more characters of a class. */
  datatype Piece = Lit(token: string) | Star(cls: CharClass)

  type Pattern = seq<Piece>

  ghost predicate AllIn(cls: CharClass, u: string) {
    forall k :: 0 <= k < |u| ==> InClass(cls, u[k])
  }

  /** The words one piece stands for. */
  ghost predicate PieceAccepts(q: Piece, u: string) {
    match q
    case Lit(s) => u == s
    case Star(cls) => AllIn(cls, u)
  }

  /** `w` splits into one word per piece, in order: the whole of `w` is in the
      pattern's language. */
  ghost predicate Accepts(p: Pattern, w: string)
    decreases |p|
  {
    if p == [] then w == []
    else exists k :: 0 <= k <= |w| && PieceAccepts(p[0], w[..k]) && Accepts(p[1..], w[k..])
  }

  /** Unanchored search, as `Regex::is_match`: some substring of `t` is in the
      pattern's language. */
  ghost predicate Matches(p: Pattern, t: string) {
    exists i, j :: 0 <= i <= j <= |t| && Accepts(p, t[i..j])
  }

  /** `s` occurs in `t` starting at index `i`. */
  ghost predicate OccursAt(t: string, s: string, i: nat) {
    i + |s| <= |t| && t[i..i + |s|] == s
  }

  /** `s` occurs in `t` as a contiguous substring. */
  ghost predicate Contains(t: string, s: string) {
    exists i: nat :: OccursAt(t, s, i)
  }

  /** Does some prefix of `w` match `p`?  Literal tokens are compared outright;
      a starred class first tries to stop, then to take one more character. */
  function MatchHere(p: Pattern, w: string): bool
    decreases |p|, |w|
  {
    if p == [] then true
    else match p[0]
      case Lit(s) => |s| <= |w| && w[..|s|] == s && MatchHere(p[1..], w[|s|..])
      case Star(cls) =>
        MatchHere(p[1..], w) || (|w| > 0 && InClass(cls, w[0]) && MatchHere(p, w[1..]))
  }

  /** Tries every start position of `t`, leftmost first. */
  function IsMatch(p: Pattern, t: string): bool
  {
    MatchHere(p, t) || (|t| > 0 && IsMatch(p, t[1..]))
  }

  lemma {:induction false} MatchHereSound(p: Pattern, w: string)
    requires MatchHere(p, w)
    ensures exists j :: 0 <= j <= |w| && Accepts(p, w[..j])
    decreases |p|, |w|
  {
    if p == [] {
      assert Accepts(p, w[..0]);
    } else {
      match p[0]
      case Lit(s) =>
        MatchHereSound(p[1..], w[|s|..]);
        var j' :| 0 <= j' <= |w[|s|..]| && Accepts(p[1..], w[|s|..][..j']);
        LitPrefixBuild(p, w, j');
      case Star(cls) =>
        if MatchHere(p[1..], w) {
          MatchHereSound(p[1..], w);
          var j :| 0 <= j <= |w| && Accepts(p[1..], w[..j]);
          var u := w[..j];
          assert u[..0] == [] && u[0..] == u;
          assert Accepts(p, u);
        } else {
          MatchHereSound(p, w[1..]);
          var j' :| 0 <= j' <= |w[1..]| && Accepts(p, w[1..][..j']);
          var k' :| 0 <= k' <= j' && PieceAccepts(p[0], w[1..][..j'][..k']) && Accepts(p[1..], w[1..][..j'][k'..]);
          StarPrefixBuild(p, w, j', k');
        }
    }
  }

  /** The token followed by a prefix accepted by the other pieces. */
  lemma LitPrefixBuild(p: Pattern, w: string, j: nat)
    requires p != [] && p[0].Lit? && |p[0].token| <= |w| && w[..|p[0].token|] == p[0].token
    requires j <= |w| - |p[0].token| && Accepts(p[1..], w[|p[0].token|..][..j])
    ensures Accepts(p, w[..|p[0].token| + j])
  {
    var s := p[0].token;
    var u := w[..|s| + j];
    assert u[..|s|] == s;
    assert u[|s|..] == w[|s|..][..j];
  }

  /** A character of the class in front of a prefix the starred pattern accepts. */
  lemma StarPrefixBuild(p: Pattern, w: string, j: nat, k: nat)
    requires p != [] && p[0].Star? && 0 < |w| && InClass(p[0].cls, w[0])
    requires k <= j <= |w| - 1
    requires PieceAccepts(p[0], w[1..][..j][..k]) && Accepts(p[1..], w[1..][..j][k..])
    ensures Accepts(p, w[..j + 1])
  {
    var u := w[..j + 1];
    var v := w[1..][..j];
    var a := u[..k + 1];
    forall x | 0 <= x < |a|
      ensures InClass(p[0].cls, a[x])
    {
      if x > 0 {
        assert a[x] == v[..k][x - 1];
      }
    }
    assert PieceAccepts(p[0], a);
    assert forall x :: 0 <= x < j - k ==> u[k + 1..][x] == w[k + 1 + x] == v[k..][x];
    assert u[k + 1..] == v[k..];
  }

  lemma {:induction false} MatchHereComplete(p: Pattern, w: string, j: nat)
    requires j <= |w| && Accepts(p, w[..j])
    ensures MatchHere(p, w)
    decreases |p|, |w|
  {
    if p != [] {
      var u := w[..j];
      var k :| 0 <= k <= |u| && PieceAccepts(p[0], u[..k]) && Accepts(p[1..], u[k..]);
      match p[0]
      case Lit(s) =>
        PrefixLitStep(p, w, j, k);
        MatchHereComplete(p[1..], w[|s|..], j - |s|);
      case Star(cls) =>
        if k == 0 {
          assert u[k..] == w[..j];
          MatchHereComplete(p[1..], w, j);
        } else {
          PrefixStarStep(p, w, j, k);
          MatchHereComplete(p, w[1..], j - 1);
        }
    }
  }

  /** A prefix accepted by a pattern opening with a literal starts with the
      token, and the rest of the prefix is accepted by the other pieces. */
  lemma PrefixLitStep(p: Pattern, w: string, j: nat, k: nat)
    requires p != [] && p[0].Lit? && k <= j <= |w|
    requires PieceAccepts(p[0], w[..j][..k]) && Accepts(p[1..], w[..j][k..])
    ensures k == |p[0].token| && w[..k] == p[0].token && Accepts(p[1..], w[k..][..j - k])
  {
    assert w[..j][..k] == w[..k];
    assert w[..j][k..] == w[k..][..j - k];
  }

  /** A prefix accepted by a pattern opening with a starred class, whose first
      word is not empty, starts with a character of the class, and the rest of
      the prefix is accepted by the same pattern. */
  lemma PrefixStarStep(p: Pattern, w: string, j: nat, k: nat)
    requires p != [] && p[0].Star? && 0 < k <= j <= |w|
    requires PieceAccepts(p[0], w[..j][..k]) && Accepts(p[1..], w[..j][k..])
    ensures InClass(p[0].cls, w[0]) && Accepts(p, w[1..][..j - 1])
  {
    var u := w[..j];
    assert u[..k][0] == w[0];
    var v := w[1..][..j - 1];
    assert forall x :: 0 <= x < k - 1 ==> v[x] == w[x + 1] == u[..k][1..][x];
    assert v[..k - 1] == u[..k][1..];
    assert forall x :: 0 <= x < j - k ==> v[k - 1 + x] == w[k + x] == u[k..][x];
    assert v[k - 1..] == u[k..];
    assert PieceAccepts(p[0], v[..k - 1]);
  }

  /** The matcher finds a match at the front of `w` exactly when some prefix of
      `w` is in the pattern's language. */
  lemma MatchHereCorrect(p: Pattern, w: string)
    ensures MatchHere(p, w) <==> exists j :: 0 <= j <= |w| && Accepts(p, w[..j])
  {
    if MatchHere(p, w) {
      MatchHereSound(p, w);
    }
    if j :| 0 <= j <= |w| && Accepts(p, w[..j]) {
      MatchHereComplete(p, w, j);
    }
  }

  /** The executable search agrees with the declarative unanchored match. */
  lemma {:induction false} IsMatchCorrect(p: Pattern, t: string)
    ensures IsMatch(p, t) <==> Matches(p, t)
    decreases |t|
  {
    MatchHereCorrect(p, t);
    if |t| > 0 {
      IsMatchCorrect(p, t[1..]);
    }
    if MatchHere(p, t) {
      var j :| 0 <= j <= |t| && Accepts(p, t[..j]);
      assert t[0..j] == t[..j];
    } else if |t| > 0 && IsMatch(p, t[1..]) {
      var i, j :| 0 <= i <= j <= |t[1..]| && Accepts(p, t[1..][i..j]);
      DropOneSlice(t, i, j);
      assert Accepts(p, t[i + 1..j + 1]);
    }
    if Matches(p, t) {
      var i, j :| 0 <= i <= j <= |t| && Accepts(p, t[i..j]);
      if i == 0 {
        assert t[..j] == t[i..j];
      } else {
        DropOneSlice(t, i - 1, j - 1);
        assert Matches(p, t[1..]);
      }
    }
  }

  /** A text that is a word of the pattern's language is matched. (The word is
      passed separately so that callers can supply it in whatever grouping
      their proof built it.) */
  lemma AcceptedIsMatch(p: Pattern, u: string, t: string)
    requires Accepts(p, u) && u == t
    ensures IsMatch(p, t)
  {
    assert t[0..|t|] == t;
    IsMatchCorrect(p, t);
  }

  /** Matching is unanchored: text around a match never removes it. */
  lemma MatchesExtend(p: Pattern, t: string, pre: string, suf: string)
    requires Matches(p, t)
    ensures Matches(p, pre + t + suf)
  {
    var i, j :| 0 <= i <= j <= |t| && Accepts(p, t[i..j]);
    assert (pre + t + suf)[|pre| + i..|pre| + j] == t[i..j];
  }

  /** The same for the executable search. */
  lemma IsMatchExtend(p: Pattern, t: string, pre: string, suf: string)
    requires IsMatch(p, t)
    ensures IsMatch(p, pre + t + suf)
  {
    IsMatchCorrect(p, t);
    MatchesExtend(p, t, pre, suf);
    IsMatchCorrect(p, pre + t + suf);
  }

  /** Every literal token of a pattern occurs in every word it accepts. */
  lemma {:induction false} AcceptsContainsToken(p: Pattern, w: string, n: nat)
    requires Accepts(p, w) && n < |p| && p[n].Lit?
    ensures Contains(w, p[n].token)
    decreases n
  {
    var s := p[n].token;
    var k :| 0 <= k <= |w| && PieceAccepts(p[0], w[..k]) && Accepts(p[1..], w[k..]);
    if n == 0 {
      PrefixOccurs(w, s, k);
    } else {
      AcceptsContainsToken(p[1..], w[k..], n - 1);
      var i: nat :| OccursAt(w[k..], s, i);
      assert w[k..] == w[k..|w|];
      OccursInSlice(w, k, |w|, s, i);
    }
  }

  /** A slice of the text without its first character. */
  lemma DropOneSlice(t: string, i: nat, j: nat)
    requires 0 < |t| && i <= j <= |t| - 1
    ensures t[1..][i..j] == t[i + 1..j + 1]
  {
    assert t[1..] == t[1..|t|];
    SliceOfSlice(t, 1, |t|, i, j);
  }

  /** A prefix occurs at index 0. */
  lemma PrefixOccurs(w: string, s: string, k: nat)
    requires k <= |w| && w[..k] == s
    ensures OccursAt(w, s, 0)
  {
    assert w[0..0 + |s|] == w[..k];
  }

  /** Every literal token of a pattern occurs in every text it matches. */
  lemma MatchesContainsToken(p: Pattern, t: string, n: nat)
    requires Matches(p, t) && n < |p| && p[n].Lit?
    ensures Contains(t, p[n].token)
  {
    var i, j :| 0 <= i <= j <= |t| && Accepts(p, t[i..j]);
    AcceptsContainsToken(p, t[i..j], n);
    var m: nat :| OccursAt(t[i..j], p[n].token, m);
    OccursInSlice(t, i, j, p[n].token, m);
  }

  /** An occurrence inside a slice is an occurrence in the whole text. */
  lemma OccursInSlice(t: string, i: nat, j: nat, s: string, m: nat)
    requires i <= j <= |t| && OccursAt(t[i..j], s, m)
    ensures OccursAt(t, s, i + m)
  {
    SliceOfSlice(t, i, j, m, m + |s|);
  }

  /** A text in which two adjacent characters of a literal token never stand
      side by side does not match the pattern. */
  lemma NoPairNoMatch(p: Pattern, n: nat, m: nat, t: string)
    requires n < |p| && p[n].Lit? && m + 1 < |p[n].token|
    requires NoPair(t, p[n].token[m], p[n].token[m + 1])
    ensures !IsMatch(p, t)
  {
    NoPairNotContains(t, p[n].token, m);
    IsMatchCorrect(p, t);
    if Matches(p, t) {
      MatchesContainsToken(p, t, n);
    }
  }

  /** A character of a substring is a character of the text. */
  lemma ContainsChar(t: string, s: string, c: char)
    requires Contains(t, s) && c in s
    ensures c in t
  {
    var i: nat :| OccursAt(t, s, i);
    var m :| 0 <= m < |s| && s[m] == c;
    assert t[i + m] == t[i..i + |s|][m];
  }

  /** No `a` in `t` is directly followed by `b`. */
  predicate NoPair(t: string, a: char, b: char) {
    forall i :: 0 <= i < |t| - 1 ==> !(t[i] == a && t[i + 1] == b)
  }

  /** A text without two adjacent characters of `s` side by side does not
      contain `s`. */
  lemma NoPairNotContains(t: string, s: string, m: nat)
    requires m + 1 < |s| && NoPair(t, s[m], s[m + 1])
    ensures !Contains(t, s)
  {
    forall i: nat
      ensures !OccursAt(t, s, i)
    {
      if i + |s| <= |t| {
        assert t[i..i + |s|][m] == t[i + m] && t[i..i + |s|][m + 1] == t[i + m + 1];
      }
    }
  }

  lemma NoPairConcat(x: string, y: string, a: char, b: char)
    requires NoPair(x, a, b) && NoPair(y, a, b)
    requires x == [] || y == [] || !(x[|x| - 1] == a && y[0] == b)
    ensures NoPair(x + y, a, b)
  {
    forall i | 0 <= i < |x + y| - 1
      ensures !((x + y)[i] == a && (x + y)[i + 1] == b)
    {
      if i + 1 < |x| {
        assert (x + y)[i] == x[i] && (x + y)[i + 1] == x[i + 1];
      } else if i >= |x| {
        assert (x + y)[i] == y[i - |x|] && (x + y)[i + 1] == y[i - |x| + 1];
      }
    }
  }

  lemma SliceOfSlice(t: string, i: nat, j: nat, a: nat, b: nat)
    requires i <= j <= |t| && a <= b <= j - i
    ensures t[i..j][a..b] == t[i + a..i + b]
  {
    assert forall x :: 0 <= x < b - a ==> t[i..j][a..b][x] == t[i + a + x];
  }

  // Step lemmas: how `Accepts` unfolds at a literal and at a starred class.

  lemma AcceptsLitHead(p: Pattern, w: string)
    requires |p| > 0 && p[0].Lit?
    ensures Accepts(p, w) <==>
      (|p[0].token| <= |w| && w[..|p[0].token|] == p[0].token && Accepts(p[1..], w[|p[0].token|..]))
  {
    var s := p[0].token;
    if |s| <= |w| && w[..|s|] == s && Accepts(p[1..], w[|s|..]) {
      assert PieceAccepts(p[0], w[..|s|]);
    }
  }

  /** A word of the first piece followed by a word of the other pieces. */
  lemma AcceptsHeadThen(p: Pattern, u: string, rest: string)
    requires p != [] && PieceAccepts(p[0], u) && Accepts(p[1..], rest)
    ensures Accepts(p, u + rest)
  {
    assert (u + rest)[..|u|] == u;
    assert (u + rest)[|u|..] == rest;
  }

  // Patterns that are tokens separated by runs of a class, and their words.

  /** `tokens[0] gaps[0]* tokens[1] gaps[1]* ... tokens[n]` as a pattern. */
  function Interleave(tokens: seq<string>, gaps: seq<CharClass>): (p: Pattern)
    requires |tokens| == |gaps| + 1
    ensures |p| == |tokens| + |gaps|
    ensures forall n :: 0 <= n < |tokens| ==> p[2 * n] == Lit(tokens[n])
    ensures forall n :: 0 <= n < |gaps| ==> p[2 * n + 1] == Star(gaps[n])
    decreases |gaps|
  {
    if gaps == [] then [Lit(tokens[0])]
    else [Lit(tokens[0]), Star(gaps[0])] + Interleave(tokens[1..], gaps[1..])
  }

  /** The tokens with `runs[n]` written between `tokens[n]` and `tokens[n + 1]`. */
  function Fill(tokens: seq<string>, runs: seq<string>): string
    requires |tokens| == |runs| + 1
    decreases |runs|
  {
    if runs == [] then tokens[0]
    else tokens[0] + runs[0] + Fill(tokens[1..], runs[1..])
  }

  /** Whatever runs of the gap classes are written between the tokens, the
      interleaved pattern accepts the result. */
  lemma {:induction false} FillAccepted(tokens: seq<string>, gaps: seq<CharClass>, runs: seq<string>)
    requires |tokens| == |gaps| + 1 && |runs| == |gaps|
    requires forall n :: 0 <= n < |runs| ==> AllIn(gaps[n], runs[n])
    ensures Accepts(Interleave(tokens, gaps), Fill(tokens, runs))
    decreases |gaps|
  {
    var p := Interleave(tokens, gaps);
    if gaps == [] {
      assert Accepts(p[1..], []);
      AcceptsHeadThen(p, tokens[0], []);
      assert tokens[0] + [] == tokens[0];
    } else {
      FillAccepted(tokens[1..], gaps[1..], runs[1..]);
      InterleaveTail(tokens, gaps);
      AcceptsTwoThen(p, tokens[0], runs[0], Fill(tokens[1..], runs[1..]));
    }
  }

  /** Unfolding the interleaved pattern by one token and one gap. */
  lemma InterleaveTail(tokens: seq<string>, gaps: seq<CharClass>)
    requires |tokens| == |gaps| + 1 && gaps != []
    ensures Interleave(tokens, gaps)[2..] == Interleave(tokens[1..], gaps[1..])
    ensures Interleave(tokens, gaps)[0] == Lit(tokens[0]) && Interleave(tokens, gaps)[1] == Star(gaps[0])
  {
  }

  /** Words of the first two pieces followed by a word of the remaining ones. */
  lemma AcceptsTwoThen(p: Pattern, a: string, b: string, rest: string)
    requires 2 <= |p| && PieceAccepts(p[0], a) && PieceAccepts(p[1], b) && Accepts(p[2..], rest)
    ensures Accepts(p, a + b + rest)
  {
    assert p[1..][1..] == p[2..];
    AcceptsHeadThen(p[1..], b, rest);
    AcceptsHeadThen(p, a, b + rest);
    assert a + b + rest == a + (b + rest);
  }

  /** `runs` holds one run per gap, each made of characters of its gap's class. */
  ghost predicate RunsFit(gaps: seq<CharClass>, runs: seq<string>) {
    |runs| == |gaps| && forall n :: 0 <= n < |runs| ==> AllIn(gaps[n], runs[n])
  }

  /** Some substring of `t` is the tokens in order with runs of the gap
      classes between them. */
  ghost predicate HasShape(tokens: seq<string>, gaps: seq<CharClass>, t: string)
    requires |tokens| == |gaps| + 1
  {
    exists i, j, runs :: 0 <= i <= j <= |t| && RunsFit(gaps, runs) && t[i..j] == Fill(tokens, runs)
  }

  /** Conversely, every word of the interleaved pattern is the tokens with
      runs of the gap classes between them. */
  lemma {:induction false} AcceptedIsFilled(tokens: seq<string>, gaps: seq<CharClass>, w: string)
    requires |tokens| == |gaps| + 1 && Accepts(Interleave(tokens, gaps), w)
    ensures exists runs :: RunsFit(gaps, runs) && w == Fill(tokens, runs)
    decreases |gaps|
  {
    var p := Interleave(tokens, gaps);
    if gaps == [] {
      LitOnly(p, w);
      assert RunsFit(gaps, []);
    } else {
      InterleaveTail(tokens, gaps);
      var r, rest := LitStarSplit(p, w);
      AcceptedIsFilled(tokens[1..], gaps[1..], rest);
      var runs' :| RunsFit(gaps[1..], runs') && rest == Fill(tokens[1..], runs');
      FillCons(tokens, gaps, r, runs');
    }
  }

  /** A one-literal pattern accepts its token and nothing else. */
  lemma LitOnly(p: Pattern, w: string)
    requires |p| == 1 && p[0].Lit? && Accepts(p, w)
    ensures w == p[0].token
  {
    AcceptsLitHead(p, w);
    assert p[1..] == [];
  }

  /** A word of a pattern opening with a literal and a starred class splits
      into the token, a run of the class, and a word of the other pieces. */
  lemma LitStarSplit(p: Pattern, w: string) returns (r: string, rest: string)
    requires |p| >= 2 && p[0].Lit? && p[1].Star? && Accepts(p, w)
    ensures w == p[0].token + (r + rest) && AllIn(p[1].cls, r) && Accepts(p[2..], rest)
  {
    var s := p[0].token;
    AcceptsLitHead(p, w);
    var v := w[|s|..];
    assert w == s + v;
    var k :| 0 <= k <= |v| && PieceAccepts(p[1..][0], v[..k]) && Accepts(p[1..][1..], v[k..]);
    assert p[1..][1..] == p[2..];
    r, rest := v[..k], v[k..];
    assert v == r + rest;
  }

  /** One more run in front, of the first gap's class. */
  lemma FillCons(tokens: seq<string>, gaps: seq<CharClass>, r: string, runs: seq<string>)
    requires |tokens| == |gaps| + 1 && gaps != []
    requires AllIn(gaps[0], r) && RunsFit(gaps[1..], runs)
    ensures RunsFit(gaps, [r] + runs)
    ensures Fill(tokens, [r] + runs) == tokens[0] + (r + Fill(tokens[1..], runs))
  {
    assert ([r] + runs)[1..] == runs;
  }

  /** A pattern of tokens and gaps is found exactly when some substring has its
      shape. */
  lemma IsMatchIffShape(tokens: seq<string>, gaps: seq<CharClass>, t: string)
    requires |tokens| == |gaps| + 1
    ensures IsMatch(Interleave(tokens, gaps), t) <==> HasShape(tokens, gaps, t)
  {
    var p := Interleave(tokens, gaps);
    IsMatchCorrect(p, t);
    if Matches(p, t) {
      var i, j :| 0 <= i <= j <= |t| && Accepts(p, t[i..j]);
      AcceptedIsFilled(tokens, gaps, t[i..j]);
      var runs :| RunsFit(gaps, runs) && t[i..j] == Fill(tokens, runs);
      assert HasShape(tokens, gaps, t);
    }
    if HasShape(tokens, gaps, t) {
      var i, j, runs :| 0 <= i <= j <= |t| && RunsFit(gaps, runs) && t[i..j] == Fill(tokens, runs);
      FillAccepted(tokens, gaps, runs);
      assert Accepts(p, t[i..j]);
    }
  }

  /** The same, for the unanchored search. */
  lemma FillMatches(tokens: seq<string>, gaps: seq<CharClass>, runs: seq<string>)
    requires |tokens| == |gaps| + 1 && |runs| == |gaps|
    requires forall n :: 0 <= n < |runs| ==> AllIn(gaps[n], runs[n])
    ensures IsMatch(Interleave(tokens, gaps), Fill(tokens, runs))
  {
    FillAccepted(tokens, gaps, runs);
    AcceptedIsMatch(Interleave(tokens, gaps), Fill(tokens, runs), Fill(tokens, runs));
  }

  // Window lemmas: `Accepts` of a suffix of the pattern on the window t[i..j].

  /** At a literal piece the window starts with the token. */
  lemma LitAt(p: Pattern, n: nat, t: string, i: nat, j: nat)
    requires n < |p| && p[n].Lit? && i <= j <= |t| && Accepts(p[n..], t[i..j])
    ensures i + |p[n].token| <= j && t[i..i + |p[n].token|] == p[n].token
    ensures Accepts(p[n + 1..], t[i + |p[n].token|..j])
  {
    var s := p[n].token;
    AcceptsLitHead(p[n..], t[i..j]);
    assert p[n..][1..] == p[n + 1..];
    assert t[i..j][..|s|] == t[i..i + |s|];
    assert t[i..j][|s|..] == t[i + |s|..j];
  }

  /** At a starred piece the window starts with a run of class characters. */
  lemma StarAt(p: Pattern, n: nat, t: string, i: nat, j: nat) returns (k: nat)
    requires n < |p| && p[n].Star? && i <= j <= |t| && Accepts(p[n..], t[i..j])
    ensures i <= k <= j && Accepts(p[n + 1..], t[k..j])
    ensures forall m :: i <= m < k ==> InClass(p[n].cls, t[m])
  {
    var w := t[i..j];
    var k' :| 0 <= k' <= |w| && PieceAccepts(p[n..][0], w[..k']) && Accepts(p[n..][1..], w[k'..]);
    k := i + k';
    assert p[n..][1..] == p[n + 1..];
    assert w[k'..] == t[k..j];
    forall m | i <= m < k
      ensures InClass(p[n].cls, t[m])
    {
      assert w[..k'][m - i] == t[m];
    }
  }

  /** A starred piece whose class refuses the next character matches nothing. */
  lemma StarAtBlocked(p: Pattern, n: nat, t: string, i: nat, j: nat)
    requires n < |p| && p[n].Star? && i <= j <= |t| && Accepts(p[n..], t[i..j])
    requires i == j || !InClass(p[n].cls, t[i])
    ensures Accepts(p[n + 1..], t[i..j])
  {
    var k := StarAt(p, n, t, i, j);
    assert k == i;
  }

  /** A starred class that refuses the next character is skipped, and the
      literal after it must start right there. */
  lemma BlockedStarThenLit(p: Pattern, n: nat, t: string, i: nat, j: nat)
    requires n + 1 < |p| && p[n].Star? && p[n + 1].Lit?
    requires i <= j <= |t| && Accepts(p[n..], t[i..j])
    requires i < |t| && !InClass(p[n].cls, t[i])
    ensures i + |p[n + 1].token| <= j && t[i..i + |p[n + 1].token|] == p[n + 1].token
    ensures Accepts(p[n + 2..], t[i + |p[n + 1].token|..j])
  {
    StarAtBlocked(p, n, t, i, j);
    LitAt(p, n + 1, t, i, j);
  }

  /** A word cannot start with a character that the starred class refuses and
      that does not begin the literal after it. */
  lemma BlockedStarRefuses(p: Pattern, n: nat, t: string, i: nat, j: nat)
    requires n + 1 < |p| && p[n].Star? && p[n + 1].Lit? && |p[n + 1].token| > 0
    requires i <= j <= |t| && i < |t| && !InClass(p[n].cls, t[i]) && t[i] != p[n + 1].token[0]
    ensures !Accepts(p[n..], t[i..j])
  {
    if Accepts(p[n..], t[i..j]) {
      BlockedStarThenLit(p, n, t, i, j);
    }
  }

  /** Where a starred class is followed by a literal, and a later character
      `t[g]` is outside the class and outside the literal, the literal occurs
      in full before `g`. */
  lemma LitBeforeStop(p: Pattern, n: nat, t: string, i: nat, j: nat, g: nat) returns (k: nat)
    requires n + 1 < |p| && p[n].Star? && p[n + 1].Lit?
    requires i <= j <= |t| && Accepts(p[n..], t[i..j])
    requires i <= g < |t| && !InClass(p[n].cls, t[g]) && t[g] !in p[n + 1].token
    ensures i <= k && k + |p[n + 1].token| <= g && OccursAt(t, p[n + 1].token, k)
  {
    var s := p[n + 1].token;
    k := StarAt(p, n, t, i, j);
    assert k <= g;
    LitAt(p, n + 1, t, k, j);
    forall m | k <= m < k + |s|
      ensures t[m] in s
    {
      assert t[m] == t[k..k + |s|][m - k];
    }
  }

  /** An occurrence lying inside the middle part of `a + x + b` is an
      occurrence in `x`. */
  lemma OccursInMiddle(a: string, x: string, b: string, s: string, k: nat)
    requires OccursAt(a + x + b, s, k) && |a| <= k && k + |s| <= |a| + |x|
    ensures OccursAt(x, s, k - |a|)
  {
    var t := a + x + b;
    var u, v := x[k - |a|..k - |a| + |s|], t[k..k + |s|];
    assert forall m :: 0 <= m < |s| ==> u[m] == v[m];
  }
}

