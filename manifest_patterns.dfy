/** The two regular expressions `main` applies to a manifest
    (src/main.rs:87 and src/main.rs:91), written as token patterns, and what
    each of them accepts and refuses. */
module ManifestPatterns {
  import opened TokenPattern

  /** The autoElevate element with `true` as its content: the tokens below, in
      order, with any run of `\s` allowed between two consecutive tokens. */
  const AutoElevate: Pattern := Interleave(AutoElevateTokens, AutoElevateGaps)

  /** The tokens of the autoElevate pattern, and the `\s*` between them. */
  const AutoElevateTokens: seq<string> := ["<", "autoElevate", ">", "true", "<", "/", "autoElevate", ">"]
  const AutoElevateGaps: seq<CharClass> := [Space, Space, Space, Space, Space, Space, Space]

  /** The start of a requestedExecutionLevel element whose `level` attribute is
      `"requireAdministrator"`: `\s` may stand after `<` and around `=`, and
      any characters other than `>` between the element name and `level`. The
      program captures the value in a group, which does not change whether the
      pattern is found. */
  const RequireAdministrator: Pattern := Interleave(RequireAdministratorTokens, RequireAdministratorGaps)

  /** The tokens of the requestedExecutionLevel pattern, and the `\s*` or
      `[^>]*` between them. */
  const RequireAdministratorTokens: seq<string> :=
    ["<", "requestedExecutionLevel", "level", "=", "\"requireAdministrator\""]
  const RequireAdministratorGaps: seq<CharClass> := [Space, NotGt, Space, Space]

  // ---------------------------------------------------------------------------
  // What every match needs

  /** A manifest matching the autoElevate pattern holds the element name and
      `true` exactly as written (case-sensitive), and a `/`. */
  lemma AutoElevateNeedsTokens(t: string)
    requires IsMatch(AutoElevate, t)
    ensures Contains(t, "autoElevate") && Contains(t, "true") && '/' in t
  {
    IsMatchCorrect(AutoElevate, t);
    AutoElevateNeedsName(t);
    AutoElevateNeedsTrue(t);
    AutoElevateNeedsSlash(t);
  }

  lemma AutoElevateNeedsName(t: string)
    requires Matches(AutoElevate, t)
    ensures Contains(t, "autoElevate")
  {
    MatchesContainsToken(AutoElevate, t, 2);
  }

  lemma AutoElevateNeedsTrue(t: string)
    requires Matches(AutoElevate, t)
    ensures Contains(t, "true")
  {
    MatchesContainsToken(AutoElevate, t, 6);
  }

  lemma AutoElevateNeedsSlash(t: string)
    requires Matches(AutoElevate, t)
    ensures '/' in t
  {
    MatchesContainsToken(AutoElevate, t, 10);
    ContainsChar(t, "/", '/');
  }

  /** A manifest matching the requestedExecutionLevel pattern holds the element
      name and the double-quoted value `"requireAdministrator"` exactly as written. */
  lemma RequireAdministratorNeedsTokens(t: string)
    requires IsMatch(RequireAdministrator, t)
    ensures Contains(t, "requestedExecutionLevel") && Contains(t, "\"requireAdministrator\"") && '"' in t
  {
    IsMatchCorrect(RequireAdministrator, t);
    RequireAdministratorNeedsName(t);
    RequireAdministratorNeedsValue(t);
    RequireAdministratorNeedsQuote(t);
  }

  lemma RequireAdministratorNeedsName(t: string)
    requires Matches(RequireAdministrator, t)
    ensures Contains(t, "requestedExecutionLevel")
  {
    MatchesContainsToken(RequireAdministrator, t, 2);
  }

  lemma RequireAdministratorNeedsValue(t: string)
    requires Matches(RequireAdministrator, t)
    ensures Contains(t, "\"requireAdministrator\"")
  {
    MatchesContainsToken(RequireAdministrator, t, 8);
  }

  lemma RequireAdministratorNeedsQuote(t: string)
    requires Matches(RequireAdministrator, t)
    ensures '"' in t
  {
    RequireAdministratorNeedsValue(t);
    ContainsChar(t, "\"requireAdministrator\"", '"');
  }

  // ---------------------------------------------------------------------------
  // What the patterns accept

  /** Whitespace may surround every token of the autoElevate element, in any
      amount, including none. */
  lemma AutoElevateToleratesWhitespace(runs: seq<string>)
    requires |runs| == 7 && forall n :: 0 <= n < 7 ==> AllIn(Space, runs[n])
    ensures IsMatch(AutoElevate, Fill(AutoElevateTokens, runs))
  {
    FillMatches(AutoElevateTokens, AutoElevateGaps, runs);
  }

  /** The text `< autoElevate >  true  < / autoElevate >`, with one or two
      spaces at every gap, is found. */
  lemma AutoElevateSpacedExample()
    ensures IsMatch(AutoElevate, Fill(AutoElevateTokens, [" ", " ", "  ", "  ", " ", " ", " "]))
  {
    var runs := [" ", " ", "  ", "  ", " ", " ", " "];
    assert forall n :: 0 <= n < 7 ==> AllIn(Space, runs[n]);
    AutoElevateToleratesWhitespace(runs);
  }

  /** Whitespace may surround `<`, `=` and the value of the
      requestedExecutionLevel element, and any attributes without a `>` may
      stand between its name and `level`. */
  lemma RequireAdministratorToleratesLayout(runs: seq<string>)
    requires |runs| == 4
    requires AllIn(Space, runs[0]) && AllIn(NotGt, runs[1]) && AllIn(Space, runs[2]) && AllIn(Space, runs[3])
    ensures IsMatch(RequireAdministrator, Fill(RequireAdministratorTokens, runs))
  {
    FillMatches(RequireAdministratorTokens, RequireAdministratorGaps, runs);
  }

  /** The usual spelling `<requestedExecutionLevel level="requireAdministrator"`
      is found, and so is one with `uiAccess="false"` before `level`. */
  lemma RequireAdministratorExamples()
    ensures IsMatch(RequireAdministrator, Fill(RequireAdministratorTokens, ["", " ", "", ""]))
    ensures IsMatch(RequireAdministrator, Fill(RequireAdministratorTokens, ["", " uiAccess=\"false\" ", "", ""]))
  {
    RequireAdministratorToleratesLayout(["", " ", "", ""]);
    RequireAdministratorToleratesLayout(["", " uiAccess=\"false\" ", "", ""]);
  }

  /** The search is unanchored: whatever surrounds a matching element does not
      stop it from matching. */
  lemma PatternsUnanchored(t: string, pre: string, suf: string)
    ensures IsMatch(AutoElevate, t) ==> IsMatch(AutoElevate, pre + t + suf)
    ensures IsMatch(RequireAdministrator, t) ==> IsMatch(RequireAdministrator, pre + t + suf)
  {
    if IsMatch(AutoElevate, t) {
      IsMatchExtend(AutoElevate, t, pre, suf);
    }
    if IsMatch(RequireAdministrator, t) {
      IsMatchExtend(RequireAdministrator, t, pre, suf);
    }
  }

  /** The plain spelling of the autoElevate element, with no whitespace. */
  lemma AutoElevatePlainText()
    ensures Fill(AutoElevateTokens, ["", "", "", "", "", "", ""]) == "<autoElevate>true</autoElevate>"
  {
    AutoElevateTokensJoined();
    AutoElevateJoinedText();
  }

  lemma AutoElevateTokensJoined()
    ensures Fill(AutoElevateTokens, ["", "", "", "", "", "", ""])
      == "<" + "autoElevate" + ">" + "true" + "<" + "/" + "autoElevate" + ">"
  {
  }

  lemma AutoElevateJoinedText()
    ensures "<" + "autoElevate" + ">" + "true" + "<" + "/" + "autoElevate" + ">" == "<autoElevate>true</autoElevate>"
  {
  }

  /** The plain spelling of the requestedExecutionLevel start, with one space
      before `level`. */
  lemma RequireAdministratorPlainText()
    ensures Fill(RequireAdministratorTokens, ["", " ", "", ""])
      == "<requestedExecutionLevel level=" + "\"requireAdministrator\""
  {
    RequireAdministratorTokensJoined();
    RequireAdministratorJoinedText();
  }

  lemma RequireAdministratorTokensJoined()
    ensures Fill(RequireAdministratorTokens, ["", " ", "", ""])
      == "<" + "requestedExecutionLevel" + " " + "level" + "=" + "\"requireAdministrator\""
  {
  }

  lemma RequireAdministratorJoinedText()
    ensures "<" + "requestedExecutionLevel" + " " + "level" + "=" + "\"requireAdministrator\""
      == "<requestedExecutionLevel level=" + "\"requireAdministrator\""
  {
  }

  // ---------------------------------------------------------------------------
  // The exact shape of a match

  /** The autoElevate pattern is found exactly when some substring is `<`,
      `autoElevate`, `>`, `true`, `<`, `/`, `autoElevate`, `>` with a run of
      whitespace (possibly empty) between each two. */
  lemma AutoElevateShape(t: string)
    ensures IsMatch(AutoElevate, t) <==> HasShape(AutoElevateTokens, AutoElevateGaps, t)
  {
    IsMatchIffShape(AutoElevateTokens, AutoElevateGaps, t);
  }

  /** The requestedExecutionLevel pattern is found exactly when some substring
      is `<`, whitespace, `requestedExecutionLevel`, characters other than `>`,
      `level`, whitespace, `=`, whitespace and `"requireAdministrator"`. */
  lemma RequireAdministratorShape(t: string)
    ensures IsMatch(RequireAdministrator, t) <==> HasShape(RequireAdministratorTokens, RequireAdministratorGaps, t)
  {
    IsMatchIffShape(RequireAdministratorTokens, RequireAdministratorGaps, t);
  }

  // ---------------------------------------------------------------------------
  // What the patterns refuse

  // Characters of the literal tokens that the refusals below rely on.

  lemma AutoElevateNamePiece()
    ensures |AutoElevate| > 2 && AutoElevate[2].Lit? && |AutoElevate[2].token| > 1
    ensures AutoElevate[2].token[0] == 'a' && AutoElevate[2].token[1] == 'u'
  {
  }

  lemma AutoElevateTruePiece()
    ensures |AutoElevate| > 6 && AutoElevate[6].Lit? && |AutoElevate[6].token| > 2
    ensures AutoElevate[6].token[0] == 't' && AutoElevate[6].token[1] == 'r' && AutoElevate[6].token[2] == 'u'
  {
  }

  lemma RequireAdministratorValuePiece()
    ensures |RequireAdministrator| > 8 && RequireAdministrator[8].Lit? && |RequireAdministrator[8].token| > 1
    ensures RequireAdministrator[8].token[0] == '"' && RequireAdministrator[8].token[1] == 'r'
  {
  }

  /** A text lacking `true` (no `t` followed by `r`, or no `r` by `u`) or
      lacking `autoElevate` (no `a` followed by `u`) does not match the
      autoElevate pattern. */
  lemma AutoElevateLacksPair(t: string)
    requires NoPair(t, 't', 'r') || NoPair(t, 'r', 'u') || NoPair(t, 'a', 'u')
    ensures !IsMatch(AutoElevate, t)
  {
    AutoElevateTruePiece();
    AutoElevateNamePiece();
    if NoPair(t, 't', 'r') {
      NoPairNoMatch(AutoElevate, 6, 0, t);
    } else if NoPair(t, 'r', 'u') {
      NoPairNoMatch(AutoElevate, 6, 1, t);
    } else {
      NoPairNoMatch(AutoElevate, 2, 0, t);
    }
  }

  /** The pattern is literal and case-sensitive: `True` is not `true`, `yes`
      is not `true`, and `AutoElevate` is not `autoElevate`. */
  lemma AutoElevateIsCaseSensitive()
    ensures !IsMatch(AutoElevate, "<autoElevate>True</autoElevate>")
    ensures !IsMatch(AutoElevate, "<autoElevate>yes</autoElevate>")
    ensures !IsMatch(AutoElevate, "<AutoElevate>true</AutoElevate>")
  {
    CaseSensitivityTexts();
    AutoElevateLacksPair("<autoElevate>True</autoElevate>");
    AutoElevateLacksPair("<autoElevate>yes</autoElevate>");
    AutoElevateLacksPair("<AutoElevate>true</AutoElevate>");
  }

  lemma CaseSensitivityTexts()
    ensures NoPair("<autoElevate>True</autoElevate>", 't', 'r')
    ensures NoPair("<autoElevate>yes</autoElevate>", 't', 'r')
    ensures NoPair("<AutoElevate>true</AutoElevate>", 'a', 'u')
  {
  }

  /** A manifest holding only the autoElevate element does not match the
      requestedExecutionLevel pattern. */
  lemma AutoElevateAloneIsNotAdministrator()
    ensures !IsMatch(RequireAdministrator, "<autoElevate>true</autoElevate>")
  {
    var t := "<autoElevate>true</autoElevate>";
    assert '"' !in t;
    if IsMatch(RequireAdministrator, t) {
      RequireAdministratorNeedsTokens(t);
    }
  }

  /** A manifest holding only the requestedExecutionLevel element, closed by
      `/>` as manifests write it, does not match the autoElevate pattern: no
      `r` in it is followed by `u`, so it has no `true`. */
  lemma AdministratorAloneIsNotAutoElevate()
    ensures !IsMatch(AutoElevate, "<requestedExecutionLevel level=" + "\"requireAdministrator\"" + "/>")
  {
    var x := "<requestedExecutionLevel level=";
    var y := "\"requireAdministrator\"";
    assert NoPair(x, 'r', 'u');
    assert NoPair(y, 'r', 'u');
    NoPairConcat(x, y, 'r', 'u');
    NoPairConcat(x + y, "/>", 'r', 'u');
    AutoElevateLacksPair(x + y + "/>");
  }

  /** A text in which no `"` is followed by `r` lacks `"requireAdministrator"`
      and does not match the requestedExecutionLevel pattern. */
  lemma RequireAdministratorLacksValue(t: string)
    requires NoPair(t, '"', 'r')
    ensures !IsMatch(RequireAdministrator, t)
  {
    RequireAdministratorValuePiece();
    NoPairNoMatch(RequireAdministrator, 8, 0, t);
  }

  /** `asInvoker` is not `requireAdministrator`. */
  lemma RequireAdministratorRefusesAsInvoker()
    ensures !IsMatch(RequireAdministrator, "<requestedExecutionLevel level=" + "\"asInvoker\"")
  {
    var x := "<requestedExecutionLevel level=";
    var y := "\"asInvoker\"";
    assert NoPair(x, '"', 'r');
    assert NoPair(y, '"', 'r');
    NoPairConcat(x, y, '"', 'r');
    RequireAdministratorLacksValue(x + y);
  }

  /** The value must be in double quotes: single quotes are refused. */
  lemma RequireAdministratorRefusesSingleQuotes()
    ensures !IsMatch(RequireAdministrator, "<requestedExecutionLevel level=" + "'requireAdministrator'")
  {
    var x := "<requestedExecutionLevel level=";
    var y := "'requireAdministrator'";
    assert '"' !in x && '"' !in y;
    assert '"' !in x + y;
    if IsMatch(RequireAdministrator, x + y) {
      RequireAdministratorNeedsTokens(x + y);
    }
  }

  /** `[^>]*` cannot cross the end of a start tag: in a requestedExecutionLevel
      start tag whose attributes `x` hold no `level`, nothing matches, whatever
      follows the closing `>` (short of another tag). */
  lemma RequireAdministratorStopsAtClose(x: string, y: string)
    requires '<' !in x && '>' !in x && '<' !in y && !Contains(x, "level")
    ensures !IsMatch(RequireAdministrator, "<requestedExecutionLevel" + x + ">" + y)
  {
    var t := "<requestedExecutionLevel" + x + ">" + y;
    IsMatchCorrect(RequireAdministrator, t);
    if Matches(RequireAdministrator, t) {
      var i, j :| 0 <= i <= j <= |t| && Accepts(RequireAdministrator, t[i..j]);
      OpenTagWindow(x, y, i, j);
    }
  }

  /** `level="requireAdministrator"` after the `>` that closes the start tag,
      with or without attributes before that `>`, is not found. */
  lemma StopsAtCloseExamples()
    ensures !IsMatch(RequireAdministrator, "<requestedExecutionLevel" + "" + ">" + "level=\"requireAdministrator\"")
    ensures !IsMatch(RequireAdministrator,
      "<requestedExecutionLevel" + " uiAccess=\"false\"" + ">" + "level=\"requireAdministrator\"")
  {
    var x := " uiAccess=\"false\"";
    var y := "level=\"requireAdministrator\"";
    assert '<' !in y;
    assert '<' !in x && '>' !in x && NoPair(x, 'l', 'e');
    NoPairNotContains(x, "level", 0);
    RequireAdministratorStopsAtClose(x, y);
    RequireAdministratorStopsAtClose("", y);
  }

  lemma OpenTagWindow(x: string, y: string, i: nat, j: nat)
    requires '<' !in x && '>' !in x && '<' !in y && !Contains(x, "level")
    requires i <= j <= |"<requestedExecutionLevel" + x + ">" + y|
    ensures !Accepts(RequireAdministrator, ("<requestedExecutionLevel" + x + ">" + y)[i..j])
  {
    var a := "<requestedExecutionLevel";
    var t := a + x + ">" + y;
    if Accepts(RequireAdministrator, t[i..j]) {
      OpenTagStart(x, y, i, j);
      assert t == a + x + (">" + y);
      AttributesHoldLevel(a, x, ">" + y, j);
    }
  }

  /** When the attribute run starts at 24 and the attributes `x` end at a
      `>`, `level` lies inside `x`. */
  lemma AttributesHoldLevel(a: string, x: string, b: string, j: nat)
    requires |a| == 24 && |b| > 0 && b[0] == '>' && '>' !in x
    requires 24 <= j <= |a + x + b| && Accepts(RequireAdministrator[3..], (a + x + b)[24..j])
    ensures Contains(x, "level")
  {
    var t := a + x + b;
    RequireAdministratorPieces();
    assert t[24 + |x|] == b[0];
    var k := LitBeforeStop(RequireAdministrator, 3, t, 24, j, 24 + |x|);
    OccursInMiddle(a, x, b, "level", k);
  }

  /** A window the pattern accepts starts at the only `<`, and the attribute
      run starts right after the element name. */
  lemma OpenTagStart(x: string, y: string, i: nat, j: nat)
    requires '<' !in x && '<' !in y
    requires i <= j <= |"<requestedExecutionLevel" + x + ">" + y|
    requires Accepts(RequireAdministrator, ("<requestedExecutionLevel" + x + ">" + y)[i..j])
    ensures 24 <= j && Accepts(RequireAdministrator[3..], ("<requestedExecutionLevel" + x + ">" + y)[24..j])
  {
    var t := "<requestedExecutionLevel" + x + ">" + y;
    var p := RequireAdministrator;
    OpenTagText(x, y);
    RequireAdministratorPieces();
    assert p[0..] == p;
    LitAt(p, 0, t, i, j);
    assert t[i] == t[i..i + 1][0];
    BlockedStarThenLit(p, 1, t, 1, j);
  }

  lemma OpenTagText(x: string, y: string)
    requires '<' !in x && '<' !in y
    ensures var t := "<requestedExecutionLevel" + x + ">" + y;
      |t| == 25 + |x| + |y| && t[1] == 'r' && t[24 + |x|] == '>'
      && forall m :: 0 < m < |t| ==> t[m] != '<'
  {
    var t := "<requestedExecutionLevel" + x + ">" + y;
    forall m | 0 < m < |t|
      ensures t[m] != '<'
    {
      if 24 <= m < 24 + |x| {
        assert t[m] == x[m - 24];
      } else if 24 + |x| < m {
        assert t[m] == y[m - 25 - |x|];
      }
    }
  }

  lemma RequireAdministratorPieces()
    ensures |RequireAdministrator| == 9
    ensures RequireAdministrator[0] == Lit("<") && RequireAdministrator[1] == Star(Space)
    ensures RequireAdministrator[2] == Lit("requestedExecutionLevel") && RequireAdministrator[3] == Star(NotGt)
    ensures RequireAdministrator[4] == Lit("level")
  {
  }
}
