/** pipline.py: one evaluation pair from a Hex-Rays listing and the name of
    its function. The C lexer is a parameter: it turns the masked listing
    into the (type, text) stream the post-pass reads. */
module Eval {
  import opened Collections
  import opened Text
  import opened Lexer
  import opened Corpus

  /** The placeholder for the function's own name. */
  const FunctionMark: string := "<FUNCTION>"

  /** How the placeholder comes out of the post-pass before a call's
      parenthesis: `<`, the split name, `>`, `(`, joined by spaces. */
  const SpelledCall: string := " < function > ( "

  /** What the joined listing should show there instead. */
  const RepairedCall: string := " <FUNCTION> ( "

  /** The function's name masked in the raw listing; the text is untouched
      when the name does not occur. */
  function MaskName(raw: string, name: string): (r: string)
    ensures !Contains(raw, name) ==> r == raw
  {
    if Contains(raw, name) then ReplaceAll(raw, name, FunctionMark) else raw
  }

  /** The membership test is immaterial: replacing everywhere gives the same
      text, since replacing an absent name changes nothing. */
  lemma MaskNameIsReplace(raw: string, name: string)
    ensures MaskName(raw, name) == ReplaceAll(raw, name, FunctionMark)
  {
    if !Contains(raw, name) {
      ReplaceAbsent(raw, name, FunctionMark);
    }
  }

  /** A text with its white space dropped and its letters lowered: what the
      call repair leaves unchanged, since it only respaces the placeholder
      and restores its capitals. */
  function Squashed(s: string): (r: string)
    ensures |r| <= |s|
  {
    LowerStr(Filter(NotSpace, s))
  }

  lemma SquashedAppend(a: string, b: string)
    ensures Squashed(a + b) == Squashed(a) + Squashed(b)
  {
    FilterAppend(NotSpace, a, b);
    LowerStrAppend(Filter(NotSpace, a), Filter(NotSpace, b));
  }

  /** The repaired call squashes to the same text as the spelled-out one. */
  lemma CallsSquashAlike()
    ensures Squashed(RepairedCall) == Squashed(SpelledCall) == "<function>("
  {
    RepairedSquashed();
    SpelledSquashed();
  }

  lemma RepairedSquashed()
    ensures Squashed(RepairedCall) == "<function>("
  {
    SpacedTwo(RepairedCall, FunctionMark, "(");
    LoweredRepaired();
  }

  lemma SpelledSquashed()
    ensures Squashed(SpelledCall) == "<function>("
  {
    SpacedFour(SpelledCall, "<", "function", ">", "(");
    LoweredSpelled();
  }

  lemma LoweredRepaired()
    ensures LowerStr(FunctionMark) + LowerStr("(") == "<function>("
  {
  }

  lemma LoweredSpelled()
    ensures LowerStr("<") + (LowerStr("function") + (LowerStr(">") + LowerStr("("))) == "<function>("
  {
  }

  /** Two words, each preceded and the last followed by a space. */
  lemma SpacedTwo(s: string, a: string, b: string)
    requires NoSpaceIn(a) && NoSpaceIn(b)
    requires s == " " + (a + (" " + (b + " ")))
    ensures Squashed(s) == LowerStr(a) + LowerStr(b)
  {
    SquashedCons(b, " ");
    SquashedCons(a, " " + (b + " "));
    SquashedSpace();
    assert LowerStr(b) + "" == LowerStr(b);
  }

  /** Four words, each preceded and the last followed by a space. */
  lemma SpacedFour(s: string, a: string, b: string, c: string, d: string)
    requires NoSpaceIn(a) && NoSpaceIn(b) && NoSpaceIn(c) && NoSpaceIn(d)
    requires s == " " + (a + (" " + (b + (" " + (c + (" " + (d + " ")))))))
    ensures Squashed(s) == LowerStr(a) + (LowerStr(b) + (LowerStr(c) + LowerStr(d)))
  {
    SquashedCons(d, " ");
    SquashedCons(c, " " + (d + " "));
    SquashedCons(b, " " + (c + (" " + (d + " "))));
    SquashedCons(a, " " + (b + (" " + (c + (" " + (d + " "))))));
    SquashedSpace();
    assert LowerStr(d) + "" == LowerStr(d);
  }

  predicate NoSpaceIn(w: string) {
    forall k :: 0 <= k < |w| ==> NotSpace(w[k])
  }

  /** A space followed by a word and a rest squashes to the lowered word
      followed by the squashed rest. */
  lemma SquashedCons(w: string, rest: string)
    requires NoSpaceIn(w)
    ensures Squashed(" " + (w + rest)) == LowerStr(w) + Squashed(rest)
  {
    SquashedSpace();
    FilterKeepsAll(NotSpace, w);
    SquashedAppend(" ", w + rest);
    SquashedAppend(w, rest);
  }

  /** A space squashes away. */
  lemma SquashedSpace()
    ensures Squashed(" ") == ""
  {
    FilterSingle(NotSpace, ' ');
  }

  /** Replacing a pattern by a text that squashes alike keeps the squashed
      text. */
  lemma {:induction false} ReplaceKeepsSquashed(s: string, pat: string, rep: string)
    requires |pat| > 0 && Squashed(pat) == Squashed(rep)
    ensures Squashed(ReplaceAll(s, pat, rep)) == Squashed(s)
    decreases |s|
  {
    if |s| == 0 {
    } else if StartsWith(s, pat) {
      ReplaceKeepsSquashed(s[|pat|..], pat, rep);
      SquashedAppend(rep, ReplaceAll(s[|pat|..], pat, rep));
      assert s == pat + s[|pat|..];
      SquashedAppend(pat, s[|pat|..]);
    } else {
      ReplaceKeepsSquashed(s[1..], pat, rep);
      SquashedAppend([s[0]], ReplaceAll(s[1..], pat, rep));
      assert s == [s[0]] + s[1..];
      SquashedAppend([s[0]], s[1..]);
    }
  }

  /** The call repair as written: one left-to-right pass of `str.replace`. */
  function RepairCallsOnce(s: string): (r: string)
    ensures |r| <= |s|
    ensures Contains(s, SpelledCall) ==> |r| < |s|
    ensures !Contains(s, SpelledCall) ==> r == s
    ensures Squashed(r) == Squashed(s)
  {
    CallsSquashAlike();
    ReplaceKeepsSquashed(s, SpelledCall, RepairedCall);
    ReplaceShrinks(s, SpelledCall, RepairedCall);
    assert !Contains(s, SpelledCall) ==> ReplaceAll(s, SpelledCall, RepairedCall) == s by {
      if !Contains(s, SpelledCall) {
        ReplaceAbsent(s, SpelledCall, RepairedCall);
      }
    }
    ReplaceAll(s, SpelledCall, RepairedCall)
  }

  /** Two calls in a row share the space between them, so one pass rewrites
      the first and leaves the second spelled out. */
  lemma AdjacentCallsMissed(s: string)
    requires s == SpelledCall + "< function > ( "
    ensures Contains(s, SpelledCall)
    ensures Contains(RepairCallsOnce(s), SpelledCall)
  {
    var p := SpelledCall;
    var tail := "< function > ( ";
    assert StartsWith(s, p);
    ReplaceLeading(p, tail, RepairedCall);
    SecondCallLeft(RepairedCall + tail);
  }

  /** The pass's output still spells out the second call, starting at the
      space that ended the first. */
  lemma SecondCallLeft(once: string)
    requires once == RepairedCall + "< function > ( "
    ensures Contains(once, SpelledCall)
  {
    assert once[13..] == SpelledCall;
    assert StartsWith(once[13..], SpelledCall);
    ContainsInSuffix(once, 13, SpelledCall);
  }

  /** The call repair as intended: rewrite until no spelled-out call is
      left. */
  function RepairCalls(s: string): (r: string)
    ensures !Contains(r, SpelledCall)
    ensures !Contains(RepairCallsOnce(s), SpelledCall) ==> r == RepairCallsOnce(s)
    ensures Squashed(r) == Squashed(s)
    decreases |s|
  {
    if Contains(s, SpelledCall) then RepairCalls(RepairCallsOnce(s)) else s
  }

  /** One evaluation example: the tokenized listing and the split name. */
  datatype EvalPair = EvalPair(source: string, target: string)

  /** The listing's tokens with strings and calls kept, joined by spaces,
      before the call repair. */
  function JoinedTokens(split: string -> seq<string>, lex: string -> seq<Lexeme>, raw: string, name: string)
    : (r: string)
    ensures Filter(NotSpace, r) == Filter(NotSpace, Flatten(TokenizeRawCodeHexray(split, lex(MaskName(raw, name)), true, true)))
  {
    JoinSpaceInvisible(TokenizeRawCodeHexray(split, lex(MaskName(raw, name)), true, true));
    Join(" ", TokenizeRawCodeHexray(split, lex(MaskName(raw, name)), true, true))
  }

  /** pipline_for_eval with the repair applied until it is complete. */
  function PipelineForEval(split: string -> seq<string>, lex: string -> seq<Lexeme>, raw: string, name: string)
    : (r: EvalPair)
    ensures r.target == ProcessLabel(split, name)
    ensures !Contains(r.source, SpelledCall)
    ensures Squashed(r.source) == Squashed(JoinedTokens(split, lex, raw, name))
    ensures !Contains(JoinedTokens(split, lex, raw, name), SpelledCall) ==> r.source == JoinedTokens(split, lex, raw, name)
  {
    EvalPair(RepairCalls(JoinedTokens(split, lex, raw, name)), ProcessLabel(split, name))
  }

  /** pipline_for_eval as written, with its single replace pass. */
  function PipelineForEvalAsWritten(split: string -> seq<string>, lex: string -> seq<Lexeme>, raw: string, name: string)
    : (r: EvalPair)
    ensures r.target == ProcessLabel(split, name)
    ensures |r.source| <= |JoinedTokens(split, lex, raw, name)|
    ensures Squashed(r.source) == Squashed(JoinedTokens(split, lex, raw, name))
    ensures !Contains(JoinedTokens(split, lex, raw, name), SpelledCall) ==> r.source == JoinedTokens(split, lex, raw, name)
  {
    EvalPair(RepairCallsOnce(JoinedTokens(split, lex, raw, name)), ProcessLabel(split, name))
  }

  /** The two agree whenever the single pass leaves no spelled-out call. */
  lemma PipelinesAgree(split: string -> seq<string>, lex: string -> seq<Lexeme>, raw: string, name: string)
    requires !Contains(PipelineForEvalAsWritten(split, lex, raw, name).source, SpelledCall)
    ensures PipelineForEval(split, lex, raw, name) == PipelineForEvalAsWritten(split, lex, raw, name)
  {
  }

  /** With strings and calls kept, the Hex-Rays tokenizer returns the
      post-pass's texts unchanged, one per token. */
  lemma KeepAllIsPostPass(split: string -> seq<string>, toks: seq<Lexeme>)
    ensures var r := TokenizeRawCodeHexray(split, toks, true, true);
            |r| == |GetTokens(HexRays, split, toks)|
            && forall i :: 0 <= i < |r| ==> r[i] == GetTokens(HexRays, split, toks)[i].text
  {
  }
}
