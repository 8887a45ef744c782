/** The token post-pass of binja/utils/lexer.py: it turns the
    (token type, text) stream of the C lexer into the words of the corpus,
    for the Hex-Rays and the Binary Ninja pseudo-C dialects. */
module Lexer {
  import opened Collections
  import opened Text

  /** One step of a token-type path below the root `Token`. The parts the
      post-pass names are listed; any other part is `OtherPart`. */
  datatype Part =
    | NamePart | FunctionPart | VarPart | RegVarPart | LabelPart | CondPart
    | LiteralPart | StringPart | NumberPart | CommentPart | OperatorPart | TextPart
    | OtherPart(tag: string)

  /** A token type: the root, or a child of a type. */
  datatype TokenType = Root | Child(parent: TokenType, part: Part)

  /** `is_token_subtype(t, of)`: `of` is `t` or one of its ancestors. */
  predicate IsSubtype(t: TokenType, of: TokenType)
    decreases t
  {
    t == of || (t.Child? && IsSubtype(t.parent, of))
  }

  function TName(): TokenType { Child(Root, NamePart) }
  function TFunction(): TokenType { Child(TName(), FunctionPart) }
  function TVar(): TokenType { Child(TName(), VarPart) }
  function TRegVar(): TokenType { Child(TName(), RegVarPart) }
  function TLabel(): TokenType { Child(TName(), LabelPart) }
  function TCond(): TokenType { Child(TName(), CondPart) }
  /** `Token.String` is `Token.Literal.String`, and likewise for numbers. */
  function TString(): TokenType { Child(Child(Root, LiteralPart), StringPart) }
  function TNumber(): TokenType { Child(Child(Root, LiteralPart), NumberPart) }
  function TComment(): TokenType { Child(Root, CommentPart) }
  function TOperator(): TokenType { Child(Root, OperatorPart) }
  function TText(): TokenType { Child(Root, TextPart) }

  /** One lexed token. */
  datatype Lexeme = Lexeme(ttype: TokenType, text: string)

  datatype Dialect = HexRays | BinaryNinja

  /** A subtype of `of` lies below `of`'s part: distinct top-level parts
      never share a subtype. */
  lemma {:induction false} SubtypeDepth(t: TokenType, of: TokenType)
    requires IsSubtype(t, of)
    ensures Depth(of) <= Depth(t)
    decreases t
  {
    if t != of {
      SubtypeDepth(t.parent, of);
    }
  }

  function Depth(t: TokenType): nat
    decreases t
  {
    if t.Root? then 0 else 1 + Depth(t.parent)
  }

  /** The ancestor of `t` at depth `d`. */
  function AncestorAt(t: TokenType, d: nat): TokenType
    requires d <= Depth(t)
    decreases t
  {
    if Depth(t) == d then t else AncestorAt(t.parent, d)
  }

  lemma {:induction false} SubtypeIsAncestor(t: TokenType, of: TokenType)
    requires IsSubtype(t, of)
    ensures Depth(of) <= Depth(t) && AncestorAt(t, Depth(of)) == of
    decreases t
  {
    SubtypeDepth(t, of);
    if t != of {
      SubtypeIsAncestor(t.parent, of);
    }
  }

  /** Two types of equal depth with a common subtype are equal. */
  lemma Disjoint(t: TokenType, a: TokenType, b: TokenType)
    requires IsSubtype(t, a) && IsSubtype(t, b) && Depth(a) == Depth(b)
    ensures a == b
  {
    SubtypeIsAncestor(t, a);
    SubtypeIsAncestor(t, b);
  }

  predicate IsString(t: TokenType) { IsSubtype(t, TString()) }

  /** The post-pass drops comments, the `::` operator and whitespace. */
  predicate Skipped(l: Lexeme) {
    || IsSubtype(l.ttype, TComment())
    || (IsSubtype(l.ttype, TOperator()) && l.text == "::")
    || IsSubtype(l.ttype, TText())
  }

  /** `" ".join(split(name))` */
  function Spaced(split: string -> seq<string>, name: string): string {
    Join(" ", split(name))
  }

  /** Python's `s[:-1]`. */
  function DropLast(s: string): string {
    if |s| == 0 then "" else s[..|s| - 1]
  }

  /** Python's `s[1:-1]`. */
  function Inner(s: string): string {
    if |s| < 2 then "" else s[1..|s| - 1]
  }

  /** The single token a run of string pieces collapses into: the run
      without its first and last character (the quotes), underscores turned
      into spaces, between spaced quotes. */
  function StringWord(buffer: string): (r: string)
    ensures |r| >= 4 && r[..2] == "\" " && r[|r| - 2..] == " \""
    ensures '_' !in r
  {
    ReplaceCharChars(Inner(buffer), '_', " ");
    "\" " + ReplaceAll(Inner(buffer), ['_'], " ") + " \""
  }

  /** The text a plain name becomes in the Hex-Rays dialect: names starting
      with `a` or `v` (the decompiler's own variable names) are kept. */
  function HexRaysName(split: string -> seq<string>, text: string): (r: string)
    ensures StartsWith(text, "a") || StartsWith(text, "v") ==> r == text
    ensures !StartsWith(text, "a") && !StartsWith(text, "v") ==> r == Spaced(split, text)
  {
    if !StartsWith(text, "a") && !StartsWith(text, "v") then Spaced(split, text) else text
  }

  /** `token.split("_")[0]`: a register variable without its version suffix. */
  function RegisterName(text: string): (r: string)
    ensures StartsWith(text, r) && '_' !in r
    ensures '_' !in text ==> r == text
    ensures r == text || (|r| < |text| && text[|r|] == '_')
  {
    var r := Split(text, "_")[0];
    SplitFirstStop(text, "_");
    SplitPiecesAvoidSep(text, "_");
    ContainsChar(r, '_');
    assert '_' !in text ==> r == text by {
      if '_' !in text {
        SplitUnbroken(text, "_");
      }
    }
    r
  }

  /** What a token that is not a string piece yields in the given dialect:
      one text, or nothing for the tokens the pass drops. */
  function Emit(d: Dialect, split: string -> seq<string>, l: Lexeme): (r: Option<string>)
    requires !IsString(l.ttype)
    ensures r.None? <==> Skipped(l)
    ensures l.ttype == TFunction() ==>
              r == Some(if StartsWith(l.text, "sub_") then "<FUNCTION>"
                        else if d == HexRays then Spaced(split, DropLast(l.text)) + " ("
                        else Spaced(split, l.text))
    ensures d == HexRays && l.ttype == TName() ==> r == Some(HexRaysName(split, l.text))
    ensures d == HexRays && IsSubtype(l.ttype, TName()) && l.ttype != TName() && l.ttype != TFunction() ==>
              r == Some(Strip(l.text))
    ensures d == BinaryNinja && IsSubtype(l.ttype, TName()) && l.ttype != TFunction() ==>
              r == Some(BinaryNinjaName(split, l))
    ensures IsSubtype(l.ttype, TNumber()) ==> r == Some(if l.text == "0" then "0" else "<Number>")
    ensures !IsSubtype(l.ttype, TName()) && !IsSubtype(l.ttype, TNumber()) && !Skipped(l) ==>
              r == Some(Strip(l.text))
  {
    var t := l.ttype;
    TypesApart(t);
    if t == TFunction() then
      if StartsWith(l.text, "sub_") then Some("<FUNCTION>")
      else if d == HexRays then Some(Spaced(split, DropLast(l.text)) + " (")
      else Some(Spaced(split, l.text))
    else if d == HexRays && t == TName() then
      Some(HexRaysName(split, l.text))
    else if d == BinaryNinja && IsSubtype(t, TName()) then
      Some(BinaryNinjaName(split, l))
    else if IsSubtype(t, TNumber()) then
      Some(if l.text == "0" then "0" else "<Number>")
    else if IsSubtype(t, TComment()) then None
    else if IsSubtype(t, TOperator()) && l.text == "::" then None
    else if !IsSubtype(t, TText()) then Some(Strip(l.text))
    else None
  }

  /** The Binary Ninja dialect's names. */
  function BinaryNinjaName(split: string -> seq<string>, l: Lexeme): (r: string)
    ensures l.ttype == TVar() ==> r == "<VARIBLE>"
    ensures l.ttype == TRegVar() ==> r == RegisterName(l.text)
    ensures l.ttype == TLabel() ==> r == "<LABEL>"
    ensures l.ttype == TCond() ==> r == "<CONDITION>"
    ensures l.ttype !in {TVar(), TRegVar(), TLabel(), TCond()} ==> r == Spaced(split, l.text)
  {
    if l.ttype == TVar() then "<VARIBLE>"
    else if l.ttype == TRegVar() then RegisterName(l.text)
    else if l.ttype == TLabel() then "<LABEL>"
    else if l.ttype == TCond() then "<CONDITION>"
    else Spaced(split, l.text)
  }

  /** Names, numbers, strings, comments, operators and whitespace are
      separate branches of the type tree. */
  lemma TypesApart(t: TokenType)
    ensures IsSubtype(t, TName()) ==> !IsSubtype(t, TNumber()) && !IsSubtype(t, TString())
                                      && !IsSubtype(t, TComment()) && !IsSubtype(t, TOperator())
                                      && !IsSubtype(t, TText())
    ensures IsSubtype(t, TNumber()) ==> !IsSubtype(t, TString()) && !IsSubtype(t, TComment())
                                        && !IsSubtype(t, TOperator()) && !IsSubtype(t, TText())
  {
    if IsSubtype(t, TName()) {
      if IsSubtype(t, TComment()) { Disjoint(t, TName(), TComment()); }
      if IsSubtype(t, TOperator()) { Disjoint(t, TName(), TOperator()); }
      if IsSubtype(t, TText()) { Disjoint(t, TName(), TText()); }
      if IsSubtype(t, TNumber()) { SubtypeIsAncestor(t, TNumber()); SubtypeIsAncestor(t, TName()); }
      if IsSubtype(t, TString()) { SubtypeIsAncestor(t, TString()); SubtypeIsAncestor(t, TName()); }
    }
    if IsSubtype(t, TNumber()) {
      if IsSubtype(t, TString()) { Disjoint(t, TNumber(), TString()); }
      if IsSubtype(t, TComment()) { SubtypeIsAncestor(t, TNumber()); SubtypeIsAncestor(t, TComment()); }
      if IsSubtype(t, TOperator()) { SubtypeIsAncestor(t, TNumber()); SubtypeIsAncestor(t, TOperator()); }
      if IsSubtype(t, TText()) { SubtypeIsAncestor(t, TNumber()); SubtypeIsAncestor(t, TText()); }
    }
  }

  /** The concatenated texts of a run of tokens. */
  function Texts(ls: seq<Lexeme>): string
    decreases |ls|
  {
    if |ls| == 0 then "" else ls[0].text + Texts(ls[1..])
  }

  predicate AllStrings(ls: seq<Lexeme>) {
    forall i :: 0 <= i < |ls| ==> IsString(ls[i].ttype)
  }

  /** The types the pass can emit: never a comment or whitespace, and for
      strings only the collapsed `Token.String` itself. */
  predicate Emitted(t: TokenType) {
    !IsSubtype(t, TComment()) && !IsSubtype(t, TText()) && (IsString(t) ==> t == TString())
  }

  /** The output of a token that is not a string piece, as a list. */
  function Own(d: Dialect, split: string -> seq<string>, l: Lexeme): (r: seq<Lexeme>)
    requires !IsString(l.ttype)
    ensures |r| <= 1
    ensures forall i :: 0 <= i < |r| ==> Emitted(r[i].ttype)
  {
    match Emit(d, split, l)
    case None => []
    case Some(x) => [Lexeme(l.ttype, x)]
  }

  /** get_tokens_hexrays / get_tokens_binja from the token `toks[0]` on, with
      `buffer` holding the string pieces read since the last flush (Python's
      `None` and `""` behave alike here, so both are `""`). A string piece
      only extends the buffer; any other token first flushes a non-empty
      buffer as one string token, then adds its own output. */
  function PostPass(d: Dialect, split: string -> seq<string>, toks: seq<Lexeme>, buffer: string): (r: seq<Lexeme>)
    ensures |r| <= |toks| + (if buffer != "" then 1 else 0)
    ensures forall i :: 0 <= i < |r| ==> Emitted(r[i].ttype)
    decreases |toks|
  {
    if |toks| == 0 then []
    else
      var l := toks[0];
      if IsString(l.ttype) then PostPass(d, split, toks[1..], buffer + l.text)
      else
        var rest := PostPass(d, split, toks[1..], "");
        AllAppend((x: Lexeme) => Emitted(x.ttype), FlushOwn(d, split, l, buffer), rest);
        FlushOwn(d, split, l, buffer) + rest
  }

  /** What a token that is not a string piece adds: the buffered string, if
      any, then the token's own output. */
  function FlushOwn(d: Dialect, split: string -> seq<string>, l: Lexeme, buffer: string): (r: seq<Lexeme>)
    requires !IsString(l.ttype)
    ensures |r| <= 1 + (if buffer != "" then 1 else 0)
    ensures forall i :: 0 <= i < |r| ==> Emitted(r[i].ttype)
  {
    (if buffer != "" then [Lexeme(TString(), StringWord(buffer))] else []) + Own(d, split, l)
  }

  function GetTokens(d: Dialect, split: string -> seq<string>, toks: seq<Lexeme>): (r: seq<Lexeme>)
    ensures |r| <= |toks|
  {
    PostPass(d, split, toks, "")
  }

  /** A run of string pieces only accumulates: the pass continues after it
      with the run's texts appended to the buffer. */
  lemma {:induction false} StringRunAbsorbed(d: Dialect, split: string -> seq<string>, run: seq<Lexeme>,
                                             rest: seq<Lexeme>, buffer: string)
    requires AllStrings(run)
    ensures PostPass(d, split, run + rest, buffer) == PostPass(d, split, rest, buffer + Texts(run))
    decreases |run|
  {
    if |run| == 0 {
      assert run + rest == rest;
      assert buffer + Texts(run) == buffer;
    } else {
      assert (run + rest)[0] == run[0];
      assert (run + rest)[1..] == run[1..] + rest;
      assert AllStrings(run[1..]);
      StringRunAbsorbed(d, split, run[1..], rest, buffer + run[0].text);
      assert buffer + run[0].text + Texts(run[1..]) == buffer + Texts(run);
    }
  }

  /** A run of string pieces with non-empty text, followed by another token,
      comes out as exactly one string token, before that token's output. */
  lemma StringRunFlushed(d: Dialect, split: string -> seq<string>, run: seq<Lexeme>, t: Lexeme, rest: seq<Lexeme>)
    requires AllStrings(run) && Texts(run) != "" && !IsString(t.ttype)
    ensures GetTokens(d, split, run + [t] + rest)
            == [Lexeme(TString(), StringWord(Texts(run)))] + Own(d, split, t) + GetTokens(d, split, rest)
  {
    assert run + [t] + rest == run + ([t] + rest);
    StringRunAbsorbed(d, split, run, [t] + rest, "");
    assert "" + Texts(run) == Texts(run);
    assert ([t] + rest)[1..] == rest;
  }

  /** A run of string pieces at the end of the stream is never emitted. */
  lemma TrailingRunDropped(d: Dialect, split: string -> seq<string>, toks: seq<Lexeme>, run: seq<Lexeme>)
    requires AllStrings(run)
    ensures GetTokens(d, split, toks + run) == GetTokens(d, split, toks)
  {
    PostPassAppend(d, split, toks, run, "");
    StringRunAbsorbed(d, split, run, [], Pending(toks));
    assert run + [] == run;
  }

  /** What the buffer holds after the pass has read `toks` from an empty buffer. */
  function Pending(toks: seq<Lexeme>): string
    decreases |toks|
  {
    PendingFrom(toks, "")
  }

  function PendingFrom(toks: seq<Lexeme>, buffer: string): string
    decreases |toks|
  {
    if |toks| == 0 then buffer
    else if IsString(toks[0].ttype) then PendingFrom(toks[1..], buffer + toks[0].text)
    else PendingFrom(toks[1..], "")
  }

  /** The pass over a split stream: the first part, then the second part
      started with what the first left in the buffer. */
  lemma {:induction false} PostPassAppend(d: Dialect, split: string -> seq<string>, a: seq<Lexeme>,
                                          b: seq<Lexeme>, buffer: string)
    ensures PostPass(d, split, a + b, buffer)
            == PostPass(d, split, a, buffer) + PostPass(d, split, b, PendingFrom(a, buffer))
    decreases |a|
  {
    if |a| == 0 {
      assert a + b == b;
    } else {
      assert (a + b)[0] == a[0];
      assert (a + b)[1..] == a[1..] + b;
      if IsString(a[0].ttype) {
        PostPassAppend(d, split, a[1..], b, buffer + a[0].text);
      } else {
        PostPassAppend(d, split, a[1..], b, "");
        assert a == [a[0]] + a[1..];
        assert a + b == [a[0]] + (a[1..] + b);
        PostPassAppendFlush(d, split, a[0], a[1..], b, buffer);
      }
    }
  }

  /** The step of PostPassAppend at a token `l` that flushes the buffer. */
  lemma PostPassAppendFlush(d: Dialect, split: string -> seq<string>, l: Lexeme, a: seq<Lexeme>,
                            b: seq<Lexeme>, buffer: string)
    requires !IsString(l.ttype)
    requires PostPass(d, split, a + b, "") == PostPass(d, split, a, "") + PostPass(d, split, b, PendingFrom(a, ""))
    ensures PostPass(d, split, [l] + (a + b), buffer)
            == PostPass(d, split, [l] + a, buffer) + PostPass(d, split, b, PendingFrom([l] + a, buffer))
  {
    var head := FlushOwn(d, split, l, buffer);
    var x := PostPass(d, split, a, "");
    var y := PostPass(d, split, b, PendingFrom(a, ""));
    PostPassFlushes(d, split, l, a + b, buffer);
    PostPassFlushes(d, split, l, a, buffer);
    assert PendingFrom([l] + a, buffer) == PendingFrom(a, "") by {
      assert ([l] + a)[0] == l && ([l] + a)[1..] == a;
    }
    AppendRegroup(PostPass(d, split, [l] + (a + b), buffer), PostPass(d, split, [l] + a, buffer), head, x, y);
  }

  /** One step of the pass at a token that flushes the buffer. */
  lemma PostPassFlushes(d: Dialect, split: string -> seq<string>, l: Lexeme, rest: seq<Lexeme>, buffer: string)
    requires !IsString(l.ttype)
    ensures PostPass(d, split, [l] + rest, buffer) == FlushOwn(d, split, l, buffer) + PostPass(d, split, rest, "")
  {
    assert ([l] + rest)[0] == l && ([l] + rest)[1..] == rest;
  }

  /** The keep_call and keep_string options applied to one output token of
      type `t` and current text `text`. */
  function Erase(d: Dialect, keepString: bool, keepCall: bool, t: TokenType, text: string): (r: string)
    ensures keepString && keepCall ==> r == text
    ensures !keepString && t == TString() ==> r == "<STRING>"
    ensures !keepCall && t == TFunction() && d == BinaryNinja ==> r == "<FUNCTION>"
    ensures !keepCall && t == TFunction() && d == HexRays ==>
              r == (if text == "<FUNCTION>" then text else "<FUNCTION> (")
    ensures t != TString() && t != TFunction() ==> r == text
  {
    assert TString() != TFunction();
    var call := if !keepCall && t == TFunction() && text != "<FUNCTION>" then
                  (if d == HexRays then "<FUNCTION> (" else "<FUNCTION>")
                else text;
    if !keepString && t == TString() then "<STRING>" else call
  }

  /** tokenize_raw_code_hexray, from the lexed stream: one word per token of
      the post-pass, in order. */
  function TokenizeRawCodeHexray(split: string -> seq<string>, toks: seq<Lexeme>, keepString: bool, keepCall: bool)
    : (r: seq<string>)
    ensures |r| == |GetTokens(HexRays, split, toks)| <= |toks|
    ensures forall i :: 0 <= i < |r| ==>
              var l := GetTokens(HexRays, split, toks)[i];
              r[i] == Erase(HexRays, keepString, keepCall, l.ttype, l.text)
  {
    var ls := GetTokens(HexRays, split, toks);
    seq(|ls|, i requires 0 <= i < |ls| => Erase(HexRays, keepString, keepCall, ls[i].ttype, ls[i].text))
  }

  /** `ls[j]` is the first function-name token of the stream. */
  predicate IsDefinition(ls: seq<Lexeme>, j: int) {
    0 <= j < |ls| && ls[j].ttype == TFunction()
    && forall i :: 0 <= i < j ==> ls[i].ttype != TFunction()
  }

  /** The first function-name token before position `k`, if any. */
  function FirstDef(ls: seq<Lexeme>, k: nat): (r: Option<nat>)
    requires k <= |ls|
    ensures r.Some? ==> r.value < k && IsDefinition(ls, r.value)
    ensures r.None? ==> forall i :: 0 <= i < k ==> ls[i].ttype != TFunction()
    decreases k
  {
    if k == 0 then None
    else
      match FirstDef(ls, k - 1)
      case Some(i) => Some(i)
      case None => if ls[k - 1].ttype == TFunction() then Some(k - 1) else None
  }

  /** The definition name recorded once the first `k` tokens are read. */
  function RecordedName(ls: seq<Lexeme>, k: nat): string
    requires k <= |ls|
  {
    match FirstDef(ls, k)
    case None => ""
    case Some(i) => ls[i].text
  }

  /** The text at position `j` after definition masking, stated per
      position: the definition itself, and any plain name spelled like the
      name recorded before it, become `<FUNCTION>`. */
  function MaskedText(ls: seq<Lexeme>, j: nat): string
    requires j < |ls|
  {
    if IsDefinition(ls, j) || (ls[j].ttype == TName() && ls[j].text == RecordedName(ls, j)) then "<FUNCTION>"
    else ls[j].text
  }

  /** The masking loop of tokenize_raw_code_binja from position `k`, with
      its two variables: whether the definition was seen and its name. */
  function MaskFrom(ls: seq<Lexeme>, k: nat, seen: bool, defName: string, keepString: bool, keepCall: bool)
    : (r: seq<string>)
    requires k <= |ls|
    ensures |r| == |ls| - k
    decreases |ls| - k
  {
    if k == |ls| then []
    else
      var l := ls[k];
      var isDef := !seen && l.ttype == TFunction();
      var name := if isDef then l.text else defName;
      var text := if isDef || (l.ttype == TName() && l.text == name) then "<FUNCTION>" else l.text;
      [Erase(BinaryNinja, keepString, keepCall, l.ttype, text)]
        + MaskFrom(ls, k + 1, seen || isDef, name, keepString, keepCall)
  }

  /** Started in the state the first `k` tokens leave, the loop produces the
      per-position masked text. */
  lemma {:induction false} MaskFromSpec(ls: seq<Lexeme>, k: nat, keepString: bool, keepCall: bool)
    requires k <= |ls|
    ensures forall j :: k <= j < |ls| ==>
              MaskFrom(ls, k, FirstDef(ls, k).Some?, RecordedName(ls, k), keepString, keepCall)[j - k]
              == Erase(BinaryNinja, keepString, keepCall, ls[j].ttype, MaskedText(ls, j))
    decreases |ls| - k
  {
    if k < |ls| {
      var r := MaskFrom(ls, k, FirstDef(ls, k).Some?, RecordedName(ls, k), keepString, keepCall);
      MaskFromStep(ls, k, keepString, keepCall);
      MaskFromSpec(ls, k + 1, keepString, keepCall);
      forall j | k < j < |ls|
        ensures r[j - k] == Erase(BinaryNinja, keepString, keepCall, ls[j].ttype, MaskedText(ls, j))
      {
        assert r[j - k] == r[1..][j - (k + 1)];
      }
    }
  }

  /** One iteration of the masking loop, from the state the first `k`
      tokens leave: the masked text at `k`, then the loop from the next
      state. */
  lemma MaskFromStep(ls: seq<Lexeme>, k: nat, keepString: bool, keepCall: bool)
    requires k < |ls|
    ensures var r := MaskFrom(ls, k, FirstDef(ls, k).Some?, RecordedName(ls, k), keepString, keepCall);
            r[0] == Erase(BinaryNinja, keepString, keepCall, ls[k].ttype, MaskedText(ls, k))
            && r[1..] == MaskFrom(ls, k + 1, FirstDef(ls, k + 1).Some?, RecordedName(ls, k + 1), keepString, keepCall)
  {
    FirstDefStep(ls, k);
  }

  /** How reading one more token updates the two loop variables. */
  lemma FirstDefStep(ls: seq<Lexeme>, k: nat)
    requires k < |ls|
    ensures IsDefinition(ls, k) <==> FirstDef(ls, k).None? && ls[k].ttype == TFunction()
    ensures FirstDef(ls, k + 1).Some? == (FirstDef(ls, k).Some? || IsDefinition(ls, k))
    ensures RecordedName(ls, k + 1) == (if IsDefinition(ls, k) then ls[k].text else RecordedName(ls, k))
  {
  }

  /** tokenize_raw_code_binja, from the lexed stream. */
  function TokenizeRawCodeBinja(split: string -> seq<string>, toks: seq<Lexeme>, keepString: bool, keepCall: bool)
    : (r: seq<string>)
    ensures |r| == |GetTokens(BinaryNinja, split, toks)| <= |toks|
    ensures forall j :: 0 <= j < |r| ==>
              var ls := GetTokens(BinaryNinja, split, toks);
              r[j] == Erase(BinaryNinja, keepString, keepCall, ls[j].ttype, MaskedText(ls, j))
  {
    var ls := GetTokens(BinaryNinja, split, toks);
    MaskFromSpec(ls, 0, keepString, keepCall);
    MaskFrom(ls, 0, false, "", keepString, keepCall)
  }

  /** The cases of definition masking: the definition itself, later plain
      names spelled like it, and — since the recorded name starts out empty —
      empty plain names before any definition. */
  lemma MaskingCases(ls: seq<Lexeme>, i: nat, j: nat)
    requires j < |ls|
    ensures IsDefinition(ls, j) ==> MaskedText(ls, j) == "<FUNCTION>"
    ensures IsDefinition(ls, i) && i < j && ls[j].ttype == TName() && ls[j].text == ls[i].text ==>
              MaskedText(ls, j) == "<FUNCTION>"
    ensures (forall k :: 0 <= k < j ==> ls[k].ttype != TFunction()) && ls[j].ttype == TName() ==>
              MaskedText(ls, j) == (if ls[j].text == "" then "<FUNCTION>" else ls[j].text)
    ensures ls[j].ttype != TName() && !IsDefinition(ls, j) ==> MaskedText(ls, j) == ls[j].text
  {
    assert TName() != TFunction();
    if IsDefinition(ls, i) && i < j {
      var f := FirstDef(ls, j);
      assert f.Some?;
      assert f.value == i;
    }
  }
}
