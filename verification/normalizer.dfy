/** binja/normalizer.py: the token-by-token abstraction of addresses and
    numbers in a function's disassembly, LLIL and MLIL listings. */
module Normalizer {
  import opened Collections
  import opened Text

  /** The instruction-text token kinds the normalizer tells apart; every
      other kind of the disassembler's enumeration is `OtherToken`. */
  datatype TokenKind =
    | CodeRelativeAddressToken
    | PossibleAddressToken
    | IntegerToken
    | StringToken
    | OtherToken

  /** An instruction-text token: its kind, its text (what `str(token)`
      gives) and its numeric value. */
  datatype InstToken = InstToken(kind: TokenKind, text: string, value: int)

  /** What the normalizer reads from the binary view and the function: the
      symbol table, the function's lowest and highest address, and the
      bounds of the `.text` section. */
  datatype Context = Context(symbols: map<int, string>, fstart: int, fend: int, tstart: int, tend: int)

  /** The three listings: disassembly, low-level IL, medium-level IL. */
  datatype Level = Disassembly | LowLevelIl | MediumLevelIl

  /** Integers above this value are abstracted. */
  const NumThreshold: int := 0

  predicate IsAddressKind(k: TokenKind) {
    k == CodeRelativeAddressToken || k == PossibleAddressToken
  }

  predicate InFunction(ctx: Context, v: int) { ctx.fstart <= v <= ctx.fend }

  predicate InText(ctx: Context, v: int) { ctx.tstart <= v <= ctx.tend }

  /** An address-like value: the symbol's name when the table has one, and
      otherwise a placeholder saying whether the address lies in the
      function (bounds included), elsewhere in `.text`, or outside it. */
  function AddressText(ctx: Context, v: int): (r: string)
    ensures v in ctx.symbols ==> r == ctx.symbols[v]
    ensures v !in ctx.symbols ==> (r == "<LOCADDR>" <==> InFunction(ctx, v))
    ensures v !in ctx.symbols ==> (r == "<INTERADDR>" <==> !InFunction(ctx, v) && InText(ctx, v))
    ensures v !in ctx.symbols ==> (r == "<ADDR>" <==> !InFunction(ctx, v) && !InText(ctx, v))
  {
    if v in ctx.symbols then ctx.symbols[v]
    else if InFunction(ctx, v) then "<LOCADDR>"
    else if InText(ctx, v) then "<INTERADDR>"
    else "<ADDR>"
  }

  /** The MLIL treatment of a string token: quotes set apart by spaces,
      underscores turned into spaces, outer whitespace stripped. */
  function NormalizeString(text: string): (r: string)
    ensures r == "" || IsStrippedWord(r)
    ensures '_' !in r
    ensures Filter(NotSpace, r) == RemoveChar(Filter(NotSpace, text), '_')
  {
    StrippedStringFacts(text);
    StrippedText(SpacedString(text))
  }

  lemma StrippedStringFacts(text: string)
    ensures '_' !in StrippedText(SpacedString(text))
    ensures Filter(NotSpace, StrippedText(SpacedString(text))) == RemoveChar(Filter(NotSpace, text), '_')
  {
    SpacedStringFacts(text);
    StripNoUnderscore(SpacedString(text));
  }

  /** The string token before stripping: quotes padded, underscores made
      spaces. */
  function SpacedString(text: string): string {
    ReplaceAll(ReplaceAll(text, ['"'], " \" "), ['_'], " ")
  }

  /** Padding and replacing leave no underscore and change only whitespace,
      apart from the underscores themselves. */
  lemma SpacedStringFacts(text: string)
    ensures '_' !in SpacedString(text)
    ensures Filter(NotSpace, SpacedString(text)) == RemoveChar(Filter(NotSpace, text), '_')
  {
    var quoted := ReplaceAll(text, ['"'], " \" ");
    QuotesInvisible(text);
    UnderscoresVanish(quoted);
    FilterRemoveCommute(quoted, '_');
    ReplaceCharChars(quoted, '_', " ");
  }

  /** Padding quotes with spaces adds only spaces. */
  lemma QuotesInvisible(text: string)
    ensures Filter(NotSpace, ReplaceAll(text, ['"'], " \" ")) == Filter(NotSpace, text)
  {
    var pad := " \" ";
    assert pad == [' '] + ['"'] + [' '];
    FilterAppend(NotSpace, [' '] + ['"'], [' ']);
    FilterAppend(NotSpace, [' '], ['"']);
    FilterSingle(NotSpace, ' ');
    FilterSingle(NotSpace, '"');
    ReplaceCharFilter(text, '"', pad, NotSpace);
  }

  /** Turning underscores into spaces hides them from the non-space view as
      deleting them would. */
  lemma UnderscoresVanish(s: string)
    ensures Filter(NotSpace, ReplaceAll(s, ['_'], " ")) == Filter(NotSpace, RemoveChar(s, '_'))
  {
    FilterSingle(NotSpace, ' ');
    assert Filter(NotSpace, "") == [];
    ReplaceCharSameFilter(s, '_', " ", "", NotSpace);
    ReplaceCharIsRemove(s, '_');
  }

  /** Deleting a character and keeping the non-space ones commute. */
  lemma FilterRemoveCommute(s: string, c: char)
    ensures Filter(NotSpace, RemoveChar(s, c)) == RemoveChar(Filter(NotSpace, s), c)
  {
    FilterCommute(NotSpace, Without(c), s);
  }

  /** Stripping adds no character. */
  lemma StripNoUnderscore(s: string)
    requires '_' !in s
    ensures '_' !in Strip(s)
  {
    FilterMember(NotSpace, Strip(s), '_');
    FilterMember(NotSpace, s, '_');
  }

  /** One token of the listing at `level`. */
  function NormalizeToken(level: Level, ctx: Context, t: InstToken): (r: string)
    ensures IsAddressKind(t.kind) ==> r == AddressText(ctx, t.value)
    ensures t.kind == IntegerToken ==> (r == "<NUM>" <==> t.value > NumThreshold || t.text == "<NUM>")
    ensures t.kind == IntegerToken && t.value <= NumThreshold ==> r == t.text
    ensures t.kind == StringToken && level == MediumLevelIl ==> r == NormalizeString(t.text)
    ensures t.kind == OtherToken || (t.kind == StringToken && level != MediumLevelIl) ==> r == t.text
  {
    match t.kind
    case CodeRelativeAddressToken => AddressText(ctx, t.value)
    case PossibleAddressToken => AddressText(ctx, t.value)
    case IntegerToken => if t.value > NumThreshold then "<NUM>" else t.text
    case StringToken => if level == MediumLevelIl then NormalizeString(t.text) else t.text
    case OtherToken => t.text
  }

  /** One normalized text per token, one list per instruction, both in order. */
  function Normalize(level: Level, ctx: Context, insts: seq<seq<InstToken>>): (r: seq<seq<string>>)
    ensures |r| == |insts|
    ensures forall i :: 0 <= i < |r| ==> |r[i]| == |insts[i]|
  {
    seq(|insts|, i requires 0 <= i < |insts| =>
      seq(|insts[i]|, j requires 0 <= j < |insts[i]| => NormalizeToken(level, ctx, insts[i][j])))
  }

  /** The token at a position is the normalization of the input token there. */
  lemma NormalizeAt(level: Level, ctx: Context, insts: seq<seq<InstToken>>, i: nat, j: nat)
    requires i < |insts| && j < |insts[i]|
    ensures Normalize(level, ctx, insts)[i][j] == NormalizeToken(level, ctx, insts[i][j])
  {
  }

  /** normalize_instruction */
  function NormalizeInstruction(ctx: Context, insts: seq<seq<InstToken>>): (r: seq<seq<string>>)
    ensures |r| == |insts|
    ensures forall i :: 0 <= i < |r| ==> |r[i]| == |insts[i]|
    ensures forall i, j :: 0 <= i < |r| && 0 <= j < |r[i]| ==> r[i][j] == NormalizeToken(Disassembly, ctx, insts[i][j])
  {
    Normalize(Disassembly, ctx, insts)
  }

  /** normalize_LLIL */
  function NormalizeLlil(ctx: Context, insts: seq<seq<InstToken>>): (r: seq<seq<string>>)
    ensures |r| == |insts|
    ensures forall i :: 0 <= i < |r| ==> |r[i]| == |insts[i]|
    ensures forall i, j :: 0 <= i < |r| && 0 <= j < |r[i]| ==> r[i][j] == NormalizeToken(LowLevelIl, ctx, insts[i][j])
  {
    Normalize(LowLevelIl, ctx, insts)
  }

  /** normalize_MLIL */
  function NormalizeMlil(ctx: Context, insts: seq<seq<InstToken>>): (r: seq<seq<string>>)
    ensures |r| == |insts|
    ensures forall i :: 0 <= i < |r| ==> |r[i]| == |insts[i]|
    ensures forall i, j :: 0 <= i < |r| && 0 <= j < |r[i]| ==> r[i][j] == NormalizeToken(MediumLevelIl, ctx, insts[i][j])
  {
    Normalize(MediumLevelIl, ctx, insts)
  }

  /** Only string tokens tell the levels apart: any other token normalizes
      the same at every level. */
  lemma LevelsAgreeOffStrings(l1: Level, l2: Level, ctx: Context, t: InstToken)
    requires t.kind != StringToken
    ensures NormalizeToken(l1, ctx, t) == NormalizeToken(l2, ctx, t)
  {
  }

  predicate NoStrings(insts: seq<seq<InstToken>>) {
    forall i, j :: 0 <= i < |insts| && 0 <= j < |insts[i]| ==> insts[i][j].kind != StringToken
  }

  /** The disassembly and LLIL passes are the same function, and the MLIL
      pass agrees with them on listings without string tokens. */
  lemma PassesAgree(ctx: Context, insts: seq<seq<InstToken>>)
    ensures NormalizeInstruction(ctx, insts) == NormalizeLlil(ctx, insts)
    ensures NoStrings(insts) ==> NormalizeMlil(ctx, insts) == NormalizeInstruction(ctx, insts)
  {
    var a := NormalizeInstruction(ctx, insts);
    var b := NormalizeLlil(ctx, insts);
    assert forall i :: 0 <= i < |a| ==> a[i] == b[i];
    if NoStrings(insts) {
      var c := NormalizeMlil(ctx, insts);
      forall i | 0 <= i < |a|
        ensures c[i] == a[i]
      {
        forall j | 0 <= j < |a[i]|
          ensures c[i][j] == a[i][j]
        {
          LevelsAgreeOffStrings(MediumLevelIl, Disassembly, ctx, insts[i][j]);
        }
      }
    }
  }

  /** Normalizing a listing is normalizing its parts: no instruction's
      output depends on another instruction. */
  lemma NormalizeAppend(level: Level, ctx: Context, a: seq<seq<InstToken>>, b: seq<seq<InstToken>>)
    ensures Normalize(level, ctx, a + b) == Normalize(level, ctx, a) + Normalize(level, ctx, b)
  {
    var l := Normalize(level, ctx, a + b);
    var r := Normalize(level, ctx, a) + Normalize(level, ctx, b);
    forall i | 0 <= i < |l|
      ensures l[i] == r[i]
    {
      if i < |a| {
        assert (a + b)[i] == a[i];
      } else {
        assert (a + b)[i] == b[i - |a|];
      }
    }
  }

  /** A symbol-table hit wins even for an address inside the function. */
  lemma SymbolBeforeRange(ctx: Context, t: InstToken, level: Level)
    requires IsAddressKind(t.kind) && t.value in ctx.symbols && InFunction(ctx, t.value)
    ensures NormalizeToken(level, ctx, t) == ctx.symbols[t.value]
  {
  }
}
