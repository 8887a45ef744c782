# NER name-recovery pipeline, modelled in Dafny

The USTC-TTCN/NER repository recovers function names in stripped binaries. It
builds a translation corpus from binaries whose names are known. Each function
contributes four "source" sentences and one "target" sentence:

- the sources are its disassembly, its low-level IL, its medium-level IL and its
  decompiled pseudo-C, each abstracted token by token;
- the target is its name, split into lower-case sub-words.

This project models the text-processing core of that pipeline as pure Dafny
functions and proves what each step promises:

- `Segmenter`: the function-name segmenter of `binja/utils/utils.py`. It covers
  `split_normal_func_name`, `split_func_name` and its `get_range`,
  `split_sentence_piece`, `merge_suffix` and the composed `my_split_func_name`.
- `Demangle` and `DemangleExample`: `match_cplusplus_func_name` and
  `is_cplusplus_func`. The result is a name, an `IndexError`, or non-termination
  of a bracket-removal loop.
- `Utils`: `is_required_func`, `remove_items_from_list` and `unsigned2signed`.
- `Normalizer`: `binja/normalizer.py`. It abstracts addresses into symbol names,
  `<LOCADDR>`, `<INTERADDR>` or `<ADDR>`, integers into `<NUM>`, and rewrites
  MLIL string tokens.
- `Lexer`: the post-pass of `binja/utils/lexer.py` over a lexed token stream. It
  merges string runs, splits names, abstracts numbers and drops comments,
  whitespace and `::`. It also covers the Hex-Rays and Binary Ninja
  tokenizers, including the Binary Ninja masking of the function's own name.
  Pygments token types are modelled as their path below `Token`, so
  `is_token_subtype` is a prefix test.
- `ExtCode`: `binja/2_ext_code.py`. It covers the start-address-to-name map, the
  input file filter, the per-function retention test and the
  `methods[addr] = {...}` records.
- `Corpus`: `binja/3_generate_corpus_for_onmt.py`. It covers `process_inst`,
  `process_llil`, `process_mlil`, `process_pc` and `process_label`, and the
  line-aligned source and target files of `main`.
- `Eval`: `pipline_for_eval` of `pipline.py`. It masks the function's name,
  tokenizes the listing, repairs the spelled-out placeholder, and returns the
  split name as the target.
- `Collections`, `Text` and `Numerals` model the Python built-ins the core relies
  on:
  - `filter`, list flattening, and a dict built by successive assignment;
  - `str.startswith`, `in`, `replace`, `split`, `join`, `strip` and `lower`;
  - `str(int)` and `hex(int)`.

Collaborators that cannot be seen are parameters:

- The sentencepiece model is `encode: string -> seq<string>`.
- The NLTK word list is `vocab: set<string>`.
- The name splitter handed to the lexer and to the corpus and evaluation
  functions is a parameter `split: string -> seq<string>`. The scripts pass
  `my_split_func_name` there, which is `Segmenter.NameSplitter`. It is fixed
  to that splitter in `Segmenter.NameSplitterSpells` and
  `Corpus.ProcessLabelOfName`.
- The Pygments lexer is `lex: string -> seq<Lexeme>`.

Binary Ninja's view of a binary becomes plain data: `FuncInfo`, `InstToken`,
symbol tables and section bounds. The model only consumes these.

## Model

| member | source | states |
|---|---|---|
| Utils.IsRequiredFunc | binja/utils/utils.py:10-14 | A name is rejected exactly when it starts with one of `sub_`, `_ZN` or `_[`. |
| Utils.GeneratedNamesRejected | binja/utils/utils.py:12 | Every disassembler-generated `sub_…` name is rejected. |
| Utils.RemoveItemsFromList | binja/utils/utils.py:143-144 | The result holds exactly the elements of the list that are not among the items, in their order. |
| Utils.RemoveItemsFromListFacts | binja/utils/utils.py:143-144 | Removing leaves a list with nothing to remove unchanged, and removing twice is the same as removing once. |
| Utils.SignedValue | binja/utils/utils.py:211-214 | Values above 2^(w-1)-1 are mapped to value - 2^w. An in-range unsigned value lands in [-2^(w-1), 2^(w-1)), and the result is congruent to the input modulo 2^w. |
| Utils.Unsigned2Signed | binja/utils/utils.py:211-215 | The returned hex text parses back to the two's-complement value, and it carries a minus sign exactly when that value is negative. |
| Utils.Unsigned2SignedByte | binja/utils/utils.py:211-215 | At width 8, 255 gives -1, 127 stays 127 and 128 gives -128. |
| Segmenter.Underscored | binja/utils/utils.py:21 | Every non-letter becomes `_` and the letters stay in place: same length, same letters. |
| Segmenter.InsertBreaks | binja/utils/utils.py:23-28 | Only `_` marks are inserted: with the marks removed, the text is unchanged. |
| Segmenter.InsertBreaksMarksUpper | binja/utils/utils.py:24-28 | After the insertion, every upper-case letter is preceded by a `_` mark. |
| Segmenter.SplitNormalFuncName | binja/utils/utils.py:18-31 | Every token is a non-empty lower-case word, and the tokens concatenate to the name's letters in lower case. The tokens are the name's words lower-cased, with the word boundaries of `Segmenter.NameWords`. |
| Segmenter.NameWords | binja/utils/utils.py:18-31 | The independent reading of a name's words: each is a letter followed only by lower-case letters, and a word begins exactly at each capital and at each letter that opens the name or follows a non-letter. |
| Segmenter.BrokenWordsAreNameWords | binja/utils/utils.py:21-29 | Inserting `_` before capitals and splitting on `_` gives exactly the words of `Segmenter.NameWords`: no word spans a capital and none is cut between lower-case letters. |
| Segmenter.BrokenWords | binja/utils/utils.py:29 | The non-empty pieces between marks are letter-only, and together they are exactly the name's letters. |
| Segmenter.LowerAll | binja/utils/utils.py:30 | Lower-casing each word keeps the count and lower-cases the concatenation. |
| Segmenter.RunEnd | binja/utils/utils.py:51-52 | The inner loop stops at the end of the run of consecutive indices that starts at `right`. |
| Segmenter.GetRangeSpec | binja/utils/utils.py:43-64 | get_range starts with 0 and is strictly increasing. Its other members are exactly the starts (other than 0) and the ends plus one of the runs of two or more consecutive indices. |
| Segmenter.RangeLoopSpec | binja/utils/utils.py:50-62 | The outer loop, from any state meeting its invariant, ends with the same three properties. |
| Segmenter.RangeStep | binja/utils/utils.py:51-62 | One iteration of the outer loop preserves the invariant and moves past the current run. |
| Segmenter.GetRangeCommentExample | binja/utils/utils.py:42-64 | The code maps [6,7,8,15,22,23,24,25] to [0,6,9,22,26], not to the [6,15,22] its comment announces. |
| Segmenter.UpperFrom | binja/utils/utils.py:40 | The collected positions are increasing, and they are exactly those of the upper-case letters. |
| Segmenter.Boundaries | binja/utils/utils.py:67-69 | The cut points start at 0, increase strictly and end at the name's length. |
| Segmenter.Slices | binja/utils/utils.py:71-74 | Each slice is the non-empty text between consecutive cut points, and the slices concatenate to the whole span. |
| Segmenter.NameSlices | binja/utils/utils.py:37-74 | The slices of the underscored name are non-empty and concatenate back to it. |
| Segmenter.CapitalsWord | binja/utils/utils.py:79-80 | An all-capitals slice becomes one lower-case word made of its letters. |
| Segmenter.SliceWords | binja/utils/utils.py:78-82 | Each slice yields lower-case words that spell its letters in lower case. |
| Segmenter.ExpandSlices | binja/utils/utils.py:76-84 | The words from all slices spell the letters of the whole text in lower case. |
| Segmenter.SplitFuncName | binja/utils/utils.py:34-84 | Every token is a non-empty lower-case word, and the tokens spell the name's letters in lower case. A name without letters gives no tokens. |
| Segmenter.CapitalRunIsWord | binja/utils/utils.py:34-84 | A maximal run of two or more capitals in the name comes out whole, as one lower-cased word. |
| Segmenter.RunNameSlice | binja/utils/utils.py:67-74 | A maximal run of two or more capitals is exactly one of the slices between cut points. |
| Segmenter.RangeHasStart | binja/utils/utils.py:43-64 | get_range keeps the start of every run of two or more consecutive indices. |
| Segmenter.RangeHasEnd | binja/utils/utils.py:43-64 | get_range keeps one past the end of every run of two or more consecutive indices. |
| Segmenter.RangeSkipsInside | binja/utils/utils.py:43-64 | An index whose predecessor is also an index is never a cut point, so no run is cut inside. |
| Segmenter.StripMarkersFlatten | binja/utils/utils.py:152 | Deleting the word-start marker from each piece deletes it from their concatenation. |
| Segmenter.EncodeAll | binja/utils/utils.py:149-150 | One word yields exactly its encoder pieces, and every piece of every word occurs in the flattened list. |
| Segmenter.EncodeAllAppend | binja/utils/utils.py:149-150 | Encoding a concatenation of word lists is encoding each list and concatenating. |
| Segmenter.StripMarker | binja/utils/utils.py:152 | The piece with every marker deleted: no marker is left, and every other character stays in order. |
| Segmenter.StripKeepsText | binja/utils/utils.py:152-154 | Deleting the markers leaves a non-empty piece exactly when the piece has some character besides the marker. |
| Segmenter.StripThenDropEmpty | binja/utils/utils.py:152-154 | Stripping and then dropping empty pieces is the same as first dropping the pieces made only of markers and then stripping. |
| Segmenter.SplitSentencePiece | binja/utils/utils.py:147-155 | The pieces are non-empty and free of the marker, and together they are the encoder's output with the markers deleted. Piece by piece, the result is the encoder's pieces that have some character besides the marker, each with its markers deleted, in order. |
| Segmenter.SplitSentencePieceKeepsPieces | binja/utils/utils.py:147-155 | When every encoder piece has a character besides the marker, none is dropped: the result has one piece per encoder piece, and piece k is encoder piece k with its markers deleted. |
| Segmenter.SplitSentencePieceAsWritten | binja/utils/utils.py:147-155 | The pieces are non-empty. When no piece holds U+201A, the first character of the literal, the pieces are the encoder's output unchanged, markers included. |
| Segmenter.MarkerKeptAsWritten | binja/utils/utils.py:152 | For an encoder that turns `walk` into the one piece U+2581 `walk`, the code as written keeps that piece, while the intended deletion gives `walk`. |
| Segmenter.SplitSentencePieceAppend | binja/utils/utils.py:147-155 | Segmenting a list of words is segmenting each part and concatenating. |
| Segmenter.FaithfulEncodeAll | binja/utils/utils.py:149-152 | With an encoder whose pieces spell its input once the markers are removed, the segmented pieces spell the words. |
| Segmenter.MergeSuffix | binja/utils/utils.py:158-178 | The rules apply in order: a listed suffix or a matching ending pair joins the last two tokens. Otherwise a dictionary match returns the joined word as a bare string. Otherwise the tokens come back unchanged. |
| Segmenter.MergeSuffixContent | binja/utils/utils.py:158-178 | A list result keeps the text and keeps every token a lower-case word, and a bare result is the last two tokens, which end the text. |
| Segmenter.MergedLastTwoKeeps | binja/utils/utils.py:168-169 | Joining the last two tokens keeps the concatenation. |
| Segmenter.MergeSuffixPairExample | binja/utils/utils.py:171-175 | ["walk","e","r"] merges once, to ["walk","er"]. |
| Segmenter.MergeSuffixSuffixExample | binja/utils/utils.py:167-170 | ["walk","er"] merges to ["walker"], so a single call does not reach a fixed point. |
| Segmenter.Letterwise | binja/utils/utils.py:177 | A bare string iterated by `" ".join` yields its characters one by one, and they concatenate back to it. |
| Segmenter.MySplitFuncName | binja/2_ext_code.py:38-39 | A list result spells the encoder's pieces for the split words with the markers deleted, and a bare result is a tail of that spelling. |
| Segmenter.MySplitFuncNameSkeleton | binja/2_ext_code.py:38-39 | With a faithful encoder, a list result spells the name's letters in lower case, and a bare result ends that spelling. |
| Segmenter.NameSplitter | binja/2_ext_code.py:130-131 | For every name, what `" ".join` walks over spells a tail of the encoder's output for the split words, with the markers deleted. |
| Segmenter.NameSplitterSpells | binja/2_ext_code.py:38-39 | With a faithful encoder, the splitter spells the name's letters in lower case when the suffix merge keeps a list, and a tail of them when it returns one bare word. |
| Demangle.TrimToParen | binja/utils/utils.py:94-98 | Characters are trimmed back to a closing parenthesis. The result is a prefix ending in `)` with no `)` or `:` after it. A `:` first gives the empty result. Neither character present is exactly the IndexError case. |
| Demangle.FindGroupsEmpty | binja/utils/utils.py:100-122 | The regex finds no group exactly when no innermost bracket pair exists. |
| Demangle.FindGroupsFrom | binja/utils/utils.py:100-122 | Every match is an innermost bracket group contained in the text. |
| Demangle.FindGroupsFromComplete | binja/utils/utils.py:100-122 | With distinct marks, the scan from position i returns every innermost group that starts at or after i. |
| Demangle.FindGroups | binja/utils/utils.py:100-102 | `findall` returns only innermost groups of the text. With distinct marks, as in all four loops, it returns every innermost group of the text. |
| Demangle.FindGroupsOne | binja/utils/utils.py:100-102 | A text with one innermost group and no other opening mark yields exactly that group. |
| Demangle.DeleteAll | binja/utils/utils.py:103-104 | Deleting never lengthens the text and never adds a character. It shortens the text when the first group occurs in it, and leaves the text unchanged when no group occurs. |
| Demangle.DeletePass | binja/utils/utils.py:102-104 | A pass with matches strictly shortens the text, and a pass without matches leaves it unchanged. |
| Demangle.DeletePassOne | binja/utils/utils.py:102-104 | On a text with one innermost group and no other opening mark, the pass deletes exactly that group and joins what surrounds it. |
| Demangle.StripGroups | binja/utils/utils.py:100-122 | The loop ends with one of the pair missing and the text no longer. It does not end when both are present but nothing matches. |
| Demangle.StripGroupsOne | binja/utils/utils.py:100-104 | On a text with one innermost group and no other opening mark, the loop deletes that group and stops, with the text around it joined. |
| Demangle.StripBrackets | binja/utils/utils.py:100-122 | After all four loops, backquote and quote no longer both occur. Deleting groups never introduces a character: every character left was in the signature. A text in which no pair has both its marks comes back unchanged. |
| Demangle.StripBracketsTemplate | binja/utils/utils.py:100-122 | A text with one template argument list, no other `<`, and no `(`, `[` or backquote outside that list loses exactly that list. |
| Demangle.FirstWord | binja/utils/utils.py:127 | The text before the first space: it has no space, begins the text, and is the whole text or is followed by a space. |
| Demangle.LastWord | binja/utils/utils.py:129 | The text after the last space: it has no space, ends the text, and is the whole text or is preceded by a space. |
| Demangle.LastComponent | binja/utils/utils.py:124-129 | The chosen component contains no space and no `::`, and it occurs in the text. With `::`, it begins the part after the last `::` and runs up to that part's first space or its end. Without `::`, it ends the text and starts after the text's last space or at its start. |
| Demangle.TrimStars | binja/utils/utils.py:134-135 | Trailing `*` are dropped, and the letters and the non-empty prefix remain. |
| Demangle.DropTilde | binja/utils/utils.py:137-138 | A leading `~` is dropped, and nothing else changes. |
| Demangle.Finish | binja/utils/utils.py:124-140 | The result is empty exactly when the last component has no letter. Otherwise it is a piece of that component with the same letters, and it has no space, no `::` and no trailing `*`. |
| Demangle.NameOfPrefix | binja/utils/utils.py:100-140 | On a kept prefix, the result is non-termination exactly when a bracket loop never ends. Otherwise it is a name that is empty exactly when the last component of the stripped text has no letter; a non-empty name is a piece of that component with the same letters. |
| Demangle.MatchCplusplusFuncName | binja/utils/utils.py:91-140 | IndexError exactly when neither `)` nor `:` occurs, and never for a name `is_cplusplus_func` accepts. A `:` reached before any `)` gives the empty name. Otherwise the result is that of the prefix ending in the last `)`. Every character of a returned name occurs in the signature. |
| DemangleExample.Example | binja/utils/utils.py:91-140 | `A::f(int)` gives `f`. |
| DemangleExample.ExampleHang | binja/utils/utils.py:100-105 | `x>y<z()` makes the template loop run forever. |
| Normalizer.AddressText | binja/normalizer.py:19-28 | A symbol's name wins. Otherwise `<LOCADDR>` inside the function, `<INTERADDR>` elsewhere in `.text`, and `<ADDR>` everywhere else. |
| Normalizer.NormalizeString | binja/normalizer.py:100-101 | The rewritten MLIL string is stripped and has no `_`. Apart from whitespace, it is the original with its `_` deleted. |
| Normalizer.NormalizeToken | binja/normalizer.py:16-35 | Address kinds go through the address rule. Integers above the threshold (0) become `<NUM>` and the rest keep their text. Strings are rewritten only at the MLIL level. |
| Normalizer.Normalize | binja/normalizer.py:16-36 | The listing keeps its shape: one line per instruction and one entry per token. |
| Normalizer.NormalizeAt | binja/normalizer.py:16-36 | Entry (i, j) is the normalized token (i, j). |
| Normalizer.NormalizeInstruction | binja/normalizer.py:7-37 | The disassembly listing keeps its shape: one line per instruction, one text per token. Each text is that token normalized at disassembly level. |
| Normalizer.NormalizeLlil | binja/normalizer.py:40-70 | The LLIL listing keeps its shape, and each text is that token normalized at LLIL level. |
| Normalizer.NormalizeMlil | binja/normalizer.py:73-105 | The MLIL listing keeps its shape, and each text is that token normalized at MLIL level, where strings are respaced. |
| Normalizer.PassesAgree | binja/normalizer.py:7-105 | The disassembly and LLIL passes are the same function, and the MLIL pass agrees with them on listings without string tokens. |
| Normalizer.LevelsAgreeOffStrings | binja/normalizer.py:7-105 | Off string tokens, the level does not matter. |
| Normalizer.NormalizeAppend | binja/normalizer.py:16-36 | Normalization is instruction by instruction: it distributes over concatenation. |
| Normalizer.SymbolBeforeRange | binja/normalizer.py:21-24 | A symbol's name takes priority over `<LOCADDR>` even inside the function. |
| Lexer.SubtypeIsAncestor | binja/utils/lexer.py:41 | Being a subtype means having the other type as ancestor at its depth. |
| Lexer.Disjoint | binja/utils/lexer.py:41-77 | Two types of equal depth that share a subtype are equal, so the branches' categories do not overlap. |
| Lexer.TypesApart | binja/utils/lexer.py:50-75 | Names, numbers, strings, comments, operators and text are pairwise apart, so the branch order is immaterial across them. |
| Lexer.StringWord | binja/utils/lexer.py:42 | A flushed string run is quoted with `" ` and ` "` and contains no `_`. |
| Lexer.HexRaysName | binja/utils/lexer.py:55-59 | A Hex-Rays name starting with `a` or `v` stays as is, and any other is split. |
| Lexer.RegisterName | binja/utils/lexer.py:104-105 | A register variable keeps its text up to the first `_`: the result has no `_`, begins the text, and is the whole text or is followed by `_`. |
| Lexer.Emit | binja/utils/lexer.py:49-77 | A token is dropped exactly when it is a comment, a `::` operator or whitespace. Otherwise it gets the dialect's text: functions as `<FUNCTION>` or the split name, numbers as `0` or `<Number>`. In Hex-Rays a plain name goes through the `a`/`v` test and any other kind of name is stripped; in Binary Ninja every other kind of name goes to the dialect's name rule. Tokens that are neither names nor numbers are stripped. |
| Lexer.BinaryNinjaName | binja/utils/lexer.py:101-111 | Variables, register variables, labels and conditions get their placeholders. Every other kind of name is split and joined by spaces. |
| Lexer.GetTokens | binja/utils/lexer.py:27-31 | The post-pass never yields more tokens than it reads. |
| Lexer.PostPass | binja/utils/lexer.py:36-129 | At most one token is yielded per token read, plus one for a pending string. Every yielded token is a collapsed string or a kept category, never a comment, whitespace or string piece. |
| Lexer.StringRunAbsorbed | binja/utils/lexer.py:41-48 | A run of string pieces only grows the buffer. |
| Lexer.StringRunFlushed | binja/utils/lexer.py:41-48 | A non-empty run followed by another token yields one quoted string token and then that token's own output. |
| Lexer.TrailingRunDropped | binja/utils/lexer.py:36-48 | A string run at the end of the stream is never yielded. |
| Lexer.PostPassAppend | binja/utils/lexer.py:37-77 | The post-pass is compositional: on a concatenation it is the first part's output, then the second part's output continued from the pending string buffer. |
| Lexer.Erase | binja/utils/lexer.py:217-223 | With both flags kept the text is untouched. Otherwise strings become `<STRING>` and calls become `<FUNCTION>`, or `<FUNCTION> (` for Hex-Rays. |
| Lexer.TokenizeRawCodeHexray | binja/utils/lexer.py:213-225 | One output per post-pass token, each that token's text after erasure. |
| Lexer.FirstDef | binja/utils/lexer.py:231-237 | The definition is the first function token. None means there is no function token. |
| Lexer.MaskFromSpec | binja/utils/lexer.py:233-247 | The masking loop produces, at every position, the erased masked text. |
| Lexer.TokenizeRawCodeBinja | binja/utils/lexer.py:228-248 | One output per post-pass token, each the erased text after the definition and the uses of its name are masked. |
| Lexer.MaskingCases | binja/utils/lexer.py:234-239 | The definition and later name tokens equal to it become `<FUNCTION>`. Before any definition, a name equal to the empty recorded name is masked too. Other tokens are untouched. |
| ExtCode.IsMeaningfulName | binja/2_ext_code.py:29-35 | A name is meaningless exactly when it starts with a listed entry, which covers equality. |
| ExtCode.EmptyNameMeaningful | binja/2_ext_code.py:25-26 | Since blank lines are dropped from the list, the empty name is meaningful. |
| ExtCode.Kept | binja/2_ext_code.py:68-70 | Filtering keeps exactly the entries that pass the meaningfulness test when it is on, and all entries when it is off. |
| ExtCode.GetStartAddrNameMaps | binja/2_ext_code.py:60-72 | It fails (an IndexError) exactly when some kept entry has no address. |
| ExtCode.StartAddrNameMapsSound | binja/2_ext_code.py:67-72 | Every address maps to the name of the last kept entry starting there, and that name is meaningful when filtering. |
| ExtCode.StartAddrNameMapsComplete | binja/2_ext_code.py:67-72 | Every kept entry's first address is a key, and it maps to that entry when no later entry shares the address. |
| ExtCode.FilterBinaryFile | binja/2_ext_code.py:75-81 | The result holds exactly the paths without a `.name_and_addr`, `.bndb` or `.json` ending. |
| ExtCode.FilterBinaryFileFacts | binja/2_ext_code.py:75-81 | The filter keeps a clean list unchanged, is idempotent and distributes over concatenation. |
| ExtCode.RecordKey | binja/2_ext_code.py:125 | The `low_high` key is non-empty. |
| ExtCode.RecordKeyInjective | binja/2_ext_code.py:125 | Distinct address pairs get distinct keys. |
| ExtCode.SymbolMaps | binja/2_ext_code.py:107-109 | The keys are exactly the symbols' addresses. Each address maps to the split name, joined by spaces, of the last symbol at that address. |
| ExtCode.MakeRecord | binja/2_ext_code.py:125-140 | The record carries the start address, the mapped name and the key. Its three listings are the disassembly, LLIL and MLIL normalizations of the function's listings. Its pseudo code is the Binary Ninja post-pass over the function's lexemes, with strings and calls kept. |
| ExtCode.Retained | binja/2_ext_code.py:115-121 | Exactly the functions inside `.text`, with a known start address and analysed, are kept. |
| ExtCode.RecordPairs | binja/2_ext_code.py:125-140 | One keyed record per retained function, in order. |
| ExtCode.ExtractMethods | binja/2_ext_code.py:114-140 | Every stored record sits under its own key, with its own start address and name. |
| ExtCode.ExtractMethodsComplete | binja/2_ext_code.py:114-140 | Every retained function is stored under its key with its start address. |
| ExtCode.ExtractMethodsSound | binja/2_ext_code.py:114-140 | Every stored key comes from a retained function, and the stored record is that function's record. |
| Corpus.InstSegment | binja/3_generate_corpus_for_onmt.py:47-51 | A call contributes ` call` and the split callee. Any other instruction contributes its stripped non-empty tokens. An instruction too short for the indexing fails. |
| Corpus.LlilSegment | binja/3_generate_corpus_for_onmt.py:57-63 | As above, except that an `if…` instruction contributes all its tokens verbatim. |
| Corpus.PlainSegmentContent | binja/3_generate_corpus_for_onmt.py:51 | A plain segment keeps every visible character of the instruction. |
| Corpus.PlainSegmentRoundTrip | binja/3_generate_corpus_for_onmt.py:51 | Splitting a plain segment at spaces gives back the stripped tokens. |
| Corpus.ConditionVerbatim | binja/3_generate_corpus_for_onmt.py:60-63 | The LLIL pass differs from the disassembly pass only on `if…` instructions. |
| Corpus.Concat | binja/3_generate_corpus_for_onmt.py:46-52 | Accumulating segments fails exactly when one of them fails. |
| Corpus.ConcatAppend | binja/3_generate_corpus_for_onmt.py:46-52 | Accumulation distributes over concatenation. |
| Corpus.ProcessInst | binja/3_generate_corpus_for_onmt.py:45-52 | Fails exactly when some instruction raises the IndexError. |
| Corpus.ProcessLlil | binja/3_generate_corpus_for_onmt.py:55-64 | Fails exactly when some instruction raises the IndexError. |
| Corpus.ProcessInstCons | binja/3_generate_corpus_for_onmt.py:46-52 | The line is the first instruction's segment followed by the rest's line. |
| Corpus.ProcessLlilCons | binja/3_generate_corpus_for_onmt.py:56-64 | The line is the first instruction's segment followed by the rest's line. |
| Corpus.ProcessMlil | binja/3_generate_corpus_for_onmt.py:66-70 | The line is empty exactly when there are no instructions. |
| Corpus.ProcessMlilContent | binja/3_generate_corpus_for_onmt.py:66-70 | The line keeps every visible character of the listing. |
| Corpus.ProcessPc | binja/3_generate_corpus_for_onmt.py:73-74 | The joined pseudo-code keeps every visible character. |
| Corpus.ProcessPcRoundTrip | binja/3_generate_corpus_for_onmt.py:73-74 | Splitting the line at spaces gives back tokens that contain no space. |
| Corpus.ProcessLabel | binja/3_generate_corpus_for_onmt.py:77-78 | The label keeps every visible character of the split name. |
| Corpus.ProcessLabelOfName | binja/3_generate_corpus_for_onmt.py:77-78 | With the script's own splitter and a faithful encoder, the label's visible text is the name's letters in lower case when the suffix merge keeps a list, and a tail of them for one bare word. |
| Corpus.ProcessLabelRoundTrip | binja/3_generate_corpus_for_onmt.py:77-78 | Splitting the label at spaces gives back the split name. |
| Corpus.Collect | binja/3_generate_corpus_for_onmt.py:90-96 | Collecting lines succeeds exactly when every line does, and then it keeps them in order. |
| Corpus.GenerateCorpus | binja/3_generate_corpus_for_onmt.py:81-130 | All five outputs have one line per method, in file and dict order. |
| Corpus.CorpusDefined | binja/3_generate_corpus_for_onmt.py:81-130 | The corpus is produced exactly when every method's listings can be processed. |
| Corpus.CorpusAligned | binja/3_generate_corpus_for_onmt.py:94-128 | Line i of each source file and of the label file all come from method i. |
| Eval.MaskName | pipline.py:31-32 | An absent name leaves the listing untouched. |
| Eval.MaskNameIsReplace | pipline.py:31-32 | The membership guard is immaterial: masking is replacing everywhere. |
| Eval.RepairCallsOnce | pipline.py:34 | One replace pass never lengthens the text, shortens it when a spelled call is present, and is the identity otherwise. With white space dropped and letters lowered, the text is unchanged: the pass only respaces the placeholder and restores its capitals. |
| Eval.CallsSquashAlike | pipline.py:34 | The spelled-out call and its replacement are the same text once white space is dropped and letters are lowered. |
| Eval.AdjacentCallsMissed | pipline.py:34 | Two adjacent spelled calls share a space, so one pass leaves the second one spelled out. |
| Eval.RepairCalls | pipline.py:34 | The intended repair leaves no spelled call, and it agrees with one pass whenever that pass already succeeds. It keeps the text with white space dropped and letters lowered. |
| Eval.JoinedTokens | pipline.py:33-34 | Joining the tokenizer's output with spaces keeps every visible character of it. |
| Eval.PipelineForEval | pipline.py:27-37 | The target is the split name joined by spaces, and the source has no spelled call left. With white space dropped and letters lowered, the source is the joined tokens, and joined tokens without a spelled call are the source unchanged. |
| Eval.PipelineForEvalAsWritten | pipline.py:27-37 | The target is the split name joined by spaces, and the single repair pass never lengthens the source. With white space dropped and letters lowered, the source is the joined tokens, and joined tokens without a spelled call are the source unchanged. |
| Eval.PipelinesAgree | pipline.py:27-37 | The corrected and the written pipeline agree whenever one pass leaves no spelled call. |
| Eval.KeepAllIsPostPass | pipline.py:33 | With strings and calls kept, the Hex-Rays tokenizer is the post-pass's text, token for token. |
| Text.Strip | binja/utils/lexer.py:72 | `str.strip()` gives an empty or stripped word and keeps every visible character. |
| Text.SplitJoin | binja/utils/utils.py:29 | Joining the pieces of a split with the separator gives the text back. |
| Text.SplitFirstStop | binja/utils/utils.py:127 | The first piece of a split is the whole text when there is one piece, and is followed by the separator otherwise. |
| Text.SplitLastStart | binja/utils/utils.py:129 | The last piece of a split ends the text. It is the whole text when there is one piece, and is preceded by the separator otherwise. |
| Text.ReplaceOnce | binja/utils/utils.py:104 | The only occurrence of a pattern, between two texts without its first character, is deleted and nothing else changes. |
| Text.JoinSplit | binja/3_generate_corpus_for_onmt.py:73-74 | Splitting a join gives the pieces back when none contains the separator. |
| Numerals.HexRoundTrip | binja/utils/utils.py:215 | `hex()` text parses back to its integer, negative values included. |
| Numerals.IntToStringRoundTrip | binja/2_ext_code.py:125 | `str()` of an integer parses back to it. |

## Left out

- Lexing itself, by Pygments with the `HexRaysLexer` and `BinJaLexer` rule
  tables (`binja/utils/lexer.py:133-208`). The tokenizers take the lexed
  `(type, text)` stream as input, and `Eval` takes the lexer as a parameter
  `lex`.
- The `TokenError` branch (`binja/utils/lexer.py:76-77`, `128-129`). Every token
  type is a subtype of `Text` or not, so the branch cannot be reached, and the
  model has no such case.
- The sentencepiece model and the NLTK word list. They are the parameters
  `encode` and `vocab`, and `Segmenter.FaithfulEncoder` is the only assumption
  made about `encode`.
- Binary Ninja. Functions, instruction tokens, symbols and section bounds are
  inputs. `get_pseudo_c` (`binja/2_ext_code.py:42-57`) renders the listing
  through the API, so its lexed token stream is an input field of `FuncInfo`.
- All file and process handling:
  - the `glob` calls, pickle and JSON files, and `save`;
  - the skip rules of `main` for existing `.json` or missing `.name_and_addr`
    files (`binja/2_ext_code.py:88-105`);
  - writing `.bndb` databases, logging and `tqdm`.
- The order of a dict loaded from JSON is taken to be the order of the record
  sequence.
- `shannon_entropy` (floating point), `md5` (a hash) and
  `get_files_with_specific_ext_from_dir` (file-system walk and set order).
  None of them is called by the pipeline.
- `my_split_func_name` at `binja/utils/utils.py:221-222`. It refers to
  undefined globals `sp` and `vocab` and would raise `NameError`. The working
  definitions in `binja/2_ext_code.py:38-39` and `pipline.py:17-18` are
  modelled as `Segmenter.MySplitFuncName`.
- Segmenter.MySplitFuncName: for an arbitrary encoder, its contract speaks of
  the encoder's pieces. The link to the name's letters needs an encoder that
  only cuts and marks words, and it is stated by
  `Segmenter.MySplitFuncNameSkeleton`. It composes the corrected
  `Segmenter.SplitSentencePiece`. The definitions as written at
  `binja/2_ext_code.py:39` and `pipline.py:18` go through the literal of
  `binja/utils/utils.py:152` and so keep U+2581 in the pieces; see
  "## Findings".
- Utils.SignedValue: requires a width of at least 1. At width 0, `2**(width-1)`
  is the float 0.5 in Python, which this model does not cover.
- Utils.Unsigned2Signed: requires a width of at least 1, for the same reason.
- Characters are ASCII as far as letter tests and case are concerned.
  Python's `isalpha`, `isupper` and `lower` also act on non-ASCII letters, and
  those are treated as non-letters here. The whitespace set of `str.strip()` is
  modelled in full.
- Segmenter.SplitSentencePiece: it deletes the word-start marker U+2581 that
  sentencepiece emits. The literal in `binja/utils/utils.py:152` is three other
  characters, so the code as written deletes nothing from ordinary pieces.
  That version is `Segmenter.SplitSentencePieceAsWritten`; see "## Findings".
- Python exceptions that the core lets escape are modelled as error values:
  - `None` stands for an `IndexError` on an empty instruction or an entry
    without addresses.
  - `Demangle.Demangled` has an `IndexError` case and a `NoTermination` case.
- In the comment at `binja/utils/utils.py:42`, `get_range` maps
  [6,7,8,15,22,23,24,25] to [6,15,22]. The model follows the code, which gives
  [0,6,9,22,26] (`Segmenter.GetRangeCommentExample`).
- Corpus.GenerateCorpus: the model yields all five outputs or none
  (`Corpus.CorpusDefined`). The script saves the instruction corpus and the
  label file (`binja/3_generate_corpus_for_onmt.py:98`) before it starts the
  LLIL pass. An IndexError raised in a later pass therefore leaves those two
  files written. Files are outside the model, so this partial write is not
  represented.
- `py_test_models.py` and the IDA scripts are outside the core.

## Findings

| source | as written | input that shows it | evidently intended | confidence | as-written member | corrected member |
|---|---|---|---|---|---|---|
| binja/utils/utils.py:152 | The literal passed to `replace` is U+201A U+00F1 U+00C5. These are the UTF-8 bytes of the marker U+2581 read back as Mac Roman. Pieces of words without U+201A cannot contain it, so the markers stay in the pieces. | an encoder that turns `walk` into the one piece U+2581 `walk` | the marker U+2581 is deleted from every piece | not executed | Segmenter.SplitSentencePieceAsWritten, Segmenter.MarkerKeptAsWritten | Segmenter.SplitSentencePiece |
| pipline.py:34 | One left-to-right `str.replace` pass rewrites ` < function > ( ` into ` <FUNCTION> ( `. Two adjacent occurrences share the space between them, so the second is skipped. | a joined listing containing ` < function > ( < function > ( ` | every spelled-out placeholder call is rewritten | not executed | Eval.AdjacentCallsMissed, Eval.PipelineForEvalAsWritten | Eval.RepairCalls, Eval.PipelineForEval |
