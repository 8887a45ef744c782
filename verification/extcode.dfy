/** The selection helpers of binja/2_ext_code.py: the block list of
    meaningless names, the address-to-name map, the choice of input files,
    and which functions become records under which key. */
module ExtCode {
  import opened Collections
  import opened Text
  import opened Numerals
  import opened Normalizer
  import opened Lexer

  /** is_meaningful_name: for each blocked entry in turn, an equal name or a
      name starting with it is rejected. */
  function IsMeaningfulName(meaningless: seq<string>, name: string): (r: bool)
    ensures !r <==> exists k :: 0 <= k < |meaningless| && StartsWith(name, meaningless[k])
    decreases |meaningless|
  {
    if |meaningless| == 0 then true
    else if name == meaningless[0] then
      assert name[..|name|] == name;
      false
    else if StartsWith(name, meaningless[0]) then false
    else
      var r := IsMeaningfulName(meaningless[1..], name);
      assert forall k :: 1 <= k < |meaningless| ==> meaningless[k] == meaningless[1..][k - 1];
      r
  }

  /** The block list as read from its file (its stripped, non-blank lines)
      has no empty entry, so it never blocks the empty name. */
  lemma EmptyNameMeaningful(lines: seq<string>)
    ensures IsMeaningfulName(StrippedWords(lines), "")
  {
    var b := StrippedWords(lines);
    StrippedWordsAreWords(lines);
    forall k | 0 <= k < |b|
      ensures !StartsWith("", b[k])
    {
      assert IsStrippedWord(b[k]);
    }
  }

  /** One entry of the pickled name map: a function name and its address
      list, whose first element is the start address. */
  type NameEntry = (string, seq<int>)

  function Kept(entries: seq<NameEntry>, filterMeaningless: bool, meaningless: seq<string>): (r: seq<NameEntry>)
    ensures forall i :: 0 <= i < |r| ==> r[i] in entries
    ensures forall i :: 0 <= i < |r| && filterMeaningless ==> IsMeaningfulName(meaningless, r[i].0)
    ensures forall i :: 0 <= i < |entries| && (!filterMeaningless || IsMeaningfulName(meaningless, entries[i].0))
                        ==> entries[i] in r
  {
    Filter((e: NameEntry) => !filterMeaningless || IsMeaningfulName(meaningless, e.0), entries)
  }

  /** The `(start address, name)` assignments of the inverting loop. */
  function Inverted(kept: seq<NameEntry>): (r: seq<(int, string)>)
    requires forall i :: 0 <= i < |kept| ==> |kept[i].1| > 0
    ensures |r| == |kept|
    ensures forall i :: 0 <= i < |r| ==> r[i] == (kept[i].1[0], kept[i].0)
  {
    seq(|kept|, i requires 0 <= i < |kept| => (kept[i].1[0], kept[i].0))
  }

  /** get_startaddr_name_maps after the file is read: each kept entry sends
      its start address to its name, later entries overwriting earlier ones.
      `None` is the IndexError of a kept entry with an empty address list. */
  function GetStartAddrNameMaps(entries: seq<NameEntry>, filterMeaningless: bool, meaningless: seq<string>)
    : (r: Option<map<int, string>>)
    ensures r.None? <==> exists i :: 0 <= i < |Kept(entries, filterMeaningless, meaningless)|
                                     && |Kept(entries, filterMeaningless, meaningless)[i].1| == 0
  {
    var kept := Kept(entries, filterMeaningless, meaningless);
    if exists i :: 0 <= i < |kept| && |kept[i].1| == 0 then None
    else Some(AssocToMap(Inverted(kept)))
  }

  /** Every address in the map is the start of a kept entry whose name it
      maps to, and it is the last kept entry with that start; with filtering,
      no blocked name is a value. */
  lemma StartAddrNameMapsSound(entries: seq<NameEntry>, filterMeaningless: bool, meaningless: seq<string>, a: int)
    requires GetStartAddrNameMaps(entries, filterMeaningless, meaningless).Some?
    requires a in GetStartAddrNameMaps(entries, filterMeaningless, meaningless).value
    ensures var kept := Kept(entries, filterMeaningless, meaningless);
            var m := GetStartAddrNameMaps(entries, filterMeaningless, meaningless).value;
            exists i :: 0 <= i < |kept| && kept[i].1[0] == a && m[a] == kept[i].0
                        && forall j :: i < j < |kept| ==> kept[j].1[0] != a
    ensures filterMeaningless ==>
              IsMeaningfulName(meaningless, GetStartAddrNameMaps(entries, filterMeaningless, meaningless).value[a])
  {
    var kept := Kept(entries, filterMeaningless, meaningless);
    InvertedSound(kept, a);
  }

  lemma InvertedSound(kept: seq<NameEntry>, a: int)
    requires forall i :: 0 <= i < |kept| ==> |kept[i].1| > 0
    requires a in AssocToMap(Inverted(kept))
    ensures exists i :: 0 <= i < |kept| && kept[i].1[0] == a && AssocToMap(Inverted(kept))[a] == kept[i].0
                        && forall j :: i < j < |kept| ==> kept[j].1[0] != a
  {
    var ps := Inverted(kept);
    AssocToMapFromLast(ps, a);
    var i :| LastWithKey(ps, i) && ps[i].0 == a;
    AssocToMapLastWins(ps, i);
    assert forall j :: i < j < |kept| ==> kept[j].1[0] == ps[j].0;
  }

  /** Every kept entry's start address is in the map, with the name of the
      last kept entry that starts there. */
  lemma StartAddrNameMapsComplete(entries: seq<NameEntry>, filterMeaningless: bool, meaningless: seq<string>, i: nat)
    requires GetStartAddrNameMaps(entries, filterMeaningless, meaningless).Some?
    requires i < |Kept(entries, filterMeaningless, meaningless)|
    ensures var kept := Kept(entries, filterMeaningless, meaningless);
            var m := GetStartAddrNameMaps(entries, filterMeaningless, meaningless).value;
            kept[i].1[0] in m
            && ((forall j :: i < j < |kept| ==> kept[j].1[0] != kept[i].1[0]) ==> m[kept[i].1[0]] == kept[i].0)
  {
    var kept := Kept(entries, filterMeaningless, meaningless);
    var ps := Inverted(kept);
    AssocToMapKeys(ps);
    assert ps[i].0 == kept[i].1[0];
    if forall j :: i < j < |kept| ==> kept[j].1[0] != kept[i].1[0] {
      assert LastWithKey(ps, i);
      AssocToMapLastWins(ps, i);
    }
  }

  /** A path that names an input binary rather than one of the files the
      pipeline writes next to it. */
  predicate IsBinaryFile(path: string) {
    !(EndsWith(path, ".name_and_addr") || EndsWith(path, ".bndb") || EndsWith(path, ".json"))
  }

  /** filter_binary_file */
  function FilterBinaryFile(files: seq<string>): (r: seq<string>)
    ensures forall i :: 0 <= i < |r| ==> IsBinaryFile(r[i]) && r[i] in files
    ensures forall i :: 0 <= i < |files| && IsBinaryFile(files[i]) ==> files[i] in r
  {
    Filter(IsBinaryFile, files)
  }

  /** The filter keeps a list of binaries whole and is idempotent; it
      distributes over concatenated lists. */
  lemma FilterBinaryFileFacts(files: seq<string>, more: seq<string>)
    ensures (forall i :: 0 <= i < |files| ==> IsBinaryFile(files[i])) ==> FilterBinaryFile(files) == files
    ensures FilterBinaryFile(FilterBinaryFile(files)) == FilterBinaryFile(files)
    ensures FilterBinaryFile(files + more) == FilterBinaryFile(files) + FilterBinaryFile(more)
  {
    if forall i :: 0 <= i < |files| ==> IsBinaryFile(files[i]) {
      FilterKeepsAll(IsBinaryFile, files);
    }
    FilterKeepsAll(IsBinaryFile, FilterBinaryFile(files));
    FilterAppend(IsBinaryFile, files, more);
  }

  /** What the pipeline reads of one analysed function. */
  datatype FuncInfo = FuncInfo(
    lowest: int,
    highest: int,
    analysisSkipped: bool,
    instructions: seq<seq<InstToken>>,
    llils: seq<seq<InstToken>>,
    mlils: seq<seq<InstToken>>,
    pseudoC: seq<Lexeme>)

  /** A function is kept when it lies inside `.text`, its start has a name,
      and its analysis was not skipped. */
  predicate IsRetained(f: FuncInfo, tstart: int, tend: int, names: map<int, string>) {
    f.lowest >= tstart && f.highest <= tend && f.lowest in names && !f.analysisSkipped
  }

  /** The key of a record: `"<lowest>_<highest>"`. */
  function RecordKey(lowest: int, highest: int): (r: string)
    ensures |r| > 0
  {
    IntToString(lowest) + "_" + IntToString(highest)
  }

  /** Distinct address ranges have distinct keys. */
  lemma RecordKeyInjective(a: int, b: int, c: int, d: int)
    requires RecordKey(a, b) == RecordKey(c, d)
    ensures a == c && b == d
  {
    SplitAtMark(IntToString(a), IntToString(b), IntToString(c), IntToString(d), '_');
    IntToStringInjective(a, c);
    IntToStringInjective(b, d);
  }

  /** A text joined at a mark absent from the first parts splits back
      uniquely. */
  lemma SplitAtMark(x: string, y: string, x2: string, y2: string, c: char)
    requires c !in x && c !in x2
    requires x + [c] + y == x2 + [c] + y2
    ensures x == x2 && y == y2
  {
    var s := x + [c] + y;
    MarkAt(x, y, c);
    MarkAt(x2, y2, c);
    assert x == s[..|x|] == x2;
    assert y == s[|x| + 1..] == y2;
  }

  /** The first occurrence of an absent mark after its text. */
  lemma MarkAt(x: string, y: string, c: char)
    requires c !in x
    ensures (x + [c] + y)[|x|] == c
    ensures forall i :: 0 <= i < |x| ==> (x + [c] + y)[i] != c
  {
    forall i | 0 <= i < |x|
      ensures (x + [c] + y)[i] != c
    {
      assert (x + [c] + y)[i] == x[i];
    }
  }

  /** One record of the output file. */
  datatype Record = Record(
    startAddr: int,
    addr: string,
    name: string,
    instructions: seq<seq<string>>,
    llils: seq<seq<string>>,
    mlils: seq<seq<string>>,
    pseudoCode: seq<string>)

  /** The symbol table the normalizer reads: each symbol's address sent to
      its split name, joined by spaces; a later symbol at the same address
      wins. */
  function SymbolMaps(symbols: seq<(int, string)>, split: string -> seq<string>): (r: map<int, string>)
    ensures forall i :: 0 <= i < |symbols| ==> symbols[i].0 in r
    ensures forall k :: k in r ==> exists i :: 0 <= i < |symbols| && symbols[i].0 == k
    ensures forall i :: LastWithKey(symbols, i) ==> r[symbols[i].0] == Join(" ", split(symbols[i].1))
  {
    var ps := seq(|symbols|, i requires 0 <= i < |symbols| => (symbols[i].0, Join(" ", split(symbols[i].1))));
    AssocToMapKeys(ps);
    assert forall i :: 0 <= i < |symbols| ==> ps[i].0 == symbols[i].0;
    forall i | LastWithKey(symbols, i)
      ensures AssocToMap(ps)[symbols[i].0] == Join(" ", split(symbols[i].1))
    {
      AssocToMapLastWins(ps, i);
    }
    AssocToMap(ps)
  }

  /** The record of a retained function. */
  function MakeRecord(f: FuncInfo, ctx: Context, names: map<int, string>, split: string -> seq<string>): (r: Record)
    requires f.lowest in names
    ensures r.startAddr == f.lowest && r.name == names[f.lowest]
    ensures r.addr == RecordKey(f.lowest, f.highest)
    ensures r.instructions == NormalizeInstruction(ctx, f.instructions)
    ensures r.llils == NormalizeLlil(ctx, f.llils) && r.mlils == NormalizeMlil(ctx, f.mlils)
    ensures r.pseudoCode == TokenizeRawCodeBinja(split, f.pseudoC, true, true)
  {
    Record(f.lowest, RecordKey(f.lowest, f.highest), names[f.lowest],
           NormalizeInstruction(ctx, f.instructions), NormalizeLlil(ctx, f.llils),
           NormalizeMlil(ctx, f.mlils), TokenizeRawCodeBinja(split, f.pseudoC, true, true))
  }

  /** The normalizer context for a function of a binary view. */
  function FuncContext(symbols: map<int, string>, f: FuncInfo, tstart: int, tend: int): Context {
    Context(symbols, f.lowest, f.highest, tstart, tend)
  }

  /** The functions the loop keeps, in order. */
  function Retained(funcs: seq<FuncInfo>, tstart: int, tend: int, names: map<int, string>): (r: seq<FuncInfo>)
    ensures forall i :: 0 <= i < |r| ==> IsRetained(r[i], tstart, tend, names) && r[i] in funcs
    ensures forall i :: 0 <= i < |funcs| && IsRetained(funcs[i], tstart, tend, names) ==> funcs[i] in r
  {
    Filter((f: FuncInfo) => IsRetained(f, tstart, tend, names), funcs)
  }

  /** The `methods[addr] = {...}` assignments of the loop, in order. */
  function RecordPairs(kept: seq<FuncInfo>, symbols: map<int, string>, tstart: int, tend: int,
                       names: map<int, string>, split: string -> seq<string>): (r: seq<(string, Record)>)
    requires forall i :: 0 <= i < |kept| ==> kept[i].lowest in names
    ensures |r| == |kept|
    ensures forall i :: 0 <= i < |r| ==>
              r[i] == (RecordKey(kept[i].lowest, kept[i].highest),
                       MakeRecord(kept[i], FuncContext(symbols, kept[i], tstart, tend), names, split))
  {
    seq(|kept|, i requires 0 <= i < |kept| =>
      (RecordKey(kept[i].lowest, kept[i].highest),
       MakeRecord(kept[i], FuncContext(symbols, kept[i], tstart, tend), names, split)))
  }

  /** The body of the per-binary loop: the dictionary of records of the
      retained functions, keyed by their address range. */
  function ExtractMethods(funcs: seq<FuncInfo>, symbols: map<int, string>, tstart: int, tend: int,
                          names: map<int, string>, split: string -> seq<string>): (r: map<string, Record>)
    ensures forall k :: k in r ==> Filed(k, r[k], names)
  {
    var kept := Retained(funcs, tstart, tend, names);
    var ps := RecordPairs(kept, symbols, tstart, tend, names, split);
    assert forall i :: 0 <= i < |ps| ==> Filed(ps[i].0, ps[i].1, names);
    AllFiled(ps, names);
    AssocToMap(ps)
  }

  /** A record filed under its own key, named after its start address. */
  predicate Filed(k: string, rec: Record, names: map<int, string>) {
    rec.addr == k && rec.startAddr in names && rec.name == names[rec.startAddr]
  }

  lemma AllFiled(ps: seq<(string, Record)>, names: map<int, string>)
    requires forall i :: 0 <= i < |ps| ==> Filed(ps[i].0, ps[i].1, names)
    ensures forall k :: k in AssocToMap(ps) ==> Filed(k, AssocToMap(ps)[k], names)
  {
    forall k | k in AssocToMap(ps)
      ensures Filed(k, AssocToMap(ps)[k], names)
    {
      AssocToMapFromLast(ps, k);
      var i :| LastWithKey(ps, i) && ps[i].0 == k;
      AssocToMapLastWins(ps, i);
    }
  }

  /** Every function the loop keeps has its record in the dictionary, under
      its own key; since keys are injective, no other function's record can
      take its place. */
  lemma ExtractMethodsComplete(funcs: seq<FuncInfo>, symbols: map<int, string>, tstart: int, tend: int,
                               names: map<int, string>, split: string -> seq<string>, f: FuncInfo)
    requires f in funcs && IsRetained(f, tstart, tend, names)
    ensures var m := ExtractMethods(funcs, symbols, tstart, tend, names, split);
            RecordKey(f.lowest, f.highest) in m
            && m[RecordKey(f.lowest, f.highest)].startAddr == f.lowest
  {
    var kept := Retained(funcs, tstart, tend, names);
    var ps := RecordPairs(kept, symbols, tstart, tend, names, split);
    var j :| 0 <= j < |kept| && kept[j] == f;
    AssocToMapKeys(ps);
    var k := RecordKey(f.lowest, f.highest);
    assert ps[j].0 == k;
    AssocToMapFromLast(ps, k);
    var i :| LastWithKey(ps, i) && ps[i].0 == k;
    AssocToMapLastWins(ps, i);
    RecordKeyInjective(kept[i].lowest, kept[i].highest, f.lowest, f.highest);
  }

  /** Only retained functions produce records. */
  lemma ExtractMethodsSound(funcs: seq<FuncInfo>, symbols: map<int, string>, tstart: int, tend: int,
                            names: map<int, string>, split: string -> seq<string>, k: string)
    requires k in ExtractMethods(funcs, symbols, tstart, tend, names, split)
    ensures exists f :: f in funcs && IsRetained(f, tstart, tend, names) && k == RecordKey(f.lowest, f.highest)
                        && ExtractMethods(funcs, symbols, tstart, tend, names, split)[k]
                           == MakeRecord(f, FuncContext(symbols, f, tstart, tend), names, split)
  {
    var kept := Retained(funcs, tstart, tend, names);
    var ps := RecordPairs(kept, symbols, tstart, tend, names, split);
    assert ExtractMethods(funcs, symbols, tstart, tend, names, split) == AssocToMap(ps);
    AssocToMapFromLast(ps, k);
    var i :| LastWithKey(ps, i) && ps[i].0 == k;
    AssocToMapLastWins(ps, i);
    var f := kept[i];
    assert f in funcs && IsRetained(f, tstart, tend, names);
    assert AssocToMap(ps)[k] == MakeRecord(f, FuncContext(symbols, f, tstart, tend), names, split);
  }
}
