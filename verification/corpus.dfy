/** binja/3_generate_corpus_for_onmt.py: one source line per function and
    listing, one label line per function, aligned by position. The name
    splitter is a parameter: the pipeline passes `Segmenter.NameSplitter`. */
module Corpus {
  import opened Collections
  import opened Text
  import opened ExtCode
  import opened Segmenter

  // ---------------------------------------------------------------------
  // One instruction's segment of a source line
  // ---------------------------------------------------------------------

  /** The segment of a call: `" call "` and the callee's split name (the
      third token of the instruction); the other tokens are dropped. */
  function CallSegment(split: string -> seq<string>, callee: string): string {
    " call " + ProcessLabel(split, callee)
  }

  /** The segment of an ordinary instruction: its tokens stripped, blank
      ones left out, joined by spaces. */
  function PlainSegment(inst: seq<string>): (r: string)
    ensures |r| > 0 && r[0] == ' '
  {
    " " + Join(" ", StrippedWords(inst))
  }

  /** The instructions process_inst and process_llil cannot index: an empty
      one, or a call without a third token. */
  predicate RaisesIndexError(inst: seq<string>) {
    |inst| == 0 || (inst[0] == "call" && |inst| < 3)
  }

  /** process_inst's loop body. `None` is the IndexError of an empty
      instruction, or of a call with fewer than three tokens. */
  function InstSegment(split: string -> seq<string>, inst: seq<string>): (r: Option<string>)
    ensures r.None? <==> RaisesIndexError(inst)
    ensures r.Some? ==> |r.value| > 0 && r.value[0] == ' '
    ensures r.Some? && inst[0] == "call" ==> r.value == CallSegment(split, inst[2])
    ensures r.Some? && inst[0] != "call" ==> r.value == PlainSegment(inst)
  {
    if |inst| == 0 then None
    else if inst[0] == "call" then
      if |inst| < 3 then None else Some(CallSegment(split, inst[2]))
    else Some(PlainSegment(inst))
  }

  /** process_llil's loop body: as for the disassembly, except that a
      condition (first token starting with `if`) is joined verbatim. */
  function LlilSegment(split: string -> seq<string>, inst: seq<string>): (r: Option<string>)
    ensures r.None? <==> RaisesIndexError(inst)
    ensures r.Some? ==> |r.value| > 0 && r.value[0] == ' '
    ensures r.Some? && inst[0] == "call" ==> r.value == CallSegment(split, inst[2])
    ensures r.Some? && inst[0] != "call" && StartsWith(inst[0], "if") ==> r.value == " " + Join(" ", inst)
    ensures r.Some? && inst[0] != "call" && !StartsWith(inst[0], "if") ==> r.value == PlainSegment(inst)
  {
    if |inst| == 0 then None
    else if inst[0] == "call" then
      if |inst| < 3 then None else Some(CallSegment(split, inst[2]))
    else if StartsWith(inst[0], "if") then Some(" " + Join(" ", inst))
    else Some(PlainSegment(inst))
  }

  /** process_mlil's loop body: no call case, and no indexing that can fail. */
  function MlilSegment(inst: seq<string>): (r: string)
    ensures |r| > 0 && r[0] == ' '
  {
    PlainSegment(inst)
  }

  /** An ordinary instruction's segment shows exactly the visible
      characters of its tokens, in order. */
  lemma PlainSegmentContent(inst: seq<string>)
    ensures Filter(NotSpace, PlainSegment(inst)) == Filter(NotSpace, Flatten(inst))
  {
    var ws := StrippedWords(inst);
    FilterAppend(NotSpace, " ", Join(" ", ws));
    FilterSingle(NotSpace, ' ');
    JoinSpaceInvisible(ws);
    StrippedWordsContent(inst);
  }

  /** An ordinary segment splits back, at its spaces, into the stripped
      non-blank tokens when none of them has an inner space. */
  lemma PlainSegmentRoundTrip(inst: seq<string>)
    requires |StrippedWords(inst)| > 0
    requires forall k :: 0 <= k < |StrippedWords(inst)| ==> ' ' !in StrippedWords(inst)[k]
    ensures Split(PlainSegment(inst)[1..], " ") == StrippedWords(inst)
  {
    JoinSplit(" ", StrippedWords(inst));
  }

  /** The LLIL pass treats a condition like the disassembly pass exactly when
      it neither strips nor drops any token. */
  lemma ConditionVerbatim(split: string -> seq<string>, inst: seq<string>)
    requires |inst| > 0 && inst[0] != "call"
    ensures LlilSegment(split, inst) == InstSegment(split, inst) || StartsWith(inst[0], "if")
    ensures StartsWith(inst[0], "if") && StrippedWords(inst) == inst ==>
              LlilSegment(split, inst) == InstSegment(split, inst)
  {
  }

  // ---------------------------------------------------------------------
  // Whole lines
  // ---------------------------------------------------------------------

  /** `line += segment` over the instructions, failing at the first
      segment that fails. */
  function Concat(segs: seq<Option<string>>): (r: Option<string>)
    ensures r.None? <==> exists i :: 0 <= i < |segs| && segs[i].None?
    decreases |segs|
  {
    if |segs| == 0 then Some("")
    else
      var n := |segs| - 1;
      var front := Concat(segs[..n]);
      assert forall i :: 0 <= i < n ==> segs[..n][i] == segs[i];
      if front.None? || segs[n].None? then None else Some(front.value + segs[n].value)
  }

  /** A line is the concatenation of its parts' lines. */
  lemma {:induction false} ConcatAppend(a: seq<Option<string>>, b: seq<Option<string>>)
    ensures Concat(a + b) == if Concat(a).Some? && Concat(b).Some? then Some(Concat(a).value + Concat(b).value) else None
    decreases |b|
  {
    if |b| == 0 {
      assert a + b == a;
      assert Concat(a).Some? ==> Concat(a).value + "" == Concat(a).value;
    } else {
      var n := |b| - 1;
      assert (a + b)[..|a| + n] == a + b[..n];
      assert (a + b)[|a| + n] == b[n];
      ConcatAppend(a, b[..n]);
      if Concat(a).Some? && Concat(b[..n]).Some? && b[n].Some? {
        assert Concat(a).value + Concat(b[..n]).value + b[n].value
            == Concat(a).value + (Concat(b[..n]).value + b[n].value);
      }
    }
  }

  /** A line of one segment is that segment. */
  lemma ConcatSingle(s: Option<string>)
    ensures Concat([s]) == s
  {
    assert [s][..0] == [];
    assert s.Some? ==> "" + s.value == s.value;
  }

  /** The first segment comes first. */
  lemma ConcatCons(s: Option<string>, rest: seq<Option<string>>)
    ensures Concat([s] + rest) == if s.Some? && Concat(rest).Some? then Some(s.value + Concat(rest).value) else None
  {
    ConcatAppend([s], rest);
    ConcatSingle(s);
  }

  function InstSegments(split: string -> seq<string>, insts: seq<seq<string>>): (r: seq<Option<string>>)
    ensures |r| == |insts| && forall i :: 0 <= i < |insts| ==> r[i] == InstSegment(split, insts[i])
  {
    seq(|insts|, i requires 0 <= i < |insts| => InstSegment(split, insts[i]))
  }

  function LlilSegments(split: string -> seq<string>, insts: seq<seq<string>>): (r: seq<Option<string>>)
    ensures |r| == |insts| && forall i :: 0 <= i < |insts| ==> r[i] == LlilSegment(split, insts[i])
  {
    seq(|insts|, i requires 0 <= i < |insts| => LlilSegment(split, insts[i]))
  }

  /** process_inst */
  function ProcessInst(split: string -> seq<string>, insts: seq<seq<string>>): (r: Option<string>)
    ensures r.None? <==> exists i :: 0 <= i < |insts| && RaisesIndexError(insts[i])
  {
    var segs := InstSegments(split, insts);
    assert forall i :: 0 <= i < |insts| ==> (segs[i].None? <==> RaisesIndexError(insts[i]));
    Concat(segs)
  }

  /** process_llil */
  function ProcessLlil(split: string -> seq<string>, insts: seq<seq<string>>): (r: Option<string>)
    ensures r.None? <==> exists i :: 0 <= i < |insts| && RaisesIndexError(insts[i])
  {
    var segs := LlilSegments(split, insts);
    assert forall i :: 0 <= i < |insts| ==> (segs[i].None? <==> RaisesIndexError(insts[i]));
    Concat(segs)
  }

  /** process_mlil */
  function ProcessMlil(insts: seq<seq<string>>): (r: string)
    ensures |insts| == 0 <==> r == ""
    decreases |insts|
  {
    if |insts| == 0 then "" else ProcessMlil(insts[..|insts| - 1]) + MlilSegment(insts[|insts| - 1])
  }

  /** One segment per instruction, in order: the line of a listing is the
      line of its first instruction followed by the line of the rest. */
  lemma ProcessInstCons(split: string -> seq<string>, inst: seq<string>, rest: seq<seq<string>>)
    ensures ProcessInst(split, [inst] + rest)
            == if InstSegment(split, inst).Some? && ProcessInst(split, rest).Some?
               then Some(InstSegment(split, inst).value + ProcessInst(split, rest).value)
               else None
  {
    var l := InstSegments(split, [inst] + rest);
    var r := [InstSegment(split, inst)] + InstSegments(split, rest);
    assert forall i :: 0 <= i < |l| ==> l[i] == r[i] by {
      assert forall i :: 1 <= i < |l| ==> ([inst] + rest)[i] == rest[i - 1];
    }
    assert l == r;
    ConcatCons(InstSegment(split, inst), InstSegments(split, rest));
  }

  /** The same for the LLIL listing. */
  lemma ProcessLlilCons(split: string -> seq<string>, inst: seq<string>, rest: seq<seq<string>>)
    ensures ProcessLlil(split, [inst] + rest)
            == if LlilSegment(split, inst).Some? && ProcessLlil(split, rest).Some?
               then Some(LlilSegment(split, inst).value + ProcessLlil(split, rest).value)
               else None
  {
    var l := LlilSegments(split, [inst] + rest);
    var r := [LlilSegment(split, inst)] + LlilSegments(split, rest);
    assert forall i :: 0 <= i < |l| ==> l[i] == r[i] by {
      assert forall i :: 1 <= i < |l| ==> ([inst] + rest)[i] == rest[i - 1];
    }
    assert l == r;
    ConcatCons(LlilSegment(split, inst), LlilSegments(split, rest));
  }

  /** The MLIL line of a listing shows exactly the visible characters of all
      its tokens. */
  lemma {:induction false} ProcessMlilContent(insts: seq<seq<string>>)
    ensures Filter(NotSpace, ProcessMlil(insts)) == Filter(NotSpace, Flatten(Flatten(insts)))
    decreases |insts|
  {
    if |insts| > 0 {
      var n := |insts| - 1;
      ProcessMlilContent(insts[..n]);
      PlainSegmentContent(insts[n]);
      FilterAppend(NotSpace, ProcessMlil(insts[..n]), MlilSegment(insts[n]));
      FlattenLast(insts);
      FlattenAppend(Flatten(insts[..n]), insts[n]);
      FilterAppend(NotSpace, Flatten(Flatten(insts[..n])), Flatten(insts[n]));
    }
  }

  /** process_pc */
  function ProcessPc(pseudoCode: seq<string>): (r: string)
    ensures Filter(NotSpace, r) == Filter(NotSpace, Flatten(pseudoCode))
  {
    JoinSpaceInvisible(pseudoCode);
    Join(" ", pseudoCode)
  }

  /** A pseudo-code line splits back into its tokens when they hold no
      space. */
  lemma ProcessPcRoundTrip(pseudoCode: seq<string>)
    requires |pseudoCode| > 0
    requires forall k :: 0 <= k < |pseudoCode| ==> ' ' !in pseudoCode[k]
    ensures Split(ProcessPc(pseudoCode), " ") == pseudoCode
  {
    JoinSplit(" ", pseudoCode);
  }

  /** process_label: the split name joined by spaces. */
  function ProcessLabel(split: string -> seq<string>, name: string): (r: string)
    ensures Filter(NotSpace, r) == Filter(NotSpace, Flatten(split(name)))
  {
    JoinSpaceInvisible(split(name));
    Join(" ", split(name))
  }
  /** The label the corpus builder writes for a name, with the modelled
      splitter and an encoder that only cuts words: its visible text is the
      name's letters in lower case when the suffix merge keeps a list, and a
      tail of them when it collapses to one word. */
  lemma ProcessLabelOfName(encode: string -> seq<string>, vocab: set<string>, name: string)
    requires FaithfulEncoder(encode)
    ensures SpellsLetters(MySplitFuncName(encode, vocab, name), name,
                          Filter(NotSpace, ProcessLabel(NameSplitter(encode, vocab), name)))
  {
    NameSplitterSpells(encode, vocab, name);
    LabelSpells(NameSplitter(encode, vocab), MySplitFuncName(encode, vocab, name), name);
  }

  /** Joining with spaces keeps whatever a visible spelling promised. */
  lemma LabelSpells(split: string -> seq<string>, m: Merged, name: string)
    requires SpellsLetters(m, name, Flatten(split(name)))
    ensures SpellsLetters(m, name, Filter(NotSpace, ProcessLabel(split, name)))
  {
    SpellingVisible(m, name, Flatten(split(name)));
    FilterKeepsAll(NotSpace, Flatten(split(name)));
  }

  /** A spelling of the name's letters has no white space. */
  lemma SpellingVisible(m: Merged, name: string, spelled: string)
    requires SpellsLetters(m, name, spelled)
    ensures forall i :: 0 <= i < |spelled| ==> NotSpace(spelled[i])
  {
    var lowered := LowerStr(Letters(name));
    LoweredLettersVisible(name);
    if spelled == lowered {
      assert lowered[|lowered| - |lowered|..] == lowered;
    }
    TailVisible(lowered, spelled);
  }

  lemma LoweredLettersVisible(name: string)
    ensures forall i :: 0 <= i < |LowerStr(Letters(name))| ==> NotSpace(LowerStr(Letters(name))[i])
  {
    forall i | 0 <= i < |LowerStr(Letters(name))|
      ensures NotSpace(LowerStr(Letters(name))[i])
    {
      assert IsAlpha(Letters(name)[i]);
    }
  }

  lemma TailVisible(s: string, t: string)
    requires EndsWith(s, t) && forall i :: 0 <= i < |s| ==> NotSpace(s[i])
    ensures forall i :: 0 <= i < |t| ==> NotSpace(t[i])
  {
    forall i | 0 <= i < |t|
      ensures NotSpace(t[i])
    {
      assert t[i] == s[|s| - |t| + i];
    }
  }



  /** A label splits back into the name's pieces when they hold no space. */
  lemma ProcessLabelRoundTrip(split: string -> seq<string>, name: string)
    requires |split(name)| > 0
    requires forall k :: 0 <= k < |split(name)| ==> ' ' !in split(name)[k]
    ensures Split(ProcessLabel(split, name), " ") == split(name)
  {
    JoinSplit(" ", split(name));
  }

  // ---------------------------------------------------------------------
  // The corpus: four passes over the same records
  // ---------------------------------------------------------------------

  /** `data.append(process(method))` over the methods, failing at the first
      method whose line raises. */
  function Collect(lines: seq<Option<string>>): (r: Option<seq<string>>)
    ensures r.Some? <==> forall i :: 0 <= i < |lines| ==> lines[i].Some?
    ensures r.Some? ==> |r.value| == |lines| && forall i :: 0 <= i < |lines| ==> lines[i] == Some(r.value[i])
    decreases |lines|
  {
    if |lines| == 0 then Some([])
    else
      var n := |lines| - 1;
      var front := Collect(lines[..n]);
      assert forall i :: 0 <= i < n ==> lines[..n][i] == lines[i];
      if front.None? || lines[n].None? then None
      else Some(front.value + [lines[n].value])
  }

  /** The lines saved for one corpus: the four source files and the label
      file. */
  datatype Lines = Lines(inst: seq<string>, llil: seq<string>, mlil: seq<string>, pc: seq<string>, labels: seq<string>)

  /** A method whose disassembly and LLIL listings both make a line. */
  predicate Processable(split: string -> seq<string>, m: Record) {
    ProcessInst(split, m.instructions).Some? && ProcessLlil(split, m.llils).Some?
  }

  /** The disassembly line of each method. */
  function InstLines(split: string -> seq<string>, ms: seq<Record>): (r: seq<Option<string>>)
    ensures |r| == |ms| && forall i :: 0 <= i < |ms| ==> r[i] == ProcessInst(split, ms[i].instructions)
  {
    seq(|ms|, i requires 0 <= i < |ms| => ProcessInst(split, ms[i].instructions))
  }

  /** The LLIL line of each method. */
  function LlilLines(split: string -> seq<string>, ms: seq<Record>): (r: seq<Option<string>>)
    ensures |r| == |ms| && forall i :: 0 <= i < |ms| ==> r[i] == ProcessLlil(split, ms[i].llils)
  {
    seq(|ms|, i requires 0 <= i < |ms| => ProcessLlil(split, ms[i].llils))
  }

  /** The MLIL line of each method. */
  function MlilLines(ms: seq<Record>): (r: seq<string>)
    ensures |r| == |ms| && forall i :: 0 <= i < |ms| ==> r[i] == ProcessMlil(ms[i].mlils)
  {
    seq(|ms|, i requires 0 <= i < |ms| => ProcessMlil(ms[i].mlils))
  }

  /** The pseudo-code line of each method. */
  function PcLines(ms: seq<Record>): (r: seq<string>)
    ensures |r| == |ms| && forall i :: 0 <= i < |ms| ==> r[i] == ProcessPc(ms[i].pseudoCode)
  {
    seq(|ms|, i requires 0 <= i < |ms| => ProcessPc(ms[i].pseudoCode))
  }

  /** The label of each method. */
  function LabelLines(split: string -> seq<string>, ms: seq<Record>): (r: seq<string>)
    ensures |r| == |ms| && forall i :: 0 <= i < |ms| ==> r[i] == ProcessLabel(split, ms[i].name)
  {
    seq(|ms|, i requires 0 <= i < |ms| => ProcessLabel(split, ms[i].name))
  }

  /** main: every file's records in turn, once per pass. `None` is a method
      whose disassembly or LLIL listing raises; the MLIL, pseudo-code and
      label passes cannot fail. */
  function GenerateCorpus(split: string -> seq<string>, files: seq<seq<Record>>): (r: Option<Lines>)
    ensures r.Some? ==> var n := |Flatten(files)|;
            |r.value.inst| == n && |r.value.llil| == n && |r.value.mlil| == n
            && |r.value.pc| == n && |r.value.labels| == n
  {
    var ms := Flatten(files);
    var inst := Collect(InstLines(split, ms));
    var llil := Collect(LlilLines(split, ms));
    if inst.None? || llil.None? then None
    else Some(Assemble(split, ms, inst.value, llil.value))
  }

  /** The five files of a corpus, given the two source files that could fail. */
  function Assemble(split: string -> seq<string>, ms: seq<Record>, inst: seq<string>, llil: seq<string>): (r: Lines)
    ensures r.inst == inst && r.llil == llil
    ensures |r.mlil| == |ms| && |r.pc| == |ms| && |r.labels| == |ms|
  {
    Lines(inst, llil, MlilLines(ms), PcLines(ms), LabelLines(split, ms))
  }

  /** The corpus is produced exactly when every method's disassembly and
      LLIL listings make a line. */
  lemma CorpusDefined(split: string -> seq<string>, files: seq<seq<Record>>)
    ensures GenerateCorpus(split, files).Some?
            <==> forall i :: 0 <= i < |Flatten(files)| ==> Processable(split, Flatten(files)[i])
  {
    CorpusShape(split, files);
    LinesDefined(split, Flatten(files));
  }

  lemma CorpusShape(split: string -> seq<string>, files: seq<seq<Record>>)
    ensures GenerateCorpus(split, files).Some?
            <==> Collect(InstLines(split, Flatten(files))).Some? && Collect(LlilLines(split, Flatten(files))).Some?
  {
  }

  lemma LinesDefined(split: string -> seq<string>, ms: seq<Record>)
    ensures Collect(InstLines(split, ms)).Some? && Collect(LlilLines(split, ms)).Some?
            <==> forall i :: 0 <= i < |ms| ==> Processable(split, ms[i])
  {
  }

  /** Source and label stay aligned: line `i` of every source file and of
      the label file all come from the same method. */
  lemma CorpusAligned(split: string -> seq<string>, files: seq<seq<Record>>, i: nat)
    requires GenerateCorpus(split, files).Some?
    requires i < |Flatten(files)|
    ensures var c := GenerateCorpus(split, files).value;
            var m := Flatten(files)[i];
            Some(c.inst[i]) == ProcessInst(split, m.instructions)
            && Some(c.llil[i]) == ProcessLlil(split, m.llils)
            && c.mlil[i] == ProcessMlil(m.mlils)
            && c.pc[i] == ProcessPc(m.pseudoCode)
            && c.labels[i] == ProcessLabel(split, m.name)
  {
  }
}
