/** The identifier segmenter of binja/utils/utils.py: a symbol name becomes a
    sequence of lower-case sub-words. The subword model is an opaque encoder
    passed in as a function; the dictionary is a set of words. */
module Segmenter {
  import opened Collections
  import opened Text

  // ---------------------------------------------------------------------
  // split_normal_func_name
  // ---------------------------------------------------------------------

  /** A string of letters and `_` marks only. */
  predicate LettersOrMarks(t: string) {
    forall i :: 0 <= i < |t| ==> IsAlpha(t[i]) || t[i] == '_'
  }

  /** Every character that is not a letter replaced by `_`. */
  function Underscored(name: string): (r: string)
    ensures |r| == |name|
    ensures LettersOrMarks(r)
    ensures Letters(r) == Letters(name)
    ensures RemoveChar(r, '_') == Letters(name)
    decreases |name|
  {
    if |name| == 0 then ""
    else
      var r := [if IsAlpha(name[0]) then name[0] else '_'] + Underscored(name[1..]);
      assert r[1..] == Underscored(name[1..]);
      r
  }

  /** `Underscored` works character by character. */
  lemma {:induction false} UnderscoredAt(name: string, i: int)
    requires 0 <= i < |name|
    ensures Underscored(name)[i] == if IsAlpha(name[i]) then name[i] else '_'
    decreases i
  {
    if i > 0 {
      UnderscoredAt(name[1..], i - 1);
      assert Underscored(name)[i] == Underscored(name[1..])[i - 1];
    }
  }

  /** A string of letters and `_` is left alone by `Underscored`. */
  lemma {:induction false} UnderscoredFixed(t: string)
    requires LettersOrMarks(t)
    ensures Underscored(t) == t
    decreases |t|
  {
    if |t| > 0 {
      UnderscoredFixed(t[1..]);
      assert t == [t[0]] + t[1..];
    }
  }

  /** A `_` inserted in front of every upper-case letter. */
  function InsertBreaks(s: string): (r: string)
    ensures RemoveChar(r, '_') == RemoveChar(s, '_')
    ensures forall i :: 0 <= i < |r| ==> r[i] in s || r[i] == '_'
    decreases |s|
  {
    if |s| == 0 then ""
    else
      var head := if IsUpper(s[0]) then ['_', s[0]] else [s[0]];
      var tail := InsertBreaks(s[1..]);
      BreakHead(s[0]);
      FilterAppend(Without('_'), head, tail);
      assert s == [s[0]] + s[1..];
      FilterAppend(Without('_'), [s[0]], s[1..]);
      head + tail
  }

  lemma BreakHead(c: char)
    ensures RemoveChar(if IsUpper(c) then ['_', c] else [c], '_') == RemoveChar([c], '_')
  {
    FilterSingle(Without('_'), c);
    if IsUpper(c) {
      assert ['_', c] == ['_'] + [c];
      FilterAppend(Without('_'), ['_'], [c]);
      FilterSingle(Without('_'), '_');
    }
  }

  /** Every upper-case letter ends up right after a `_`, and none starts the text. */
  lemma {:induction false} InsertBreaksMarksUpper(s: string)
    ensures |InsertBreaks(s)| > 0 ==> !IsUpper(InsertBreaks(s)[0])
    ensures forall i :: 0 < i < |InsertBreaks(s)| && IsUpper(InsertBreaks(s)[i]) ==> InsertBreaks(s)[i - 1] == '_'
    decreases |s|
  {
    if |s| > 0 {
      InsertBreaksMarksUpper(s[1..]);
      var head := if IsUpper(s[0]) then ['_', s[0]] else [s[0]];
      var tail := InsertBreaks(s[1..]);
      var r := head + tail;
      assert InsertBreaks(s) == r;
      forall i | 0 < i < |r| && IsUpper(r[i])
        ensures r[i - 1] == '_'
      {
        if i > |head| {
          assert r[i] == tail[i - |head|] && r[i - 1] == tail[i - 1 - |head|];
        } else if i == |head| {
          assert false;
        }
      }
    }
  }

  /** split_normal_func_name: letters only, a new word at every upper-case
      letter and at every non-letter, all lower-cased. */
  function SplitNormalFuncName(name: string): (r: seq<string>)
    ensures forall k :: 0 <= k < |r| ==> IsLowerWord(r[k])
    ensures Flatten(r) == LowerStr(Letters(name))
    ensures r == LowerAll(NameWords(name))
  {
    BrokenWordsAreNameWords(name);
    LowerAll(BrokenWords(name))
  }

  /** The number of lower-case letters that open `s`. */
  function LowerRun(s: string): (n: nat)
    ensures n <= |s|
    ensures forall i :: 0 <= i < n ==> IsLower(s[i])
    ensures n < |s| ==> !IsLower(s[n])
    decreases |s|
  {
    if |s| > 0 && IsLower(s[0]) then 1 + LowerRun(s[1..]) else 0
  }

  /** The words of a name read off directly: a word begins at every
      upper-case letter and at every letter that opens the name or follows a
      non-letter, and it takes in the lower-case letters after it. No other
      letter begins a word, and non-letters belong to none. */
  function NameWords(s: string): (ws: seq<string>)
    ensures forall k :: 0 <= k < |ws| ==> IsNameWord(ws[k])
    ensures forall k :: 0 <= k < |ws| ==> |ws[k]| > 0
    ensures forall k, i :: 0 <= k < |ws| && 0 <= i < |ws[k]| ==> IsAlpha(ws[k][i])
    decreases |s|
  {
    if |s| == 0 then []
    else if !IsAlpha(s[0]) then NameWords(s[1..])
    else
      var n := 1 + LowerRun(s[1..]);
      assert forall i :: 1 <= i < n ==> s[..n][i] == s[1..][i - 1];
      [s[..n]] + NameWords(s[n..])
  }

  /** A letter followed only by lower-case letters. */
  predicate IsNameWord(w: string) {
    && 0 < |w|
    && IsAlpha(w[0])
    && forall i :: 1 <= i < |w| ==> IsLower(w[i])
  }

  /** One character after both rewrites: a non-letter becomes `_`, and an
      upper-case letter gets a `_` in front. */
  function MarkChar(c: char): string {
    if !IsAlpha(c) then "_" else if IsUpper(c) then ['_', c] else [c]
  }

  /** A whole name after both rewrites, character by character. */
  function Marked(s: string): string
    decreases |s|
  {
    if |s| == 0 then "" else MarkChar(s[0]) + Marked(s[1..])
  }

  /** The two rewrites of the source, applied in turn, act character by
      character. */
  lemma {:induction false} MarkedIsRewrites(s: string)
    ensures InsertBreaks(Underscored(s)) == Marked(s)
    decreases |s|
  {
    if |s| > 0 {
      MarkedIsRewrites(s[1..]);
      var u := Underscored(s);
      assert u == [if IsAlpha(s[0]) then s[0] else '_'] + Underscored(s[1..]);
      assert u[1..] == Underscored(s[1..]);
    }
  }

  lemma {:induction false} MarkedAppend(a: string, b: string)
    ensures Marked(a + b) == Marked(a) + Marked(b)
    decreases |a|
  {
    if |a| == 0 {
      assert a + b == b;
    } else {
      assert (a + b)[0] == a[0];
      assert (a + b)[1..] == a[1..] + b;
      MarkedAppend(a[1..], b);
    }
  }

  /** Lower-case letters are left alone. */
  lemma {:induction false} MarkedLower(w: string)
    requires forall i :: 0 <= i < |w| ==> IsLower(w[i])
    ensures Marked(w) == w
    decreases |w|
  {
    if |w| > 0 {
      MarkedLower(w[1..]);
      assert w == [w[0]] + w[1..];
    }
  }

  /** Anything but a lower-case letter opens with a mark. */
  lemma MarkedOpensWithMark(t: string)
    requires 0 < |t| && !IsLower(t[0])
    ensures 0 < |Marked(t)| && Marked(t) == "_" + Marked(t)[1..]
  {
  }

  /** The non-empty pieces between `_` marks. */
  function MarkedWords(t: string): seq<string> {
    Filter(NonEmpty, Split(t, "_"))
  }

  lemma MarkedWordsEmpty()
    ensures MarkedWords("") == []
  {
    FilterSingle(NonEmpty, "");
  }

  /** A leading mark is dropped. */
  lemma MarkedWordsSkip(z: string)
    ensures MarkedWords("_" + z) == MarkedWords(z)
  {
    SplitAfter("", "_", z);
    assert "" + "_" + z == "_" + z;
    FilterAppend(NonEmpty, [""], Split(z, "_"));
    FilterSingle(NonEmpty, "");
  }

  /** A word before a mark is the first word. */
  lemma MarkedWordsWord(w: string, z: string)
    requires 0 < |w| && '_' !in w
    ensures MarkedWords(w + "_" + z) == [w] + MarkedWords(z)
  {
    SplitAfter(w, "_", z);
    FilterAppend(NonEmpty, [w], Split(z, "_"));
    FilterSingle(NonEmpty, w);
  }

  /** A word without marks is the only word. */
  lemma MarkedWordsLast(w: string)
    requires 0 < |w| && '_' !in w
    ensures MarkedWords(w) == [w]
  {
    SplitUnbroken(w, "_");
    FilterSingle(NonEmpty, w);
  }

  /** A word, marked in front or not, followed by text that is empty or
      opens with a mark: the word, then the words of that text. */
  lemma MarkedWordsLead(w: string, mw: string, mr: string)
    requires IsNameWord(w) && '_' !in w
    requires mw == w || mw == "_" + w
    requires mr == "" || mr[0] == '_'
    ensures MarkedWords(mw + mr) == [w] + MarkedWords(mr)
  {
    assert MarkedWords(w + mr) == [w] + MarkedWords(mr) by {
      if mr == "" {
        assert w + mr == w;
        MarkedWordsLast(w);
        MarkedWordsEmpty();
      } else {
        var z := mr[1..];
        assert mr == "_" + z;
        assert w + mr == w + "_" + z;
        MarkedWordsWord(w, z);
        MarkedWordsSkip(z);
      }
    }
    if mw != w {
      assert mw + mr == "_" + (w + mr);
      MarkedWordsSkip(w + mr);
    }
  }

  /** The marked name falls apart into exactly the name's words. */
  lemma {:induction false} MarkedWordsAreNameWords(s: string)
    ensures MarkedWords(Marked(s)) == NameWords(s)
    decreases |s|
  {
    if |s| == 0 {
      MarkedWordsEmpty();
    } else if !IsAlpha(s[0]) {
      MarkedWordsAreNameWords(s[1..]);
      MarkedWordsSkip(Marked(s[1..]));
      assert Marked(s) == "_" + Marked(s[1..]);
    } else {
      var n := 1 + LowerRun(s[1..]);
      var w, rest := s[..n], s[n..];
      MarkedWordsAreNameWords(rest);
      assert NameWords(s) == [w] + NameWords(rest);
      MarkedFirstWord(s, n);
      AfterFirstWord(s, n);
      MarkedSplitAt(s, n);
      if rest != "" {
        MarkedOpensWithMark(rest);
      }
      MarkedWordsLead(w, Marked(w), Marked(rest));
    }
  }

  /** Marking a name is marking its two parts on either side of a cut. */
  lemma MarkedSplitAt(s: string, n: nat)
    requires n <= |s|
    ensures Marked(s) == Marked(s[..n]) + Marked(s[n..])
  {
    assert s == s[..n] + s[n..];
    MarkedAppend(s[..n], s[n..]);
  }

  /** What follows the first word opens with anything but a lower-case
      letter. */
  lemma AfterFirstWord(s: string, n: nat)
    requires 0 < |s| && IsAlpha(s[0]) && n == 1 + LowerRun(s[1..])
    ensures s[n..] == "" || !IsLower(s[n..][0])
  {
    if n < |s| {
      assert s[n..][0] == s[1..][n - 1];
    }
  }

  /** The first word of a name is marked in front exactly when it is
      upper-case. */
  lemma MarkedFirstWord(s: string, n: nat)
    requires 0 < |s| && IsAlpha(s[0]) && n == 1 + LowerRun(s[1..])
    ensures IsNameWord(s[..n]) && '_' !in s[..n]
    ensures Marked(s[..n]) == if IsUpper(s[0]) then "_" + s[..n] else s[..n]
  {
    var w, tail := s[..n], s[1..n];
    assert tail == s[1..][..n - 1];
    assert IsNameWord(w) && '_' !in w by {
      assert forall i :: 1 <= i < n ==> w[i] == s[1..][i - 1];
    }
    assert Marked(w) == MarkChar(s[0]) + tail by {
      assert w == [s[0]] + tail;
      MarkedLower(tail);
      MarkedAppend([s[0]], tail);
      assert Marked([s[0]]) == MarkChar(s[0]) + Marked([s[0]][1..]);
      assert [s[0]][1..] == "";
    }
    assert w == [s[0]] + tail;
  }

  /** The source's pieces are the name's words. */
  lemma BrokenWordsAreNameWords(name: string)
    ensures BrokenWords(name) == NameWords(name)
  {
    MarkedIsRewrites(name);
    MarkedWordsAreNameWords(name);
  }

  /** The non-empty pieces between `_` marks once breaks are inserted: words
      of letters that together spell the name's letters. */
  function BrokenWords(name: string): (words: seq<string>)
    ensures forall k :: 0 <= k < |words| ==> |words[k]| > 0
    ensures forall k, i :: 0 <= k < |words| && 0 <= i < |words[k]| ==> IsAlpha(words[k][i])
    ensures Flatten(words) == Letters(name)
  {
    var marked := InsertBreaks(Underscored(name));
    var pieces := Split(marked, "_");
    SplitChar(marked, '_');
    FlattenDropEmpty(pieces);
    var words := Filter(NonEmpty, pieces);
    forall k, i | 0 <= k < |words| && 0 <= i < |words[k]|
      ensures IsAlpha(words[k][i])
    {
      assert words[k] in pieces;
      var c := words[k][i];
      assert c in marked && c != '_';
    }
    words
  }

  /** Every word lower-cased; the words must be non-empty and made of letters. */
  function LowerAll(words: seq<string>): (r: seq<string>)
    requires forall k :: 0 <= k < |words| ==> |words[k]| > 0
    requires forall k, i :: 0 <= k < |words| && 0 <= i < |words[k]| ==> IsAlpha(words[k][i])
    ensures |r| == |words|
    ensures forall k :: 0 <= k < |r| ==> IsLowerWord(r[k])
    ensures Flatten(r) == LowerStr(Flatten(words))
    decreases |words|
  {
    if |words| == 0 then []
    else
      LowerStrAppend(words[0], Flatten(words[1..]));
      [LowerStr(words[0])] + LowerAll(words[1..])
  }

  // ---------------------------------------------------------------------
  // get_range
  // ---------------------------------------------------------------------

  predicate StrictlyIncreasing(xs: seq<int>) {
    forall a, b :: 0 <= a < b < |xs| ==> xs[a] < xs[b]
  }

  /** The inner loop of get_range: `right` moves on while the next index is
      one more than the current one. */
  function RunEnd(nums: seq<int>, right: nat): (r: nat)
    requires right < |nums|
    ensures right <= r < |nums|
    ensures forall k :: right <= k < r ==> nums[k] + 1 == nums[k + 1]
    ensures r + 1 == |nums| || nums[r] + 1 != nums[r + 1]
    decreases |nums| - right
  {
    if right + 1 < |nums| && nums[right] + 1 == nums[right + 1] then RunEnd(nums, right + 1) else right
  }

  /** The outer loop of get_range, entered with `left == right` and the list
      built so far. The membership test against `result` is kept as written. */
  function RangeLoop(nums: seq<int>, left: nat, result: seq<int>): seq<int>
    requires left <= |nums|
    decreases |nums| - left
  {
    if left == |nums| then result
    else
      var right := RunEnd(nums, left);
      RangeLoop(nums, right + 1, result + RunBounds(nums, left, right, result))
  }

  /** The list `temp` one pass of the outer loop appends for the run [left, right]. */
  function RunBounds(nums: seq<int>, left: nat, right: nat, result: seq<int>): (r: seq<int>)
    requires left <= right < |nums|
    ensures forall x :: x in r <==>
              right > left && ((x == nums[left] && nums[left] !in result) || x == nums[right] + 1)
  {
    if right > left then (if nums[left] !in result then [nums[left]] else []) + [nums[right] + 1]
    else []
  }

  /** get_range: split points of a list of upper-case letter positions. */
  function GetRange(nums: seq<int>): seq<int> {
    RangeLoop(nums, 0, [0])
  }

  /** Position `i` starts a run of at least two consecutive values. */
  predicate StartsLongRun(nums: seq<int>, i: int) {
    0 <= i && i + 1 < |nums| && nums[i] + 1 == nums[i + 1] && (i == 0 || nums[i - 1] + 1 != nums[i])
  }

  /** Position `j` ends a run of at least two consecutive values. */
  predicate EndsLongRun(nums: seq<int>, j: int) {
    0 < j < |nums| && nums[j - 1] + 1 == nums[j] && (j + 1 == |nums| || nums[j] + 1 != nums[j + 1])
  }

  /** `x` is the non-zero start, or one past the end, of a long run that lies
      below position `k`. */
  ghost predicate BoundBelow(nums: seq<int>, x: int, k: int) {
    || (exists i :: 0 <= i < k && StartsLongRun(nums, i) && nums[i] == x && x != 0)
    || (exists j :: 0 <= j < k && EndsLongRun(nums, j) && nums[j] + 1 == x)
  }

  /** Extending the scanned prefix over one maximal run [left, right]. */
  lemma BoundStep(nums: seq<int>, left: nat, right: nat, x: int)
    requires left <= right < |nums|
    requires left == 0 || nums[left - 1] + 1 != nums[left]
    requires forall k :: left <= k < right ==> nums[k] + 1 == nums[k + 1]
    requires right + 1 == |nums| || nums[right] + 1 != nums[right + 1]
    ensures BoundBelow(nums, x, right + 1) <==>
              || BoundBelow(nums, x, left)
              || (right > left && nums[left] == x && x != 0)
              || (right > left && nums[right] + 1 == x)
  {
    assert forall i :: left <= i <= right ==> (StartsLongRun(nums, i) <==> i == left && right > left) by {
      forall i | left <= i <= right
        ensures StartsLongRun(nums, i) <==> i == left && right > left
      {
        if i > left {
          assert nums[i - 1] + 1 == nums[i];
        }
      }
    }
    assert forall j :: left <= j <= right ==> (EndsLongRun(nums, j) <==> j == right && right > left) by {
      forall j | left <= j <= right
        ensures EndsLongRun(nums, j) <==> j == right && right > left
      {
        if j < right {
          assert nums[j] + 1 == nums[j + 1];
        }
      }
    }
  }

  /** The order part of get_range's loop invariant: `left` starts a run,
      and the list is increasing, starts at 0 and stays below the next run. */
  predicate RangeShape(nums: seq<int>, left: nat, acc: seq<int>) {
    && StrictlyIncreasing(nums) && (|nums| > 0 ==> nums[0] >= 0)
    && left <= |nums|
    && (left == 0 || left == |nums| || nums[left - 1] + 1 != nums[left])
    && |acc| >= 1 && acc[0] == 0 && StrictlyIncreasing(acc)
    && (left == 0 ==> acc == [0])
    && (left > 0 ==> acc[|acc| - 1] <= nums[left - 1] + 1)
  }

  /** The invariant of get_range's outer loop at the head of an iteration:
      the order part, and the list holds exactly the bounds of the runs
      scanned so far. */
  ghost predicate RangeInvariant(nums: seq<int>, left: nat, acc: seq<int>) {
    RangeShape(nums, left, acc) && (forall x :: x in acc[1..] <==> BoundBelow(nums, x, left))
  }

  /** The start of a run is in the list already exactly when it is the initial 0. */
  lemma RunStartSeen(nums: seq<int>, left: nat, acc: seq<int>)
    requires RangeShape(nums, left, acc) && left < |nums|
    ensures nums[left] in acc <==> nums[left] == 0
    ensures left > 0 ==> acc[|acc| - 1] < nums[left]
  {
    if left > 0 {
      assert nums[left - 1] < nums[left];
      assert forall i :: 0 <= i < |acc| ==> acc[i] <= acc[|acc| - 1];
      assert nums[0] <= nums[left - 1];
    }
  }

  /** One pass keeps the list increasing and bounded by the scanned prefix. */
  lemma RangeStepOrder(nums: seq<int>, left: nat, acc: seq<int>)
    requires RangeShape(nums, left, acc) && left < |nums|
    ensures RangeShape(nums, RunEnd(nums, left) + 1, acc + RunBounds(nums, left, RunEnd(nums, left), acc))
  {
    var right := RunEnd(nums, left);
    var acc' := acc + RunBounds(nums, left, right, acc);
    RunStartSeen(nums, left, acc);
    if right > left {
      assert nums[left] + 1 == nums[left + 1];
      assert nums[left + 1] <= nums[right];
    }
    assert StrictlyIncreasing(acc') && acc'[|acc'| - 1] <= nums[right] + 1;
    assert acc'[0] == 0;
  }

  /** One pass adds exactly the bounds of the run it scanned. */
  lemma RangeStepMembers(nums: seq<int>, left: nat, acc: seq<int>)
    requires left < |nums| && (left == 0 || nums[left - 1] + 1 != nums[left])
    requires |acc| >= 1 && (nums[left] in acc <==> nums[left] == 0)
    requires forall x :: x in acc[1..] <==> BoundBelow(nums, x, left)
    ensures forall x :: x in (acc + RunBounds(nums, left, RunEnd(nums, left), acc))[1..]
                        <==> BoundBelow(nums, x, RunEnd(nums, left) + 1)
  {
    var right := RunEnd(nums, left);
    var temp := RunBounds(nums, left, right, acc);
    forall x
      ensures x in (acc + temp)[1..] <==> BoundBelow(nums, x, right + 1)
    {
      RangeStepMember(nums, left, acc, x);
    }
  }

  lemma RangeStepMember(nums: seq<int>, left: nat, acc: seq<int>, x: int)
    requires left < |nums| && (left == 0 || nums[left - 1] + 1 != nums[left])
    requires |acc| >= 1 && (nums[left] in acc <==> nums[left] == 0)
    requires x in acc[1..] <==> BoundBelow(nums, x, left)
    ensures x in (acc + RunBounds(nums, left, RunEnd(nums, left), acc))[1..] <==> BoundBelow(nums, x, RunEnd(nums, left) + 1)
  {
    var right := RunEnd(nums, left);
    var temp := RunBounds(nums, left, right, acc);
    TailOfAppend(acc, temp);
    BoundStep(nums, left, right, x);
    assert x in acc[1..] + temp <==> x in acc[1..] || x in temp;
    assert x in temp <==> (right > left && nums[left] == x && x != 0) || (right > left && nums[right] + 1 == x);
  }

  /** One pass of the outer loop keeps its invariant. */
  lemma RangeStep(nums: seq<int>, left: nat, acc: seq<int>)
    requires RangeInvariant(nums, left, acc) && left < |nums|
    ensures RunEnd(nums, left) + 1 <= |nums|
    ensures RangeInvariant(nums, RunEnd(nums, left) + 1, acc + RunBounds(nums, left, RunEnd(nums, left), acc))
  {
    RangeStepOrder(nums, left, acc);
    RunStartSeen(nums, left, acc);
    RangeStepMembers(nums, left, acc);
  }

  /** The invariant of get_range's outer loop, carried to the end of the list. */
  lemma {:induction false} RangeLoopSpec(nums: seq<int>, left: nat, acc: seq<int>)
    requires RangeInvariant(nums, left, acc)
    ensures |RangeLoop(nums, left, acc)| >= 1
    ensures RangeLoop(nums, left, acc)[0] == 0
    ensures StrictlyIncreasing(RangeLoop(nums, left, acc))
    ensures forall x :: x in RangeLoop(nums, left, acc)[1..] <==> BoundBelow(nums, x, |nums|)
    decreases |nums| - left
  {
    if left < |nums| {
      var right := RunEnd(nums, left);
      RangeStep(nums, left, acc);
      RangeLoopSpec(nums, right + 1, acc + RunBounds(nums, left, right, acc));
    }
  }

  /** get_range on a strictly increasing list of positions: 0 first, then for
      every maximal run of two or more consecutive positions its start (unless
      that start is 0) and one past its end, in increasing order. Isolated
      positions contribute nothing. */
  lemma GetRangeSpec(nums: seq<int>)
    requires StrictlyIncreasing(nums) && (|nums| > 0 ==> nums[0] >= 0)
    ensures |GetRange(nums)| >= 1 && GetRange(nums)[0] == 0
    ensures StrictlyIncreasing(GetRange(nums))
    ensures forall x :: x in GetRange(nums)[1..] <==> BoundBelow(nums, x, |nums|)
  {
    RangeLoopSpec(nums, 0, [0]);
  }

  /** The comment above get_range promises [6, 15, 22] for this list; the code
      returns run starts and ends instead. */
  lemma GetRangeCommentExample(nums: seq<int>)
    requires nums == [6, 7, 8, 15, 22, 23, 24, 25]
    ensures GetRange(nums) == [0, 6, 9, 22, 26]
  {
    assert RunEnd(nums, 2) == 2;
    assert RunEnd(nums, 0) == 2;
    assert RunBounds(nums, 0, 2, [0]) == [6, 9];
    assert [0] + [6, 9] == [0, 6, 9];
    assert RunEnd(nums, 3) == 3;
    assert RunBounds(nums, 3, 3, [0, 6, 9]) == [];
    assert [0, 6, 9] + [] == [0, 6, 9];
    assert RunEnd(nums, 7) == 7;
    assert RunEnd(nums, 4) == 7;
    assert RunBounds(nums, 4, 7, [0, 6, 9]) == [22, 26];
    assert [0, 6, 9] + [22, 26] == [0, 6, 9, 22, 26];
    assert RangeLoop(nums, 0, [0]) == RangeLoop(nums, 3, [0, 6, 9]);
    assert RangeLoop(nums, 3, [0, 6, 9]) == RangeLoop(nums, 4, [0, 6, 9]);
    assert RangeLoop(nums, 4, [0, 6, 9]) == RangeLoop(nums, 8, [0, 6, 9, 22, 26]);
  }

  // ---------------------------------------------------------------------
  // split_func_name
  // ---------------------------------------------------------------------

  /** The positions of upper-case letters in `s` from `i` on, increasing. */
  function UpperFrom(s: string, i: nat): (r: seq<int>)
    requires i <= |s|
    ensures forall k :: 0 <= k < |r| ==> i <= r[k] < |s| && IsUpper(s[r[k]])
    ensures forall j :: i <= j < |s| && IsUpper(s[j]) ==> j in r
    ensures StrictlyIncreasing(r)
    decreases |s| - i
  {
    if i == |s| then []
    else
      var rest := UpperFrom(s, i + 1);
      UpperFromStep(s, i, rest);
      (if IsUpper(s[i]) then [i] else []) + rest
  }

  lemma UpperFromStep(s: string, i: nat, rest: seq<int>)
    requires i < |s|
    requires forall k :: 0 <= k < |rest| ==> i + 1 <= rest[k] < |s| && IsUpper(s[rest[k]])
    requires forall j :: i + 1 <= j < |s| && IsUpper(s[j]) ==> j in rest
    requires StrictlyIncreasing(rest)
    ensures var r := (if IsUpper(s[i]) then [i] else []) + rest;
            && (forall k :: 0 <= k < |r| ==> i <= r[k] < |s| && IsUpper(s[r[k]]))
            && (forall j :: i <= j < |s| && IsUpper(s[j]) ==> j in r)
            && StrictlyIncreasing(r)
  {
    var h: seq<int> := if IsUpper(s[i]) then [i] else [];
    var r := h + rest;
    assert forall k :: |h| <= k < |r| ==> r[k] == rest[k - |h|];
  }

  /** The split points: get_range of the upper-case positions, then the
      length of the name unless it is already there. */
  function Boundaries(s: string): (b: seq<int>)
    ensures |b| >= 1 && b[0] == 0 && b[|b| - 1] == |s|
    ensures StrictlyIncreasing(b)
    ensures forall k :: 0 <= k < |b| ==> 0 <= b[k] <= |s|
  {
    RangeWithinName(s);
    WithEnd(GetRange(UpperFrom(s, 0)), |s|)
  }

  /** Appending the end position, unless present, keeps the split points
      increasing and makes the end the last one. */
  function WithEnd(range: seq<int>, n: int): (b: seq<int>)
    requires |range| >= 1 && range[0] == 0 && StrictlyIncreasing(range)
    requires forall k :: 0 <= k < |range| ==> 0 <= range[k] <= n
    ensures |b| >= 1 && b[0] == 0 && b[|b| - 1] == n && StrictlyIncreasing(b)
    ensures forall k :: 0 <= k < |b| ==> 0 <= b[k] <= n
    ensures forall x :: x in b <==> x in range || x == n
  {
    if n in range then
      IncreasingMax(range, n);
      range
    else
      assert forall k :: 0 <= k < |range| ==> range[k] < n;
      range + [n]
  }

  /** Every split point get_range produces for a name lies within the name. */
  lemma RangeWithinName(s: string)
    ensures |GetRange(UpperFrom(s, 0))| >= 1 && GetRange(UpperFrom(s, 0))[0] == 0
    ensures StrictlyIncreasing(GetRange(UpperFrom(s, 0)))
    ensures forall k :: 0 <= k < |GetRange(UpperFrom(s, 0))| ==> 0 <= GetRange(UpperFrom(s, 0))[k] <= |s|
  {
    var nums := UpperFrom(s, 0);
    var range := GetRange(nums);
    GetRangeSpec(nums);
    forall k | 0 <= k < |range|
      ensures 0 <= range[k] <= |s|
    {
      if k > 0 {
        assert range[k] in range[1..];
      }
    }
  }

  /** In an increasing list, an element no other element exceeds is the last. */
  lemma IncreasingMax(xs: seq<int>, v: int)
    requires StrictlyIncreasing(xs) && v in xs
    requires forall k :: 0 <= k < |xs| ==> xs[k] <= v
    ensures xs[|xs| - 1] == v
  {
    var k :| 0 <= k < |xs| && xs[k] == v;
    assert forall a :: 0 <= a < |xs| ==> xs[a] <= xs[|xs| - 1];
  }

  /** The pieces of `s` between consecutive split points. */
  function Slices(s: string, b: seq<int>): (r: seq<string>)
    requires |b| >= 1 && StrictlyIncreasing(b)
    requires forall k :: 0 <= k < |b| ==> 0 <= b[k] <= |s|
    ensures |r| == |b| - 1
    ensures forall k :: 0 <= k < |r| ==> r[k] == s[b[k]..b[k + 1]] && |r[k]| > 0
    ensures Flatten(r) == s[b[0]..b[|b| - 1]]
    decreases |b|
  {
    if |b| == 1 then []
    else
      var rest := Slices(s, b[1..]);
      SlicesStep(s, b, rest);
      [s[b[0]..b[1]]] + rest
  }

  /** The first slice in front of the slices of the remaining points. */
  lemma SlicesStep(s: string, b: seq<int>, rest: seq<string>)
    requires |b| >= 2 && StrictlyIncreasing(b)
    requires forall k :: 0 <= k < |b| ==> 0 <= b[k] <= |s|
    requires |rest| == |b| - 2
    requires forall k :: 0 <= k < |rest| ==> rest[k] == s[b[k + 1]..b[k + 2]] && |rest[k]| > 0
    requires Flatten(rest) == s[b[1]..b[|b| - 1]]
    ensures forall k :: 0 <= k < |rest| + 1 ==>
              ([s[b[0]..b[1]]] + rest)[k] == s[b[k]..b[k + 1]] && |([s[b[0]..b[1]]] + rest)[k]| > 0
    ensures Flatten([s[b[0]..b[1]]] + rest) == s[b[0]..b[|b| - 1]]
  {
    FlattenCons(s[b[0]..b[1]], rest);
    assert s[b[0]..b[1]] + s[b[1]..b[|b| - 1]] == s[b[0]..b[|b| - 1]];
    forall k | 1 <= k < |rest| + 1
      ensures ([s[b[0]..b[1]]] + rest)[k] == s[b[k]..b[k + 1]]
    {
      assert ([s[b[0]..b[1]]] + rest)[k] == rest[k - 1];
    }
  }

  lemma SliceChar(s: string, b: seq<int>, k: int, i: int)
    requires |b| >= 1 && StrictlyIncreasing(b)
    requires forall k :: 0 <= k < |b| ==> 0 <= b[k] <= |s|
    requires 0 <= k < |Slices(s, b)| && 0 <= i < |Slices(s, b)[k]|
    ensures 0 <= b[k] + i < |s| && Slices(s, b)[k][i] == s[b[k] + i]
  {
    assert Slices(s, b)[k] == s[b[k]..b[k + 1]];
  }

  /** The slices split_func_name cuts the underscored name into: non-empty,
      and together exactly the underscored name. */
  function NameSlices(name: string): (r: seq<string>)
    ensures forall k :: 0 <= k < |r| ==> |r[k]| > 0
    ensures forall k :: 0 <= k < |r| ==> LettersOrMarks(r[k])
    ensures Flatten(r) == Underscored(name)
  {
    var s := Underscored(name);
    WholeSlices(s);
    Slices(s, Boundaries(s))
  }

  /** Cut at its split points, a text of letters and `_` falls into pieces
      of letters and `_` that together spell it. */
  lemma WholeSlices(s: string)
    requires LettersOrMarks(s)
    ensures forall k :: 0 <= k < |Slices(s, Boundaries(s))| ==> LettersOrMarks(Slices(s, Boundaries(s))[k])
    ensures Flatten(Slices(s, Boundaries(s))) == s
  {
    var b := Boundaries(s);
    assert s[b[0]..b[|b| - 1]] == s;
    SlicesLetters(s, b);
  }

  /** Slices of a text of letters and `_` hold only letters and `_`. */
  lemma SlicesLetters(s: string, b: seq<int>)
    requires |b| >= 1 && StrictlyIncreasing(b)
    requires forall k :: 0 <= k < |b| ==> 0 <= b[k] <= |s|
    requires LettersOrMarks(s)
    ensures forall k :: 0 <= k < |Slices(s, b)| ==> LettersOrMarks(Slices(s, b)[k])
  {
    var r := Slices(s, b);
    forall k, i | 0 <= k < |r| && 0 <= i < |r[k]|
      ensures IsAlpha(r[k][i]) || r[k][i] == '_'
    {
      SliceChar(s, b, k, i);
    }
  }

  /** Python's `str.isupper()` on letters and `_`: some upper-case letter and no
      lower-case one. */
  predicate IsUpperStr(t: string) {
    && (exists i :: 0 <= i < |t| && IsUpper(t[i]))
    && (forall i :: 0 <= i < |t| ==> !IsLower(t[i]))
  }

  /** Lower-casing then deleting `_` leaves the lower-cased letters. */
  lemma {:induction false} LowerThenRemove(t: string)
    requires LettersOrMarks(t)
    ensures RemoveChar(LowerStr(t), '_') == LowerStr(Letters(t))
    decreases |t|
  {
    if |t| > 0 {
      var c := t[0];
      LowerThenRemove(t[1..]);
      assert t == [c] + t[1..];
      LowerStrAppend([c], t[1..]);
      assert LowerStr([c]) == [Lower(c)];
      FilterAppend(Without('_'), [Lower(c)], LowerStr(t[1..]));
      FilterSingle(Without('_'), Lower(c));
      FilterAppend(IsAlpha, [c], t[1..]);
      FilterSingle(IsAlpha, c);
      if IsAlpha(c) {
        LowerStrAppend([c], Letters(t[1..]));
      } else {
        assert Lower(c) == '_';
      }
    }
  }

  /** An all-capitals slice, lower-cased with `_` deleted, is one word: its
      lower-cased letters. */
  lemma CapitalsWord(t: string)
    requires LettersOrMarks(t)
    requires IsUpperStr(t)
    ensures ReplaceAll(LowerStr(t), "_", "") == LowerStr(Letters(t))
    ensures IsLowerWord(ReplaceAll(LowerStr(t), "_", ""))
  {
    ReplaceCharIsRemove(LowerStr(t), '_');
    LowerThenRemove(t);
    var i :| 0 <= i < |t| && IsUpper(t[i]);
    assert t[i] in Letters(t);
    LowerLetters(Letters(t));
  }

  lemma LowerLetters(letters: string)
    requires |letters| > 0 && forall j :: 0 <= j < |letters| ==> IsAlpha(letters[j])
    ensures IsLowerWord(LowerStr(letters))
  {
  }

  /** The words of one slice: an all-capitals slice is one lower-cased word
      with `_` removed; any other slice goes through split_normal_func_name. */
  function SliceWords(t: string): (r: seq<string>)
    requires LettersOrMarks(t)
    ensures forall k :: 0 <= k < |r| ==> IsLowerWord(r[k])
    ensures Flatten(r) == LowerStr(Letters(t))
  {
    if IsUpperStr(t) then
      var w := ReplaceAll(LowerStr(t), "_", "");
      CapitalsWord(t);
      assert Flatten([w]) == w + Flatten([w][1..]);
      [w]
    else
      UnderscoredFixed(t);
      SplitNormalFuncName(t)
  }

  function ExpandSlices(slices: seq<string>): (r: seq<string>)
    requires forall k :: 0 <= k < |slices| ==> LettersOrMarks(slices[k])
    ensures forall k :: 0 <= k < |r| ==> IsLowerWord(r[k])
    ensures Flatten(r) == LowerStr(Letters(Flatten(slices)))
    decreases |slices|
  {
    if |slices| == 0 then []
    else
      var head := SliceWords(slices[0]);
      var tail := ExpandSlices(slices[1..]);
      AllAppend(IsLowerWord, head, tail);
      ExpandSlicesText(slices, head, tail);
      head + tail
  }

  /** The words of the first slice in front of the words of the others
      spell the lower-cased letters of all the slices. */
  lemma ExpandSlicesText(slices: seq<string>, head: seq<string>, tail: seq<string>)
    requires |slices| > 0
    requires Flatten(head) == LowerStr(Letters(slices[0]))
    requires Flatten(tail) == LowerStr(Letters(Flatten(slices[1..])))
    ensures Flatten(head + tail) == LowerStr(Letters(Flatten(slices)))
  {
    FlattenAppend(head, tail);
    FilterAppend(IsAlpha, slices[0], Flatten(slices[1..]));
    LowerStrAppend(Letters(slices[0]), Letters(Flatten(slices[1..])));
  }

  /** split_func_name: the words are non-empty and lower-case, and together
      spell the name's letters, lower-cased, in order; a name without letters
      gives no words. */
  function SplitFuncName(name: string): (r: seq<string>)
    ensures forall k :: 0 <= k < |r| ==> IsLowerWord(r[k])
    ensures Flatten(r) == LowerStr(Letters(name))
    ensures |Letters(name)| == 0 ==> r == []
  {
    var r := ExpandSlices(NameSlices(name));
    if |Letters(name)| == 0 then
      FlattenEmptyPieces(r);
      r
    else r
  }

  /** `name[p..e]` is a maximal run of at least two upper-case letters. */
  predicate CapitalRun(name: string, p: int, e: int) {
    && 0 <= p && p + 2 <= e <= |name|
    && (forall i :: p <= i < e ==> IsUpper(name[i]))
    && (p == 0 || !IsUpper(name[p - 1]))
    && (e == |name| || !IsUpper(name[e]))
  }

  /** The point of get_range: a run of capitals is never cut apart. It comes
      out of split_func_name as one word, lower-cased. */
  lemma CapitalRunIsWord(name: string, p: int, e: int)
    requires CapitalRun(name, p, e)
    ensures LowerStr(name[p..e]) in SplitFuncName(name)
  {
    var k := RunNameSlice(name, p, e);
    RunAllCapitals(name, p, e);
    CapitalSliceOfName(name, k, name[p..e]);
  }

  /** The text of a run of capitals. */
  lemma RunAllCapitals(name: string, p: int, e: int)
    requires CapitalRun(name, p, e)
    ensures |name[p..e]| > 0 && forall i :: 0 <= i < |name[p..e]| ==> IsUpper(name[p..e][i])
  {
    forall i | 0 <= i < |name[p..e]|
      ensures IsUpper(name[p..e][i])
    {
      assert name[p..e][i] == name[p + i];
    }
  }

  /** A slice of the name that is all capitals is one of its words. */
  lemma CapitalSliceOfName(name: string, k: int, t: string)
    requires 0 <= k < |NameSlices(name)| && NameSlices(name)[k] == t
    requires |t| > 0 && forall i :: 0 <= i < |t| ==> IsUpper(t[i])
    ensures LowerStr(t) in SplitFuncName(name)
  {
    CapitalSliceIsWord(NameSlices(name), k);
  }

  /** A slice of capitals alone comes out of the expansion whole. */
  lemma CapitalSliceIsWord(slices: seq<string>, k: int)
    requires forall j :: 0 <= j < |slices| ==> LettersOrMarks(slices[j])
    requires 0 <= k < |slices| && |slices[k]| > 0
    requires forall i :: 0 <= i < |slices[k]| ==> IsUpper(slices[k][i])
    ensures LowerStr(slices[k]) in ExpandSlices(slices)
  {
    CapitalsSliceWord(slices[k]);
    ExpandSlicesHas(slices, k);
  }

  /** A run of capitals in the name is one of its slices. */
  lemma RunNameSlice(name: string, p: int, e: int) returns (k: int)
    requires CapitalRun(name, p, e)
    ensures 0 <= k < |NameSlices(name)| && NameSlices(name)[k] == name[p..e]
  {
    var s := Underscored(name);
    UnderscoredRun(name, p, e);
    k := RunSlice(s, p, e);
    assert NameSlices(name) == Slices(s, Boundaries(s));
  }

  /** Replacing non-letters by `_` leaves a run of capitals where it was. */
  lemma UnderscoredRun(name: string, p: int, e: int)
    requires CapitalRun(name, p, e)
    ensures CapitalRun(Underscored(name), p, e)
    ensures Underscored(name)[p..e] == name[p..e]
  {
    var u := Underscored(name);
    forall i | 0 <= i < |name|
      ensures IsUpper(name[i]) ==> u[i] == name[i]
      ensures !IsUpper(name[i]) ==> !IsUpper(u[i])
    {
      UnderscoredAt(name, i);
    }
    assert u[p..e] == name[p..e];
  }

  /** A run of capitals is one of the slices. */
  lemma RunSlice(s: string, p: int, e: int) returns (k: int)
    requires CapitalRun(s, p, e)
    ensures 0 <= k < |Slices(s, Boundaries(s))| && Slices(s, Boundaries(s))[k] == s[p..e]
  {
    var b := Boundaries(s);
    RunStartIsPoint(s, p, e);
    RunEndIsPoint(s, p, e);
    forall x | p < x < e
      ensures x !in b
    {
      NoPointInside(s, p, e, x);
    }
    k := AdjacentPoints(b, p, e);
  }

  /** The split points hold the run's start. */
  lemma RunStartIsPoint(s: string, p: int, e: int)
    requires CapitalRun(s, p, e)
    ensures p in Boundaries(s)
  {
    if p != 0 {
      var i := UpperRunStart(s, p, e);
      RangeHasStart(UpperFrom(s, 0), i);
    }
  }

  /** The split points hold one past the run's end. */
  lemma RunEndIsPoint(s: string, p: int, e: int)
    requires CapitalRun(s, p, e)
    ensures e in Boundaries(s)
  {
    if e != |s| {
      var j := UpperRunEnd(s, p, e);
      RangeHasEnd(UpperFrom(s, 0), j);
    }
  }

  /** Among the upper-case positions, a run of capitals not at the front
      starts a long run. */
  lemma UpperRunStart(s: string, p: int, e: int) returns (i: int)
    requires CapitalRun(s, p, e) && p != 0
    ensures 0 <= i < |UpperFrom(s, 0)| && UpperFrom(s, 0)[i] == p
    ensures StartsLongRun(UpperFrom(s, 0), i)
  {
    var nums := UpperFrom(s, 0);
    assert p in nums && p + 1 in nums;
    assert p - 1 !in nums by {
      assert !IsUpper(s[p - 1]);
    }
    i := PositionStartsRun(nums, p);
  }

  /** Among the upper-case positions, a run of capitals not at the back
      ends a long run. */
  lemma UpperRunEnd(s: string, p: int, e: int) returns (j: int)
    requires CapitalRun(s, p, e) && e != |s|
    ensures 0 <= j < |UpperFrom(s, 0)| && UpperFrom(s, 0)[j] + 1 == e
    ensures EndsLongRun(UpperFrom(s, 0), j)
  {
    var nums := UpperFrom(s, 0);
    assert e - 2 in nums && e - 1 in nums;
    assert e !in nums by {
      assert !IsUpper(s[e]);
    }
    j := PositionEndsRun(nums, e - 1);
  }

  /** A value present with its successor but without its predecessor starts
      a long run. */
  lemma PositionStartsRun(nums: seq<int>, x: int) returns (i: int)
    requires StrictlyIncreasing(nums)
    requires x in nums && x + 1 in nums && x - 1 !in nums
    ensures 0 <= i < |nums| && nums[i] == x && StartsLongRun(nums, i)
  {
    i :| 0 <= i < |nums| && nums[i] == x;
    NextInIncreasing(nums, i);
    if i > 0 {
      assert nums[i - 1] in nums;
    }
  }

  /** A value present with its predecessor but without its successor ends
      a long run. */
  lemma PositionEndsRun(nums: seq<int>, x: int) returns (j: int)
    requires StrictlyIncreasing(nums)
    requires x - 1 in nums && x in nums && x + 1 !in nums
    ensures 0 <= j < |nums| && nums[j] == x && EndsLongRun(nums, j)
  {
    var a :| 0 <= a < |nums| && nums[a] == x - 1;
    NextInIncreasing(nums, a);
    j := a + 1;
    if j + 1 < |nums| {
      assert nums[j + 1] in nums;
    }
  }

  /** No split point falls strictly inside the run: each position there
      continues the run on both sides. */
  lemma NoPointInside(s: string, p: int, e: int, x: int)
    requires CapitalRun(s, p, e) && p < x < e
    ensures x !in Boundaries(s)
  {
    var nums := UpperFrom(s, 0);
    assert x - 1 in nums && x in nums;
    RangeSkipsInside(nums, x);
  }

  /** get_range keeps the start of every long run. */
  lemma RangeHasStart(nums: seq<int>, i: int)
    requires StrictlyIncreasing(nums) && (|nums| > 0 ==> nums[0] >= 0)
    requires StartsLongRun(nums, i)
    ensures nums[i] in GetRange(nums)
  {
    GetRangeSpec(nums);
    var range := GetRange(nums);
    if nums[i] != 0 {
      assert BoundBelow(nums, nums[i], |nums|);
      assert nums[i] in range[1..];
    }
  }

  /** get_range keeps one past the end of every long run. */
  lemma RangeHasEnd(nums: seq<int>, j: int)
    requires StrictlyIncreasing(nums) && (|nums| > 0 ==> nums[0] >= 0)
    requires EndsLongRun(nums, j)
    ensures nums[j] + 1 in GetRange(nums)
  {
    GetRangeSpec(nums);
    var range := GetRange(nums);
    assert BoundBelow(nums, nums[j] + 1, |nums|);
    assert nums[j] + 1 in range[1..];
  }

  /** A value whose predecessor is also present is neither the start nor one
      past the end of a run, so get_range leaves it out. */
  lemma RangeSkipsInside(nums: seq<int>, x: int)
    requires StrictlyIncreasing(nums) && (|nums| > 0 ==> nums[0] >= 0)
    requires x - 1 in nums && x in nums
    ensures x !in GetRange(nums)
  {
    GetRangeSpec(nums);
    var range := GetRange(nums);
    forall i | 0 <= i < |nums| && nums[i] == x
      ensures !StartsLongRun(nums, i)
    {
      var c :| 0 <= c < |nums| && nums[c] == x - 1;
      NextInIncreasing(nums, c);
      IncreasingIndex(nums, c + 1, i);
    }
    forall j | 0 <= j < |nums| && nums[j] + 1 == x
      ensures !EndsLongRun(nums, j)
    {
      NextInIncreasing(nums, j);
    }
    assert !BoundBelow(nums, x, |nums|);
    assert x !in range[1..];
    assert x != range[0] by {
      var c :| 0 <= c < |nums| && nums[c] == x - 1;
      assert nums[0] <= nums[c];
    }
    assert range == [range[0]] + range[1..];
  }

  /** In an increasing list, equal values sit at the same position. */
  lemma IncreasingIndex(xs: seq<int>, a: int, c: int)
    requires StrictlyIncreasing(xs) && 0 <= a < |xs| && 0 <= c < |xs| && xs[a] == xs[c]
    ensures a == c
  {
  }

  /** In an increasing list, the successor of a value, when present,
      comes right after it. */
  lemma NextInIncreasing(xs: seq<int>, a: int)
    requires StrictlyIncreasing(xs) && 0 <= a < |xs| && xs[a] + 1 in xs
    ensures a + 1 < |xs| && xs[a + 1] == xs[a] + 1
  {
    var c :| 0 <= c < |xs| && xs[c] == xs[a] + 1;
    assert a < c;
    assert xs[a] < xs[a + 1] <= xs[c];
  }

  /** Two points of an increasing list with none between them are
      neighbours. */
  lemma AdjacentPoints(b: seq<int>, p: int, e: int) returns (k: int)
    requires StrictlyIncreasing(b) && p in b && e in b && p < e
    requires forall x :: p < x < e ==> x !in b
    ensures 0 <= k && k + 1 < |b| && b[k] == p && b[k + 1] == e
  {
    k :| 0 <= k < |b| && b[k] == p;
    var c :| 0 <= c < |b| && b[c] == e;
    assert k < c;
    assert p < b[k + 1] <= b[c];
    assert b[k + 1] in b;
  }

  /** A slice of capitals alone is the one word it spells, lower-cased. */
  lemma CapitalsSliceWord(t: string)
    requires |t| > 0 && forall i :: 0 <= i < |t| ==> IsUpper(t[i])
    ensures LettersOrMarks(t)
    ensures SliceWords(t) == [LowerStr(t)]
  {
    assert IsUpper(t[0]);
    assert IsUpperStr(t);
    CapitalsWord(t);
    FilterKeepsAll(IsAlpha, t);
  }

  /** The words of every slice appear among the expanded words. */
  lemma {:induction false} ExpandSlicesHas(slices: seq<string>, k: int)
    requires forall j :: 0 <= j < |slices| ==> LettersOrMarks(slices[j])
    requires 0 <= k < |slices|
    ensures forall w :: w in SliceWords(slices[k]) ==> w in ExpandSlices(slices)
    decreases k
  {
    var head := SliceWords(slices[0]);
    var tail := ExpandSlices(slices[1..]);
    assert ExpandSlices(slices) == head + tail;
    if k > 0 {
      ExpandSlicesHas(slices[1..], k - 1);
      assert slices[1..][k - 1] == slices[k];
    }
  }

  // ---------------------------------------------------------------------
  // split_sentence_piece
  // ---------------------------------------------------------------------

  /** The word-start glyph the subword model puts in front of pieces. */
  const WordStartMarker: char := '\U{2581}'

  /** Every word through the encoder, all pieces in order. */
  function EncodeAll(encode: string -> seq<string>, words: seq<string>): (r: seq<string>)
    ensures |words| == 1 ==> r == encode(words[0])
    ensures forall k, p :: 0 <= k < |words| && p in encode(words[k]) ==> p in r
    decreases |words|
  {
    if |words| == 0 then [] else encode(words[0]) + EncodeAll(encode, words[1..])
  }

  lemma {:induction false} EncodeAllAppend(encode: string -> seq<string>, a: seq<string>, b: seq<string>)
    ensures EncodeAll(encode, a + b) == EncodeAll(encode, a) + EncodeAll(encode, b)
    decreases |a|
  {
    if |a| == 0 {
      assert a + b == b;
    } else {
      assert (a + b)[1..] == a[1..] + b;
      EncodeAllAppend(encode, a[1..], b);
    }
  }

  /** A piece with the marker deleted. */
  function StripMarker(piece: string): (r: string)
    ensures WordStartMarker !in r
    ensures r == RemoveChar(piece, WordStartMarker)
  {
    ReplaceCharIsRemove(piece, WordStartMarker);
    ReplaceCharChars(piece, WordStartMarker, "");
    ReplaceAll(piece, [WordStartMarker], "")
  }

  /** Every piece with the marker deleted. */
  function StripMarkers(pieces: seq<string>): (r: seq<string>)
    ensures |r| == |pieces|
    ensures forall k :: 0 <= k < |r| ==> r[k] == StripMarker(pieces[k])
  {
    seq(|pieces|, k requires 0 <= k < |pieces| => StripMarker(pieces[k]))
  }

  /** Stripping piece by piece deletes the markers from the whole text. */
  lemma {:induction false} StripMarkersFlatten(pieces: seq<string>)
    ensures Flatten(StripMarkers(pieces)) == RemoveChar(Flatten(pieces), WordStartMarker)
    decreases |pieces|
  {
    if |pieces| > 0 {
      StripMarkersFlatten(pieces[1..]);
      assert StripMarkers(pieces)[1..] == StripMarkers(pieces[1..]);
      FilterAppend(Without(WordStartMarker), pieces[0], Flatten(pieces[1..]));
    }
  }

  lemma StripMarkersAppend(a: seq<string>, b: seq<string>)
    ensures StripMarkers(a + b) == StripMarkers(a) + StripMarkers(b)
  {
  }

  /** A piece with some character besides the marker. */
  predicate HasText(piece: string) {
    exists i :: 0 <= i < |piece| && piece[i] != WordStartMarker
  }

  /** Stripping leaves something exactly when the piece has text. */
  lemma StripKeepsText(piece: string)
    ensures |StripMarker(piece)| > 0 <==> HasText(piece)
  {
    var r := StripMarker(piece);
    if HasText(piece) {
      var i :| 0 <= i < |piece| && piece[i] != WordStartMarker;
      assert Without(WordStartMarker)(piece[i]);
    }
    if |r| > 0 {
      assert r[0] in piece && r[0] != WordStartMarker;
    }
  }

  /** Dropping the pieces that strip to nothing is dropping, before the
      strip, the pieces without text. */
  lemma {:induction false} StripThenDropEmpty(pieces: seq<string>)
    ensures Filter(NonEmpty, StripMarkers(pieces)) == StripMarkers(Filter(HasText, pieces))
    decreases |pieces|
  {
    if |pieces| > 0 {
      var head := if HasText(pieces[0]) then [pieces[0]] else [];
      StripThenDropEmpty(pieces[1..]);
      StripKeepsText(pieces[0]);
      assert StripMarkers(pieces)[1..] == StripMarkers(pieces[1..]);
      StripMarkersAppend(head, Filter(HasText, pieces[1..]));
    }
  }

  /** split_sentence_piece: no piece is empty or holds the marker, the
      pieces spell the encoder's output with the markers deleted, and the
      pieces are the encoder's pieces that have text, each with its markers
      deleted, in order. */
  function SplitSentencePiece(encode: string -> seq<string>, words: seq<string>): (r: seq<string>)
    ensures forall k :: 0 <= k < |r| ==> |r[k]| > 0 && WordStartMarker !in r[k]
    ensures Flatten(r) == RemoveChar(Flatten(EncodeAll(encode, words)), WordStartMarker)
    ensures r == StripMarkers(Filter(HasText, EncodeAll(encode, words)))
  {
    var stripped := StripMarkers(EncodeAll(encode, words));
    StripMarkersFlatten(EncodeAll(encode, words));
    FlattenDropEmpty(stripped);
    StripThenDropEmpty(EncodeAll(encode, words));
    Filter(NonEmpty, stripped)
  }

  /** When every piece the encoder gives has text, none is dropped: the
      result has one piece per encoder piece, that piece with its markers
      deleted. */
  lemma SplitSentencePieceKeepsPieces(encode: string -> seq<string>, words: seq<string>)
    requires forall k :: 0 <= k < |EncodeAll(encode, words)| ==> HasText(EncodeAll(encode, words)[k])
    ensures |SplitSentencePiece(encode, words)| == |EncodeAll(encode, words)|
    ensures forall k :: 0 <= k < |EncodeAll(encode, words)| ==>
              SplitSentencePiece(encode, words)[k] == RemoveChar(EncodeAll(encode, words)[k], WordStartMarker)
  {
    FilterKeepsAll(HasText, EncodeAll(encode, words));
  }

  /** The encoder is applied word by word and its piece order is kept: the
      result for a concatenation of word lists is the concatenation of results. */
  lemma SplitSentencePieceAppend(encode: string -> seq<string>, a: seq<string>, b: seq<string>)
    ensures SplitSentencePiece(encode, a + b) == SplitSentencePiece(encode, a) + SplitSentencePiece(encode, b)
  {
    EncodeAllAppend(encode, a, b);
    StripMarkersAppend(EncodeAll(encode, a), EncodeAll(encode, b));
    FilterAppend(NonEmpty, StripMarkers(EncodeAll(encode, a)), StripMarkers(EncodeAll(encode, b)));
  }

  /** The literal `replace` is given in binja/utils/utils.py:152: the marker's
      UTF-8 bytes read back as three Mac Roman characters. */
  const MisencodedMarker: string := "\U{201A}\U{00F1}\U{00C5}"

  /** split_sentence_piece as written: the three-character literal, not the
      marker, is deleted from every piece. */
  function SplitSentencePieceAsWritten(encode: string -> seq<string>, words: seq<string>): (r: seq<string>)
    ensures forall k :: 0 <= k < |r| ==> |r[k]| > 0
    ensures (forall k :: 0 <= k < |EncodeAll(encode, words)| ==> MisencodedMarker[0] !in EncodeAll(encode, words)[k])
              ==> r == Filter(NonEmpty, EncodeAll(encode, words))
  {
    var pieces := EncodeAll(encode, words);
    var replaced := seq(|pieces|, k requires 0 <= k < |pieces| => ReplaceAll(pieces[k], MisencodedMarker, ""));
    assert (forall k :: 0 <= k < |pieces| ==> MisencodedMarker[0] !in pieces[k]) ==> replaced == pieces by {
      if forall k :: 0 <= k < |pieces| ==> MisencodedMarker[0] !in pieces[k] {
        forall k | 0 <= k < |pieces|
          ensures replaced[k] == pieces[k]
        {
          LiteralAbsent(pieces[k]);
        }
      }
    }
    Filter(NonEmpty, replaced)
  }

  /** A piece without the literal's first character is left alone. */
  lemma LiteralAbsent(piece: string)
    requires MisencodedMarker[0] !in piece
    ensures ReplaceAll(piece, MisencodedMarker, "") == piece
  {
    if Contains(piece, MisencodedMarker) {
      ContainsChars(piece, MisencodedMarker);
      assert false;
    }
    ReplaceAbsent(piece, MisencodedMarker, "");
  }

  /** With an encoder that marks `walk` as one piece, the source as written
      keeps the marker, while the intended deletion leaves the bare word. */
  lemma MarkerKeptAsWritten(encode: string -> seq<string>)
    requires encode("walk") == [[WordStartMarker] + "walk"]
    ensures SplitSentencePieceAsWritten(encode, ["walk"]) == [[WordStartMarker] + "walk"]
    ensures SplitSentencePiece(encode, ["walk"]) == ["walk"]
  {
    var piece := [WordStartMarker] + "walk";
    assert ["walk"][1..] == [];
    assert EncodeAll(encode, ["walk"]) == [piece];
    assert MisencodedMarker[0] !in piece;
    FilterSingle(NonEmpty, piece);
    MarkerDeleted("walk");
    assert StripMarkers([piece]) == ["walk"];
    FilterSingle(NonEmpty, "walk");
  }

  /** Deleting the marker from a marked word gives the word back. */
  lemma MarkerDeleted(w: string)
    requires WordStartMarker !in w
    ensures StripMarker([WordStartMarker] + w) == w
  {
    FilterAppend(Without(WordStartMarker), [WordStartMarker], w);
    FilterSingle(Without(WordStartMarker), WordStartMarker);
    FilterKeepsAll(Without(WordStartMarker), w);
  }

  /** An encoder that only cuts a word into pieces and marks word starts. */
  ghost predicate FaithfulEncoder(encode: string -> seq<string>) {
    forall w :: WordStartMarker !in w ==> RemoveChar(Flatten(encode(w)), WordStartMarker) == w
  }

  lemma {:induction false} FaithfulEncodeAll(encode: string -> seq<string>, words: seq<string>)
    requires FaithfulEncoder(encode)
    requires forall k :: 0 <= k < |words| ==> WordStartMarker !in words[k]
    ensures RemoveChar(Flatten(EncodeAll(encode, words)), WordStartMarker) == Flatten(words)
    decreases |words|
  {
    if |words| > 0 {
      FaithfulEncodeAll(encode, words[1..]);
      FlattenAppend(encode(words[0]), EncodeAll(encode, words[1..]));
      FilterAppend(Without(WordStartMarker), Flatten(encode(words[0])), Flatten(EncodeAll(encode, words[1..])));
    }
  }

  // ---------------------------------------------------------------------
  // merge_suffix
  // ---------------------------------------------------------------------

  /** The suffixes merge_suffix always attaches to the previous token. */
  function Suffixes(): seq<string> {
    ["er", "or", "ed", "ied", "ing", "ling", "est", "s", "es", "ies", "ify", "ified", "ly", "ible", "able", "ize",
     "al", "tion", "ition", "ous", "ance", "ence", "ful", "ment", "hood"]
  }

  /** Ending pairs: the previous token's ending and the last token's ending. */
  function ConditionalSuffixes(): seq<(string, string)> {
    [("t", "ion"), ("e", "d"), ("e", "r")]
  }

  /** merge_suffix returns a list, except in its dictionary branch, where it
      returns the joined word as a bare string. */
  datatype Merged = Pieces(tokens: seq<string>) | Bare(word: string)

  predicate SuffixRule(tokens: seq<string>) {
    |tokens| >= 2 && tokens[|tokens| - 1] in Suffixes()
  }

  predicate PairRule(tokens: seq<string>) {
    && |tokens| >= 2
    && exists k :: 0 <= k < |ConditionalSuffixes()|
         && EndsWith(tokens[|tokens| - 2], ConditionalSuffixes()[k].0)
         && EndsWith(tokens[|tokens| - 1], ConditionalSuffixes()[k].1)
  }

  predicate VocabRule(tokens: seq<string>, vocab: set<string>) {
    && |tokens| >= 2
    && tokens[|tokens| - 2] in vocab
    && tokens[|tokens| - 1] !in vocab
    && tokens[|tokens| - 2] + tokens[|tokens| - 1] in vocab
  }

  /** `after` is `before` with its last two tokens joined into one. */
  predicate MergedLastTwo(before: seq<string>, after: seq<string>) {
    && |before| >= 2
    && |after| == |before| - 1
    && after[..|after| - 1] == before[..|before| - 2]
    && after[|after| - 1] == before[|before| - 2] + before[|before| - 1]
  }

  /** merge_suffix: one merge at most, with the suffix list tried first, then
      the ending pairs, then the dictionary. */
  function MergeSuffix(tokens: seq<string>, vocab: set<string>): (r: Merged)
    ensures SuffixRule(tokens) || PairRule(tokens) ==> r.Pieces? && MergedLastTwo(tokens, r.tokens)
    ensures !SuffixRule(tokens) && !PairRule(tokens) && VocabRule(tokens, vocab) ==>
              r == Bare(tokens[|tokens| - 2] + tokens[|tokens| - 1])
    ensures !SuffixRule(tokens) && !PairRule(tokens) && !VocabRule(tokens, vocab) ==> r == Pieces(tokens)
  {
    if |tokens| < 2 then Pieces(tokens)
    else
      var n := |tokens|;
      var joined := tokens[..n - 2] + [tokens[n - 2] + tokens[n - 1]];
      if tokens[n - 1] in Suffixes() then Pieces(joined)
      else if PairRule(tokens) then Pieces(joined)
      else if tokens[n - 2] in vocab && tokens[n - 1] !in vocab && tokens[n - 2] + tokens[n - 1] in vocab then
        Bare(tokens[n - 2] + tokens[n - 1])
      else Pieces(tokens)
  }

  /** A list merge keeps every character and every word shape; the bare word of
      the dictionary branch keeps only the last two tokens. */
  lemma MergeSuffixContent(tokens: seq<string>, vocab: set<string>)
    ensures MergeSuffix(tokens, vocab).Pieces? ==> Flatten(MergeSuffix(tokens, vocab).tokens) == Flatten(tokens)
    ensures MergeSuffix(tokens, vocab).Pieces? && (forall k :: 0 <= k < |tokens| ==> IsLowerWord(tokens[k])) ==>
              forall k :: 0 <= k < |MergeSuffix(tokens, vocab).tokens| ==> IsLowerWord(MergeSuffix(tokens, vocab).tokens[k])
    ensures MergeSuffix(tokens, vocab).Bare? ==>
              |tokens| >= 2 && EndsWith(Flatten(tokens), MergeSuffix(tokens, vocab).word)
  {
    var r := MergeSuffix(tokens, vocab);
    if |tokens| >= 2 {
      FlattenLastTwo(tokens);
    }
    if r.Pieces? && r.tokens != tokens {
      MergedLastTwoKeeps(tokens, r.tokens);
    }
  }

  /** Joining the last two tokens keeps the text and keeps every token a word. */
  lemma MergedLastTwoKeeps(before: seq<string>, after: seq<string>)
    requires MergedLastTwo(before, after)
    ensures Flatten(after) == Flatten(before)
    ensures (forall k :: 0 <= k < |before| ==> IsLowerWord(before[k])) ==>
              forall k :: 0 <= k < |after| ==> IsLowerWord(after[k])
  {
    FlattenLast(after);
    FlattenLastTwo(before);
    if forall k :: 0 <= k < |before| ==> IsLowerWord(before[k]) {
      MergedLastTwoWords(before, after);
    }
  }

  lemma MergedLastTwoWords(before: seq<string>, after: seq<string>)
    requires MergedLastTwo(before, after)
    requires forall k :: 0 <= k < |before| ==> IsLowerWord(before[k])
    ensures forall k :: 0 <= k < |after| ==> IsLowerWord(after[k])
  {
    var m := |after|;
    LowerWordConcat(before[m - 1], before[m]);
    forall k | 0 <= k < m - 1
      ensures IsLowerWord(after[k])
    {
      assert after[k] == after[..m - 1][k] == before[..m - 1][k];
    }
  }

  /** Only one merge pass runs, so a merged list may itself be mergeable:
      here the ending pair (e, r) is merged ... */
  lemma MergeSuffixPairExample(t: seq<string>)
    requires t == ["walk", "e", "r"]
    ensures MergeSuffix(t, {}) == Pieces(["walk", "er"])
  {
    RNotSuffix(t[2]);
    EndsWithSelf(t[1]);
    EndsWithSelf(t[2]);
    PairRuleAt(t, 2);
    PairMerges(t, {});
    JoinedEr(t[1], t[2]);
    assert t[..1] == ["walk"];
  }

  lemma EndsWithSelf(w: string)
    ensures EndsWith(w, w)
  {
    assert w[|w| - |w|..] == w;
  }

  /** The ending pair at position `k` of the list matches the last two tokens. */
  lemma PairRuleAt(t: seq<string>, k: nat)
    requires |t| >= 2 && k < |ConditionalSuffixes()|
    requires EndsWith(t[|t| - 2], ConditionalSuffixes()[k].0) && EndsWith(t[|t| - 1], ConditionalSuffixes()[k].1)
    ensures PairRule(t)
  {
  }

  /** When the last token is not a listed suffix but the ending pair matches,
      the last two tokens are joined. */
  lemma PairMerges(t: seq<string>, vocab: set<string>)
    requires |t| >= 2 && t[|t| - 1] !in Suffixes() && PairRule(t)
    ensures MergeSuffix(t, vocab) == Pieces(t[..|t| - 2] + [t[|t| - 2] + t[|t| - 1]])
  {
  }

  /** `r` alone is not a listed suffix. */
  lemma RNotSuffix(w: string)
    requires w == "r"
    ensures w !in Suffixes()
  {
    assert forall k :: 0 <= k < |Suffixes()| ==> Suffixes()[k] != w;
  }

  lemma JoinedEr(a: string, b: string)
    requires a == "e" && b == "r"
    ensures a + b == "er"
  {
  }

  /** ... and the result of that merge ends in a listed suffix. */
  lemma MergeSuffixSuffixExample(u: seq<string>)
    requires u == ["walk", "er"]
    ensures MergeSuffix(u, {}) == Pieces(["walker"])
  {
    assert SuffixRule(u) by {
      assert u[1] == Suffixes()[0];
    }
    var r := MergeSuffix(u, {}).tokens;
    assert r[0] == "walker" by {
      assert |r[0]| == 6;
      assert forall i :: 0 <= i < 6 ==> r[0][i] == "walker"[i];
    }
  }

  /** What `" ".join(...)` iterates over: the tokens of a list, or the single
      characters of a bare string. */
  function Spelled(m: Merged): (r: seq<string>)
    ensures Flatten(r) == if m.Pieces? then Flatten(m.tokens) else m.word
  {
    match m
    case Pieces(tokens) => tokens
    case Bare(word) => Letterwise(word)
  }

  function Letterwise(w: string): (r: seq<string>)
    ensures |r| == |w|
    ensures forall i :: 0 <= i < |w| ==> r[i] == [w[i]]
    ensures Flatten(r) == w
    decreases |w|
  {
    if |w| == 0 then [] else [[w[0]]] + Letterwise(w[1..])
  }

  // ---------------------------------------------------------------------
  // my_split_func_name, the composition every caller uses
  // ---------------------------------------------------------------------

  function MySplitFuncName(encode: string -> seq<string>, vocab: set<string>, name: string): (r: Merged)
    ensures r.Pieces? ==>
              Flatten(r.tokens) == RemoveChar(Flatten(EncodeAll(encode, SplitFuncName(name))), WordStartMarker)
    ensures r.Bare? ==>
              EndsWith(RemoveChar(Flatten(EncodeAll(encode, SplitFuncName(name))), WordStartMarker), r.word)
  {
    var pieces := SplitSentencePiece(encode, SplitFuncName(name));
    MergeSuffixContent(pieces, vocab);
    MergeSuffix(pieces, vocab)
  }

  /** The name splitter the lexer and the corpus builder call: the sequence
      that `" ".join` walks over. */
  function NameSplitter(encode: string -> seq<string>, vocab: set<string>): (r: string -> seq<string>)
    ensures forall name :: EndsWith(RemoveChar(Flatten(EncodeAll(encode, SplitFuncName(name))), WordStartMarker),
                                    Flatten(r(name)))
  {
    var r := name => Spelled(MySplitFuncName(encode, vocab, name));
    assert forall name :: EndsWith(RemoveChar(Flatten(EncodeAll(encode, SplitFuncName(name))), WordStartMarker),
                                   Flatten(r(name))) by {
      forall name
        ensures EndsWith(RemoveChar(Flatten(EncodeAll(encode, SplitFuncName(name))), WordStartMarker),
                         Flatten(r(name)))
      {
        SpelledTail(encode, vocab, name);
      }
    }
    r
  }

  /** What `" ".join` walks over spells a tail of the marker-free encoding. */
  lemma SpelledTail(encode: string -> seq<string>, vocab: set<string>, name: string)
    ensures EndsWith(RemoveChar(Flatten(EncodeAll(encode, SplitFuncName(name))), WordStartMarker),
                     Flatten(Spelled(MySplitFuncName(encode, vocab, name))))
  {
    var t := RemoveChar(Flatten(EncodeAll(encode, SplitFuncName(name))), WordStartMarker);
    assert t[|t| - |t|..] == t;
  }

  /** How a spelling relates to the name's lower-cased letters, given what
      the suffix merge returned: all of them for a list, a tail of them for
      one bare word. */
  predicate SpellsLetters(m: Merged, name: string, spelled: string) {
    (m.Pieces? ==> spelled == LowerStr(Letters(name)))
    && (m.Bare? ==> EndsWith(LowerStr(Letters(name)), spelled))
  }

  /** With an encoder that only cuts words, the splitter spells the name's
      letters in lower case when the merge keeps a list, and a tail of them
      when it collapses to one word. */
  lemma NameSplitterSpells(encode: string -> seq<string>, vocab: set<string>, name: string)
    requires FaithfulEncoder(encode)
    ensures SpellsLetters(MySplitFuncName(encode, vocab, name), name, Flatten(NameSplitter(encode, vocab)(name)))
  {
    SpelledSkeleton(encode, vocab, name);
    NameSplitterApplied(encode, vocab, name);
  }

  lemma NameSplitterApplied(encode: string -> seq<string>, vocab: set<string>, name: string)
    ensures NameSplitter(encode, vocab)(name) == Spelled(MySplitFuncName(encode, vocab, name))
  {
  }

  lemma SpelledSkeleton(encode: string -> seq<string>, vocab: set<string>, name: string)
    requires FaithfulEncoder(encode)
    ensures SpellsLetters(MySplitFuncName(encode, vocab, name), name, Flatten(Spelled(MySplitFuncName(encode, vocab, name))))
  {
    MySplitFuncNameSkeleton(encode, vocab, name);
  }

  /** `Spelled` carries what is known of a merge result over to the sequence
      that is joined. */
  lemma SpelledSpells(m: Merged, text: string)
    requires m.Pieces? ==> Flatten(m.tokens) == text
    requires m.Bare? ==> EndsWith(text, m.word)
    ensures m.Pieces? ==> Flatten(Spelled(m)) == text
    ensures m.Bare? ==> EndsWith(text, Flatten(Spelled(m)))
  {
  }

  /** With an encoder that only cuts words, a list result spells the name's
      letters lower-cased; a bare word is only a suffix of them. */
  lemma MySplitFuncNameSkeleton(encode: string -> seq<string>, vocab: set<string>, name: string)
    requires FaithfulEncoder(encode)
    ensures MySplitFuncName(encode, vocab, name).Pieces? ==>
              Flatten(MySplitFuncName(encode, vocab, name).tokens) == LowerStr(Letters(name))
    ensures MySplitFuncName(encode, vocab, name).Bare? ==>
              EndsWith(LowerStr(Letters(name)), MySplitFuncName(encode, vocab, name).word)
  {
    var words := SplitFuncName(name);
    assert forall k :: 0 <= k < |words| ==> WordStartMarker !in words[k] by {
      forall k | 0 <= k < |words|
        ensures WordStartMarker !in words[k]
      {
        assert IsLowerWord(words[k]);
      }
    }
    FaithfulEncodeAll(encode, words);
    MergeSuffixContent(SplitSentencePiece(encode, words), vocab);
  }
}
