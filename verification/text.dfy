/** The Python `str` operations the pipeline relies on, over `seq<char>`.
    Letters and case are ASCII only; `strip()` uses Python's full whitespace set. */
module Text {
  import opened Collections

  predicate IsUpper(c: char) { 'A' <= c <= 'Z' }
  predicate IsLower(c: char) { 'a' <= c <= 'z' }
  predicate IsAlpha(c: char) { IsUpper(c) || IsLower(c) }

  /** Python's `str.isspace` for one character: what `strip()` removes. */
  predicate IsSpace(c: char) {
    || ('\t' <= c <= '\r')
    || ('\U{1C}' <= c <= ' ')
    || c == '\U{85}' || c == '\U{A0}' || c == '\U{1680}'
    || ('\U{2000}' <= c <= '\U{200A}')
    || c == '\U{2028}' || c == '\U{2029}' || c == '\U{202F}' || c == '\U{205F}' || c == '\U{3000}'
  }

  predicate NotSpace(c: char) { !IsSpace(c) }

  function Lower(c: char): (r: char)
    ensures IsAlpha(c) ==> IsLower(r)
    ensures !IsUpper(c) ==> r == c
  {
    if IsUpper(c) then (c as int + 32) as char else c
  }

  /** `str.lower()`. */
  function LowerStr(s: string): (r: string)
    ensures |r| == |s|
    ensures forall i :: 0 <= i < |s| ==> r[i] == Lower(s[i])
  {
    seq(|s|, i requires 0 <= i < |s| => Lower(s[i]))
  }

  lemma LowerStrAppend(a: string, b: string)
    ensures LowerStr(a + b) == LowerStr(a) + LowerStr(b)
  {
    assert forall i :: 0 <= i < |a + b| ==> LowerStr(a + b)[i] == (LowerStr(a) + LowerStr(b))[i];
  }

  /** A non-empty word of lower-case ASCII letters. */
  predicate IsLowerWord(w: string) {
    |w| > 0 && forall i :: 0 <= i < |w| ==> IsLower(w[i])
  }

  lemma LowerWordConcat(a: string, b: string)
    requires IsLowerWord(a) && IsLowerWord(b)
    ensures IsLowerWord(a + b)
  {
    assert forall i :: 0 <= i < |a + b| ==> (a + b)[i] == if i < |a| then a[i] else b[i - |a|];
  }

  /** The letters of `s`, in order: its alphabetic skeleton. */
  function Letters(s: string): string { Filter(IsAlpha, s) }

  function Without(c: char): char -> bool { x => x != c }

  /** `s` with every occurrence of `c` deleted. */
  function RemoveChar(s: string, c: char): string { Filter(Without(c), s) }

  /** `s.startswith(p)` */
  predicate StartsWith(s: string, p: string) { |p| <= |s| && s[..|p|] == p }

  /** `s.endswith(p)` */
  predicate EndsWith(s: string, p: string) { |p| <= |s| && s[|s| - |p|..] == p }

  /** `p in s` for strings; the empty string occurs in every string. */
  predicate Contains(s: string, p: string)
    decreases |s|
  {
    StartsWith(s, p) || (|s| > 0 && Contains(s[1..], p))
  }

  lemma {:induction false} ContainsChar(s: string, c: char)
    ensures c in s <==> Contains(s, [c])
    decreases |s|
  {
    if |s| > 0 {
      ContainsChar(s[1..], c);
      assert c in s <==> s[0] == c || c in s[1..];
    }
  }

  lemma {:induction false} ContainsInSuffix(s: string, k: nat, p: string)
    requires k <= |s|
    requires Contains(s[k..], p)
    ensures Contains(s, p)
    decreases k
  {
    if k > 0 {
      assert s[1..][k - 1..] == s[k..];
      ContainsInSuffix(s[1..], k - 1, p);
    } else {
      assert s[k..] == s;
    }
  }

  lemma {:induction false} ContainsInPrefix(s: string, k: nat, p: string)
    requires k <= |s|
    requires Contains(s[..k], p)
    ensures Contains(s, p)
    decreases |s|
  {
    if StartsWith(s[..k], p) {
      assert s[..k][..|p|] == s[..|p|];
    } else {
      assert s[..k][1..] == s[1..][..k - 1];
      ContainsInPrefix(s[1..], k - 1, p);
    }
  }

  /** Python's `s.replace(pat, rep)`: occurrences are replaced left to right
      without overlap; an empty `pat` inserts `rep` around every character. */
  function ReplaceAll(s: string, pat: string, rep: string): string
    decreases |s|
  {
    if |pat| == 0 then Interleave(s, rep)
    else if |s| == 0 then ""
    else if StartsWith(s, pat) then rep + ReplaceAll(s[|pat|..], pat, rep)
    else [s[0]] + ReplaceAll(s[1..], pat, rep)
  }

  function Interleave(s: string, sep: string): string
    decreases |s|
  {
    if |s| == 0 then sep else sep + [s[0]] + Interleave(s[1..], sep)
  }

  /** Replacing a pattern that does not occur leaves the text unchanged. */
  lemma {:induction false} ReplaceAbsent(s: string, pat: string, rep: string)
    requires !Contains(s, pat)
    ensures ReplaceAll(s, pat, rep) == s
    decreases |s|
  {
    if |s| > 0 {
      ReplaceAbsent(s[1..], pat, rep);
      assert s == [s[0]] + s[1..];
    }
  }

  /** Replacing a non-empty pattern by something shorter never lengthens
      the text, and shortens it when the pattern occurs. */
  lemma {:induction false} ReplaceShrinks(s: string, pat: string, rep: string)
    requires |pat| > 0 && |rep| < |pat|
    ensures |ReplaceAll(s, pat, rep)| <= |s|
    ensures Contains(s, pat) ==> |ReplaceAll(s, pat, rep)| < |s|
    decreases |s|
  {
    if |s| > 0 {
      if StartsWith(s, pat) {
        ReplaceShrinks(s[|pat|..], pat, rep);
      } else {
        ReplaceShrinks(s[1..], pat, rep);
      }
    }
  }

  /** A leading occurrence is replaced, and a remainder too short to hold
      the pattern is kept. */
  lemma ReplaceLeading(pat: string, tail: string, rep: string)
    requires |pat| > 0 && |tail| < |pat|
    ensures ReplaceAll(pat + tail, pat, rep) == rep + tail
  {
    var s := pat + tail;
    assert s[..|pat|] == pat && s[|pat|..] == tail;
    if Contains(tail, pat) {
      ContainsShorter(tail, pat);
    }
    ReplaceAbsent(tail, pat, rep);
  }

  /** A prefix free of the pattern's first character is copied through
      unchanged. */
  lemma {:induction false} ReplaceAfterFree(x: string, rest: string, pat: string, rep: string)
    requires |pat| > 0 && pat[0] !in x
    ensures ReplaceAll(x + rest, pat, rep) == x + ReplaceAll(rest, pat, rep)
    decreases |x|
  {
    if |x| > 0 {
      var s := x + rest;
      var t := x[1..];
      calc {
        ReplaceAll(s, pat, rep);
      == { ReplaceSkipsChar(s, pat, rep); }
        [s[0]] + ReplaceAll(s[1..], pat, rep);
      == { assert s[1..] == t + rest; ReplaceAfterFree(t, rest, pat, rep); }
        [x[0]] + (t + ReplaceAll(rest, pat, rep));
      == { assert x == [x[0]] + t; }
        x + ReplaceAll(rest, pat, rep);
      }
    } else {
      assert x + rest == rest;
    }
  }

  lemma ReplaceSkipsChar(s: string, pat: string, rep: string)
    requires |pat| > 0 && |s| > 0 && s[0] != pat[0]
    ensures ReplaceAll(s, pat, rep) == [s[0]] + ReplaceAll(s[1..], pat, rep)
  {
    assert !StartsWith(s, pat) by {
      if |pat| <= |s| { assert s[..|pat|][0] == s[0]; }
    }
  }

  /** A text without the pattern's first character does not contain it. */
  lemma AbsentFirstChar(s: string, p: string)
    requires |p| > 0 && p[0] !in s
    ensures !Contains(s, p)
  {
    if Contains(s, p) {
      ContainsChars(s, p);
    }
  }

  /** The only occurrence of a pattern, between two texts without its first
      character, is deleted and nothing else changes. */
  lemma ReplaceOnce(x: string, pat: string, y: string)
    requires |pat| > 0 && pat[0] !in x && pat[0] !in y
    ensures ReplaceAll(x + pat + y, pat, "") == x + y
  {
    calc {
      ReplaceAll(x + pat + y, pat, "");
    == { assert x + pat + y == x + (pat + y); }
      ReplaceAll(x + (pat + y), pat, "");
    == { ReplaceAfterFree(x, pat + y, pat, ""); }
      x + ReplaceAll(pat + y, pat, "");
    == { ReplaceFront(pat, y); }
      x + y;
    }
  }

  lemma ReplaceFront(pat: string, y: string)
    requires |pat| > 0 && pat[0] !in y
    ensures ReplaceAll(pat + y, pat, "") == y
  {
    var s := pat + y;
    assert s[..|pat|] == pat && s[|pat|..] == y;
    AbsentFirstChar(y, pat);
    ReplaceAbsent(y, pat, "");
  }

  /** A text never contains a longer one. */
  lemma {:induction false} ContainsShorter(s: string, p: string)
    requires Contains(s, p)
    ensures |p| <= |s|
    decreases |s|
  {
    if !StartsWith(s, p) {
      ContainsShorter(s[1..], p);
    }
  }

  /** Every character of `r` occurs in `s`. */
  predicate CharsFrom(r: string, s: string) {
    forall k :: 0 <= k < |r| ==> r[k] in s
  }

  lemma CharsFromTrans(r: string, t: string, s: string)
    requires CharsFrom(r, t) && CharsFrom(t, s)
    ensures CharsFrom(r, s)
  {
    forall k | 0 <= k < |r|
      ensures r[k] in s
    {
      var j :| 0 <= j < |t| && t[j] == r[k];
    }
  }

  /** An occurrence is made of characters of the text. */
  lemma {:induction false} ContainsChars(s: string, p: string)
    requires Contains(s, p)
    ensures CharsFrom(p, s)
    decreases |s|
  {
    if StartsWith(s, p) {
      assert forall k :: 0 <= k < |p| ==> p[k] == s[k];
    } else {
      ContainsChars(s[1..], p);
      assert forall k :: 0 <= k < |s| - 1 ==> s[1..][k] == s[k + 1];
    }
  }

  /** Deleting every occurrence of a pattern leaves only characters of the text. */
  lemma {:induction false} DeleteKeepsChars(s: string, pat: string)
    requires |pat| > 0
    ensures CharsFrom(ReplaceAll(s, pat, ""), s)
    decreases |s|
  {
    if |s| > 0 {
      if StartsWith(s, pat) {
        var rest := s[|pat|..];
        DeleteKeepsChars(rest, pat);
        assert forall k :: 0 <= k < |rest| ==> rest[k] == s[|pat| + k];
        CharsFromTrans(ReplaceAll(rest, pat, ""), rest, s);
      } else {
        var rest := s[1..];
        DeleteKeepsChars(rest, pat);
        assert forall k :: 0 <= k < |rest| ==> rest[k] == s[k + 1];
        CharsFromTrans(ReplaceAll(rest, pat, ""), rest, s);
        assert ReplaceAll(s, pat, "") == [s[0]] + ReplaceAll(rest, pat, "");
      }
    }
  }

  /** Deleting a single character is `RemoveChar`. */
  lemma {:induction false} ReplaceCharIsRemove(s: string, c: char)
    ensures ReplaceAll(s, [c], "") == RemoveChar(s, c)
    decreases |s|
  {
    if |s| > 0 {
      ReplaceCharIsRemove(s[1..], c);
    }
  }

  /** After replacing a character by a text that lacks it, the character is gone,
      and every remaining character comes from the input or from the replacement. */
  lemma {:induction false} ReplaceCharChars(s: string, c: char, rep: string)
    ensures forall i :: 0 <= i < |ReplaceAll(s, [c], rep)| ==>
              ReplaceAll(s, [c], rep)[i] in s || ReplaceAll(s, [c], rep)[i] in rep
    ensures c !in rep ==> c !in ReplaceAll(s, [c], rep)
    decreases |s|
  {
    if |s| > 0 {
      ReplaceCharChars(s[1..], c, rep);
      var tail := ReplaceAll(s[1..], [c], rep);
      if StartsWith(s, [c]) {
        assert ReplaceAll(s, [c], rep) == rep + tail;
      } else {
        assert ReplaceAll(s, [c], rep) == [s[0]] + tail;
      }
    }
  }

  /** Replacing a character by a text that looks the same through `p` is
      invisible through `p`. */
  lemma {:induction false} ReplaceCharFilter(s: string, c: char, rep: string, p: char -> bool)
    requires Filter(p, rep) == Filter(p, [c])
    ensures Filter(p, ReplaceAll(s, [c], rep)) == Filter(p, s)
    decreases |s|
  {
    if |s| > 0 {
      ReplaceCharFilter(s[1..], c, rep, p);
      assert s == [s[0]] + s[1..];
      FilterAppend(p, [s[0]], s[1..]);
      if StartsWith(s, [c]) {
        assert [s[0]] == [c];
        FilterAppend(p, rep, ReplaceAll(s[1..], [c], rep));
      } else {
        FilterAppend(p, [s[0]], ReplaceAll(s[1..], [c], rep));
      }
    }
  }

  /** Replacing a character by either of two texts that look the same through
      `p` gives results that look the same through `p`. */
  lemma {:induction false} ReplaceCharSameFilter(s: string, c: char, rep: string, rep2: string, p: char -> bool)
    requires Filter(p, rep) == Filter(p, rep2)
    ensures Filter(p, ReplaceAll(s, [c], rep)) == Filter(p, ReplaceAll(s, [c], rep2))
    decreases |s|
  {
    if |s| > 0 {
      ReplaceCharSameFilter(s[1..], c, rep, rep2, p);
      if StartsWith(s, [c]) {
        FilterAppend(p, rep, ReplaceAll(s[1..], [c], rep));
        FilterAppend(p, rep2, ReplaceAll(s[1..], [c], rep2));
      } else {
        FilterAppend(p, [s[0]], ReplaceAll(s[1..], [c], rep));
        FilterAppend(p, [s[0]], ReplaceAll(s[1..], [c], rep2));
      }
    }
  }

  /** `s.split(sep)` for a non-empty separator. */
  function Split(s: string, sep: string): (r: seq<string>)
    requires |sep| > 0
    ensures |r| >= 1
    ensures |r[0]| <= |s| && s[..|r[0]|] == r[0]
    decreases |s|
  {
    if |s| == 0 then [""]
    else if StartsWith(s, sep) then [""] + Split(s[|sep|..], sep)
    else
      var rest := Split(s[1..], sep);
      [[s[0]] + rest[0]] + rest[1..]
  }

  /** `sep.join(xs)` */
  function Join(sep: string, xs: seq<string>): string
    decreases |xs|
  {
    if |xs| == 0 then "" else if |xs| == 1 then xs[0] else xs[0] + sep + Join(sep, xs[1..])
  }

  /** Splitting and joining with the same separator gives the text back. */
  lemma {:induction false} SplitJoin(s: string, sep: string)
    requires |sep| > 0
    ensures Join(sep, Split(s, sep)) == s
    decreases |s|
  {
    if |s| > 0 {
      if StartsWith(s, sep) {
        var rest := Split(s[|sep|..], sep);
        SplitJoin(s[|sep|..], sep);
        JoinCons(sep, "", rest);
        assert s == sep + s[|sep|..];
      } else {
        var rest := Split(s[1..], sep);
        SplitJoin(s[1..], sep);
        JoinPrependFirst(sep, [s[0]], rest);
        assert s == [s[0]] + s[1..];
      }
    }
  }

  /** A text without the separator's first character splits into itself. */
  lemma {:induction false} SplitUnbroken(y: string, sep: string)
    requires |sep| > 0 && sep[0] !in y
    ensures Split(y, sep) == [y]
    decreases |y|
  {
    if |y| > 0 {
      SplitUnbroken(y[1..], sep);
      assert [y[0]] + y[1..] == y;
    }
  }

  /** A first piece free of the separator's first character is split off
      at the separator that follows it. */
  lemma {:induction false} SplitAfter(x: string, sep: string, rest: string)
    requires |sep| > 0 && sep[0] !in x
    ensures Split(x + sep + rest, sep) == [x] + Split(rest, sep)
    decreases |x|
  {
    var s := x + sep + rest;
    if |x| == 0 {
      assert s == sep + rest && s[..|sep|] == sep && s[|sep|..] == rest;
    } else {
      assert s[1..] == x[1..] + sep + rest;
      SplitAfter(x[1..], sep, rest);
      assert s[..|sep|][0] == x[0];
      assert [s[0]] + x[1..] == x;
    }
  }

  /** Joining pieces free of the separator's first character and splitting
      again gives the pieces back. */
  lemma {:induction false} JoinSplit(sep: string, xs: seq<string>)
    requires |sep| > 0 && |xs| >= 1
    requires forall k :: 0 <= k < |xs| ==> sep[0] !in xs[k]
    ensures Split(Join(sep, xs), sep) == xs
    decreases |xs|
  {
    if |xs| == 1 {
      SplitUnbroken(xs[0], sep);
    } else {
      JoinSplit(sep, xs[1..]);
      SplitAfter(xs[0], sep, Join(sep, xs[1..]));
    }
  }

  lemma JoinCons(sep: string, x: string, xs: seq<string>)
    requires |xs| >= 1
    ensures Join(sep, [x] + xs) == x + sep + Join(sep, xs)
  {
    assert ([x] + xs)[1..] == xs;
  }

  /** Prepending to the first piece prepends to the joined text. */
  lemma JoinPrependFirst(sep: string, a: string, xs: seq<string>)
    requires |xs| >= 1
    ensures Join(sep, [a + xs[0]] + xs[1..]) == a + Join(sep, xs)
  {
    if |xs| > 1 {
      JoinCons(sep, a + xs[0], xs[1..]);
    }
  }

  /** No piece of a split contains the separator. */
  lemma {:induction false} SplitPiecesAvoidSep(s: string, sep: string)
    requires |sep| > 0
    ensures forall k :: 0 <= k < |Split(s, sep)| ==> !Contains(Split(s, sep)[k], sep)
    decreases |s|
  {
    if |s| > 0 {
      if StartsWith(s, sep) {
        SplitPiecesAvoidSep(s[|sep|..], sep);
      } else {
        var rest := Split(s[1..], sep);
        SplitPiecesAvoidSep(s[1..], sep);
        var first := [s[0]] + rest[0];
        assert first == s[..|first|];
        assert first[1..] == rest[0];
        assert !Contains(first, sep);
        assert Split(s, sep) == [first] + rest[1..];
      }
    }
  }

  /** The first piece runs up to the first separator: it is the whole text
      when there is no separator, and is followed by one otherwise. */
  lemma {:induction false} SplitFirstStop(s: string, sep: string)
    requires |sep| > 0
    ensures |Split(s, sep)| == 1 ==> Split(s, sep)[0] == s
    ensures |Split(s, sep)| > 1 ==> StartsWith(s[|Split(s, sep)[0]|..], sep)
    decreases |s|
  {
    if |s| > 0 && !StartsWith(s, sep) {
      var rest := Split(s[1..], sep);
      SplitFirstStop(s[1..], sep);
      assert s[1..][|rest[0]|..] == s[1 + |rest[0]|..];
      assert [s[0]] + s[1..] == s;
    }
  }

  /** `pieces` ends with a tail of `s`: the whole of `s` when it is the only
      piece, and preceded in `s` by the separator otherwise. */
  predicate LastPieceIsTail(s: string, sep: string, pieces: seq<string>)
    requires |pieces| >= 1
  {
    var last := pieces[|pieces| - 1];
    EndsWith(s, last) &&
    (|pieces| == 1 ==> last == s) &&
    (|pieces| > 1 ==> |last| + |sep| <= |s| && EndsWith(s[..|s| - |last|], sep))
  }

  /** The last piece of a split is a tail of the text: the whole text when
      there is no separator, and preceded by one otherwise. */
  lemma {:induction false} SplitLastStart(s: string, sep: string)
    requires |sep| > 0
    ensures LastPieceIsTail(s, sep, Split(s, sep))
    decreases |s|
  {
    if |s| > 0 {
      if StartsWith(s, sep) {
        var t := s[|sep|..];
        SplitLastStart(t, sep);
        LastPieceAfterSep(s, sep, t, Split(t, sep));
      } else {
        var t := s[1..];
        SplitLastStart(t, sep);
        LastPieceGrows(s, t, Split(t, sep), sep);
      }
    }
  }

  /** A leading separator adds an empty first piece in front of the rest. */
  lemma LastPieceAfterSep(s: string, sep: string, t: string, rest: seq<string>)
    requires |rest| >= 1 && LastPieceIsTail(t, sep, rest)
    requires |s| >= |sep| && s[..|sep|] == sep && t == s[|sep|..]
    ensures LastPieceIsTail(s, sep, [""] + rest)
  {
    assert s == sep + t;
    var last := rest[|rest| - 1];
    assert ([""] + rest)[|rest|] == last;
    TailOfPrepended(sep, t, last);
    if |rest| == 1 {
      assert t[..|t| - |last|] == "";
      assert sep + "" == sep;
      assert EndsWith(sep, sep);
    } else {
      EndsWithPrepended(sep, t[..|t| - |last|], sep);
    }
  }

  /** Growing the first piece by one character at the front keeps the last
      piece a separator-preceded tail. */
  lemma LastPieceGrows(s: string, t: string, rest: seq<string>, sep: string)
    requires |rest| >= 1 && LastPieceIsTail(t, sep, rest)
    requires |s| > 0 && t == s[1..]
    ensures LastPieceIsTail(s, sep, [[s[0]] + rest[0]] + rest[1..])
  {
    var c := s[0];
    assert s == [c] + t;
    var last := rest[|rest| - 1];
    if |rest| > 1 {
      TailOfPrepended([c], t, last);
      EndsWithPrepended([c], t[..|t| - |last|], sep);
    }
  }

  lemma EndsWithChar(u: string, c: char)
    requires EndsWith(u, [c])
    ensures |u| > 0 && u[|u| - 1] == c
  {
    assert u[|u| - 1..][0] == u[|u| - 1];
  }

  /** A tail of `t` is a tail of `a + t`, and what precedes it grows by `a`. */
  lemma TailOfPrepended(a: string, t: string, last: string)
    requires EndsWith(t, last)
    ensures EndsWith(a + t, last)
    ensures (a + t)[..|a + t| - |last|] == a + t[..|t| - |last|]
  {
    assert (a + t)[|a + t| - |last|..] == t[|t| - |last|..];
  }

  lemma EndsWithPrepended(a: string, u: string, p: string)
    requires EndsWith(u, p)
    ensures EndsWith(a + u, p)
  {
    assert (a + u)[|a + u| - |p|..] == u[|u| - |p|..];
  }

  /** Every split piece occurs in the original text. */
  lemma {:induction false} SplitPiecesContained(s: string, sep: string)
    requires |sep| > 0
    ensures forall k :: 0 <= k < |Split(s, sep)| ==> Contains(s, Split(s, sep)[k])
    decreases |s|
  {
    assert s[..0] == [];
    if |s| > 0 {
      if StartsWith(s, sep) {
        SplitPiecesContained(s[|sep|..], sep);
        forall k | 1 <= k < |Split(s, sep)|
          ensures Contains(s, Split(s, sep)[k])
        {
          ContainsInSuffix(s, |sep|, Split(s[|sep|..], sep)[k - 1]);
        }
      } else {
        var rest := Split(s[1..], sep);
        SplitPiecesContained(s[1..], sep);
        var first := [s[0]] + rest[0];
        assert first == s[..|first|];
        assert Split(s, sep) == [first] + rest[1..];
        forall k | 1 <= k < |Split(s, sep)|
          ensures Contains(s, Split(s, sep)[k])
        {
          ContainsInSuffix(s, 1, rest[k]);
        }
      }
    }
  }

  /** A text the original does not contain is in none of the split pieces. */
  lemma {:induction false} SplitPiecesInherit(s: string, sep: string, p: string)
    requires |sep| > 0 && !Contains(s, p)
    ensures forall k :: 0 <= k < |Split(s, sep)| ==> !Contains(Split(s, sep)[k], p)
    decreases |s|
  {
    assert s[..0] == [];
    if |s| > 0 {
      if StartsWith(s, sep) {
        if Contains(s[|sep|..], p) {
          ContainsInSuffix(s, |sep|, p);
        }
        SplitPiecesInherit(s[|sep|..], sep, p);
        assert !Contains("", p);
      } else {
        var rest := Split(s[1..], sep);
        SplitPiecesInherit(s[1..], sep, p);
        var first := [s[0]] + rest[0];
        assert first == s[..|first|];
        if Contains(first, p) {
          ContainsInPrefix(s, |first|, p);
        }
        assert Split(s, sep) == [first] + rest[1..];
      }
    }
  }

  /** Splitting on one character: the pieces are the runs between its
      occurrences, so together they hold exactly the other characters. */
  lemma {:induction false} SplitChar(s: string, c: char)
    ensures Flatten(Split(s, [c])) == RemoveChar(s, c)
    ensures forall k, i :: 0 <= k < |Split(s, [c])| && 0 <= i < |Split(s, [c])[k]| ==>
              Split(s, [c])[k][i] in s && Split(s, [c])[k][i] != c
    decreases |s|
  {
    if |s| > 0 {
      var rest := Split(s[1..], [c]);
      SplitChar(s[1..], c);
      assert s == [s[0]] + s[1..];
      FilterAppend(Without(c), [s[0]], s[1..]);
      FilterSingle(Without(c), s[0]);
      if s[0] == c {
        assert StartsWith(s, [c]);
        assert Split(s, [c]) == [""] + rest;
      } else {
        SplitCharStep(s, c);
      }
    }
  }

  /** The first character is kept: it joins the first piece of the rest. */
  lemma SplitCharStep(s: string, c: char)
    requires |s| > 0 && s[0] != c
    ensures Split(s, [c]) == [[s[0]] + Split(s[1..], [c])[0]] + Split(s[1..], [c])[1..]
    ensures Flatten(Split(s, [c])) == [s[0]] + Flatten(Split(s[1..], [c]))
  {
    var rest := Split(s[1..], [c]);
    assert !StartsWith(s, [c]);
    FlattenPrependFirst([s[0]], rest);
  }

  function TrimLeft(s: string): (r: string)
    ensures r == "" || NotSpace(r[0])
    ensures Filter(NotSpace, r) == Filter(NotSpace, s)
    decreases |s|
  {
    if |s| > 0 && IsSpace(s[0]) then TrimLeft(s[1..]) else s
  }

  function TrimRight(s: string): (r: string)
    ensures r == "" || NotSpace(r[|r| - 1])
    ensures |r| <= |s| && r == s[..|r|]
    ensures Filter(NotSpace, r) == Filter(NotSpace, s)
    decreases |s|
  {
    if |s| > 0 && IsSpace(s[|s| - 1]) then
      var r := TrimRight(s[..|s| - 1]);
      TrailingSpaceInvisible(s);
      TakeOfTake(s, |s| - 1, |r|);
      r
    else s
  }

  lemma TakeOfTake(s: string, n: nat, m: nat)
    requires m <= n <= |s|
    ensures s[..n][..m] == s[..m]
  {
  }

  /** A trailing whitespace character is not seen by the non-space view. */
  lemma TrailingSpaceInvisible(s: string)
    requires |s| > 0 && IsSpace(s[|s| - 1])
    ensures Filter(NotSpace, s[..|s| - 1]) == Filter(NotSpace, s)
  {
    var init, c := s[..|s| - 1], s[|s| - 1];
    assert init + [c] == s;
    FilterAppend(NotSpace, init, [c]);
    FilterSingle(NotSpace, c);
    assert Filter(NotSpace, init) + [] == Filter(NotSpace, init);
  }

  /** `s.strip()`: only surrounding whitespace is removed, and none is left at
      either end. */
  function Strip(s: string): (r: string)
    ensures r == "" || IsStrippedWord(r)
    ensures Filter(NotSpace, r) == Filter(NotSpace, s)
  {
    StripEnds(s);
    TrimRight(TrimLeft(s))
  }

  /** Trimming the right end keeps the first character the left trim left. */
  lemma StripEnds(s: string)
    ensures TrimRight(TrimLeft(s)) == "" || IsStrippedWord(TrimRight(TrimLeft(s)))
  {
    var l := TrimLeft(s);
    var r := TrimRight(l);
    if r != "" {
      assert r[0] == l[0];
    }
  }

  /** A word as `strip()` leaves it: not empty, no whitespace at either end. */
  predicate IsStrippedWord(w: string) {
    w != "" && NotSpace(w[0]) && NotSpace(w[|w| - 1])
  }

  /** `[x.strip() for x in xs if x.strip()]`: the stripped items that are not
      blank, in order. */
  function StrippedWords(xs: seq<string>): (r: seq<string>)
    ensures |r| <= |xs|
    decreases |xs|
  {
    if |xs| == 0 then [] else KeptStripped(xs[0]) + StrippedWords(xs[1..])
  }

  /** One item's contribution: its stripped text unless that is blank. */
  function KeptStripped(x: string): (r: seq<string>)
    ensures |r| <= 1
    ensures forall k :: 0 <= k < |r| ==> IsStrippedWord(r[k])
  {
    var s := StrippedText(x);
    if s == "" then [] else [s]
  }

  /** `x.strip()`, seen only through the shape of its ends. */
  function StrippedText(x: string): (r: string)
    ensures r == "" || IsStrippedWord(r)
  {
    Strip(x)
  }

  /** An item's contribution shows all of its visible characters. */
  lemma KeptStrippedContent(x: string)
    ensures Filter(NotSpace, Flatten(KeptStripped(x))) == Filter(NotSpace, x)
  {
    var s := Strip(x);
    assert StrippedText(x) == s;
    if s == "" {
      assert KeptStripped(x) == [];
      assert Filter(NotSpace, s) == [];
    } else {
      assert KeptStripped(x) == [s];
      assert Flatten([s]) == s + Flatten([s][1..]);
      assert Flatten([s][1..]) == [];
      assert s + [] == s;
    }
  }

  /** Every word is stripped and not blank. */
  lemma {:induction false} StrippedWordsAreWords(xs: seq<string>)
    ensures forall k :: 0 <= k < |StrippedWords(xs)| ==> IsStrippedWord(StrippedWords(xs)[k])
    decreases |xs|
  {
    if |xs| > 0 {
      StrippedWordsAreWords(xs[1..]);
      AllAppend(IsStrippedWord, KeptStripped(xs[0]), StrippedWords(xs[1..]));
    }
  }

  /** Stripping and dropping blank items loses no visible character. */
  lemma {:induction false} StrippedWordsContent(xs: seq<string>)
    ensures Filter(NotSpace, Flatten(StrippedWords(xs))) == Filter(NotSpace, Flatten(xs))
    decreases |xs|
  {
    if |xs| > 0 {
      var h := KeptStripped(xs[0]);
      var t := StrippedWords(xs[1..]);
      StrippedWordsContent(xs[1..]);
      KeptStrippedContent(xs[0]);
      FlattenAppend(h, t);
      FilterAppend(NotSpace, Flatten(h), Flatten(t));
      FilterAppend(NotSpace, xs[0], Flatten(xs[1..]));
    }
  }

  /** Spaces put between words are invisible to the non-space view. */
  lemma {:induction false} JoinSpaceInvisible(ws: seq<string>)
    ensures Filter(NotSpace, Join(" ", ws)) == Filter(NotSpace, Flatten(ws))
    decreases |ws|
  {
    if |ws| == 1 {
      assert Flatten(ws) == ws[0] + Flatten(ws[1..]);
      assert Flatten(ws[1..]) == [];
      assert ws[0] + [] == ws[0];
    } else if |ws| > 1 {
      JoinSpaceInvisible(ws[1..]);
      SpaceInvisible(ws[0], Join(" ", ws[1..]));
      assert Flatten(ws) == ws[0] + Flatten(ws[1..]);
      FilterAppend(NotSpace, ws[0], Flatten(ws[1..]));
    }
  }

  /** A space between two texts is invisible to the non-space view. */
  lemma SpaceInvisible(a: string, b: string)
    ensures Filter(NotSpace, a + " " + b) == Filter(NotSpace, a) + Filter(NotSpace, b)
  {
    var t := [' '] + b;
    assert a + " " + b == a + t;
    FilterAppend(NotSpace, a, t);
    FilterAppend(NotSpace, [' '], b);
    FilterSingle(NotSpace, ' ');
  }
}
