/** is_cplusplus_func and match_cplusplus_func_name of binja/utils/utils.py:
    recognising a demangled C++ signature and cutting it down to the bare
    method name. */
module Demangle {
  import opened Collections
  import opened Text

  /** A demangled C++ signature carries an argument list. */
  predicate IsCplusplusFunc(name: string) {
    '(' in name && ')' in name
  }

  /** What match_cplusplus_func_name yields: a name (possibly empty), the
      IndexError raised by indexing an empty string, or no result at all
      because one of its bracket loops never ends. */
  datatype Demangled = Name(text: string) | IndexError | NoTermination

  /** How the first loop, which drops characters from the end, stops: at a
      closing parenthesis (keeping the prefix through it), at a colon (the
      function gives up with an empty name), or by running out of text. */
  datatype Trimmed = Kept(prefix: string) | ColonFirst | Exhausted

  /** No `)` or `:` at position `n` or later. */
  predicate NoStopAfter(m: string, n: nat) {
    forall k :: n <= k < |m| ==> m[k] != ')' && m[k] != ':'
  }

  /** How the trimming loop may end on `m`: the properties TrimToParen
      promises. */
  predicate TrimsTo(m: string, r: Trimmed) {
    (r.Kept? ==> 0 < |r.prefix| && StartsWith(m, r.prefix)
                 && r.prefix[|r.prefix| - 1] == ')' && NoStopAfter(m, |r.prefix|))
    && (r.ColonFirst? ==> exists n :: 0 < n <= |m| && m[n - 1] == ':' && NoStopAfter(m, n))
    && (r.Exhausted? <==> ')' !in m && ':' !in m)
  }

  function TrimToParen(m: string): (r: Trimmed)
    ensures r.Kept? ==> 0 < |r.prefix| && StartsWith(m, r.prefix)
                        && r.prefix[|r.prefix| - 1] == ')' && NoStopAfter(m, |r.prefix|)
    ensures r.ColonFirst? ==> exists n :: 0 < n <= |m| && m[n - 1] == ':' && NoStopAfter(m, n)
    ensures r.Exhausted? <==> ')' !in m && ':' !in m
    decreases |m|
  {
    if |m| == 0 then Exhausted
    else if m[|m| - 1] == ')' then
      assert m[..|m|] == m;
      Kept(m)
    else if m[|m| - 1] != ':' then
      var r := TrimToParen(m[..|m| - 1]);
      TrimSkips(m, r);
      r
    else
      assert NoStopAfter(m, |m|);
      ColonFirst
  }

  /** Dropping a last character that is neither `)` nor `:` keeps every
      outcome of the loop valid. */
  lemma TrimSkips(m: string, r: Trimmed)
    requires |m| > 0 && m[|m| - 1] != ')' && m[|m| - 1] != ':'
    requires TrimsTo(m[..|m| - 1], r)
    ensures TrimsTo(m, r)
  {
    var init := m[..|m| - 1];
    assert forall k :: 0 <= k < |init| ==> init[k] == m[k];
    assert m == init + [m[|m| - 1]];
    match r
    case Kept(p) =>
      assert m[..|p|] == init[..|p|];
    case ColonFirst =>
      var n :| 0 < n <= |init| && init[n - 1] == ':' && NoStopAfter(init, n);
      assert m[n - 1] == ':' && NoStopAfter(m, n);
    case Exhausted =>
  }

  /** The first `o` or `c` at or after position `i`, or `|s|` when there is none. */
  function NextMark(s: string, i: nat, o: char, c: char): (j: nat)
    requires i <= |s|
    ensures i <= j <= |s|
    ensures forall k :: i <= k < j ==> s[k] != o && s[k] != c
    ensures j < |s| ==> s[j] == o || s[j] == c
    decreases |s| - i
  {
    if i == |s| || s[i] == o || s[i] == c then i else NextMark(s, i + 1, o, c)
  }

  /** `s[i..j + 1]` matches the pattern `o[^oc]*c`. */
  predicate GroupAt(s: string, i: int, j: int, o: char, c: char) {
    0 <= i < j < |s| && s[i] == o && s[j] == c
    && forall k :: i < k < j ==> s[k] != o && s[k] != c
  }

  /** A match of `o[^oc]*c` on its own. */
  predicate IsGroup(g: string, o: char, c: char) {
    GroupAt(g, 0, |g| - 1, o, c)
  }

  lemma SliceContained(s: string, i: nat, j: nat)
    requires i <= j <= |s|
    ensures Contains(s, s[i..j])
  {
    assert s[i..][..j - i] == s[i..j];
    assert Contains(s[i..], s[i..j]);
    ContainsInSuffix(s, i, s[i..j]);
  }

  /** `re.findall` with the pattern `o[^oc]*c`, scanning from position `i`: a
      match starts at an `o` whose next mark is a `c`, and the scan resumes
      after the match. */
  function FindGroupsFrom(s: string, i: nat, o: char, c: char): (r: seq<string>)
    requires i <= |s|
    ensures forall k :: 0 <= k < |r| ==> IsGroup(r[k], o, c) && Contains(s, r[k])
    decreases |s| - i
  {
    if i == |s| then []
    else if s[i] == o then
      var j := NextMark(s, i + 1, o, c);
      if j < |s| && s[j] == c then
        SliceContained(s, i, j + 1);
        assert GroupAt(s[i..j + 1], 0, j - i, o, c);
        [s[i..j + 1]] + FindGroupsFrom(s, j + 1, o, c)
      else
        FindGroupsFrom(s, i + 1, o, c)
    else
      FindGroupsFrom(s, i + 1, o, c)
  }

  /** `re.findall` over the whole text: every match it returns is a match of
      the pattern in `s`, and, for distinct marks, every match in `s` is
      returned. */
  function FindGroups(s: string, o: char, c: char): (r: seq<string>)
    ensures forall k :: 0 <= k < |r| ==> IsGroup(r[k], o, c) && Contains(s, r[k])
    ensures o != c ==> forall a, b :: GroupAt(s, a, b, o, c) ==> s[a..b + 1] in r
  {
    var r := FindGroupsFrom(s, 0, o, c);
    assert o != c ==> forall a, b :: GroupAt(s, a, b, o, c) ==> s[a..b + 1] in r by {
      if o != c {
        forall a, b | GroupAt(s, a, b, o, c)
          ensures s[a..b + 1] in r
        {
          FindGroupsFromComplete(s, 0, o, c, a, b);
        }
      }
    }
    r
  }

  /** The scan from `i` finds every match that starts at or after `i`: a match
      found earlier ends before the next `o`, so the scan never steps over one.
      With `o == c` this fails: on `ooo` the scan takes `oo` and misses the
      match at position 1. */
  lemma {:induction false} FindGroupsFromComplete(s: string, i: nat, o: char, c: char, a: int, b: int)
    requires i <= a && o != c && GroupAt(s, a, b, o, c)
    ensures s[a..b + 1] in FindGroupsFrom(s, i, o, c)
    decreases |s| - i
  {
    var j := NextMark(s, i + 1, o, c);
    if i == a {
      assert j == b;
    } else if s[i] == o && j < |s| && s[j] == c {
      assert j < a;
      FindGroupsFromComplete(s, j + 1, o, c, a, b);
    } else {
      FindGroupsFromComplete(s, i + 1, o, c, a, b);
    }
  }

  /** Positions without an `o` contribute nothing to the scan. */
  lemma {:induction false} FindGroupsSkip(s: string, i: nat, k: nat, o: char, c: char)
    requires i <= k <= |s|
    requires forall m :: i <= m < k ==> s[m] != o
    ensures FindGroupsFrom(s, i, o, c) == FindGroupsFrom(s, k, o, c)
    decreases k - i
  {
    if i < k {
      FindGroupsSkip(s, i + 1, k, o, c);
    }
  }

  /** The scan finds nothing exactly when no match of the pattern starts at
      or after `i`. */
  lemma {:induction false} FindGroupsFromEmpty(s: string, i: nat, o: char, c: char)
    requires i <= |s|
    ensures FindGroupsFrom(s, i, o, c) == [] <==> !exists a, b :: i <= a && GroupAt(s, a, b, o, c)
    decreases |s| - i
  {
    if i < |s| {
      var j := NextMark(s, i + 1, o, c);
      if s[i] == o && j < |s| && s[j] == c {
        assert GroupAt(s, i, j, o, c);
      } else {
        FindGroupsFromEmpty(s, i + 1, o, c);
        assert !exists b :: GroupAt(s, i, b, o, c);
      }
    }
  }

  lemma FindGroupsEmpty(s: string, o: char, c: char)
    ensures FindGroups(s, o, c) == [] <==> !exists a, b :: GroupAt(s, a, b, o, c)
  {
    FindGroupsFromEmpty(s, 0, o, c);
  }

  /** `for t in groups: s = s.replace(t, '')` */
  function DeleteAll(s: string, groups: seq<string>): (r: string)
    requires forall k :: 0 <= k < |groups| ==> |groups[k]| > 0
    ensures |r| <= |s|
    ensures |groups| > 0 && Contains(s, groups[0]) ==> |r| < |s|
    ensures CharsFrom(r, s)
    ensures (forall k :: 0 <= k < |groups| ==> !Contains(s, groups[k])) ==> r == s
    decreases |groups|
  {
    if |groups| == 0 then s
    else
      assert !Contains(s, groups[0]) ==> ReplaceAll(s, groups[0], "") == s by {
        if !Contains(s, groups[0]) { ReplaceAbsent(s, groups[0], ""); }
      }
      ReplaceShrinks(s, groups[0], "");
      DeleteKeepsChars(s, groups[0]);
      var r := DeleteAll(ReplaceAll(s, groups[0], ""), groups[1..]);
      CharsFromTrans(r, ReplaceAll(s, groups[0], ""), s);
      r
  }

  /** One pass of a bracket loop: delete every match found in `s`. A pass
      that finds nothing leaves the text as it was, so the loop, whose
      condition then still holds, repeats it forever; a pass that finds a
      match shortens the text. */
  function DeletePass(s: string, o: char, c: char): (r: string)
    ensures FindGroups(s, o, c) == [] ==> r == s
    ensures FindGroups(s, o, c) != [] ==> |r| < |s|
    ensures CharsFrom(r, s)
  {
    var groups := FindGroups(s, o, c);
    assert forall k :: 0 <= k < |groups| ==> IsGroup(groups[k], o, c);
    DeleteAll(s, groups)
  }

  /** `while o in s and c in s: <delete every match>`: the text once one of
      the two marks is gone, or `None` when the loop does not terminate. */
  function StripGroups(s: string, o: char, c: char): (r: Option<string>)
    ensures r.Some? ==> !(o in r.value && c in r.value) && |r.value| <= |s|
    ensures !(o in s && c in s) ==> r == Some(s)
    ensures o in s && c in s && FindGroups(s, o, c) == [] ==> r == None
    ensures r.Some? ==> CharsFrom(r.value, s)
    decreases |s|
  {
    if o in s && c in s then
      if FindGroups(s, o, c) == [] then None
      else
        var d := DeletePass(s, o, c);
        var r := StripGroups(d, o, c);
        assert r.Some? ==> CharsFrom(r.value, s) by {
          if r.Some? { CharsFromTrans(r.value, d, s); }
        }
        r
    else
      Some(s)
  }

  /** The four bracket loops in turn: template arguments, argument lists,
      bracketed comments and back-quoted names. */
  function StripBrackets(m: string): (r: Option<string>)
    ensures r.Some? ==> !('`' in r.value && '\'' in r.value)
    ensures r.Some? ==> CharsFrom(r.value, m)
    ensures (!('<' in m && '>' in m) && !('(' in m && ')' in m) && !('[' in m && ']' in m)
             && !('`' in m && '\'' in m)) ==> r == Some(m)
  {
    match StripGroups(m, '<', '>')
    case None => None
    case Some(m1) =>
      match StripGroups(m1, '(', ')')
      case None => None
      case Some(m2) =>
        CharsFromTrans(m2, m1, m);
        match StripGroups(m2, '[', ']')
        case None => None
        case Some(m3) =>
          CharsFromTrans(m3, m2, m);
          var r := StripGroups(m3, '`', '\'');
          assert r.Some? ==> CharsFrom(r.value, m) by {
            if r.Some? { CharsFromTrans(r.value, m3, m); }
          }
          r
  }

  /** `NextMark` stops at the first mark. */
  lemma {:induction false} NextMarkAt(s: string, i: nat, e: nat, o: char, c: char)
    requires i <= e < |s| && (s[e] == o || s[e] == c)
    requires forall k :: i <= k < e ==> s[k] != o && s[k] != c
    ensures NextMark(s, i, o, c) == e
    decreases e - i
  {
    if i < e {
      NextMarkAt(s, i + 1, e, o, c);
    }
  }

  /** At the start of a match the scan takes that match and resumes after it. */
  lemma GroupStep(s: string, a: nat, b: nat, o: char, c: char)
    requires GroupAt(s, a, b, o, c)
    ensures FindGroupsFrom(s, a, o, c) == [s[a..b + 1]] + FindGroupsFrom(s, b + 1, o, c)
  {
    NextMarkAt(s, a + 1, b, o, c);
  }

  /** A text holding one match between two stretches without `o` yields
      exactly that match. */
  lemma FindGroupsOne(x: string, g: string, y: string, o: char, c: char)
    requires IsGroup(g, o, c) && o !in x && o !in y
    ensures FindGroups(x + g + y, o, c) == [g]
  {
    var s := x + g + y;
    var n, e := |x|, |x| + |g| - 1;
    assert forall m :: 0 <= m < n ==> s[m] == x[m];
    assert forall m :: e < m < |s| ==> s[m] == y[m - e - 1];
    FindGroupsSkip(s, 0, n, o, c);
    assert GroupAt(s, n, e, o, c) by {
      assert forall m :: n <= m <= e ==> s[m] == g[m - n];
    }
    GroupStep(s, n, e, o, c);
    assert s[n..e + 1] == g;
    FindGroupsSkip(s, e + 1, |s|, o, c);
  }

  /** Deleting that one match leaves the two stretches joined. */
  lemma DeletePassOne(x: string, g: string, y: string, o: char, c: char)
    requires IsGroup(g, o, c) && o !in x && o !in y
    ensures DeletePass(x + g + y, o, c) == x + y
  {
    var s := x + g + y;
    calc {
      DeletePass(s, o, c);
    == { FindGroupsOne(x, g, y, o, c); }
      DeleteAll(s, [g]);
    ==
      DeleteAll(ReplaceAll(s, g, ""), []);
    == { ReplaceOnce(x, g, y); }
      x + y;
    }
  }

  /** A bracket loop over a text with one match, and no other `o`, removes
      that match and stops. */
  lemma StripGroupsOne(x: string, g: string, y: string, o: char, c: char)
    requires IsGroup(g, o, c) && o !in x && o !in y
    ensures StripGroups(x + g + y, o, c) == Some(x + y)
  {
    var s := x + g + y;
    assert s[|x|] == o && s[|x| + |g| - 1] == c;
    FindGroupsOne(x, g, y, o, c);
    DeletePassOne(x, g, y, o, c);
    assert o !in x + y;
  }

  /** One template argument list in a text with no other `<` and no opening
      mark of the other three kinds is cut out, and the rest is kept as is. */
  lemma StripBracketsTemplate(x: string, g: string, y: string)
    requires IsGroup(g, '<', '>') && '<' !in x && '<' !in y
    requires '(' !in x + y && '[' !in x + y && '`' !in x + y
    ensures StripBrackets(x + g + y) == Some(x + y)
  {
    StripGroupsOne(x, g, y, '<', '>');
  }

  /** `s.split(' ')[0]`: the text before the first space. */
  function FirstWord(s: string): (r: string)
    ensures ' ' !in r && StartsWith(s, r) && Contains(s, r)
    ensures r == s || (|r| < |s| && s[|r|] == ' ')
  {
    var r := Split(s, " ")[0];
    SplitFirstStop(s, " ");
    SplitPiecesAvoidSep(s, " ");
    ContainsChar(r, ' ');
    SplitPiecesContained(s, " ");
    r
  }

  /** `s.split(' ')[-1]`: the text after the last space. */
  function LastWord(s: string): (r: string)
    ensures ' ' !in r && EndsWith(s, r) && Contains(s, r)
    ensures r == s || (|r| < |s| && s[|s| - |r| - 1] == ' ')
    ensures !Contains(s, "::") ==> !Contains(r, "::")
  {
    var parts := Split(s, " ");
    var r := parts[|parts| - 1];
    SplitPiecesAvoidSep(s, " ");
    ContainsChar(r, ' ');
    assert !Contains(s, "::") ==> !Contains(r, "::") by {
      if !Contains(s, "::") { SplitPiecesInherit(s, " ", "::"); }
    }
    SplitPiecesContained(s, " ");
    SplitLastStart(s, " ");
    assert |parts| > 1 ==> s[|s| - |r| - 1] == ' ' by {
      if |parts| > 1 { EndsWithChar(s[..|s| - |r|], ' '); }
    }
    r
  }

  /** After the last `::`, the text before the first space; without `::`,
      the text after the last space. */
  function LastComponent(m: string): (r: string)
    ensures ' ' !in r && !Contains(r, "::")
    ensures Contains(m, r)
    ensures Contains(m, "::") ==>
              var last := Split(m, "::")[|Split(m, "::")| - 1];
              StartsWith(last, r) && (r == last || (|r| < |last| && last[|r|] == ' '))
    ensures !Contains(m, "::") ==> EndsWith(m, r) && (r == m || (|r| < |m| && m[|m| - |r| - 1] == ' '))
  {
    if Contains(m, "::") then
      var parts := Split(m, "::");
      var last := parts[|parts| - 1];
      SplitPiecesAvoidSep(m, "::");
      SplitPiecesContained(m, "::");
      if ' ' in last then
        var head := FirstWord(last);
        assert !Contains(head, "::") by {
          assert last[..|head|] == head;
          if Contains(head, "::") {
            ContainsInPrefix(last, |head|, "::");
          }
        }
        ContainsTransitive(m, last, head);
        head
      else
        assert last[..|last|] == last;
        last
    else
      LastWord(m)
  }

  lemma {:induction false} ContainsTransitive(s: string, t: string, u: string)
    requires Contains(s, t) && Contains(t, u)
    ensures Contains(s, u)
    decreases |s|
  {
    if StartsWith(s, t) {
      assert s[..|t|] == t;
      ContainsInPrefix(s, |t|, u);
    } else {
      ContainsTransitive(s[1..], t, u);
      ContainsInSuffix(s, 1, u);
    }
  }

  /** `while m[-1] == '*': m = m[:-1]` on a text with a letter, which the
      loop never reaches. */
  function TrimStars(m: string): (r: string)
    requires |Letters(m)| > 0
    ensures 0 < |r| && StartsWith(m, r) && r[|r| - 1] != '*'
    ensures Letters(r) == Letters(m)
    decreases |m|
  {
    if m[|m| - 1] == '*' then
      StarHasNoLetter(m);
      var r := TrimStars(m[..|m| - 1]);
      PrefixOfInit(m, r);
      r
    else
      assert m[..|m|] == m;
      m
  }

  /** A trailing star is not a letter. */
  lemma StarHasNoLetter(m: string)
    requires |m| > 0 && m[|m| - 1] == '*'
    ensures Letters(m[..|m| - 1]) == Letters(m)
  {
    var init := m[..|m| - 1];
    assert m == init + [m[|m| - 1]];
    FilterAppend(IsAlpha, init, [m[|m| - 1]]);
    FilterSingle(IsAlpha, m[|m| - 1]);
  }

  /** A prefix of `m` without its last character is a prefix of `m`. */
  lemma PrefixOfInit(m: string, r: string)
    requires |m| > 0 && StartsWith(m[..|m| - 1], r)
    ensures StartsWith(m, r)
  {
    assert m[..|r|] == m[..|m| - 1][..|r|];
  }

  /** `if t[0] == '~': t = t[1:]` on a text with a letter. */
  function DropTilde(t: string): (r: string)
    requires |Letters(t)| > 0
    ensures 0 < |r| && r[|r| - 1] == t[|t| - 1] && Letters(r) == Letters(t)
    ensures Contains(t, r) && forall k :: 0 <= k < |r| ==> r[k] in t
    ensures t[0] == '~' <==> r == t[1..]
  {
    if t[0] == '~' then
      assert t == [t[0]] + t[1..];
      FilterAppend(IsAlpha, [t[0]], t[1..]);
      FilterSingle(IsAlpha, t[0]);
      SliceContained(t, 1, |t|);
      t[1..]
    else
      SliceContained(t, 0, |t|);
      assert t[0..|t|] == t;
      t
  }

  /** What `Finish` leaves when it leaves anything: letters, and no space,
      no `::` and no trailing `*`. */
  predicate IsBareName(t: string) {
    0 < |t| && ' ' !in t && !Contains(t, "::") && t[|t| - 1] != '*' && |Letters(t)| > 0
  }

  /** The last three steps: give up on a text without letters, trim trailing
      stars, and drop one leading `~` (the destructor mark). */
  function Finish(m: string): (r: string)
    ensures r == "" <==> |Letters(LastComponent(m))| == 0
    ensures r != "" ==> IsBareName(r)
    ensures r != "" ==> Contains(LastComponent(m), r) && Letters(r) == Letters(LastComponent(m))
    ensures CharsFrom(r, m)
  {
    var comp := LastComponent(m);
    if |Letters(comp)| == 0 then ""
    else
      var t := TrimStars(comp);
      var r := DropTilde(t);
      assert forall k :: 0 <= k < |t| ==> t[k] == comp[k];
      assert !Contains(r, "::") by {
        if Contains(r, "::") {
          ContainsTransitive(t, r, "::");
          ContainsInPrefix(comp, |t|, "::");
        }
      }
      assert Contains(comp, r) by {
        assert comp[..|t|] == t;
        ContainsInPrefix(comp, |t|, r);
      }
      ContainsChars(comp, r);
      ContainsChars(m, comp);
      CharsFromTrans(r, comp, m);
      r
  }

  /** The steps after a prefix ending in `)` has been kept: strip the
      bracket groups, then `Finish` what is left. */
  function NameOfPrefix(m: string): (r: Demangled)
    ensures r != IndexError
    ensures r == NoTermination <==> StripBrackets(m).None?
    ensures StripBrackets(m).Some? ==>
              var comp := LastComponent(StripBrackets(m).value);
              && r.Name?
              && (r.text == "" <==> |Letters(comp)| == 0)
              && (r.text != "" ==> Contains(comp, r.text) && Letters(r.text) == Letters(comp))
    ensures r.Name? && r.text != "" ==> IsBareName(r.text)
    ensures r.Name? ==> CharsFrom(r.text, m)
  {
    match StripBrackets(m)
    case None => NoTermination
    case Some(stripped) =>
      var name := Finish(stripped);
      CharsFromTrans(name, stripped, m);
      Name(name)
  }

  /** match_cplusplus_func_name */
  function MatchCplusplusFuncName(fullName: string): (r: Demangled)
    ensures r == IndexError <==> ')' !in fullName && ':' !in fullName
    ensures IsCplusplusFunc(fullName) ==> r != IndexError
    ensures r == NoTermination ==> ')' in fullName
    ensures r.Name? && r.text != "" ==> IsBareName(r.text)
    ensures TrimToParen(fullName).ColonFirst? ==> r == Name("")
    ensures TrimToParen(fullName).Kept? ==> r == NameOfPrefix(TrimToParen(fullName).prefix)
    ensures r.Name? ==> CharsFrom(r.text, fullName)
  {
    match TrimToParen(fullName)
    case Exhausted => IndexError
    case ColonFirst => Name("")
    case Kept(m) =>
      var r := NameOfPrefix(m);
      assert r == NoTermination ==> ')' in fullName by {
        assert m[|m| - 1] in fullName;
      }
      assert CharsFrom(m, fullName) by {
        assert forall k :: 0 <= k < |m| ==> m[k] == fullName[k];
      }
      if r.Name? then CharsFromTrans(r.text, m, fullName); r
      else r
  }
}

module DemangleExample {
  import opened Collections
  import opened Text
  import opened Demangle

  lemma ExampleTrim(n: string)
    requires n == "A::f(int)"
    ensures TrimToParen(n) == Kept(n)
  {
    assert n[|n| - 1] == ')';
  }

  lemma ExampleFind(n: string)
    requires n == "A::f(int)"
    ensures FindGroups(n, '(', ')') == ["(int)"]
  {
    assert n[4] == '(' && n[8] == ')' && |n| == 9;
    assert NextMark(n, 8, '(', ')') == 8;
    assert NextMark(n, 7, '(', ')') == 8;
    assert NextMark(n, 6, '(', ')') == 8;
    assert NextMark(n, 5, '(', ')') == 8;
    assert n[4..9] == "(int)";
    assert FindGroupsFrom(n, 4, '(', ')') == ["(int)"];
    assert FindGroupsFrom(n, 3, '(', ')') == ["(int)"];
    assert FindGroupsFrom(n, 2, '(', ')') == ["(int)"];
    assert FindGroupsFrom(n, 1, '(', ')') == ["(int)"];
  }

  /** Deleting a pattern that follows a text free of its first character
      leaves that text. */
  lemma {:induction false} ReplaceTrailing(x: string, pat: string)
    requires |pat| > 0 && pat[0] !in x
    ensures ReplaceAll(x + pat, pat, "") == x
    decreases |x|
  {
    if |x| == 0 {
      assert x + pat == pat && pat[|pat|..] == "";
    } else {
      assert (x + pat)[1..] == x[1..] + pat;
      ReplaceTrailing(x[1..], pat);
    }
  }

  lemma ExampleDelete(n: string)
    requires n == "A::f(int)"
    ensures DeletePass(n, '(', ')') == "A::f"
  {
    ExampleFind(n);
    assert n == "A::f" + "(int)";
    ReplaceTrailing("A::f", "(int)");
    var groups := FindGroups(n, '(', ')');
    assert groups[1..] == [];
    assert DeleteAll(n, groups) == DeleteAll("A::f", []);
  }

  /** Two texts free of the separator's first character, joined by it. */
  lemma SplitTwo(x: string, sep: string, y: string)
    requires |sep| > 0 && sep[0] !in x && sep[0] !in y
    ensures Split(x + sep + y, sep) == [x, y]
  {
    SplitAfter(x, sep, y);
    SplitUnbroken(y, sep);
  }

  lemma ExampleLast(m: string)
    requires m == "A::f"
    ensures LastComponent(m) == "f"
  {
    assert m == "A" + "::" + "f";
    SplitTwo("A", "::", "f");
    SliceContained(m, 1, 3);
    assert m[1..3] == "::";
  }

  lemma ExampleArgs(n: string)
    requires n == "A::f(int)"
    ensures StripGroups(n, '(', ')') == Some("A::f")
  {
    ExampleFind(n);
    ExampleDelete(n);
    assert '(' in n && ')' in n;
    assert '(' !in "A::f";
  }

  lemma ExampleStrip(n: string)
    requires n == "A::f(int)"
    ensures StripBrackets(n) == Some("A::f")
  {
    ExampleArgs(n);
    assert '<' !in n && '[' !in "A::f" && '`' !in "A::f";
  }

  lemma ExampleFinish(m: string)
    requires m == "A::f"
    ensures Finish(m) == "f"
  {
    ExampleLast(m);
    FilterSingle(IsAlpha, 'f');
    assert Letters("f") == "f";
  }

  /** A member function with one argument comes out as its bare name. */
  lemma Example(n: string)
    requires n == "A::f(int)"
    ensures MatchCplusplusFuncName(n) == Name("f")
  {
    ExampleTrim(n);
    ExampleStrip(n);
    ExampleFinish("A::f");
  }

  lemma HangTemplates(n: string)
    requires n == "x>y<z()"
    ensures StripGroups(n, '<', '>') == None
  {
    FindGroupsEmpty(n, '<', '>');
    assert forall k :: 0 <= k < |n| && n[k] == '<' ==> k == 3;
    assert n[3] == '<' && n[1] == '>';
  }

  /** A closing angle bracket before the only opening one: the template loop
      finds nothing to delete and never ends. */
  lemma ExampleHang(n: string)
    requires n == "x>y<z()"
    ensures MatchCplusplusFuncName(n) == NoTermination
  {
    assert n[|n| - 1] == ')';
    assert TrimToParen(n) == Kept(n);
    HangTemplates(n);
  }
}
