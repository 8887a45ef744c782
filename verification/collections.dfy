/** Generic sequence and map helpers shared by the whole model: Python's
    `filter`, list flattening, and a dict built by successive assignments. */
module Collections {

  /** A value, or none: the outcome of a step that can fail to produce one. */
  datatype Option<T> = None | Some(value: T)

  /** The elements of `s` that satisfy `p`, in their original order. */
  function Filter<T>(p: T -> bool, s: seq<T>): (r: seq<T>)
    ensures |r| <= |s|
    ensures forall i :: 0 <= i < |r| ==> r[i] in s && p(r[i])
    ensures forall i :: 0 <= i < |s| && p(s[i]) ==> s[i] in r
    decreases |s|
  {
    if |s| == 0 then []
    else (if p(s[0]) then [s[0]] else []) + Filter(p, s[1..])
  }

  lemma {:induction false} FilterAppend<T>(p: T -> bool, a: seq<T>, b: seq<T>)
    ensures Filter(p, a + b) == Filter(p, a) + Filter(p, b)
    decreases |a|
  {
    if |a| == 0 {
      assert a + b == b;
    } else {
      assert (a + b)[0] == a[0];
      assert (a + b)[1..] == a[1..] + b;
      FilterAppend(p, a[1..], b);
    }
  }

  /** A property of every element of two sequences holds of every element
      of their concatenation. */
  lemma AllAppend<T>(p: T -> bool, a: seq<T>, b: seq<T>)
    requires forall i :: 0 <= i < |a| ==> p(a[i])
    requires forall i :: 0 <= i < |b| ==> p(b[i])
    ensures forall i :: 0 <= i < |a + b| ==> p((a + b)[i])
  {
    assert forall i :: |a| <= i < |a + b| ==> (a + b)[i] == b[i - |a|];
  }

  /** A sequence made of a head and two parts is its head-and-first-part
      followed by the second part. */
  lemma AppendRegroup<T>(whole: seq<T>, front: seq<T>, h: seq<T>, x: seq<T>, y: seq<T>)
    requires whole == h + (x + y) && front == h + x
    ensures whole == front + y
  {
  }

  lemma TailOfAppend<T>(a: seq<T>, b: seq<T>)
    requires |a| >= 1
    ensures (a + b)[1..] == a[1..] + b
  {
  }

  lemma FilterSingle<T>(p: T -> bool, x: T)
    ensures Filter(p, [x]) == if p(x) then [x] else []
  {
    assert [x][1..] == [];
  }

  /** Every element that passes is kept, and nothing else appears. */
  lemma FilterMember<T>(p: T -> bool, s: seq<T>, x: T)
    ensures x in Filter(p, s) <==> x in s && p(x)
  {
    if x in s && p(x) {
      var i :| 0 <= i < |s| && s[i] == x;
    }
  }

  /** Two filters can be applied in either order. */
  lemma {:induction false} FilterCommute<T>(p: T -> bool, q: T -> bool, s: seq<T>)
    ensures Filter(p, Filter(q, s)) == Filter(q, Filter(p, s))
    decreases |s|
  {
    if |s| > 0 {
      var h := [s[0]];
      FilterCommute(p, q, s[1..]);
      FilterSingle(p, s[0]);
      FilterSingle(q, s[0]);
      FilterAppend(p, Filter(q, h), Filter(q, s[1..]));
      FilterAppend(q, Filter(p, h), Filter(p, s[1..]));
      assert Filter(p, []) == [] && Filter(q, []) == [];
    }
  }

  /** Filtering keeps a sequence whose every element already passes. */
  lemma {:induction false} FilterKeepsAll<T>(p: T -> bool, s: seq<T>)
    requires forall i :: 0 <= i < |s| ==> p(s[i])
    ensures Filter(p, s) == s
    decreases |s|
  {
    if |s| > 0 {
      FilterKeepsAll(p, s[1..]);
    }
  }

  /** The concatenation of a sequence of sequences (`"".join` on strings). */
  function Flatten<T>(xss: seq<seq<T>>): (r: seq<T>)
    ensures |xss| == 0 ==> r == []
    decreases |xss|
  {
    if |xss| == 0 then [] else xss[0] + Flatten(xss[1..])
  }

  lemma {:induction false} FlattenAppend<T>(a: seq<seq<T>>, b: seq<seq<T>>)
    ensures Flatten(a + b) == Flatten(a) + Flatten(b)
    decreases |a|
  {
    if |a| == 0 {
      assert a + b == b;
    } else {
      assert (a + b)[0] == a[0];
      assert (a + b)[1..] == a[1..] + b;
      FlattenAppend(a[1..], b);
    }
  }

  lemma FlattenCons<T>(x: seq<T>, xss: seq<seq<T>>)
    ensures Flatten([x] + xss) == x + Flatten(xss)
  {
    assert ([x] + xss)[1..] == xss;
  }

  /** Prepending to the first piece prepends to the concatenation. */
  lemma FlattenPrependFirst<T>(a: seq<T>, xss: seq<seq<T>>)
    requires |xss| >= 1
    ensures Flatten([a + xss[0]] + xss[1..]) == a + Flatten(xss)
  {
    FlattenCons(a + xss[0], xss[1..]);
  }

  lemma FlattenSnoc<T>(xss: seq<seq<T>>, x: seq<T>)
    ensures Flatten(xss + [x]) == Flatten(xss) + x
  {
    FlattenAppend(xss, [x]);
    assert [x][1..] == [];
  }

  /** The concatenation of a list, seen as its prefix and its last piece. */
  lemma FlattenLast<T>(xss: seq<seq<T>>)
    requires |xss| >= 1
    ensures Flatten(xss) == Flatten(xss[..|xss| - 1]) + xss[|xss| - 1]
  {
    var n := |xss|;
    assert xss == xss[..n - 1] + xss[n - 1..];
    FlattenAppend(xss[..n - 1], xss[n - 1..]);
    assert xss[n - 1..][1..] == [];
  }

  /** The concatenation of a list, seen as its prefix and its last two pieces. */
  lemma FlattenLastTwo<T>(xss: seq<seq<T>>)
    requires |xss| >= 2
    ensures Flatten(xss) == Flatten(xss[..|xss| - 2]) + (xss[|xss| - 2] + xss[|xss| - 1])
  {
    var n := |xss|;
    assert xss == xss[..n - 2] + xss[n - 2..];
    FlattenAppend(xss[..n - 2], xss[n - 2..]);
    assert xss[n - 2..][1..] == xss[n - 1..];
    assert xss[n - 1..][1..] == [];
  }

  predicate NonEmpty<T>(x: seq<T>) { |x| > 0 }

  /** Dropping empty pieces does not change the concatenation. */
  lemma {:induction false} FlattenDropEmpty<T>(xss: seq<seq<T>>)
    ensures Flatten(Filter(NonEmpty, xss)) == Flatten(xss)
    decreases |xss|
  {
    if |xss| > 0 {
      FlattenDropEmpty(xss[1..]);
      if NonEmpty(xss[0]) {
        assert Filter(NonEmpty, xss) == [xss[0]] + Filter(NonEmpty, xss[1..]);
        assert Flatten(Filter(NonEmpty, xss)) == xss[0] + Flatten(Filter(NonEmpty, xss[1..]));
      } else {
        assert Filter(NonEmpty, xss) == Filter(NonEmpty, xss[1..]);
        assert Flatten(xss) == xss[0] + Flatten(xss[1..]) == Flatten(xss[1..]);
      }
    }
  }

  /** A concatenation of non-empty pieces is empty only when there are none. */
  lemma FlattenEmptyPieces<T>(xss: seq<seq<T>>)
    requires forall i :: 0 <= i < |xss| ==> |xss[i]| > 0
    requires Flatten(xss) == []
    ensures xss == []
  {
  }

  /** Position `i` holds the last pair with its key. */
  predicate LastWithKey<K(==), V>(ps: seq<(K, V)>, i: int) {
    0 <= i < |ps| && forall j :: i < j < |ps| ==> ps[j].0 != ps[i].0
  }

  /** The dictionary obtained by assigning `d[k] = v` for every pair in turn,
      starting from `{}`. */
  function AssocToMap<K, V>(ps: seq<(K, V)>): map<K, V>
    decreases |ps|
  {
    if |ps| == 0 then map[] else AssocToMap(ps[..|ps| - 1])[ps[|ps| - 1].0 := ps[|ps| - 1].1]
  }

  /** Every key of a pair is present, and no other key is. */
  lemma {:induction false} AssocToMapKeys<K, V>(ps: seq<(K, V)>)
    ensures forall i :: 0 <= i < |ps| ==> ps[i].0 in AssocToMap(ps)
    ensures forall k :: k in AssocToMap(ps) ==> exists i :: 0 <= i < |ps| && ps[i].0 == k
    decreases |ps|
  {
    if |ps| > 0 {
      var n := |ps| - 1;
      AssocToMapKeys(ps[..n]);
      assert forall i :: 0 <= i < n ==> ps[..n][i] == ps[i];
    }
  }

  /** A key maps to the value of the last pair that has it: later assignments win. */
  lemma {:induction false} AssocToMapLastWins<K, V>(ps: seq<(K, V)>, i: int)
    requires LastWithKey(ps, i)
    ensures ps[i].0 in AssocToMap(ps) && AssocToMap(ps)[ps[i].0] == ps[i].1
    decreases |ps|
  {
    var n := |ps| - 1;
    if i < n {
      assert LastWithKey(ps[..n], i);
      AssocToMapLastWins(ps[..n], i);
    }
  }

  /** Every key of the map comes from a pair that is the last with its key. */
  lemma {:induction false} AssocToMapFromLast<K, V>(ps: seq<(K, V)>, k: K)
    requires k in AssocToMap(ps)
    ensures exists i :: LastWithKey(ps, i) && ps[i].0 == k
    decreases |ps|
  {
    var n := |ps| - 1;
    if ps[n].0 == k {
      assert LastWithKey(ps, n);
    } else {
      AssocToMapFromLast(ps[..n], k);
      var i :| LastWithKey(ps[..n], i) && ps[..n][i].0 == k;
      assert LastWithKey(ps, i);
    }
  }
}
