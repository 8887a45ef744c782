/** The small helpers of binja/utils/utils.py: the function-name filter, list
    filtering, and the two's-complement reading of an unsigned constant. */
module Utils {
  import opened Collections
  import opened Text
  import opened Numerals

  /** The prefixes of generated or mangled names that is_required_func rejects. */
  function UnwantedPrefixes(): seq<string> {
    ["sub_", "_ZN", "_["]
  }

  /** is_required_func: a name is wanted unless it starts with one of the
      unwanted prefixes. */
  function IsRequiredFunc(name: string): (r: bool)
    ensures !r <==> exists k :: 0 <= k < |UnwantedPrefixes()| && StartsWith(name, UnwantedPrefixes()[k])
  {
    var prefixes := UnwantedPrefixes();
    assert prefixes[0] == "sub_" && prefixes[1] == "_ZN" && prefixes[2] == "_[";
    !(StartsWith(name, "sub_") || StartsWith(name, "_ZN") || StartsWith(name, "_["))
  }

  /** A name the disassembler made up for an unnamed function is never wanted. */
  lemma GeneratedNamesRejected(hex: string)
    ensures !IsRequiredFunc("sub_" + hex)
  {
    assert ("sub_" + hex)[..4] == "sub_";
  }

  function NotIn<T(==)>(items: seq<T>): T -> bool {
    x => x !in items
  }

  /** remove_items_from_list: the elements of `l` that are not in `items`, in
      their order. */
  function RemoveItemsFromList<T(==)>(items: seq<T>, l: seq<T>): (r: seq<T>)
    ensures |r| <= |l|
    ensures forall i :: 0 <= i < |r| ==> r[i] !in items && r[i] in l
    ensures forall i :: 0 <= i < |l| && l[i] !in items ==> l[i] in r
  {
    Filter(NotIn(items), l)
  }

  /** Removing items that do not occur leaves the list as it was; removing
      twice is removing once. */
  lemma RemoveItemsFromListFacts<T>(items: seq<T>, l: seq<T>)
    ensures (forall i :: 0 <= i < |l| ==> l[i] !in items) ==> RemoveItemsFromList(items, l) == l
    ensures RemoveItemsFromList(items, RemoveItemsFromList(items, l)) == RemoveItemsFromList(items, l)
  {
    if forall i :: 0 <= i < |l| ==> l[i] !in items {
      FilterKeepsAll(NotIn(items), l);
    }
    var r := RemoveItemsFromList(items, l);
    FilterKeepsAll(NotIn(items), r);
  }

  function Pow2(n: nat): (r: nat)
    ensures r >= 1
  {
    if n == 0 then 1 else 2 * Pow2(n - 1)
  }

  /** The number unsigned2signed prints: above the largest positive value of
      the width, the number is read as a negative two's-complement value. */
  function SignedValue(number: int, width: nat): (v: int)
    requires width >= 1
    ensures number <= Pow2(width - 1) - 1 ==> v == number
    ensures number > Pow2(width - 1) - 1 ==> v == number - Pow2(width)
    ensures 0 <= number < Pow2(width) ==> -(Pow2(width - 1) as int) <= v < Pow2(width - 1)
    ensures (number - v) % Pow2(width) == 0
  {
    var half := Pow2(width - 1);
    assert Pow2(width) == 2 * half;
    if number > half - 1 then
      var v: int := 0 - (Pow2(width) as int - number);
      assert number - v == Pow2(width);
      ModSelf(Pow2(width));
      v
    else
      ModSelf(Pow2(width));
      number
  }

  lemma ModSelf(p: int)
    requires p >= 1
    ensures p % p == 0 && 0 % p == 0
  {
  }

  /** unsigned2signed: the signed value written as Python's `hex` writes it. */
  function Unsigned2Signed(number: int, width: nat): (r: string)
    requires width >= 1
    ensures ParseHex(r) == SignedValue(number, width)
    ensures SignedValue(number, width) < 0 <==> |r| > 0 && r[0] == '-'
  {
    HexRoundTrip(SignedValue(number, width));
    Hex(SignedValue(number, width))
  }

  /** Two's complement at width 8: 255 prints as -1 and 127 as itself. */
  lemma Unsigned2SignedByte()
    ensures SignedValue(255, 8) == -1
    ensures SignedValue(127, 8) == 127
    ensures SignedValue(128, 8) == -128
  {
    assert Pow2(8) == 256 && Pow2(7) == 128;
  }
}
